/** urljoin(SITE_BASE, href) as generate_feed.py calls it, following CPython 3.12's
    urllib.parse for three kinds of href: an empty href, an href with a scheme other than
    https and no network location, and a plain absolute path. Every other href (one with a
    network location after its scheme or in place of it, queries, fragments, parameters,
    dot segments, relative paths) goes to a resolver given as a parameter; that is also
    where urlsplit's ValueError for a malformed network location would arise. */
module Urls {
  import opened Wrappers
  import opened Text

  const SiteBase: string := "https://www.fda.gov"

  predicate IsAsciiLetter(c: char) {
    ('a' <= c <= 'z') || ('A' <= c <= 'Z')
  }

  /** The characters urllib.parse allows in a scheme. */
  predicate IsSchemeChar(c: char) {
    IsAsciiLetter(c) || IsDigit(c) || c == '+' || c == '-' || c == '.'
  }

  /** Tab, line feed and carriage return, which urlsplit deletes anywhere in a URL. */
  predicate IsUnsafe(c: char) {
    c == '\t' || c == '\n' || c == '\r'
  }

  /** url.lstrip of the C0 controls and the space, as urlsplit does first. */
  function LStripControls(s: string): (r: string)
    ensures |r| <= |s| && r == s[|s| - |r|..]
    ensures r == [] || r[0] > ' '
  {
    if s != [] && s[0] <= ' ' then LStripControls(s[1..]) else s
  }

  /** Deletes every tab, line feed and carriage return and keeps everything else in order. */
  function RemoveUnsafe(s: string): (r: string)
    ensures forall i :: 0 <= i < |r| ==> !IsUnsafe(r[i])
    ensures (forall i :: 0 <= i < |s| ==> !IsUnsafe(s[i])) ==> r == s
  {
    if s == [] then []
    else if IsUnsafe(s[0]) then RemoveUnsafe(s[1..])
    else [s[0]] + RemoveUnsafe(s[1..])
  }

  /** The text urlsplit goes on to parse. */
  function Cleaned(s: string): string {
    RemoveUnsafe(LStripControls(s))
  }

  /** The lower-cased scheme urlsplit finds: the text before the first ':' when it is
      non-empty, starts with an ASCII letter and holds only scheme characters. */
  function SchemeOf(s: string): (r: Option<string>)
    ensures r.Some? <==> exists i :: 0 < i < |s| && s[i] == ':' && (forall k :: 0 <= k < i ==> s[k] != ':' && IsSchemeChar(s[k])) && IsAsciiLetter(s[0])
    ensures r.Some? ==> 0 < |r.value| < |s| && s[|r.value|] == ':'
  {
    var i := Find(s, ":");
    if i > 0 && IsAsciiLetter(s[0]) && forall k :: 0 <= k < i ==> IsSchemeChar(s[k]) then
      assert forall k :: 0 <= k < i ==> s[k] != ':' by {
        forall k | 0 <= k < i ensures s[k] != ':' { assert !OccursAt(s, ":", k); }
      }
      assert s[i..i + 1] == ":" && s[i] == s[i..i + 1][0];
      Some(Lower(s[..i]))
    else
      assert forall j :: 0 < j < |s| && s[j] == ':' && (forall k :: 0 <= k < j ==> s[k] != ':' && IsSchemeChar(s[k])) && IsAsciiLetter(s[0]) ==> false by {
        forall j | 0 < j < |s| && s[j] == ':' && (forall k :: 0 <= k < j ==> s[k] != ':' && IsSchemeChar(s[k])) && IsAsciiLetter(s[0])
          ensures false
        {
          assert s[j..j + 1] == ":";
          assert OccursAt(s, ":", j);
        }
      }
      None
  }

  /** The text after the scheme's ':' begins with "//": urlsplit then parses a network
      location, and may raise ValueError on it, before urljoin compares schemes. */
  predicate HasNetloc(c: string, sch: string) {
    |sch| + 3 <= |c| && c[|sch| + 1] == '/' && c[|sch| + 2] == '/'
  }

  /** An href urljoin hands back untouched because its scheme is not the base's, and
      which has no network location that urlsplit could reject first. */
  predicate HasForeignScheme(href: string) {
    var c := Cleaned(href);
    var sch := SchemeOf(c);
    sch.Some? && sch.value != "https" && !HasNetloc(c, sch.value)
  }

  /** An href naming a path on the site and nothing else: it starts with one '/', has no
      query, fragment, parameters, '.' or '..' segment, and no character urlsplit deletes. */
  predicate IsPlainAbsolutePath(href: string) {
    && |href| >= 1 && href[0] == '/' && (|href| == 1 || href[1] != '/')
    && (forall i :: 0 <= i < |href| ==> href[i] != '?' && href[i] != '#' && href[i] != ';' && !IsUnsafe(href[i]))
    && (forall seg :: seg in Split(href, '/') ==> seg != "." && seg != "..")
  }

  /** urljoin(SITE_BASE, href). `otherJoin` stands for urljoin's resolution in the cases this
      model does not spell out. */
  function Resolve(href: string, otherJoin: string -> string): (r: string)
    ensures href == [] ==> r == SiteBase
    ensures HasForeignScheme(href) ==> r == href
    ensures IsPlainAbsolutePath(href) ==> |r| == |SiteBase| + |href| && r[..|SiteBase|] == SiteBase && r[|SiteBase|..] == href
  {
    if href == [] then SiteBase
    else if HasForeignScheme(href) then href
    else if IsPlainAbsolutePath(href) then SiteBase + href
    else otherJoin(href)
  }

  /** A plain absolute path has no scheme of its own. */
  lemma PlainPathHasNoScheme(href: string)
    requires IsPlainAbsolutePath(href)
    ensures !HasForeignScheme(href)
  {
    SlashedHasNoScheme(href);
  }

  lemma SlashedHasNoScheme(s: string)
    requires s != [] && s[0] == '/'
    requires forall i :: 0 <= i < |s| ==> !IsUnsafe(s[i])
    ensures SchemeOf(Cleaned(s)).None?
  {
    assert LStripControls(s) == s;
    assert Cleaned(s) == s;
    assert !IsAsciiLetter(s[0]);
  }

  /** The site base and anything after it carry the scheme https. */
  lemma SiteBaseScheme(rest: string)
    ensures SchemeOf(SiteBase + rest) == Some("https")
  {
    var s := SiteBase + rest;
    assert s[..5] == "https" && s[5] == ':';
    forall k | 0 <= k < 5 ensures s[k] != ':' && IsSchemeChar(s[k]) {
      assert s[k] == s[..5][k];
    }
    SchemeAt(s, 5);
    assert Lower(s[..5]) == "https";
  }

  /** Every href resolved by one of the modelled rules comes out as an absolute URL: it has
      a scheme, and for an href that is empty or a plain path that scheme is https on the
      site's own host. */
  lemma ResolvedIsAbsolute(href: string, otherJoin: string -> string)
    requires href == [] || HasForeignScheme(href) || IsPlainAbsolutePath(href)
    ensures SchemeOf(Cleaned(Resolve(href, otherJoin))).Some?
    ensures !HasForeignScheme(href) ==> SchemeOf(Resolve(href, otherJoin)) == Some("https")
  {
    var r := Resolve(href, otherJoin);
    if HasForeignScheme(href) {
    } else if href == [] {
      SiteBaseScheme([]);
      assert r == SiteBase + [];
      CleanedSite([]);
    } else {
      PlainPathHasNoScheme(href);
      SiteBaseScheme(href);
      CleanedSite(href);
    }
  }

  lemma CleanedSite(rest: string)
    requires forall i :: 0 <= i < |rest| ==> !IsUnsafe(rest[i])
    ensures Cleaned(SiteBase + rest) == SiteBase + rest
  {
    var s := SiteBase + rest;
    assert s[0] == 'h';
    assert LStripControls(s) == s;
    assert forall i :: 0 <= i < |s| ==> !IsUnsafe(s[i]) by {
      forall i | 0 <= i < |s| ensures !IsUnsafe(s[i]) {
        if i >= |SiteBase| { assert s[i] == rest[i - |SiteBase|]; }
      }
    }
  }

  /** A text free of tabs and line breaks that starts above the space is already clean. */
  lemma CleanedUnchanged(s: string)
    requires s == [] || s[0] > ' '
    requires forall i :: 0 <= i < |s| ==> !IsUnsafe(s[i])
    ensures Cleaned(s) == s
  {
    assert LStripControls(s) == s;
  }

  /** The scheme of a text whose first ':' is at i, preceded by scheme characters only. */
  lemma SchemeAt(s: string, i: nat)
    requires 0 < i < |s| && s[i] == ':' && IsAsciiLetter(s[0])
    requires forall k :: 0 <= k < i ==> s[k] != ':' && IsSchemeChar(s[k])
    ensures SchemeOf(s) == Some(Lower(s[..i]))
  {
    assert s[i..i + 1] == ":";
    assert OccursAt(s, ":", i);
    forall j | 0 <= j < i ensures !OccursAt(s, ":", j) {
      assert s[j..j + 1] == [s[j]];
    }
    var r := Find(s, ":");
    assert r != -1;
    assert r == i;
  }

  /** A foreign scheme without a network location is returned as it is. */
  lemma ForeignSchemeKept(f: string -> string)
    ensures Resolve("mailto:x", f) == "mailto:x"
  {
    var m := "mailto:x";
    CleanedUnchanged(m);
    SchemeAt(m, 6);
    assert Lower(m[..6]) == "mailto";
    assert HasForeignScheme(m);
  }

  /** A foreign scheme followed by "//" is left to the general resolver, as urlsplit parses
      (and may reject) its network location first. */
  lemma ForeignNetlocDeferred(f: string -> string)
    ensures Resolve("http://[x", f) == f("http://[x")
  {
    var h := "http://[x";
    CleanedUnchanged(h);
    SchemeAt(h, 4);
    assert Lower(h[..4]) == "http";
    assert HasNetloc(h, "http");
    assert !HasForeignScheme(h);
    assert !IsPlainAbsolutePath(h);
  }
}
