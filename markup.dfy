/** The clean-up of a matched link text into a title, and the escaping of text written
    into the feed: re.sub(r"<[^>]+>", "", t), re.sub(r"\s+", " ", t), html.unescape and
    html.escape as generate_feed.py applies them. */
module Markup {
  import opened Wrappers
  import opened Text

  /** No span of the form <[^>]+> is left: every '<' is directly followed by '>' or has no
      '>' anywhere after it. */
  predicate NoTagSpan(s: string) {
    forall i :: 0 <= i < |s| && s[i] == '<' ==> (i + 1 < |s| && s[i + 1] == '>') || '>' !in s[i + 1..]
  }

  /** No two whitespace characters stand next to each other. */
  predicate NoSpaceRun(s: string) {
    forall i :: 0 <= i < |s| - 1 ==> !(IsSpace(s[i]) && IsSpace(s[i + 1]))
  }

  /** The index of the first '>' in s, or |s| when there is none. */
  function IndexOfGt(s: string): (k: nat)
    ensures k <= |s| && (k < |s| ==> s[k] == '>')
    ensures forall j :: 0 <= j < k ==> s[j] != '>'
  {
    if s == [] || s[0] == '>' then 0 else 1 + IndexOfGt(s[1..])
  }

  lemma NoTagSpanCons(c: char, t: string)
    requires NoTagSpan(t)
    requires c == '<' ==> (t != [] && t[0] == '>') || '>' !in t
    ensures NoTagSpan([c] + t)
  {
    var r := [c] + t;
    forall i | 0 <= i < |r| && r[i] == '<'
      ensures (i + 1 < |r| && r[i + 1] == '>') || '>' !in r[i + 1..]
    {
      if i > 0 {
        assert r[i] == t[i - 1] && r[i + 1..] == t[i..];
      } else {
        assert r[1..] == t;
      }
    }
  }

  lemma NoTagSpanDrop(s: string, k: nat)
    requires NoTagSpan(s) && k <= |s|
    ensures NoTagSpan(s[k..])
  {
    var t := s[k..];
    forall i | 0 <= i < |t| && t[i] == '<'
      ensures (i + 1 < |t| && t[i + 1] == '>') || '>' !in t[i + 1..]
    {
      assert t[i] == s[k + i] && t[i + 1..] == s[k + i + 1..];
    }
  }

  /** re.sub(r"<[^>]+>", "", s): scanning left to right, a '<' that has at least one
      character and then a '>' after it starts a tag, which is removed up to that first '>'.
      What is left holds no tag span and only characters of s. */
  function StripTags(s: string): (r: string)
    ensures NoTagSpan(r)
    ensures |r| <= |s|
    ensures forall c :: c in r ==> c in s
    ensures s != [] && s[0] != '<' ==> r != [] && r[0] == s[0]
    decreases |s|
  {
    if s == [] then []
    else if s[0] == '<' && 2 <= IndexOfGt(s) < |s| then
      var r := StripTags(s[IndexOfGt(s) + 1..]);
      r
    else
      var t := StripTags(s[1..]);
      assert s[0] == '<' && IndexOfGt(s) == 1 < |s| ==> s[1..] != [] && s[1..][0] == '>';
      assert s[0] == '<' && IndexOfGt(s) == 1 < |s| ==> t != [] && t[0] == '>';
      assert s[0] == '<' && IndexOfGt(s) == |s| ==> '>' !in s[1..];
      NoTagSpanCons(s[0], t);
      [s[0]] + t
  }

  /** Text without tag spans passes unchanged, so stripping twice strips nothing more. */
  lemma {:induction false} StripTagsUnchanged(s: string)
    requires NoTagSpan(s)
    ensures StripTags(s) == s
    decreases |s|
  {
    if s != [] {
      NoTagSpanDrop(s, 1);
      StripTagsUnchanged(s[1..]);
      if s[0] == '<' {
        assert IndexOfGt(s) == 1 || IndexOfGt(s) == |s| by {
          if !(|s| > 1 && s[1] == '>') {
            assert '>' !in s[1..];
            assert forall j :: 1 <= j < |s| ==> s[j] != '>' by {
              forall j | 1 <= j < |s| ensures s[j] != '>' { assert s[j] == s[1..][j - 1]; }
            }
          }
        }
      }
      assert [s[0]] + s[1..] == s;
    }
  }

  /** A character other than '<' is kept in front of the stripped rest. */
  lemma StripTagsCons(c: char, x: string)
    requires c != '<'
    ensures StripTags([c] + x) == [c] + StripTags(x)
  {
    assert ([c] + x)[0] == c && ([c] + x)[1..] == x;
  }

  /** Text without '<' passes through untouched in front of whatever follows it. */
  lemma {:induction false} StripTagsKeepsText(a: string, z: string)
    requires '<' !in a
    ensures StripTags(a + z) == a + StripTags(z)
    decreases |a|
  {
    if a == [] {
      assert a + z == z;
    } else {
      assert a + z == [a[0]] + (a[1..] + z);
      assert '<' !in a[1..];
      StripTagsCons(a[0], a[1..] + z);
      StripTagsKeepsText(a[1..], z);
      assert [a[0]] + (a[1..] + StripTags(z)) == a + StripTags(z);
    }
  }

  /** A tag "<y>", y non-empty and without '>', is removed and the text after it is stripped
      in turn. */
  lemma StripTagsDropsTag(y: string, z: string)
    requires y != [] && '>' !in y
    ensures StripTags("<" + y + ">" + z) == StripTags(z)
  {
    var s := "<" + y + ">" + z;
    assert forall j :: 1 <= j <= |y| ==> s[j] == y[j - 1];
    assert s[|y| + 1] == '>';
    IndexOfGtAt(s, |y| + 1);
    assert s[|y| + 2..] == z;
  }

  /** The first '>' of s is at k when s[k] is '>' and none comes before it. */
  lemma IndexOfGtAt(s: string, k: nat)
    requires k < |s| && s[k] == '>' && forall j :: 0 <= j < k ==> s[j] != '>'
    ensures IndexOfGt(s) == k
  {
  }

  /** re.sub removes each tag and keeps the text around it in order:
      StripTags(t + "<y>" + z) == t + StripTags(z) for '<'-free t. */
  lemma StripTagsOneTag(t: string, y: string, z: string)
    requires '<' !in t && y != [] && '>' !in y
    ensures StripTags(t + "<" + y + ">" + z) == t + StripTags(z)
  {
    var w := "<" + y + ">" + z;
    assert t + "<" + y + ">" + z == t + w;
    StripTagsKeepsText(t, w);
    StripTagsDropsTag(y, z);
  }

  /** re.sub(r"\s+", " ", s): every run of whitespace becomes one space. The result has no
      whitespace run, its only whitespace is ' ', and it starts with whitespace exactly when
      s does. */
  function CollapseSpaces(s: string): (r: string)
    ensures NoSpaceRun(r)
    ensures forall i :: 0 <= i < |r| && IsSpace(r[i]) ==> r[i] == ' '
    ensures forall c :: c in r && c != ' ' ==> c in s
    ensures s == [] <==> r == []
    ensures s != [] ==> (IsSpace(s[0]) <==> IsSpace(r[0])) && (!IsSpace(s[0]) ==> r[0] == s[0])
    decreases |s|
  {
    if s == [] then []
    else if IsSpace(s[0]) then
      var t := TrimStart(s);
      assert |t| < |s|;
      [' '] + CollapseSpaces(t)
    else
      [s[0]] + CollapseSpaces(s[1..])
  }

  /** The non-whitespace characters of s, in order. */
  function NonSpace(s: string): string
    decreases |s|
  {
    if s == [] then [] else (if IsSpace(s[0]) then [] else [s[0]]) + NonSpace(s[1..])
  }

  lemma {:induction false} NonSpaceAppend(a: string, b: string)
    ensures NonSpace(a + b) == NonSpace(a) + NonSpace(b)
    decreases |a|
  {
    if a == [] {
      assert a + b == b;
    } else {
      assert (a + b)[0] == a[0] && (a + b)[1..] == a[1..] + b;
      NonSpaceAppend(a[1..], b);
    }
  }

  lemma {:induction false} NonSpaceOfSpaces(w: string)
    requires forall i :: 0 <= i < |w| ==> IsSpace(w[i])
    ensures NonSpace(w) == []
    decreases |w|
  {
    if w != [] {
      NonSpaceOfSpaces(w[1..]);
    }
  }

  /** Collapsing whitespace keeps every other character, in order: only whitespace is
      replaced or dropped. */
  lemma {:induction false} CollapseKeepsNonSpace(s: string)
    ensures NonSpace(CollapseSpaces(s)) == NonSpace(s)
    decreases |s|
  {
    if s != [] {
      if IsSpace(s[0]) {
        var t := TrimStart(s);
        var w := s[..|s| - |t|];
        assert s == w + t;
        NonSpaceOfSpaces(w);
        NonSpaceAppend(w, t);
        CollapseKeepsNonSpace(t);
        var c := CollapseSpaces(t);
        assert ([' '] + c)[1..] == c;
      } else {
        CollapseKeepsNonSpace(s[1..]);
        var c := CollapseSpaces(s[1..]);
        assert ([s[0]] + c)[0] == s[0] && ([s[0]] + c)[1..] == c;
      }
    }
  }

  /** A character other than whitespace is kept in front of the collapsed rest. */
  lemma CollapseCons(c: char, x: string)
    requires !IsSpace(c)
    ensures CollapseSpaces([c] + x) == [c] + CollapseSpaces(x)
  {
    assert ([c] + x)[0] == c && ([c] + x)[1..] == x;
  }

  /** A whitespace run at the front collapses to one space before the collapsed rest. */
  lemma CollapseLeadingRun(w: string, z: string)
    requires w != [] && forall i :: 0 <= i < |w| ==> IsSpace(w[i])
    requires z == [] || !IsSpace(z[0])
    ensures CollapseSpaces(w + z) == " " + CollapseSpaces(z)
  {
    TrimStartSkips(w, z);
    assert (w + z)[0] == w[0];
  }

  /** Every whitespace run becomes exactly one space: with whitespace-free a and a
      non-empty run w followed by text z that does not start with whitespace,
      CollapseSpaces(a + w + z) == a + " " + CollapseSpaces(z). */
  lemma {:induction false} CollapseRun(a: string, w: string, z: string)
    requires forall i :: 0 <= i < |a| ==> !IsSpace(a[i])
    requires w != [] && forall i :: 0 <= i < |w| ==> IsSpace(w[i])
    requires z == [] || !IsSpace(z[0])
    ensures CollapseSpaces(a + w + z) == a + " " + CollapseSpaces(z)
    decreases |a|
  {
    hide CollapseSpaces;
    if a == [] {
      assert a + w + z == w + z;
      CollapseLeadingRun(w, z);
    } else {
      assert a + w + z == [a[0]] + (a[1..] + w + z);
      CollapseCons(a[0], a[1..] + w + z);
      CollapseRun(a[1..], w, z);
      assert [a[0]] + (a[1..] + " " + CollapseSpaces(z)) == a + " " + CollapseSpaces(z);
    }
  }

  /** Collapsing whitespace cannot create a tag span. */
  lemma {:induction false} CollapseKeepsNoTagSpan(s: string)
    requires NoTagSpan(s)
    ensures NoTagSpan(CollapseSpaces(s))
    decreases |s|
  {
    if s != [] {
      if IsSpace(s[0]) {
        var t := TrimStart(s);
        NoTagSpanDrop(s, |s| - |t|);
        CollapseKeepsNoTagSpan(t);
        NoTagSpanCons(' ', CollapseSpaces(t));
      } else {
        NoTagSpanDrop(s, 1);
        CollapseKeepsNoTagSpan(s[1..]);
        var t := CollapseSpaces(s[1..]);
        if s[0] == '<' && '>' in t {
          assert '>' in s[1..];
          assert s[1] == '>';
        }
        NoTagSpanCons(s[0], t);
      }
    }
  }

  /** The character and length of the entity html.escape writes that s starts with, if any. */
  function EntityAt(s: string): (r: Option<(char, nat)>)
    ensures r.Some? ==> 1 <= r.value.1 <= |s| && s[0] == '&' && !IsSpace(r.value.0)
  {
    if |s| >= 5 && s[..5] == "&amp;" then Some(('&', 5))
    else if |s| >= 4 && s[..4] == "&lt;" then Some(('<', 4))
    else if |s| >= 4 && s[..4] == "&gt;" then Some(('>', 4))
    else if |s| >= 6 && s[..6] == "&quot;" then Some(('"', 6))
    else if |s| >= 6 && s[..6] == "&#x27;" then Some(('\'', 6))
    else None
  }

  /** html.unescape, restricted to the five entities html.escape produces. */
  function Unescape(s: string): (r: string)
    ensures s == [] <==> r == []
    ensures s != [] ==> (IsSpace(r[0]) <==> IsSpace(s[0]))
    decreases |s|
  {
    if s == [] then []
    else
      match EntityAt(s)
      case Some((c, n)) => [c] + Unescape(s[n..])
      case None => [s[0]] + Unescape(s[1..])
  }

  lemma NoSpaceRunDrop(s: string, k: nat)
    requires NoSpaceRun(s) && k <= |s|
    ensures NoSpaceRun(s[k..])
  {
    var t := s[k..];
    forall i | 0 <= i < |t| - 1 ensures !(IsSpace(t[i]) && IsSpace(t[i + 1])) {
      assert t[i] == s[k + i] && t[i + 1] == s[k + i + 1];
    }
  }

  lemma NoSpaceRunCons(c: char, t: string)
    requires NoSpaceRun(t)
    requires t != [] && IsSpace(c) ==> !IsSpace(t[0])
    ensures NoSpaceRun([c] + t)
  {
    var r := [c] + t;
    forall i | 0 <= i < |r| - 1 ensures !(IsSpace(r[i]) && IsSpace(r[i + 1])) {
      if i > 0 {
        assert r[i] == t[i - 1] && r[i + 1] == t[i];
      }
    }
  }

  /** Decoding entities never puts two whitespace characters side by side. */
  lemma {:induction false} UnescapeKeepsNoSpaceRun(s: string)
    requires NoSpaceRun(s)
    ensures NoSpaceRun(Unescape(s))
    decreases |s|
  {
    if s != [] {
      match EntityAt(s)
      case Some((c, n)) =>
        NoSpaceRunDrop(s, n);
        UnescapeKeepsNoSpaceRun(s[n..]);
        NoSpaceRunCons(c, Unescape(s[n..]));
      case None =>
        NoSpaceRunDrop(s, 1);
        UnescapeKeepsNoSpaceRun(s[1..]);
        NoSpaceRunCons(s[0], Unescape(s[1..]));
    }
  }

  /** The title of a matched link: tags removed, whitespace collapsed, entities decoded,
      then stripped. */
  function NormalizeTitle(raw: string): (r: string)
    ensures r == [] || (!IsSpace(r[0]) && !IsSpace(r[|r| - 1]))
  {
    Strip(Unescape(CollapseSpaces(StripTags(raw))))
  }

  /** Before decoding, the title text holds no tag span; the final title has no leading or
      trailing whitespace and no run of two whitespace characters. */
  lemma TitleShape(raw: string)
    ensures NoTagSpan(CollapseSpaces(StripTags(raw)))
    ensures var t := NormalizeTitle(raw);
      && (t == [] || (!IsSpace(t[0]) && !IsSpace(t[|t| - 1])))
      && NoSpaceRun(t)
  {
    CollapseKeepsNoTagSpan(StripTags(raw));
    var u := Unescape(CollapseSpaces(StripTags(raw)));
    UnescapeKeepsNoSpaceRun(CollapseSpaces(StripTags(raw)));
    var a := |u| - |TrimStart(u)|;
    var t := Strip(u);
    NoSpaceRunDrop(u, a);
    assert t == u[a..][..|t|];
    NoSpaceRunPrefix(u[a..], |t|);
  }

  lemma NoSpaceRunPrefix(s: string, k: nat)
    requires NoSpaceRun(s) && k <= |s|
    ensures NoSpaceRun(s[..k])
  {
    var t := s[..k];
    forall i | 0 <= i < |t| - 1 ensures !(IsSpace(t[i]) && IsSpace(t[i + 1])) {
      assert t[i] == s[i] && t[i + 1] == s[i + 1];
    }
  }

  /** html.escape(s) (quote=True) for one character. */
  function EscapeChar(c: char): string {
    if c == '&' then "&amp;"
    else if c == '<' then "&lt;"
    else if c == '>' then "&gt;"
    else if c == '"' then "&quot;"
    else if c == '\'' then "&#x27;"
    else [c]
  }

  /** Safe text for an XML element: no raw '<', '>', '"' or '\'', and every '&' begins one
      of the five entities. */
  predicate IsEscaped(r: string) {
    && (forall i :: 0 <= i < |r| ==> r[i] != '<' && r[i] != '>' && r[i] != '"' && r[i] != '\'')
    && (forall i :: 0 <= i < |r| && r[i] == '&' ==> EntityAt(r[i..]).Some?)
  }

  lemma EntityAtExtends(a: string, b: string)
    requires EntityAt(a).Some?
    ensures EntityAt(a + b).Some?
  {
    var s := a + b;
    var n := EntityAt(a).value.1;
    assert s[..n] == a[..n];
    if |a| >= 5 && a[..5] == "&amp;" {
      assert s[..5] == a[..5];
    } else if |a| >= 4 && a[..4] == "&lt;" {
      assert s[..4] == a[..4];
    } else if |a| >= 4 && a[..4] == "&gt;" {
      assert s[..4] == a[..4];
    } else if |a| >= 6 && a[..6] == "&quot;" {
      assert s[..6] == a[..6];
    } else {
      assert s[..6] == a[..6];
    }
  }

  lemma EscapedConcat(a: string, b: string)
    requires IsEscaped(a) && IsEscaped(b)
    ensures IsEscaped(a + b)
  {
    var s := a + b;
    forall i | 0 <= i < |s| && s[i] == '&' ensures EntityAt(s[i..]).Some? {
      if i < |a| {
        assert s[i..] == a[i..] + b;
        EntityAtExtends(a[i..], b);
      } else {
        assert s[i..] == b[i - |a|..];
      }
    }
  }

  lemma EscapeCharEscaped(c: char)
    ensures IsEscaped(EscapeChar(c))
  {
    var e := EscapeChar(c);
    if c == '&' || c == '<' || c == '>' || c == '"' || c == '\'' {
      assert e[0] == '&' && e[0..] == e;
      assert forall i :: 1 <= i < |e| ==> e[i] != '&';
    }
  }

  /** html.escape(s) with quote=True: '&' first, then '<', '>', '"' and '\'' become entities,
      so the result is safe text, and decoding it gives s back. */
  function Escape(s: string): (r: string)
    ensures IsEscaped(r)
    decreases |s|
  {
    if s == [] then []
    else
      EscapeCharEscaped(s[0]);
      EscapedConcat(EscapeChar(s[0]), Escape(s[1..]));
      EscapeChar(s[0]) + Escape(s[1..])
  }

  lemma UnescapeAfterEscapeChar(c: char, x: string)
    ensures Unescape(EscapeChar(c) + x) == [c] + Unescape(x)
  {
    var e := EscapeChar(c);
    var s := e + x;
    assert s[..|e|] == e;
    if c == '&' {
      assert EntityAt(s) == Some(('&', 5));
    } else if c == '<' {
      assert s[..4] == "&lt;" && (|s| < 5 || s[..5][1] == 'l');
      assert EntityAt(s) == Some(('<', 4));
    } else if c == '>' {
      assert s[..4] == "&gt;" && (|s| < 5 || s[..5][1] == 'g') && s[..4][1] != 'l';
      assert EntityAt(s) == Some(('>', 4));
    } else if c == '"' {
      assert s[..6] == "&quot;";
      assert s[..4] != "&lt;" && s[..4] != "&gt;" by { assert s[1] == 'q'; }
      assert EntityAt(s) == Some(('"', 6));
    } else if c == '\'' {
      assert s[..6] == "&#x27;";
      assert s[..4] != "&lt;" && s[..4] != "&gt;" by { assert s[1] == '#'; }
      assert s[..6] != "&quot;" by { assert s[1] == '#'; }
      assert EntityAt(s) == Some(('\'', 6));
    } else {
      assert s[0] == c;
      assert EntityAt(s) == None;
    }
    assert s[|e|..] == x;
  }

  /** Decoding undoes escaping: html.unescape(html.escape(s)) == s. */
  lemma {:induction false} UnescapeEscape(s: string)
    ensures Unescape(Escape(s)) == s
    decreases |s|
  {
    if s != [] {
      UnescapeAfterEscapeChar(s[0], Escape(s[1..]));
      UnescapeEscape(s[1..]);
      assert [s[0]] + s[1..] == s;
    }
  }
}
