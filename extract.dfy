/** extract_recent_news_items: isolate the "Recent News & Updates" section of the page,
    turn every (date, href, title) match into a candidate item, keep the first item of each
    (title, url, date) key, sort newest first and keep at most MaxItems. The regular
    expression that finds the matches is a parameter (`scan`), as is the part of urljoin
    this model does not spell out (`otherJoin`). */
module Extract {
  import opened Wrappers
  import opened Text
  import opened Dates
  import opened Markup
  import opened Urls

  const StartMarkerEscaped: string := "recent news &amp; updates"
  const StartMarkerPlain: string := "recent news & updates"
  const EndMarker: string := "recent federal register notices"
  const MaxItems := 50

  /** One match of the item pattern: group(1), group(2) and group(3). */
  datatype Match = Match(dateText: string, href: string, rawTitle: string)

  /** A feed entry: (pub_dt, title, absolute_url). */
  datatype Item = Item(pub: DateTime, title: string, url: string)

  /** The duplicate key (title, url, pub_dt.date().isoformat()); isoformat spells each valid
      date differently, so the date itself stands for its spelling. */
  datatype Key = Key(title: string, url: string, date: Date)

  function KeyOf(it: Item): Key {
    Key(it.title, it.url, DateOf(it.pub))
  }

  // ---------------------------------------------------------------------------------------
  // Section isolation

  /** The start of the section in the lower-cased page: the "&amp;" spelling of the heading
      is looked for first and the plain "&" spelling only when that is absent. */
  function SectionStart(low: string): int {
    var a := Find(low, StartMarkerEscaped);
    if a == -1 then Find(low, StartMarkerPlain) else a
  }

  /** page[start:end] when both markers are found (empty when the end marker comes first,
      as a Python slice with end < start is), otherwise the whole page. */
  function SectionOf(page: string): (r: string)
    ensures r == page || |r| < |page|
  {
    var low := Lower(page);
    var start := SectionStart(low);
    var end := Find(low, EndMarker);
    if start != -1 && end != -1 then
      (if start <= end then page[start..end] else [])
    else page
  }

  /** When neither spelling of the start heading occurs, or the end heading does not, the
      section is the whole page. */
  lemma SectionWithoutMarkers(page: string)
    requires (forall j :: !OccursAt(Lower(page), StartMarkerEscaped, j) && !OccursAt(Lower(page), StartMarkerPlain, j))
          || (forall j :: !OccursAt(Lower(page), EndMarker, j))
    ensures SectionOf(page) == page
  {
  }

  /** With the "&amp;" heading first found at a and the end heading first found at b, the
      section is page[a:b], which is empty when b < a; the plain "&" heading is then
      ignored wherever it occurs. */
  lemma SectionBetweenMarkers(page: string, a: nat, b: nat)
    requires OccursAt(Lower(page), StartMarkerEscaped, a)
    requires forall j :: 0 <= j < a ==> !OccursAt(Lower(page), StartMarkerEscaped, j)
    requires OccursAt(Lower(page), EndMarker, b)
    requires forall j :: 0 <= j < b ==> !OccursAt(Lower(page), EndMarker, j)
    ensures b < a ==> SectionOf(page) == []
    ensures a <= b ==> b <= |page| && SectionOf(page) == page[a..b]
  {
    var low := Lower(page);
    var fa := Find(low, StartMarkerEscaped);
    var fb := Find(low, EndMarker);
    assert fa == a;
    assert fb == b;
  }

  /** Without the "&amp;" heading, the plain heading first found at a starts the section. */
  lemma SectionFromPlainMarker(page: string, a: nat, b: nat)
    requires forall j :: !OccursAt(Lower(page), StartMarkerEscaped, j)
    requires OccursAt(Lower(page), StartMarkerPlain, a)
    requires forall j :: 0 <= j < a ==> !OccursAt(Lower(page), StartMarkerPlain, j)
    requires OccursAt(Lower(page), EndMarker, b)
    requires forall j :: 0 <= j < b ==> !OccursAt(Lower(page), EndMarker, j)
    ensures b < a ==> SectionOf(page) == []
    ensures a <= b ==> b <= |page| && SectionOf(page) == page[a..b]
  {
    var low := Lower(page);
    var fa := Find(low, StartMarkerPlain);
    var fb := Find(low, EndMarker);
    assert fa == a;
    assert fb == b;
  }

  // ---------------------------------------------------------------------------------------
  // Candidates

  /** The title and url of one match, and its date when parse_mmddyyyy accepts it. A match
      whose date is rejected yields nothing (the except: continue). */
  function Candidate(m: Match, otherJoin: string -> string): (r: Option<Item>)
    ensures r.Some? <==> ParseMmddyyyy(m.dateText).Ok?
    ensures r.Some? ==> Valid(r.value.pub) && IsMidnight(r.value.pub)
  {
    match ParseMmddyyyy(m.dateText)
    case Err(_) => None
    case Ok(pub) => Some(Item(pub, NormalizeTitle(m.rawTitle), Resolve(Strip(m.href), otherJoin)))
  }

  /** The candidates of a match sequence, in match order. */
  function Candidates(ms: seq<Match>, otherJoin: string -> string): (r: seq<Item>)
    ensures |r| <= |ms|
    ensures MidnightItems(r)
  {
    if ms == [] then []
    else
      var prev := Candidates(ms[..|ms| - 1], otherJoin);
      match Candidate(ms[|ms| - 1], otherJoin)
      case None => prev
      case Some(it) =>
        MidnightItemsAppend(prev, it);
        prev + [it]
  }

  /** Every item's date is a valid midnight-UTC date. */
  predicate MidnightItems(s: seq<Item>) {
    forall i :: 0 <= i < |s| ==> Valid(s[i].pub) && IsMidnight(s[i].pub)
  }

  lemma MidnightItemsAppend(s: seq<Item>, x: Item)
    requires MidnightItems(s) && Valid(x.pub) && IsMidnight(x.pub)
    ensures MidnightItems(s + [x])
  {
    forall i | 0 <= i < |s| + 1 ensures Valid((s + [x])[i].pub) && IsMidnight((s + [x])[i].pub) {
      if i < |s| { assert (s + [x])[i] == s[i]; }
    }
  }

  lemma {:induction false} CandidatesAppend(ms: seq<Match>, ns: seq<Match>, otherJoin: string -> string)
    ensures Candidates(ms + ns, otherJoin) == Candidates(ms, otherJoin) + Candidates(ns, otherJoin)
    decreases |ns|
  {
    if ns == [] {
      assert ms + ns == ms;
    } else {
      var ps, m := ns[..|ns| - 1], ns[|ns| - 1];
      assert ms + ns == (ms + ps) + [m];
      assert ns == ps + [m];
      CandidatesAppend(ms, ps, otherJoin);
      CandidatesAppendStep(ms, ps, m, otherJoin);
    }
  }

  lemma CandidatesAppendStep(ms: seq<Match>, ps: seq<Match>, m: Match, otherJoin: string -> string)
    requires Candidates(ms + ps, otherJoin) == Candidates(ms, otherJoin) + Candidates(ps, otherJoin)
    ensures Candidates((ms + ps) + [m], otherJoin) == Candidates(ms, otherJoin) + Candidates(ps + [m], otherJoin)
  {
    CandidatesSnoc(ms + ps, m, otherJoin);
    CandidatesSnoc(ps, m, otherJoin);
    AppendAssoc(Candidates(ms, otherJoin), Candidates(ps, otherJoin), Candidates([m], otherJoin));
  }

  lemma AppendAssoc(a: seq<Item>, b: seq<Item>, c: seq<Item>)
    ensures (a + b) + c == a + (b + c)
  {
  }

  lemma CandidatesSnoc(ms: seq<Match>, m: Match, otherJoin: string -> string)
    ensures Candidates(ms + [m], otherJoin) == Candidates(ms, otherJoin) + Candidates([m], otherJoin)
  {
    assert (ms + [m])[..|ms|] == ms;
    assert [m][..0] == [];
  }

  /** A match whose date parse_mmddyyyy rejects leaves the result exactly as if it were not
      there: it adds no item and no key, and the matches after it are processed as usual. */
  lemma SkipRejectedDate(before: seq<Match>, m: Match, after: seq<Match>, otherJoin: string -> string)
    requires ParseMmddyyyy(m.dateText).Err?
    ensures Candidates(before + [m] + after, otherJoin) == Candidates(before + after, otherJoin)
  {
    CandidatesAppend(before + [m], after, otherJoin);
    CandidatesAppend(before, [m], otherJoin);
    CandidatesAppend(before, after, otherJoin);
    assert [m][..0] == [];
  }

  /** An invalid calendar date such as 13/40/2026 is such a rejected date. */
  lemma SkipMonth13(before: seq<Match>, href: string, rawTitle: string, after: seq<Match>, otherJoin: string -> string)
    ensures Candidates(before + [Match("13/40/2026", href, rawTitle)] + after, otherJoin) == Candidates(before + after, otherJoin)
  {
    ParseRejectsMonth13();
    SkipRejectedDate(before, Match("13/40/2026", href, rawTitle), after, otherJoin);
  }

  // ---------------------------------------------------------------------------------------
  // First-seen de-duplication

  /** The keys of a sequence of items. */
  function Keys(s: seq<Item>): set<Key> {
    if s == [] then {} else Keys(s[..|s| - 1]) + {KeyOf(s[|s| - 1])}
  }

  /** A key is in Keys(s) exactly when some item of s has it. */
  lemma {:induction false} KeysMembers(s: seq<Item>)
    ensures forall i :: 0 <= i < |s| ==> KeyOf(s[i]) in Keys(s)
    ensures forall key :: key in Keys(s) ==> exists i :: 0 <= i < |s| && KeyOf(s[i]) == key
  {
    if s != [] {
      var p := s[..|s| - 1];
      KeysMembers(p);
      forall i | 0 <= i < |p| ensures KeyOf(s[i]) in Keys(s) {
        assert s[i] == p[i];
      }
      forall key | key in Keys(s) ensures exists i :: 0 <= i < |s| && KeyOf(s[i]) == key {
        if key in Keys(p) {
          var i :| 0 <= i < |p| && KeyOf(p[i]) == key;
          assert s[i] == p[i];
        }
      }
    }
  }

  /** Every item has a non-empty title. */
  predicate TitledItems(s: seq<Item>) {
    forall i :: 0 <= i < |s| ==> s[i].title != []
  }

  predicate UniqueKeys(s: seq<Item>) {
    forall i, j :: 0 <= i < j < |s| ==> KeyOf(s[i]) != KeyOf(s[j])
  }

  /** The loop's filter over the candidates: an item is appended when its title is not empty
      and its key is not among the keys of the items appended before. No two kept items
      share a key and every kept title is non-empty. */
  function Dedup(s: seq<Item>): (r: seq<Item>)
    ensures |r| <= |s|
    ensures forall i :: 0 <= i < |r| ==> r[i].title != []
  {
    if s == [] then []
    else
      var prev := Dedup(s[..|s| - 1]);
      var x := s[|s| - 1];
      if x.title != [] && KeyOf(x) !in Keys(prev) then prev + [x] else prev
  }

  /** No two kept items share a key, every kept title is non-empty, and every kept item is
      one of the candidates. */
  lemma {:induction false} DedupShape(s: seq<Item>)
    ensures |Dedup(s)| <= |s|
    ensures UniqueKeys(Dedup(s)) && TitledItems(Dedup(s))
    ensures forall i :: 0 <= i < |Dedup(s)| ==> Dedup(s)[i] in s
  {
    hide Dedup;
    if s != [] {
      var p := s[..|s| - 1];
      var x := s[|s| - 1];
      assert s == p + [x];
      DedupStep(p, x);
      DedupShape(p);
      var prev := Dedup(p);
      KeysMembers(prev);
      forall i | 0 <= i < |prev| ensures prev[i] in s {
        var j :| 0 <= j < |p| && p[j] == prev[i];
        assert s[j] == p[j];
      }
      if x.title != [] && KeyOf(x) !in Keys(prev) {
        var r := prev + [x];
        forall i, j | 0 <= i < j < |r| ensures KeyOf(r[i]) != KeyOf(r[j]) {
          if j == |prev| {
            assert KeyOf(prev[i]) in Keys(prev);
          } else {
            assert r[i] == prev[i] && r[j] == prev[j];
          }
        }
      }
    }
  }

  /** The keys of the items of s with a non-empty title. */
  function TitledKeys(s: seq<Item>): (k: set<Key>)
    ensures forall i :: 0 <= i < |s| && s[i].title != [] ==> KeyOf(s[i]) in k
    ensures forall key :: key in k ==> exists i :: 0 <= i < |s| && s[i].title != [] && KeyOf(s[i]) == key
  {
    if s == [] then {}
    else TitledKeys(s[..|s| - 1]) + (if s[|s| - 1].title != [] then {KeyOf(s[|s| - 1])} else {})
  }

  /** The kept keys are exactly the keys of the candidates with a non-empty title: nothing
      is lost but repeats. */
  lemma {:induction false} DedupKeys(s: seq<Item>)
    ensures Keys(Dedup(s)) == TitledKeys(s)
  {
    if s != [] {
      var p := s[..|s| - 1];
      DedupKeys(p);
      var x := s[|s| - 1];
      var prev := Dedup(p);
      if x.title != [] && KeyOf(x) !in Keys(prev) {
        assert (prev + [x])[..|prev|] == prev;
      }
    }
  }

  /** Item i of s is the first with its key and has a non-empty title. */
  predicate IsFirstOfKey(s: seq<Item>, i: nat)
    requires i < |s|
  {
    s[i].title != [] && forall j :: 0 <= j < i ==> KeyOf(s[j]) != KeyOf(s[i])
  }

  /** The reference for the de-duplication: the items with a non-empty title that are the
      first of their key, in their original order. */
  function FirstOfEachKey(s: seq<Item>): seq<Item> {
    if s == [] then []
    else FirstOfEachKey(s[..|s| - 1]) + (if IsFirstOfKey(s, |s| - 1) then [s[|s| - 1]] else [])
  }

  /** The loop keeps exactly the first item of every key, in match order. */
  lemma {:induction false} DedupKeepsFirstOfEachKey(s: seq<Item>)
    ensures Dedup(s) == FirstOfEachKey(s)
  {
    if s != [] {
      var p := s[..|s| - 1];
      var x := s[|s| - 1];
      DedupKeepsFirstOfEachKey(p);
      DedupKeys(p);
      assert (x.title != [] && KeyOf(x) !in Keys(Dedup(p))) <==> IsFirstOfKey(s, |s| - 1) by {
        if x.title != [] && KeyOf(x) in Keys(Dedup(p)) {
          assert KeyOf(x) in TitledKeys(p);
          var j :| 0 <= j < |p| && p[j].title != [] && KeyOf(p[j]) == KeyOf(x);
          assert KeyOf(s[j]) == KeyOf(s[|s| - 1]);
        }
        if x.title != [] && !IsFirstOfKey(s, |s| - 1) {
          var j :| 0 <= j < |s| - 1 && KeyOf(s[j]) == KeyOf(x);
          assert p[j] == s[j] && p[j].title == x.title;
          assert KeyOf(p[j]) in TitledKeys(p);
        }
      }
    }
  }

  // ---------------------------------------------------------------------------------------
  // Newest-first stable sort and cap

  /** a is strictly before b. Aware datetimes compare by their instant; all of these are
      UTC, so that is the order of (year, month, day, hour, minute, second). */
  predicate Earlier(a: DateTime, b: DateTime) {
    if a.year != b.year then a.year < b.year
    else if a.month != b.month then a.month < b.month
    else if a.day != b.day then a.day < b.day
    else if a.hour != b.hour then a.hour < b.hour
    else if a.minute != b.minute then a.minute < b.minute
    else a.second < b.second
  }

  lemma EarlierTransitive(a: DateTime, b: DateTime, c: DateTime)
    requires Earlier(a, b) && Earlier(b, c)
    ensures Earlier(a, c)
  {
  }

  /** Newest first: no item is earlier than one after it. */
  predicate NewestFirst(s: seq<Item>) {
    forall i, j :: 0 <= i < j < |s| ==> !Earlier(s[i].pub, s[j].pub)
  }

  /** The items of s published at t, in order. */
  function WithPub(s: seq<Item>, t: DateTime): seq<Item> {
    if s == [] then []
    else (if s[0].pub == t then [s[0]] else []) + WithPub(s[1..], t)
  }

  lemma {:induction false} WithPubAppend(a: seq<Item>, b: seq<Item>, t: DateTime)
    ensures WithPub(a + b, t) == WithPub(a, t) + WithPub(b, t)
  {
    if a != [] {
      assert (a + b)[1..] == a[1..] + b;
      WithPubAppend(a[1..], b, t);
    } else {
      assert a + b == b;
    }
  }

  /** Puts x into newest-first r after every item not earlier than x: before the first
      item strictly earlier than x, so that equal instants keep their order. */
  function Insert(r: seq<Item>, x: Item): (q: seq<Item>)
    ensures |q| == |r| + 1
  {
    if r == [] then [x]
    else if Earlier(r[0].pub, x.pub) then [x] + r
    else [r[0]] + Insert(r[1..], x)
  }

  /** Insertion adds x and nothing else. */
  lemma {:induction false} InsertPermutes(r: seq<Item>, x: Item)
    ensures multiset(Insert(r, x)) == multiset(r) + multiset{x}
    ensures forall y :: y in Insert(r, x) ==> y in r || y == x
  {
    if r != [] && !Earlier(r[0].pub, x.pub) {
      InsertPermutes(r[1..], x);
      assert r == [r[0]] + r[1..];
    }
    forall y | y in Insert(r, x) ensures y in r || y == x {
      assert y in multiset(Insert(r, x));
    }
  }

  /** Putting y in front of a newest-first list keeps it newest first when y is not
      earlier than anything in it. */
  lemma NewestFirstCons(y: Item, q: seq<Item>)
    requires NewestFirst(q)
    requires forall z :: z in q ==> !Earlier(y.pub, z.pub)
    ensures NewestFirst([y] + q)
  {
    var p := [y] + q;
    forall i, j | 0 <= i < j < |p| ensures !Earlier(p[i].pub, p[j].pub) {
      if i == 0 {
        assert p[j] == q[j - 1];
      } else {
        assert p[i] == q[i - 1] && p[j] == q[j - 1];
      }
    }
  }

  lemma NewestFirstTail(r: seq<Item>)
    requires NewestFirst(r) && r != []
    ensures NewestFirst(r[1..])
  {
    forall i, j | 0 <= i < j < |r| - 1 ensures !Earlier(r[1..][i].pub, r[1..][j].pub) {
      assert r[1..][i] == r[i + 1] && r[1..][j] == r[j + 1];
    }
  }

  /** Insertion keeps a list newest first. */
  lemma {:induction false} InsertKeepsNewestFirst(r: seq<Item>, x: Item)
    requires NewestFirst(r)
    ensures NewestFirst(Insert(r, x))
  {
    if r == [] {
    } else if Earlier(r[0].pub, x.pub) {
      forall z | z in r ensures !Earlier(x.pub, z.pub) {
        var j :| 0 <= j < |r| && r[j] == z;
        if j > 0 && Earlier(x.pub, z.pub) {
          EarlierTransitive(r[0].pub, x.pub, z.pub);
        }
      }
      NewestFirstCons(x, r);
    } else {
      var rest := Insert(r[1..], x);
      NewestFirstTail(r);
      InsertKeepsNewestFirst(r[1..], x);
      InsertPermutes(r[1..], x);
      forall z | z in rest ensures !Earlier(r[0].pub, z.pub) {
        if z != x {
          var j :| 0 <= j < |r[1..]| && r[1..][j] == z;
          assert r[j + 1] == z;
        }
      }
      NewestFirstCons(r[0], rest);
    }
  }

  /** Inserting x adds x after the items already published at x's instant and changes no
      other instant's items. */
  lemma WithPubCons(y: Item, q: seq<Item>, t: DateTime)
    ensures WithPub([y] + q, t) == (if y.pub == t then [y] else []) + WithPub(q, t)
  {
    assert ([y] + q)[1..] == q;
  }

  /** A newest-first list whose head is earlier than t holds nothing published at t. */
  lemma {:induction false} WithPubNone(r: seq<Item>, t: DateTime)
    requires NewestFirst(r) && r != [] && Earlier(r[0].pub, t)
    ensures WithPub(r, t) == []
  {
    if |r| > 1 {
      NewestFirstTail(r);
      assert !Earlier(r[0].pub, r[1].pub);
      assert Earlier(r[1].pub, t) by {
        if !Earlier(r[1].pub, t) && r[1].pub != t {
          EarlierTransitive(r[0].pub, t, r[1].pub);
        }
      }
      WithPubNone(r[1..], t);
    }
  }

  /** Inserting x adds x after the items already published at x's instant and changes no
      other instant's items. */
  lemma {:induction false} InsertKeepsOrderOfEquals(r: seq<Item>, x: Item, t: DateTime)
    requires NewestFirst(r)
    ensures WithPub(Insert(r, x), t) == WithPub(r, t) + (if x.pub == t then [x] else [])
  {
    if r == [] {
      WithPubCons(x, [], t);
    } else if Earlier(r[0].pub, x.pub) {
      WithPubCons(x, r, t);
      if x.pub == t {
        WithPubNone(r, t);
      }
    } else {
      NewestFirstTail(r);
      InsertKeepsOrderOfEquals(r[1..], x, t);
      WithPubCons(r[0], Insert(r[1..], x), t);
      WithPubCons(r[0], r[1..], t);
      assert [r[0]] + r[1..] == r;
    }
  }

  /** items.sort(key=pub, reverse=True): a stable sort, newest first. */
  function SortNewestFirst(s: seq<Item>): (r: seq<Item>)
    ensures |r| == |s|
  {
    if s == [] then [] else Insert(SortNewestFirst(s[..|s| - 1]), s[|s| - 1])
  }

  /** The sorted list is newest first and a permutation of the input. */
  lemma {:induction false} SortNewestFirstSorts(s: seq<Item>)
    ensures NewestFirst(SortNewestFirst(s))
    ensures multiset(SortNewestFirst(s)) == multiset(s)
  {
    if s != [] {
      var p := s[..|s| - 1];
      var x := s[|s| - 1];
      SortNewestFirstSorts(p);
      InsertKeepsNewestFirst(SortNewestFirst(p), x);
      InsertPermutes(SortNewestFirst(p), x);
      assert s == p + [x];
    }
  }

  /** The sort is stable: the items of any one instant come out in their original order. */
  lemma {:induction false} SortIsStable(s: seq<Item>, t: DateTime)
    ensures WithPub(SortNewestFirst(s), t) == WithPub(s, t)
  {
    if s != [] {
      var p := s[..|s| - 1];
      var x := s[|s| - 1];
      var sp := SortNewestFirst(p);
      var tail := if x.pub == t then [x] else [];
      SortIsStable(p, t);
      SortNewestFirstSorts(p);
      InsertKeepsOrderOfEquals(sp, x, t);
      WithPubAppend(p, [x], t);
      WithPubCons(x, [], t);
      assert s == p + [x];
      calc {
        WithPub(SortNewestFirst(s), t);
        WithPub(Insert(sp, x), t);
        WithPub(sp, t) + tail;
        WithPub(p, t) + tail;
        { assert tail + [] == tail; }
        WithPub(p, t) + WithPub([x], t);
        WithPub(s, t);
      }
    }
  }

  function Min(a: int, b: int): int {
    if a <= b then a else b
  }

  /** The whole of extract_recent_news_items as one value: the section's matches turned into
      candidates, de-duplicated, sorted newest first and cut to MaxItems. */
  function RecentNewsItems(page: string, scan: string -> seq<Match>, otherJoin: string -> string): (r: seq<Item>)
    ensures |r| <= MaxItems
  {
    var sorted := SortNewestFirst(Dedup(Candidates(scan(SectionOf(page)), otherJoin)));
    sorted[..Min(|sorted|, MaxItems)]
  }

  lemma DedupKeepsValid(s: seq<Item>)
    requires MidnightItems(s)
    ensures MidnightItems(Dedup(s))
  {
    var r := Dedup(s);
    DedupShape(s);
    forall i | 0 <= i < |r| ensures Valid(r[i].pub) && IsMidnight(r[i].pub) {
      var j :| 0 <= j < |s| && s[j] == r[i];
    }
  }

  lemma CandidatesStep(ms: seq<Match>, i: nat, otherJoin: string -> string)
    requires i < |ms|
    ensures Candidates(ms[..i + 1], otherJoin) == Candidates(ms[..i], otherJoin)
      + (if Candidate(ms[i], otherJoin).Some? then [Candidate(ms[i], otherJoin).value] else [])
  {
    assert ms[..i + 1][..i] == ms[..i];
  }

  lemma DedupStep(c: seq<Item>, it: Item)
    ensures Dedup(c + [it]) == if it.title != [] && KeyOf(it) !in Keys(Dedup(c)) then Dedup(c) + [it] else Dedup(c)
  {
    assert (c + [it])[..|c|] == c;
  }

  lemma KeysStep(s: seq<Item>, it: Item)
    ensures Keys(s + [it]) == Keys(s) + {KeyOf(it)}
  {
    assert (s + [it])[..|s|] == s;
  }

  /** What the sort and the cut keep of the kept items: the first min(|kept|, MaxItems) of
      them in newest-first order, each one of the kept items, keys still distinct. */
  lemma SortedPrefixShape(kept: seq<Item>)
    requires UniqueKeys(kept) && MidnightItems(kept) && TitledItems(kept)
    ensures var sorted := SortNewestFirst(kept);
      var r := sorted[..Min(|sorted|, MaxItems)];
      && |r| == Min(|kept|, MaxItems) && multiset(r) <= multiset(kept)
      && NewestFirst(r) && UniqueKeys(r) && MidnightItems(r) && TitledItems(r)
  {
    var sorted := SortNewestFirst(kept);
    SortNewestFirstSorts(kept);
    SortedKeepsProperties(kept);
    assert |sorted| == |kept| by {
      assert |multiset(sorted)| == |multiset(kept)|;
    }
    var r := sorted[..Min(|sorted|, MaxItems)];
    assert sorted == r + sorted[|r|..];
    assert multiset(r) <= multiset(sorted);
    forall i | 0 <= i < |r| ensures Valid(r[i].pub) && IsMidnight(r[i].pub) && r[i].title != [] {
      assert r[i] == sorted[i] && sorted[i] in sorted;
      var j :| 0 <= j < |kept| && kept[j] == r[i];
    }
  }

  /** One pass of the loop body of extract_recent_news_items: a match whose date parses
      becomes a candidate; a candidate with a title whose key has not been seen is appended
      to the items and its key added to the seen set. */
  method Admit(m: Match, otherJoin: string -> string, ghost candidates: seq<Item>, items: seq<Item>, seen: set<Key>)
    returns (ghost candidates': seq<Item>, items': seq<Item>, seen': set<Key>)
    requires items == Dedup(candidates) && seen == Keys(items)
    ensures candidates' == candidates + (if Candidate(m, otherJoin).Some? then [Candidate(m, otherJoin).value] else [])
    ensures items' == Dedup(candidates') && seen' == Keys(items')
  {
    candidates', items', seen' := candidates, items, seen;
    var candidate := Candidate(m, otherJoin);
    if candidate.Some? {
      var it := candidate.value;
      var key := KeyOf(it);
      DedupStep(candidates, it);
      KeysStep(items, it);
      if it.title != [] && key !in seen {
        seen' := seen + {key};
        items' := items + [it];
      }
      candidates' := candidates + [it];
    }
  }

  /** extract_recent_news_items(page): the loop over the matches keeps the list of items and
      the set of keys seen so far; the result is RecentNewsItems. It is newest first, holds
      min(kept, MaxItems) items, each a midnight-UTC date with a non-empty title, and no two
      of them share a key. */
  method ExtractRecentNewsItems(page: string, scan: string -> seq<Match>, otherJoin: string -> string)
    returns (result: seq<Item>)
    ensures result == RecentNewsItems(page, scan, otherJoin)
    ensures var kept := Dedup(Candidates(scan(SectionOf(page)), otherJoin));
      |result| == Min(|kept|, MaxItems) && multiset(result) <= multiset(kept)
    ensures NewestFirst(result) && UniqueKeys(result) && MidnightItems(result) && TitledItems(result)
  {
    var section := SectionOf(page);
    var ms := scan(section);
    var items: seq<Item> := [];
    var seen: set<Key> := {};
    ghost var candidates: seq<Item> := [];
    var i := 0;
    while i < |ms|
      invariant 0 <= i <= |ms|
      invariant candidates == Candidates(ms[..i], otherJoin)
      invariant items == Dedup(candidates)
      invariant seen == Keys(items)
    {
      CandidatesStep(ms, i, otherJoin);
      candidates, items, seen := Admit(ms[i], otherJoin, candidates, items, seen);
      i := i + 1;
    }
    assert ms[..i] == ms;
    DedupKeepsValid(Candidates(ms, otherJoin));
    DedupShape(Candidates(ms, otherJoin));
    SortedPrefixShape(items);
    items := SortNewestFirst(items);
    result := items[..Min(|items|, MaxItems)];
  }

  /** Sorting keeps each item's properties and the distinctness of keys. */
  lemma SortedKeepsProperties(kept: seq<Item>)
    requires UniqueKeys(kept)
    ensures UniqueKeys(SortNewestFirst(kept))
    ensures forall y :: y in SortNewestFirst(kept) ==> y in kept
  {
    SortNewestFirstSorts(kept);
    PermutationKeepsKeys(kept, SortNewestFirst(kept));
  }

  /** A permutation of a list with distinct keys has distinct keys and no other items. */
  lemma PermutationKeepsKeys(kept: seq<Item>, r: seq<Item>)
    requires UniqueKeys(kept) && multiset(r) == multiset(kept)
    ensures UniqueKeys(r)
    ensures forall y :: y in r ==> y in kept
  {
    forall y | y in r ensures y in kept {
      assert y in multiset(r);
    }
    forall i, j | 0 <= i < j < |r| ensures KeyOf(r[i]) != KeyOf(r[j]) {
      if KeyOf(r[i]) == KeyOf(r[j]) {
        // equal keys in a permutation of a key-distinct list are the same item, seen twice
        assert r[i] in multiset(kept) && r[j] in multiset(kept);
        var a :| 0 <= a < |kept| && kept[a] == r[i];
        var b :| 0 <= b < |kept| && kept[b] == r[j];
        assert a == b;
        OccursTwice(r, i, j);
        UniqueCount(kept, a);
        assert false;
      }
    }
  }

  lemma OccursTwice(r: seq<Item>, i: nat, j: nat)
    requires i < j < |r| && r[i] == r[j]
    ensures multiset(r)[r[i]] >= 2
  {
    assert r == r[..i] + [r[i]] + r[i + 1..j] + [r[j]] + r[j + 1..];
  }

  lemma {:induction false} UniqueCount(s: seq<Item>, a: nat)
    requires UniqueKeys(s) && a < |s|
    ensures multiset(s)[s[a]] == 1
  {
    var x := s[a];
    assert s == s[..a] + [x] + s[a + 1..];
    assert x !in s[..a] by {
      forall k | 0 <= k < a ensures s[..a][k] != x { assert KeyOf(s[k]) != KeyOf(s[a]); }
    }
    assert x !in s[a + 1..] by {
      var t := s[a + 1..];
      forall k | 0 <= k < |t| ensures t[k] != x { assert t[k] == s[a + 1 + k]; }
    }
    assert multiset(s[..a])[x] == 0;
    assert multiset(s[a + 1..])[x] == 0;
  }
}
