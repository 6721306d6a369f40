/** The Python string built-ins the feed generator leans on: str.isspace, str.strip,
    str.lower, str.find, str.split and int(), each on Dafny strings (seq<char>). */
module Text {
  import opened Wrappers

  /** Python's str.isspace for one character: the ASCII controls 0x09-0x0D and 0x1C-0x1F,
      the space, and the Unicode whitespace code points. The regular-expression class \s
      on a str pattern uses the same table. */
  predicate IsSpace(c: char) {
    var n := c as int;
    (9 <= n <= 13) || (28 <= n <= 32) || n == 0x85 || n == 0xA0 || n == 0x1680
    || (0x2000 <= n <= 0x200A) || n == 0x2028 || n == 0x2029 || n == 0x202F
    || n == 0x205F || n == 0x3000
  }

  /** Removes leading whitespace: what is dropped is whitespace, what is kept is a suffix. */
  function TrimStart(s: string): (r: string)
    ensures |r| <= |s| && r == s[|s| - |r|..]
    ensures r == [] || !IsSpace(r[0])
    ensures forall k :: 0 <= k < |s| - |r| ==> IsSpace(s[k])
  {
    if s != [] && IsSpace(s[0]) then TrimStart(s[1..]) else s
  }

  /** Removes trailing whitespace: what is dropped is whitespace, what is kept is a prefix. */
  function TrimEnd(s: string): (r: string)
    ensures |r| <= |s| && r == s[..|r|]
    ensures r == [] || !IsSpace(r[|r| - 1])
    ensures forall k :: |r| <= k < |s| ==> IsSpace(s[k])
  {
    if s != [] && IsSpace(s[|s| - 1]) then TrimEnd(s[..|s| - 1]) else s
  }

  /** Python's str.strip() with no argument: the longest slice of s that neither starts nor
      ends with whitespace, everything outside it being whitespace. */
  function Strip(s: string): (r: string)
    ensures r == [] || (!IsSpace(r[0]) && !IsSpace(r[|r| - 1]))
    ensures var a := |s| - |TrimStart(s)|;
      && a + |r| <= |s| && r == s[a..a + |r|]
      && (forall k :: 0 <= k < a ==> IsSpace(s[k]))
      && (forall k :: a + |r| <= k < |s| ==> IsSpace(s[k]))
  {
    TrimEnd(TrimStart(s))
  }

  /** A string without whitespace at either end is its own strip. */
  lemma StripUnchanged(s: string)
    requires s == [] || (!IsSpace(s[0]) && !IsSpace(s[|s| - 1]))
    ensures Strip(s) == s
  {
  }

  /** Leading whitespace in front of a non-space character is what str.strip removes. */
  lemma {:induction false} TrimStartSkips(ws: string, b: string)
    requires forall i :: 0 <= i < |ws| ==> IsSpace(ws[i])
    requires b == [] || !IsSpace(b[0])
    ensures TrimStart(ws + b) == b
    decreases |ws|
  {
    var s := ws + b;
    if ws == [] {
      assert s == b;
    } else {
      assert s[0] == ws[0] && IsSpace(s[0]);
      assert s[1..] == ws[1..] + b;
      assert TrimStart(s) == TrimStart(s[1..]);
      TrimStartSkips(ws[1..], b);
    }
  }

  function LowerChar(c: char): char {
    if 'A' <= c <= 'Z' then (c as int + 32) as char else c
  }

  /** str.lower() restricted to ASCII letters; it keeps the length, so indices found in the
      lowered text are indices of the original. */
  function Lower(s: string): (r: string)
    ensures |r| == |s|
    ensures forall i :: 0 <= i < |s| ==> r[i] == LowerChar(s[i])
  {
    seq(|s|, i requires 0 <= i < |s| => LowerChar(s[i]))
  }

  /** `needle` occurs in `hay` starting at index i. */
  predicate OccursAt(hay: string, needle: string, i: int) {
    0 <= i && i + |needle| <= |hay| && hay[i..i + |needle|] == needle
  }

  function FindFrom(hay: string, needle: string, i: nat): (r: int)
    decreases |hay| - i
    ensures r == -1 || (i <= r && OccursAt(hay, needle, r))
    ensures r == -1 ==> forall j :: i <= j ==> !OccursAt(hay, needle, j)
    ensures r != -1 ==> forall j :: i <= j < r ==> !OccursAt(hay, needle, j)
  {
    if i + |needle| > |hay| then -1
    else if hay[i..i + |needle|] == needle then i
    else FindFrom(hay, needle, i + 1)
  }

  /** Python's str.find: the lowest index at which `needle` occurs, or -1 when it does not
      occur at all. */
  function Find(hay: string, needle: string): (r: int)
    ensures r == -1 <==> forall j :: !OccursAt(hay, needle, j)
    ensures r != -1 ==> OccursAt(hay, needle, r) && forall j :: 0 <= j < r ==> !OccursAt(hay, needle, j)
  {
    FindFrom(hay, needle, 0)
  }

  /** sep.join(parts) for a one-character separator. */
  function Join(parts: seq<string>, sep: char): string {
    if |parts| == 0 then []
    else if |parts| == 1 then parts[0]
    else parts[0] + [sep] + Join(parts[1..], sep)
  }

  /** Python's str.split(sep) for a one-character separator: at least one field, no field
      holds the separator, and joining the fields back gives the input. */
  function Split(s: string, sep: char): (parts: seq<string>)
    ensures |parts| >= 1
    ensures forall p :: p in parts ==> sep !in p
    ensures Join(parts, sep) == s
  {
    if s == [] then [[]]
    else
      var rest := Split(s[1..], sep);
      if s[0] == sep then
        assert Join([[]] + rest, sep) == [sep] + Join(rest, sep) by {
          assert ([[]] + rest)[1..] == rest;
        }
        [[]] + rest
      else
        var parts := [[s[0]] + rest[0]] + rest[1..];
        assert Join(parts, sep) == [s[0]] + Join(rest, sep) by {
          if |rest| > 1 {
            assert parts[1..] == rest[1..];
          }
        }
        parts
  }

  lemma {:induction false} SplitFieldThenRest(p: string, sep: char, t: string)
    requires sep !in p
    ensures Split(p + [sep] + t, sep) == [p] + Split(t, sep)
    decreases |p|
  {
    var s := p + [sep] + t;
    if p == [] {
      assert s[1..] == t;
    } else {
      assert s[1..] == p[1..] + [sep] + t;
      SplitFieldThenRest(p[1..], sep, t);
      assert [p[0]] + p[1..] == p;
    }
  }

  lemma {:induction false} SplitSingleField(p: string, sep: char)
    requires sep !in p
    ensures Split(p, sep) == [p]
    decreases |p|
  {
    if p != [] {
      SplitSingleField(p[1..], sep);
      assert [p[0]] + p[1..] == p;
    }
  }

  /** The converse round trip: splitting a join of separator-free fields gives the fields back. */
  lemma {:induction false} SplitJoin(parts: seq<string>, sep: char)
    requires |parts| >= 1
    requires forall p :: p in parts ==> sep !in p
    ensures Split(Join(parts, sep), sep) == parts
    decreases |parts|
  {
    if |parts| == 1 {
      SplitSingleField(parts[0], sep);
    } else {
      assert parts[0] in parts;
      SplitJoin(parts[1..], sep);
      SplitFieldThenRest(parts[0], sep, Join(parts[1..], sep));
      assert [parts[0]] + parts[1..] == parts;
    }
  }

  predicate IsDigit(c: char) {
    '0' <= c <= '9'
  }

  predicate AllDigits(s: string) {
    forall i :: 0 <= i < |s| ==> IsDigit(s[i])
  }

  /** The value of a string of decimal digits, most significant first. */
  function DigitsValue(s: string): nat
    requires AllDigits(s)
    decreases |s|
  {
    if s == [] then 0 else DigitsValue(s[..|s| - 1]) * 10 + (s[|s| - 1] as int - '0' as int)
  }

  function DigitChar(d: nat): (c: char)
    requires d < 10
    ensures IsDigit(c) && c as int - '0' as int == d
  {
    (d + '0' as int) as char
  }

  /** The shortest decimal spelling of n (str(n) for a non-negative int): digits only, no
      leading zero, and reading it back gives n. */
  function Decimal(n: nat): (r: string)
    ensures |r| >= 1 && AllDigits(r)
    ensures DigitsValue(r) == n
    ensures r[0] != '0' || n == 0
    ensures n < 10 ==> |r| == 1
    ensures 10 <= n < 100 ==> |r| == 2
    ensures 1000 <= n < 10000 ==> |r| == 4
  {
    if n < 10 then [DigitChar(n)]
    else
      var r := Decimal(n / 10) + [DigitChar(n % 10)];
      assert r[..|r| - 1] == Decimal(n / 10);
      r
  }

  /** Two digits with a leading zero, as strftime writes %d, %H, %M and %S. */
  function Pad2(n: nat): (r: string)
    requires n < 100
    ensures |r| == 2 && AllDigits(r) && DigitsValue(r) == n
  {
    var r := [DigitChar(n / 10), DigitChar(n % 10)];
    assert r[..1] == [DigitChar(n / 10)] && r[..1][..0] == [];
    assert DigitsValue(r[..1]) == n / 10;
    r
  }

  /** The digits of a digit group with its '_' separators removed. */
  function DigitsOnly(b: string): (r: string)
    requires forall i :: 0 <= i < |b| ==> IsDigit(b[i]) || b[i] == '_'
    ensures AllDigits(r)
    ensures AllDigits(b) ==> r == b
  {
    if b == [] then []
    else if b[0] == '_' then DigitsOnly(b[1..])
    else [b[0]] + DigitsOnly(b[1..])
  }

  /** The text int() accepts after its sign: digits, single underscores between digits. */
  predicate IsDigitGroup(b: string) {
    && |b| > 0 && IsDigit(b[0]) && IsDigit(b[|b| - 1])
    && (forall i :: 0 <= i < |b| ==> IsDigit(b[i]) || b[i] == '_')
    && (forall i :: 0 <= i < |b| - 1 ==> !(b[i] == '_' && b[i + 1] == '_'))
  }

  /** The whitespace int() skips around its number: every str.isspace character except the
      ASCII separators 0x1C-0x1F, which int() does not skip. */
  predicate IsIntSpace(c: char) {
    IsSpace(c) && !(28 <= c as int <= 31)
  }

  /** s without the whitespace int() skips at either end: what is left neither starts nor
      ends with such whitespace and holds only characters of s. */
  function IntCore(s: string): (r: string)
    ensures r == [] || (!IsIntSpace(r[0]) && !IsIntSpace(r[|r| - 1]))
    ensures |r| <= |s| && forall c :: c in r ==> c in s
    ensures (s == [] || (!IsIntSpace(s[0]) && !IsIntSpace(s[|s| - 1]))) ==> r == s
    decreases |s|
  {
    if s != [] && IsIntSpace(s[0]) then IntCore(s[1..])
    else if s != [] && IsIntSpace(s[|s| - 1]) then IntCore(s[..|s| - 1])
    else s
  }

  /** Python's int(text) in base 10: surrounding whitespace, an optional sign, then a digit
      group; None stands for the ValueError it raises on anything else. A number needs a
      digit, so blank text is rejected, and a negative number comes from a '-'. */
  function ParseInt(s: string): (r: Option<int>)
    ensures r.Some? ==> exists c :: c in s && IsDigit(c)
    ensures r.Some? && r.value < 0 ==> '-' in s
    ensures (forall i :: 0 <= i < |s| ==> IsIntSpace(s[i])) ==> r.None?
  {
    var t := IntCore(s);
    var signed := |t| > 0 && (t[0] == '-' || t[0] == '+');
    var body := if signed then t[1..] else t;
    if !IsDigitGroup(body) then None
    else
      assert body[0] in t;
      var v: int := DigitsValue(DigitsOnly(body));
      if signed && t[0] == '-' then Some(-v) else Some(v)
  }

  /** int() does not skip the ASCII separators that str.strip() removes: "5" followed by
      U+001C is rejected, while "5" followed by a newline reads as 5. */
  lemma ParseIntSeparator()
    ensures ParseInt(['5', 28 as char]) == None
    ensures ParseInt(['5', '\n']) == Some(5)
  {
    var a, b := ['5', 28 as char], ['5', '\n'];
    assert IntCore(a) == a;
    assert IntCore(b) == IntCore(b[..1]) && b[..1] == "5";
    assert DigitsOnly("5") == "5";
    assert DigitsValue("5") == DigitsValue("5"[..0]) * 10 + 5;
  }

  /** int() reads back a string of plain digits as its decimal value. */
  lemma ParseIntDigits(s: string)
    requires |s| > 0 && AllDigits(s)
    ensures ParseInt(s) == Some(DigitsValue(s))
  {
    var t := IntCore(s);
    assert t == s;
    assert !(t[0] == '-' || t[0] == '+');
    assert IsDigitGroup(t) by {
      forall i | 0 <= i < |t| - 1 ensures !(t[i] == '_' && t[i + 1] == '_') {
        assert IsDigit(t[i]);
      }
    }
    assert DigitsOnly(t) == s;
  }

  /** int(str(n)) == n for every natural number n. */
  lemma ParseIntDecimal(n: nat)
    ensures ParseInt(Decimal(n)) == Some(n)
  {
    ParseIntDigits(Decimal(n));
  }
}
