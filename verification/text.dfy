/** The java.lang.String and java.lang.Integer behaviour the modelled code
    relies on: trim, ASCII lower-casing, Integer.parseInt / Integer.toString,
    joining, and String.compareTo ordering (on UTF-16 code units) for
    sorting column names. */
module Text {
  import opened Wrappers

  // ---------------------------------------------------------------------------
  // trim() and isEmpty()

  /** String.trim() strips every leading and trailing char at or below U+0020. */
  predicate Trimmable(c: char) {
    c <= ' '
  }

  /** Drops the leading trimmable chars. */
  function TrimStart(s: string): string
    decreases |s|
  {
    if s != [] && Trimmable(s[0]) then TrimStart(s[1..]) else s
  }

  /** Drops the trailing trimmable chars. */
  function TrimEnd(s: string): string
    decreases |s|
  {
    if s != [] && Trimmable(s[|s| - 1]) then TrimEnd(s[..|s| - 1]) else s
  }

  /** `TrimStart` leaves a suffix that starts with a kept char, and drops only trimmable chars. */
  lemma {:induction false} TrimStartSpec(s: string)
    ensures var r := TrimStart(s);
      && |r| <= |s| && r == s[|s| - |r|..]
      && (r == [] || !Trimmable(r[0]))
      && forall i | 0 <= i < |s| - |r| :: Trimmable(s[i])
    decreases |s|
  {
    if s != [] && Trimmable(s[0]) {
      var t := s[1..];
      TrimStartSpec(t);
      var r := TrimStart(t);
      assert t[|t| - |r|..] == s[|s| - |r|..];
      forall i | 0 <= i < |s| - |r| ensures Trimmable(s[i]) {
        if i > 0 {
          assert s[i] == t[i - 1];
        }
      }
    }
  }

  /** `TrimEnd` leaves a prefix that ends with a kept char, and drops only trimmable chars. */
  lemma {:induction false} TrimEndSpec(s: string)
    ensures var r := TrimEnd(s);
      && |r| <= |s| && r == s[..|r|]
      && (r == [] || !Trimmable(r[|r| - 1]))
      && forall i | |r| <= i < |s| :: Trimmable(s[i])
    decreases |s|
  {
    if s != [] && Trimmable(s[|s| - 1]) {
      var t := s[..|s| - 1];
      TrimEndSpec(t);
      var r := TrimEnd(t);
      assert t[..|r|] == s[..|r|];
      forall i | |r| <= i < |s| ensures Trimmable(s[i]) {
        if i < |s| - 1 {
          assert s[i] == t[i];
        }
      }
    }
  }

  /** Java's `s.trim()`. */
  function Trim(s: string): string {
    TrimEnd(TrimStart(s))
  }

  /** Java's `s.trim().isEmpty()`. */
  predicate IsBlank(s: string) {
    Trim(s) == []
  }

  lemma {:induction false} TrimStartAllTrimmable(s: string)
    requires forall i | 0 <= i < |s| :: Trimmable(s[i])
    ensures TrimStart(s) == []
    decreases |s|
  {
    if s != [] {
      var t := s[1..];
      forall i | 0 <= i < |t| ensures Trimmable(t[i]) {
        assert t[i] == s[i + 1];
      }
      TrimStartAllTrimmable(t);
    }
  }

  /** A kept char survives `TrimStart`, at its offset in the suffix left. */
  lemma {:induction false} TrimStartKeeps(s: string, k: nat)
    requires k < |s| && !Trimmable(s[k])
    ensures |s| - |TrimStart(s)| <= k
    ensures TrimStart(s)[k - (|s| - |TrimStart(s)|)] == s[k]
  {
    TrimStartSpec(s);
  }

  /** A kept char anywhere keeps `TrimEnd` from emptying the string. */
  lemma {:induction false} TrimEndKeeps(t: string, j: nat)
    requires j < |t| && !Trimmable(t[j])
    ensures TrimEnd(t) != []
  {
    TrimEndSpec(t);
  }

  /** A string is blank exactly when every char of it would be trimmed away. */
  lemma BlankIffAllTrimmable(s: string)
    ensures IsBlank(s) <==> forall i | 0 <= i < |s| :: Trimmable(s[i])
  {
    if k :| 0 <= k < |s| && !Trimmable(s[k]) {
      TrimStartKeeps(s, k);
      TrimEndKeeps(TrimStart(s), k - (|s| - |TrimStart(s)|));
    } else {
      TrimStartAllTrimmable(s);
    }
  }

  /** The trimmed string is the middle of the original, with nothing trimmable at either end. */
  lemma TrimShape(s: string)
    ensures var t := Trim(s);
      && |t| <= |s|
      && (t == [] || (!Trimmable(t[0]) && !Trimmable(t[|t| - 1])))
      && |TrimStart(s)| <= |s|
      && var a := |s| - |TrimStart(s)|; a + |t| <= |s| && t == s[a..a + |t|]
  {
    var u := TrimStart(s);
    var t := TrimEnd(u);
    TrimStartSpec(s);
    TrimEndSpec(u);
    assert |t| > 0 ==> t[0] == u[0];
  }

  lemma TrimIdempotent(s: string)
    ensures Trim(Trim(s)) == Trim(s)
  {
    TrimShape(s);
    var t := Trim(s);
    if t != [] {
      assert TrimStart(t) == t;
      assert TrimEnd(t) == t;
    }
  }

  /** Text with nothing trimmable at either end is its own trim. */
  lemma TrimKeeps(s: string)
    requires s == [] || (!Trimmable(s[0]) && !Trimmable(s[|s| - 1]))
    ensures Trim(s) == s
  {
    assert TrimStart(s) == s;
  }

  // ---------------------------------------------------------------------------
  // Lower-casing (ASCII only: the tokens compared against are ASCII words)

  function LowerChar(c: char): (d: char)
    ensures 'A' <= c <= 'Z' ==> 'a' <= d <= 'z'
    ensures !('A' <= c <= 'Z') ==> d == c
  {
    if 'A' <= c <= 'Z' then (c as int + 32) as char else c
  }

  function Lower(s: string): (r: string)
    ensures |r| == |s|
    ensures forall i | 0 <= i < |s| :: r[i] == LowerChar(s[i])
  {
    seq(|s|, i requires 0 <= i < |s| => LowerChar(s[i]))
  }

  // ---------------------------------------------------------------------------
  // Integer.parseInt and Integer.toString (java.lang.Integer is 32-bit)

  const MinInt32: int := -0x8000_0000
  const MaxInt32: int := 0x7FFF_FFFF

  type Int32 = x: int | MinInt32 <= x <= MaxInt32

  predicate IsDigit(c: char) {
    '0' <= c <= '9'
  }

  predicate AllDigits(s: string) {
    forall i | 0 <= i < |s| :: IsDigit(s[i])
  }

  function DigitValue(c: char): nat
    requires IsDigit(c)
  {
    c as int - '0' as int
  }

  function DigitChar(d: nat): (c: char)
    requires d < 10
    ensures IsDigit(c) && DigitValue(c) == d
  {
    ('0' as int + d) as char
  }

  /** The value of a run of decimal digits, most significant first. */
  function DigitsValue(s: string): nat
    requires AllDigits(s)
    decreases |s|
  {
    if s == [] then 0 else DigitsValue(s[..|s| - 1]) * 10 + DigitValue(s[|s| - 1])
  }

  /** Integer.parseInt(s): an optional `+` or `-`, then at least one decimal
      digit, with the value inside the 32-bit range; anything else throws
      NumberFormatException, modelled as None. */
  function ParseInt(s: string): (r: Option<Int32>)
    ensures r.Some? ==> |s| > 0 && (IsDigit(s[0]) || s[0] == '+' || s[0] == '-')
    ensures r.Some? ==> AllDigits(s[1..])
  {
    if |s| == 0 then None
    else
      var negative := s[0] == '-';
      var body := if s[0] == '-' || s[0] == '+' then s[1..] else s;
      if |body| == 0 || !AllDigits(body) then None
      else
        var v := if negative then -(DigitsValue(body) as int) else DigitsValue(body) as int;
        if MinInt32 <= v <= MaxInt32 then Some(v) else None
  }

  /** The decimal digits of a natural number, without leading zeros. */
  function NatToString(n: nat): (r: string)
    ensures |r| > 0 && AllDigits(r)
    ensures DigitsValue(r) == n
    ensures |r| > 1 ==> r[0] != '0'
    decreases n
  {
    if n < 10 then [DigitChar(n)]
    else
      var prefix := NatToString(n / 10);
      var r := prefix + [DigitChar(n % 10)];
      assert r[..|r| - 1] == prefix;
      r
  }

  /** Integer.toString(n). */
  function IntToString(n: int): (r: string)
    ensures |r| > 0
    ensures n < 0 <==> r[0] == '-'
    ensures n >= 0 ==> AllDigits(r)
    ensures n < 0 ==> |r| > 1 && AllDigits(r[1..])
  {
    if n < 0 then "-" + NatToString(-n) else NatToString(n)
  }

  /** Integer.parseInt inverts Integer.toString on the whole 32-bit range. */
  lemma ParseIntOfToString(n: Int32)
    ensures ParseInt(IntToString(n)) == Some(n)
  {
    var s := IntToString(n);
    if n < 0 {
      var m: nat := -(n as int);
      var body := NatToString(m);
      assert s == "-" + body && s[1..] == body;
      assert DigitsValue(body) == m;
    } else {
      assert s == NatToString(n);
      assert IsDigit(s[0]);
    }
  }

  // ---------------------------------------------------------------------------
  // Joining and searching

  /** The parts written one after the other, as a chain of `+` builds a
      message. */
  function Concat(parts: seq<string>): string
    decreases |parts|
  {
    if parts == [] then [] else parts[0] + Concat(parts[1..])
  }

  /** String.join(sep, parts). */
  function Join(parts: seq<string>, sep: string): (r: string)
    ensures |parts| == 1 ==> r == parts[0]
    decreases |parts|
  {
    if |parts| == 0 then ""
    else if |parts| == 1 then parts[0]
    else parts[0] + sep + Join(parts[1..], sep)
  }

  /** String.contains for a single character. */
  predicate Contains(s: string, c: char) {
    exists i | 0 <= i < |s| :: s[i] == c
  }

  predicate StartsWith(s: string, prefix: string) {
    |prefix| <= |s| && s[..|prefix|] == prefix
  }

  predicate EndsWith(s: string, suffix: string) {
    |suffix| <= |s| && s[|s| - |suffix|..] == suffix
  }

  // ---------------------------------------------------------------------------
  // Sequence facts the proofs share

  /** Concatenation with a non-empty front: its head, then its tail. */
  lemma ConsTail<T>(a: seq<T>, b: seq<T>)
    requires a != []
    ensures (a + b)[0] == a[0] && (a + b)[1..] == a[1..] + b
  {
  }

  /** Moving the head of a non-empty sequence onto what precedes it. */
  lemma AppendHead<T>(acc: seq<T>, s: seq<T>)
    requires s != []
    ensures acc + [s[0]] + s[1..] == acc + s
  {
    assert [s[0]] + s[1..] == s;
  }

  /** Regrouping four concatenated sequences. */
  lemma Assoc<T>(a: seq<T>, b: seq<T>, c: seq<T>, d: seq<T>)
    ensures a + b + c + d == a + (b + c + d)
    ensures a + b + c + d == a + (b + (c + d))
    ensures a + b + c + d == (a + (b + c)) + d
    ensures (b + c) + d == b + (c + d)
  {
  }

  // ---------------------------------------------------------------------------
  // String.compareTo order and sorted, duplicate-free lists of names

  /** A character's place in UTF-16 code-unit order. Characters below U+D800
      keep their value; supplementary characters, whose first code unit is a
      high surrogate, come next; U+E000-U+FFFF come last. */
  function Utf16Rank(c: char): int {
    if c as int < 0xD800 then c as int
    else if c as int >= 0x10000 then c as int - 0x10000 + 0xD800
    else c as int + 0x100000
  }

  /** `a.compareTo(b) < 0`: lexicographic by character in UTF-16 order, a
      proper prefix first. */
  predicate Less(a: string, b: string)
    decreases |a|
  {
    if a == [] then b != []
    else if b == [] then false
    else if a[0] != b[0] then Utf16Rank(a[0]) < Utf16Rank(b[0])
    else Less(a[1..], b[1..])
  }

  /** The UTF-16 code units of one character: itself below U+10000, otherwise
      a high and a low surrogate. */
  function CodeUnits(c: char): (u: seq<int>)
    ensures 1 <= |u| <= 2
  {
    if c as int < 0x10000 then [c as int]
    else [0xD800 + (c as int - 0x10000) / 0x400, 0xDC00 + (c as int - 0x10000) % 0x400]
  }

  /** The UTF-16 code units of a string, which is what a Java String holds:
      one unit per character, and a second one per character above U+FFFF. */
  function Utf16(s: string): (u: seq<int>)
    ensures |s| <= |u| <= 2 * |s|
    ensures (forall k | 0 <= k < |s| :: s[k] as int < 0x10000) ==> |u| == |s|
    ensures s != [] && s[0] as int >= 0x10000 ==> |u| > |s|
  {
    if s == [] then [] else CodeUnits(s[0]) + Utf16(s[1..])
  }

  /** The code units of a concatenation are those of its parts, in order. */
  lemma {:induction false} Utf16Append(a: string, b: string)
    ensures Utf16(a + b) == Utf16(a) + Utf16(b)
    decreases |a|
  {
    if a == [] {
      assert a + b == b;
    } else {
      ConsTail(a, b);
      Utf16Append(a[1..], b);
    }
  }

  /** The index a Java String gives the character at `pos`: the number of
      code units before it. */
  function UnitIndex(s: string, pos: nat): (n: nat)
    requires pos <= |s|
    ensures pos <= n <= 2 * pos
    ensures (forall k | 0 <= k < pos :: s[k] as int < 0x10000) ==> n == pos
    ensures pos > 0 && s[0] as int >= 0x10000 ==> n > pos
  {
    assert forall k | 0 <= k < pos :: s[..pos][k] == s[k];
    |Utf16(s[..pos])|
  }

  /** String.compareTo as Java defines it: the first differing code unit
      decides, and otherwise the shorter string comes first. */
  predicate UnitsLess(a: seq<int>, b: seq<int>)
    decreases |a|
  {
    if a == [] then b != []
    else if b == [] then false
    else if a[0] != b[0] then a[0] < b[0]
    else UnitsLess(a[1..], b[1..])
  }

  /** A common prefix of code units does not change the comparison. */
  lemma {:induction false} UnitsLessPrefix(p: seq<int>, x: seq<int>, y: seq<int>)
    ensures UnitsLess(p + x, p + y) == UnitsLess(x, y)
    decreases |p|
  {
    if p == [] {
      assert p + x == x && p + y == y;
    } else {
      assert (p + x)[0] == (p + y)[0];
      assert (p + x)[1..] == p[1..] + x;
      assert (p + y)[1..] == p[1..] + y;
      UnitsLessPrefix(p[1..], x, y);
    }
  }

  /** Splits an offset into a supplementary plane into its surrogate halves. */
  lemma SurrogateHalves(x: int, y: int)
    requires 0 <= x < 0x100000 && 0 <= y < 0x100000
    ensures x < y <==> x / 0x400 < y / 0x400 || (x / 0x400 == y / 0x400 && x % 0x400 < y % 0x400)
  {
    assert x == 0x400 * (x / 0x400) + x % 0x400;
    assert y == 0x400 * (y / 0x400) + y % 0x400;
  }

  /** Two different first characters decide the comparison of the code units
      by their UTF-16 rank. */
  lemma FirstCharDecides(c: char, d: char, x: seq<int>, y: seq<int>)
    requires c != d
    ensures UnitsLess(CodeUnits(c) + x, CodeUnits(d) + y) <==> Utf16Rank(c) < Utf16Rank(d)
  {
    var u, v := CodeUnits(c) + x, CodeUnits(d) + y;
    if c as int >= 0x10000 && d as int >= 0x10000 {
      SurrogateHalves(c as int - 0x10000, d as int - 0x10000);
      if u[0] == v[0] {
        assert u[1..][0] == CodeUnits(c)[1] && v[1..][0] == CodeUnits(d)[1];
      }
    }
  }

  /** Less is String.compareTo on the UTF-16 code units. */
  lemma {:induction false} LessIsUtf16Order(a: string, b: string)
    ensures Less(a, b) <==> UnitsLess(Utf16(a), Utf16(b))
    decreases |a|
  {
    if a != [] && b != [] {
      if a[0] == b[0] {
        UnitsLessPrefix(CodeUnits(a[0]), Utf16(a[1..]), Utf16(b[1..]));
        LessIsUtf16Order(a[1..], b[1..]);
      } else {
        FirstCharDecides(a[0], b[0], Utf16(a[1..]), Utf16(b[1..]));
      }
    }
  }

  /** A supplementary character sorts before U+E000-U+FFFF, as its high
      surrogate does, though its code point is larger. */
  lemma SupplementaryBeforePrivateUse()
    ensures Less([0x1F600 as char], [0xE000 as char])
    ensures Less([0xD7FF as char], [0x10000 as char])
  {
  }

  lemma {:induction false} LessIrreflexive(a: string)
    ensures !Less(a, a)
    decreases |a|
  {
    if a != [] {
      LessIrreflexive(a[1..]);
    }
  }

  lemma {:induction false} LessTransitive(a: string, b: string, c: string)
    requires Less(a, b) && Less(b, c)
    ensures Less(a, c)
    decreases |a|
  {
    if a != [] && b != [] && c != [] && a[0] == b[0] && b[0] == c[0] {
      LessTransitive(a[1..], b[1..], c[1..]);
    }
  }

  lemma {:induction false} LessTotal(a: string, b: string)
    requires a != b
    ensures Less(a, b) || Less(b, a)
    decreases |a|
  {
    if a != [] && b != [] && a[0] == b[0] {
      assert a == [a[0]] + a[1..] && b == [b[0]] + b[1..];
      LessTotal(a[1..], b[1..]);
    }
  }

  /** Strictly increasing, hence also free of duplicates. */
  predicate SortedStrict(s: seq<string>) {
    forall i, j | 0 <= i < j < |s| :: Less(s[i], s[j])
  }

  /** Inserts `x` at its place in a sorted list, unless it is already there. */
  function Insert(s: seq<string>, x: string): (r: seq<string>)
    requires SortedStrict(s)
    ensures SortedStrict(r)
    ensures forall y :: y in r <==> y in s || y == x
    decreases |s|
  {
    if s == [] then [x]
    else if s[0] == x then s
    else if Less(x, s[0]) then
      assert forall j | 0 < j < |s| :: Less(x, s[j]) by {
        forall j | 0 < j < |s| ensures Less(x, s[j]) {
          LessTransitive(x, s[0], s[j]);
        }
      }
      [x] + s
    else
      LessTotal(x, s[0]);
      var tail := Insert(s[1..], x);
      assert forall y | y in tail :: Less(s[0], y);
      [s[0]] + tail
  }

  /** Sorts a list of names ascending, dropping duplicates. */
  function SortDistinct(names: seq<string>): (r: seq<string>)
    ensures SortedStrict(r)
    ensures forall y :: y in r <==> y in names
    decreases |names|
  {
    if names == [] then []
    else Insert(SortDistinct(names[..|names| - 1]), names[|names| - 1])
  }
}
