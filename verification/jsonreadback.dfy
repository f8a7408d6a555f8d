/** Reading JsonWriter output back with JsonParser: the parser depends only
    on the text from its cursor on, escaped strings decode to the text that
    was escaped, and written values and object members parse back to the
    values and members that were written. */
module JsonReadBack {
  import opened Wrappers
  import opened Errors
  import opened Text
  import opened Values
  import opened DataRows
  import opened ParserBase
  import opened JsonWriting
  import P = JsonParsing

  // ---------------------------------------------------------------------------
  // The parser looks only at the text from its cursor on

  /** Moves the position of a successful parse result by `d`. */
  function Shift<T>(r: P.Parsed<T>, d: nat): (m: P.Parsed<T>)
    ensures r.Err? ==> m == r
    ensures r.Ok? ==> m.Ok? && m.value.0 == r.value.0 && m.value.1 == r.value.1 + d
  {
    if r.Err? then r else Ok((r.value.0, r.value.1 + d))
  }

  /** `s` is `d` characters followed by the text `t`. */
  predicate Tail(s: string, d: nat, t: string)
    decreases |t|
  {
    |s| == d + |t| && (t == [] || (s[d] == t[0] && Tail(s, d + 1, t[1..])))
  }

  /** The characters of `t` are those of `s` from `d` on. */
  lemma {:induction false} At(s: string, d: nat, t: string, k: nat)
    requires Tail(s, d, t) && k < |t|
    ensures s[d + k] == t[k]
    decreases k
  {
    if k > 0 {
      At(s, d + 1, t[1..], k - 1);
    }
  }

  lemma {:induction false} TailFrom(prefix: string, rest: string, i: nat)
    requires i <= |rest|
    ensures Tail(prefix + rest, |prefix| + i, rest[i..])
    decreases |rest| - i
  {
    if i < |rest| {
      TailFrom(prefix, rest, i + 1);
      assert rest[i..][1..] == rest[i + 1..];
    }
  }

  /** What follows a prefix is the text that was appended to it. */
  lemma {:induction false} AfterPrefix(prefix: string, rest: string)
    ensures Tail(prefix + rest, |prefix|, rest)
  {
    TailFrom(prefix, rest, 0);
    assert rest[0..] == rest;
  }
  lemma {:induction false} SliceAgrees(s: string, d: nat, t: string, j: nat, e: nat)
    requires Tail(s, d, t) && j <= e <= |t|
    ensures s[d + j..d + e] == t[j..e]
  {
    var a, b := s[d + j..d + e], t[j..e];
    forall k | 0 <= k < e - j ensures a[k] == b[k] {
      At(s, d, t, j + k);
    }
  }

  /** What a successful string body has read first: the closing quote, an
      escape the parser knows, or a character taken as it is. */
  lemma {:induction false} BodyOk(s: string, i: nat)
    requires i <= |s| && P.StringBody(s, i).Ok?
    ensures i < |s|
    ensures s[i] == '\\' ==> i + 1 < |s| && P.Unescape(s[i + 1]).Some? && P.StringBody(s, i + 2).Ok?
    ensures s[i] != '"' && s[i] != '\\' ==> P.StringBody(s, i + 1).Ok?
  {
  }

  lemma {:induction false} BodyEscapeStep(s: string, i: nat)
    requires i + 1 < |s| && s[i] == '\\' && P.Unescape(s[i + 1]).Some? && P.StringBody(s, i + 2).Ok?
    ensures P.StringBody(s, i) == Ok(([P.Unescape(s[i + 1]).value] + P.StringBody(s, i + 2).value.0, P.StringBody(s, i + 2).value.1))
  {
  }

  lemma {:induction false} BodyPlainStep(s: string, i: nat)
    requires i < |s| && s[i] != '"' && s[i] != '\\' && P.StringBody(s, i + 1).Ok?
    ensures P.StringBody(s, i) == Ok(([s[i]] + P.StringBody(s, i + 1).value.0, P.StringBody(s, i + 1).value.1))
  {
  }

  lemma {:induction false} BodyAgrees(s: string, d: nat, t: string, j: nat)
    requires Tail(s, d, t) && j <= |t|
    ensures P.StringBody(t, j).Ok? ==> P.StringBody(s, d + j) == Shift(P.StringBody(t, j), d)
    decreases |t| - j, 1
  {
    if P.StringBody(t, j).Ok? {
      BodyOk(t, j);
      At(s, d, t, j);
      if t[j] == '\\' {
        EscapeAgrees(s, d, t, j);
      } else if t[j] != '"' {
        PlainAgrees(s, d, t, j);
      }
    }
  }

  lemma {:induction false} EscapeAgrees(s: string, d: nat, t: string, j: nat)
    requires Tail(s, d, t) && j + 1 < |t| && t[j] == '\\'
    requires P.Unescape(t[j + 1]).Some? && P.StringBody(t, j + 2).Ok?
    ensures P.StringBody(s, d + j) == Shift(P.StringBody(t, j), d)
    decreases |t| - j, 0
  {
    At(s, d, t, j);
    At(s, d, t, j + 1);
    BodyAgrees(s, d, t, j + 2);
    BodyEscapeStep(s, d + j);
    BodyEscapeStep(t, j);
  }

  lemma {:induction false} PlainAgrees(s: string, d: nat, t: string, j: nat)
    requires Tail(s, d, t) && j < |t| && t[j] != '"' && t[j] != '\\'
    requires P.StringBody(t, j + 1).Ok?
    ensures P.StringBody(s, d + j) == Shift(P.StringBody(t, j), d)
    decreases |t| - j, 0
  {
    var k := d + j;
    At(s, d, t, j);
    BodyAgrees(s, d, t, j + 1);
    assert d + (j + 1) == k + 1;
    var inner := P.StringBody(t, j + 1).value;
    assert P.StringBody(s, k + 1) == Ok((inner.0, inner.1 + d));
    BodyPlainStep(s, k);
    BodyPlainStep(t, j);
  }

  lemma {:induction false} StringAgrees(s: string, d: nat, t: string, j: nat)
    requires Tail(s, d, t) && j <= |t|
    ensures P.ParseString(t, j).Ok? ==> P.ParseString(s, d + j) == Shift(P.ParseString(t, j), d)
  {
    if j < |t| {
      At(s, d, t, j);
    }
    if j < |t| && t[j] == '"' {
      BodyAgrees(s, d, t, j + 1);
    }
  }

  lemma {:induction false} WordAgrees(s: string, d: nat, t: string, j: nat, w: string)
    requires Tail(s, d, t) && j <= |t|
    ensures P.ConsumeWord(t, j, w).Ok? ==> P.ConsumeWord(s, d + j, w) == Ok(d + P.ConsumeWord(t, j, w).value)
  {
    P.ConsumeWordMatches(t, j, w);
    if P.ConsumeWord(t, j, w).Ok? {
      SliceAgrees(s, d, t, j, j + |w|);
      P.ConsumeWordMatches(s, d + j, w);
    }
  }

  /** What follows the first `|a|` characters of `a + b` is `b`. */
  lemma {:induction false} TailSplit(s: string, i: nat, a: string, b: string)
    requires Tail(s, i, a + b)
    ensures Tail(s, i + |a|, b)
    decreases |a|
  {
    if a == [] {
      assert a + b == b;
    } else {
      assert (a + b)[1..] == a[1..] + b;
      TailSplit(s, i + 1, a[1..], b);
    }
  }

  /** The first `|a|` characters at `i` are `a`. */
  lemma {:induction false} PrefixAt(s: string, i: nat, a: string, b: string)
    requires Tail(s, i, a + b)
    ensures i + |a| <= |s| && s[i..i + |a|] == a
  {
    SliceAgrees(s, i, a + b, 0, |a|);
    assert (a + b)[0..|a|] == a;
  }

  /** `skipWhitespace` passes exactly over a run of whitespace. */
  lemma {:induction false} SkipWsOver(s: string, i: nat, w: string, rest: string)
    requires Tail(s, i, w + rest)
    requires forall k | 0 <= k < |w| :: P.IsWhitespace(w[k])
    requires rest == [] || !P.IsWhitespace(rest[0])
    ensures P.SkipWs(s, i) == i + |w|
    decreases |w|
  {
    if w == [] {
      assert w + rest == rest;
      if rest != [] {
        At(s, i, rest, 0);
      }
    } else {
      At(s, i, w + rest, 0);
      assert (w + rest)[1..] == w[1..] + rest;
      SkipWsOver(s, i + 1, w[1..], rest);
    }
  }

  /** The digit run of a number passes exactly over a run of digits. */
  lemma {:induction false} SkipDigitsOver(s: string, i: nat, w: string, rest: string)
    requires Tail(s, i, w + rest) && AllDigits(w)
    requires rest == [] || !IsDigit(rest[0])
    ensures SkipDigits(s, i) == i + |w|
    decreases |w|
  {
    if w == [] {
      assert w + rest == rest;
      if rest != [] {
        At(s, i, rest, 0);
      }
    } else {
      At(s, i, w + rest, 0);
      assert (w + rest)[1..] == w[1..] + rest;
      SkipDigitsOver(s, i + 1, w[1..], rest);
    }
  }

  // ---------------------------------------------------------------------------
  // Reading escaped strings back with the parser

  /** The characters the parser can read back from their escaped form:
      anything from a space on, and the five named controls. */
  predicate Readable(s: string) {
    forall k | 0 <= k < |s| :: s[k] >= ' ' || NamedControl(s[k])
  }

  /** Reading on after `prefix` is reading `rest` from its start. */
  lemma {:induction false} BodySkips(prefix: string, rest: string)
    requires P.StringBody(rest, 0).Ok?
    ensures P.StringBody(prefix + rest, |prefix|) == Shift(P.StringBody(rest, 0), |prefix|)
  {
    AfterPrefix(prefix, rest);
    BodyAgrees(prefix + rest, |prefix|, rest, 0);
  }

  /** One escaped character in front of `w` is decoded back to itself, in
      front of whatever `w` decodes to. */
  lemma {:induction false} CharReadsBack(c: char, w: string)
    requires c >= ' ' || NamedControl(c)
    requires P.StringBody(w, 0).Ok?
    ensures var r := P.StringBody(w, 0).value;
      P.StringBody(EscapeChar(c) + w, 0) == Ok(([c] + r.0, r.1 + |EscapeChar(c)|))
  {
    var e := EscapeChar(c);
    BodySkips(e, w);
    if c == '"' || c == '\\' || NamedControl(c) {
      assert (e + w)[0] == '\\' && (e + w)[1] == e[1];
      assert P.Unescape(e[1]) == Some(c);
    } else {
      assert (e + w)[0] == c;
    }
  }

  /** The closing quote ends the body with nothing decoded. */
  lemma {:induction false} BodyEnds(rest: string)
    ensures P.StringBody("\"" + rest, 0) == Ok(([], 1))
  {
    assert ("\"" + rest)[0] == '"';
  }

  lemma {:induction false} EmptyFront(a: string, b: string)
    requires a == []
    ensures a + b == b
  {
  }

  lemma {:induction false} ReadableTail(t: string)
    requires t != [] && Readable(t)
    ensures t[0] >= ' ' || NamedControl(t[0])
    ensures Readable(t[1..])
  {
    forall k | 0 <= k < |t[1..]| ensures t[1..][k] >= ' ' || NamedControl(t[1..][k]) {
      assert t[1..][k] == t[k + 1];
    }
  }

  /** The parser's string body reads the escaped text back, up to and past
      the closing quote. */
  lemma {:induction false} BodyReadsBack(t: string, rest: string)
    requires Readable(t)
    ensures P.StringBody(EscapeBody(t) + "\"" + rest, 0) == Ok((t, |EscapeBody(t)| + 1))
    decreases |t|
  {
    if t == [] {
      BodyEnds(rest);
      EmptyFront(EscapeBody(t), "\"" + rest);
    } else {
      ReadableTail(t);
      BodyReadsBack(t[1..], rest);
      ConsSplit(t);
      BodyStepUp(t[0], t[1..], t, rest);
    }
  }

  lemma {:induction false} BodyStepUp(c: char, u: string, t: string, rest: string)
    requires t == [c] + u && (c >= ' ' || NamedControl(c))
    requires P.StringBody(EscapeBody(u) + "\"" + rest, 0) == Ok((u, |EscapeBody(u)| + 1))
    ensures P.StringBody(EscapeBody(t) + "\"" + rest, 0) == Ok((t, |EscapeBody(t)| + 1))
  {
    BodyCons(c, u, rest);
    SameBody([c] + u, t, rest);
  }

  lemma {:induction false} SameBody(a: string, b: string, rest: string)
    requires a == b
    requires P.StringBody(EscapeBody(a) + "\"" + rest, 0) == Ok((a, |EscapeBody(a)| + 1))
    ensures P.StringBody(EscapeBody(b) + "\"" + rest, 0) == Ok((b, |EscapeBody(b)| + 1))
  {
  }

  lemma {:induction false} ConsSplit(t: string)
    requires t != []
    ensures [t[0]] + t[1..] == t
  {
  }

  /** One more character in front of a body that reads back. */
  lemma {:induction false} BodyCons(c: char, u: string, rest: string)
    requires c >= ' ' || NamedControl(c)
    requires P.StringBody(EscapeBody(u) + "\"" + rest, 0) == Ok((u, |EscapeBody(u)| + 1))
    ensures P.StringBody(EscapeBody([c] + u) + "\"" + rest, 0) == Ok(([c] + u, |EscapeBody([c] + u)| + 1))
  {
    CharReadsBack(c, EscapeBody(u) + "\"" + rest);
    BodyConsText(c, u, rest);
  }

  lemma {:induction false} BodyConsText(c: char, u: string, rest: string)
    ensures EscapeBody([c] + u) + "\"" + rest == EscapeChar(c) + (EscapeBody(u) + "\"" + rest)
    ensures |EscapeBody([c] + u)| == |EscapeChar(c)| + |EscapeBody(u)|
  {
    var t := [c] + u;
    assert t[0] == c && t[1..] == u;
    assert EscapeBody(t) == EscapeChar(c) + EscapeBody(u);
    Assoc(EscapeChar(c), EscapeBody(u), "\"", rest);
  }

  /** The parser's `parseString` inverts `escapeJsonString` for every text
      without control characters other than the five named ones, and stops
      just after the closing quote. */
  lemma {:induction false} StringReadsBack(t: string, rest: string)
    requires Readable(t)
    ensures P.ParseString(Quote(t) + rest, 0) == Ok((t, |Quote(t)|))
  {
    var body := EscapeBody(t) + "\"" + rest;
    assert Quote(t) + rest == "\"" + body;
    BodyReadsBack(t, rest);
    BodySkips("\"", body);
  }

  /** Any other control character is written as `\u00xx`, which the parser
      refuses: here U+0001 in a string of its own. */
  lemma {:induction false} UnicodeEscapeRefused()
    ensures Quote([1 as char]) == "\"\\u0001\""
    ensures P.ParseString(Quote([1 as char]), 0) == Err(ParseError("Invalid escape character: \\u"))
  {
    var c: char := 1 as char;
    assert EscapeChar(c) == ['\\', 'u', '0', '0', '0', '1'];
    assert EscapeBody([c]) == EscapeChar(c) + EscapeBody([]);
    var s := Quote([c]);
    assert s == "\"\\u0001\"";
    assert |s| == 8 && s[0] == '"' && s[1] == '\\' && s[2] == 'u';
    assert P.Unescape('u').None?;
    assert "Invalid escape character: \\" + [s[2]] == "Invalid escape character: \\u";
    assert P.Consume(s, 0, '"') == Ok(1);
    assert P.StringBody(s, 1) == Err(ParseError("Invalid escape character: \\u"));
  }

  // ---------------------------------------------------------------------------
  // Values in written text

  /** The values whose written form reads back as the same value: every
      value but a double, and strings only when Readable. */
  predicate Writable(v: Value) {
    !v.Dbl? && (v.Str? ==> Readable(v.s))
  }

  /** The parsed JSON a value is written as. */
  function JsonOf(v: Value): P.Json {
    match v
    case Null => P.JNull
    case Bool(b) => P.JBool(b)
    case Int(i) => P.JInt(i)
    case Dbl(lexeme) => P.JDbl(lexeme)
    case Str(s) => P.JStr(s)
  }

  /** What may follow a number without being read as part of it. */
  predicate EndsNumber(rest: string) {
    rest == [] || (!IsDigit(rest[0]) && rest[0] != '.')
  }

  /** A quoted string at `i` reads back as its text. */
  lemma {:induction false} StringAt(s: string, i: nat, x: string, rest: string)
    requires Tail(s, i, Quote(x) + rest) && Readable(x)
    ensures P.ParseString(s, i) == Ok((x, i + |Quote(x)|))
  {
    StringReadsBack(x, rest);
    StringAgrees(s, i, Quote(x) + rest, 0);
  }

  /** The digits of an integer's text end its number: there is no fraction. */
  lemma {:induction false} NumberEndAt(s: string, i: nat, n: Int32, rest: string)
    requires Tail(s, i, IntToString(n) + rest) && EndsNumber(rest)
    ensures i < |s| && P.NumberEnd(s, i) == i + |IntToString(n)| && !P.HasFraction(s, i)
  {
    var w := IntToString(n);
    At(s, i, w + rest, 0);
    if n < 0 {
      assert (w + rest)[1..] == w[1..] + rest;
      SkipDigitsOver(s, i + 1, w[1..], rest);
    } else {
      SkipDigitsOver(s, i, w, rest);
    }
    if rest != [] {
      TailSplit(s, i, w, rest);
      At(s, i + |w|, rest, 0);
    }
  }

  /** `parseNumber` of an integer lexeme. */
  lemma {:induction false} IntStep(s: string, i: nat, w: string, n: Int32, e: nat)
    requires e == i + |w|
    requires i < |s| && P.NumberEnd(s, i) == e && !P.HasFraction(s, i)
    requires e <= |s| && s[i..e] == w && ParseInt(w) == Some(n)
    ensures P.ParseNumber(s, i) == Ok((P.JInt(n), e))
  {
  }

  /** Where an integer's text at `i` ends, and what it says. */
  lemma {:induction false} NumberFacts(s: string, i: nat, n: Int32, w: string, rest: string)
    requires w == IntToString(n) && Tail(s, i, w + rest) && EndsNumber(rest)
    ensures i < |s| && P.NumberEnd(s, i) == i + |w| && !P.HasFraction(s, i)
    ensures i + |w| <= |s| && s[i..i + |w|] == w && ParseInt(w) == Some(n)
  {
    NumberEndAt(s, i, n, rest);
    PrefixAt(s, i, w, rest);
    ParseIntOfToString(n);
  }

  /** An integer's text at `i` reads back as the integer. */
  lemma {:induction false} NumberAt(s: string, i: nat, n: Int32, w: string, rest: string) returns (e: nat)
    requires w == IntToString(n) && Tail(s, i, w + rest) && EndsNumber(rest)
    ensures e == i + |w|
    ensures i < |s| && P.ParseNumber(s, i) == Ok((P.JInt(n), e))
  {
    e := i + |w|;
    NumberFacts(s, i, n, w, rest);
    IntStep(s, i, w, n, e);
  }

  /** `parseValue` at a string. */
  lemma {:induction false} StringStep(s: string, j: nat, p: nat, str: (string, nat))
    requires j <= p < |s| && P.SkipWs(s, j) == p && s[p] == '"' && P.ParseString(s, p) == Ok(str)
    ensures P.ParseValue(s, j) == Ok((P.JStr(str.0), str.1))
  {
  }

  /** `parseValue` at `true`, `false` or `null`. */
  lemma {:induction false} WordStep(s: string, j: nat, p: nat, w: string, value: P.Json)
    requires j <= p < |s| && P.SkipWs(s, j) == p
    requires (w, value) in {("true", P.JBool(true)), ("false", P.JBool(false)), ("null", P.JNull)}
    requires s[p] == w[0] && P.ConsumeWord(s, p, w).Ok?
    ensures P.ParseValue(s, j) == Ok((value, p + |w|))
  {
    if w == "true" {
      TrueStep(s, j, p);
    } else if w == "false" {
      FalseStep(s, j, p);
    } else {
      NullStep(s, j, p);
    }
  }

  lemma {:induction false} TrueStep(s: string, j: nat, p: nat)
    requires j <= p < |s| && P.SkipWs(s, j) == p && s[p] == 't' && P.ConsumeWord(s, p, "true").Ok?
    ensures P.ParseValue(s, j) == Ok((P.JBool(true), p + 4))
  {
  }

  lemma {:induction false} FalseStep(s: string, j: nat, p: nat)
    requires j <= p < |s| && P.SkipWs(s, j) == p && s[p] == 'f' && P.ConsumeWord(s, p, "false").Ok?
    ensures P.ParseValue(s, j) == Ok((P.JBool(false), p + 5))
  {
  }

  lemma {:induction false} NullStep(s: string, j: nat, p: nat)
    requires j <= p < |s| && P.SkipWs(s, j) == p && s[p] == 'n' && P.ConsumeWord(s, p, "null").Ok?
    ensures P.ParseValue(s, j) == Ok((P.JNull, p + 4))
  {
  }

  /** `parseValue` at anything else, which it reads as a number. */
  lemma {:induction false} NumberStep(s: string, j: nat, p: nat)
    requires j <= p < |s| && P.SkipWs(s, j) == p
    requires s[p] !in "{[\"tfn"
    ensures P.ParseValue(s, j) == P.ParseNumber(s, p)
  {
  }

  /** `parseValue` at an object. */
  lemma {:induction false} ObjectValueStep(s: string, j: nat, p: nat)
    requires j <= p < |s| && P.SkipWs(s, j) == p && s[p] == '{'
    ensures P.ParseValue(s, j) == P.ParseObject(s, p)
  {
  }

  /** `true`, `false` or `null` at `i` reads back as its value. */
  lemma {:induction false} WordAt(s: string, j: nat, i: nat, w: string, value: P.Json, rest: string)
    requires Tail(s, i, w + rest) && j <= i && P.SkipWs(s, j) == i
    requires (w, value) in {("true", P.JBool(true)), ("false", P.JBool(false)), ("null", P.JNull)}
    ensures P.ParseValue(s, j) == Ok((value, i + |w|))
  {
    WordConsumed(s, i, w, rest);
    WordStep(s, j, i, w, value);
  }

  /** A word at `i` is consumed whole, and `s[i]` is its first letter. */
  lemma {:induction false} WordConsumed(s: string, i: nat, w: string, rest: string)
    requires Tail(s, i, w + rest) && w != []
    ensures i < |s| && s[i] == w[0] && P.ConsumeWord(s, i, w) == Ok(i + |w|)
  {
    var t := w + rest;
    At(s, i, t, 0);
    assert t[0..|w|] == w;
    P.ConsumeWordMatches(t, 0, w);
    WordAgrees(s, i, t, 0, w);
  }

  /** An integer's text at `i` reads back as the integer. */
  lemma {:induction false} IntAt(s: string, j: nat, i: nat, v: Value, rest: string) returns (e: nat)
    requires v.Int? && Tail(s, i, ValueText(v) + rest) && j <= i && P.SkipWs(s, j) == i && EndsNumber(rest)
    ensures e == i + |ValueText(v)|
    ensures P.ParseValue(s, j) == Ok((JsonOf(v), e))
  {
    var w := IntToString(v.i);
    assert ValueText(v) == w;
    At(s, i, w + rest, 0);
    e := NumberAt(s, i, v.i, w, rest);
    NumberStep(s, j, i);
  }

  /** A quoted string at `i` reads back as its text. */
  lemma {:induction false} StrAt(s: string, j: nat, i: nat, v: Value, rest: string) returns (e: nat)
    requires v.Str? && Tail(s, i, ValueText(v) + rest) && j <= i && P.SkipWs(s, j) == i && Readable(v.s)
    ensures e == i + |ValueText(v)|
    ensures P.ParseValue(s, j) == Ok((JsonOf(v), e))
  {
    StringAt(s, i, v.s, rest);
    e := i + |Quote(v.s)|;
    StringStep(s, j, i, (v.s, e));
  }

  /** `true`, `false` or `null` at `i` reads back as its value. */
  lemma {:induction false} LiteralAt(s: string, j: nat, i: nat, v: Value, rest: string) returns (e: nat)
    requires v.Null? || v.Bool?
    requires Tail(s, i, ValueText(v) + rest) && j <= i && P.SkipWs(s, j) == i
    ensures e == i + |ValueText(v)|
    ensures P.ParseValue(s, j) == Ok((JsonOf(v), e))
  {
    e := i + |ValueText(v)|;
    if v.Null? {
      WordAt(s, j, i, "null", P.JNull, rest);
    } else {
      WordAt(s, j, i, if v.b then "true" else "false", P.JBool(v.b), rest);
    }
  }

  /** A written value at `i`, reached from `j` over whitespace, reads back
      as the value. */
  lemma {:induction false} ValueAt(s: string, j: nat, i: nat, v: Value, rest: string) returns (e: nat)
    requires Tail(s, i, ValueText(v) + rest) && j <= i && P.SkipWs(s, j) == i
    requires Writable(v) && EndsNumber(rest)
    ensures e == i + |ValueText(v)|
    ensures P.ParseValue(s, j) == Ok((JsonOf(v), e))
  {
    if v.Str? {
      e := StrAt(s, j, i, v, rest);
    } else if v.Int? {
      e := IntAt(s, j, i, v, rest);
    } else {
      e := LiteralAt(s, j, i, v, rest);
    }
  }

  // ---------------------------------------------------------------------------
  // Members and objects in written text

  /** One member: the key, the colon and the value. */
  lemma {:induction false} MemberStep(s: string, i: nat, key: (string, nat), q: nat, value: (P.Json, nat))
    requires i <= |s| && P.ParseString(s, P.SkipWs(s, i)) == Ok(key)
    requires P.Consume(s, P.SkipWs(s, key.1), ':') == Ok(q)
    requires P.ParseValue(s, q) == Ok(value)
    ensures P.MemberAt(s, i) == Ok((P.Member(key.0, value.0), value.1))
  {
  }

  /** The first character of a written value, which is not whitespace. */
  lemma {:induction false} ValueTextStart(v: Value)
    requires Writable(v)
    ensures |ValueText(v)| > 0 && !P.IsWhitespace(ValueText(v)[0])
  {
    if v.Int? {
      assert ValueText(v) == IntToString(v.i);
    }
  }

  /** The colon after a key and the space after it. */
  lemma {:induction false} ColonAt(s: string, k: nat, x: string)
    requires Tail(s, k, ": " + x) && x != [] && !P.IsWhitespace(x[0])
    ensures P.SkipWs(s, k) == k && P.Consume(s, k, ':') == Ok(k + 1)
    ensures P.SkipWs(s, k + 1) == k + 2 && Tail(s, k + 2, x)
  {
    At(s, k, ": " + x, 0);
    assert ": " + x == ":" + (" " + x);
    TailSplit(s, k, ":", " " + x);
    SkipWsOver(s, k + 1, " ", x);
    TailSplit(s, k + 1, " ", x);
  }

  /** The indented key of a member at `i`, reached from `p`. */
  lemma {:induction false} KeyAt(s: string, p: nat, i: nat, name: string, x: string)
    requires Tail(s, i, "\n    " + (Quote(name) + x)) && p <= i + 5 && P.SkipWs(s, p) == i + 5
    requires Readable(name)
    ensures P.ParseString(s, P.SkipWs(s, p)) == Ok((name, i + 5 + |Quote(name)|))
    ensures Tail(s, i + 5 + |Quote(name)|, x)
  {
    TailSplit(s, i, "\n    ", Quote(name) + x);
    StringAt(s, i + 5, name, x);
    TailSplit(s, i + 5, Quote(name), x);
  }

  lemma {:induction false} MemberShape(name: string, v: Value, rest: string)
    ensures MemberText(name, v) + rest == "\n    " + (Quote(name) + (": " + (ValueText(v) + rest)))
  {
    Assoc5("\n    ", Quote(name), ": ", ValueText(v), rest, MemberText(name, v));
  }

  lemma {:induction false} Assoc5(a: string, b: string, c: string, d: string, e: string, abcd: string)
    requires abcd == a + b + c + d
    ensures abcd + e == a + (b + (c + (d + e)))
  {
  }

  lemma {:induction false} MemberLength(name: string, v: Value)
    ensures |MemberText(name, v)| == 5 + |Quote(name)| + 2 + |ValueText(v)|
  {
  }

  datatype Piece = Key(name: string) | Val(v: Value) | Mem(name: string, v: Value)

  function Depth(x: Piece): nat {
    if x.Mem? then 1 else 0
  }

  function Written(x: Piece): string
    decreases Depth(x)
  {
    match x
    case Key(name) => Quote(name)
    case Val(v) => ValueText(v)
    case Mem(name, v) => "\n    " + (Written(Key(name)) + (": " + Written(Val(v))))
  }

  lemma {:induction false} ValueAtW(s: string, j: nat, i: nat, v: Value, rest: string) returns (e: nat)
    requires Tail(s, i, Written(Val(v)) + rest) && j <= i && P.SkipWs(s, j) == i
    requires Writable(v) && EndsNumber(rest)
    ensures e == i + |Written(Val(v))|
    ensures P.ParseValue(s, j) == Ok((JsonOf(v), e))
  {
    assert Written(Val(v)) == ValueText(v);
    e := ValueAt(s, j, i, v, rest);
  }

  lemma {:induction false} KeyAtW(s: string, p: nat, i: nat, name: string, x: string) returns (k: nat)
    requires Tail(s, i, "\n    " + (Written(Key(name)) + x)) && p <= i + 5 && P.SkipWs(s, p) == i + 5
    requires Readable(name)
    ensures k == i + 5 + |Written(Key(name))|
    ensures P.ParseString(s, P.SkipWs(s, p)) == Ok((name, k))
    ensures Tail(s, k, x)
  {
    KeyAt(s, p, i, name, x);
    k := i + 5 + |Quote(name)|;
  }

  lemma {:induction false} MemShape(name: string, v: Value, rest: string)
    ensures Written(Mem(name, v)) + rest == "\n    " + (Written(Key(name)) + (": " + (Written(Val(v)) + rest)))
    ensures |Written(Mem(name, v))| == 5 + |Written(Key(name))| + 2 + |Written(Val(v))|
  {
    var a, b, c := "\n    ", Written(Key(name)), Written(Val(v));
    assert Written(Mem(name, v)) == a + (b + (": " + c));
    assert a + (b + (": " + c)) + rest == a + (b + (": " + (c + rest)));
  }

  lemma {:induction false} ValStart(v: Value)
    requires Writable(v)
    ensures |Written(Val(v))| > 0 && !P.IsWhitespace(Written(Val(v))[0])
  {
    ValueTextStart(v);
  }

  /** The key of a written member, and the text after it. */
  lemma {:induction false} KeyPart(s: string, p: nat, i: nat, name: string, v: Value, rest: string) returns (k: nat)
    requires Tail(s, i, Written(Mem(name, v)) + rest) && p <= i + 5 && P.SkipWs(s, p) == i + 5
    requires Readable(name)
    ensures p <= |s| && P.ParseString(s, P.SkipWs(s, p)) == Ok((name, k))
    ensures Tail(s, k, ": " + (Written(Val(v)) + rest))
    ensures k + 2 + |Written(Val(v))| == i + |Written(Mem(name, v))|
  {
    MemShape(name, v, rest);
    k := KeyAtW(s, p, i, name, ": " + (Written(Val(v)) + rest));
  }

  /** The colon after a written key, and the value text after it. */
  lemma {:induction false} ColonPart(s: string, k: nat, v: Value, rest: string) returns (q: nat)
    requires Tail(s, k, ": " + (Written(Val(v)) + rest)) && Writable(v)
    ensures q == k + 1 && P.Consume(s, P.SkipWs(s, k), ':') == Ok(q)
    ensures P.SkipWs(s, q) == q + 1 && Tail(s, q + 1, Written(Val(v)) + rest)
  {
    var vt := Written(Val(v));
    ValStart(v);
    assert (vt + rest)[0] == vt[0];
    ColonAt(s, k, vt + rest);
    q := k + 1;
  }

  /** The key and the colon of a written member. */
  lemma {:induction false} KeyColonAt(s: string, p: nat, i: nat, name: string, v: Value, rest: string) returns (k: nat, q: nat)
    requires Tail(s, i, Written(Mem(name, v)) + rest) && p <= i + 5 && P.SkipWs(s, p) == i + 5
    requires Readable(name) && Writable(v)
    ensures p <= |s| && P.ParseString(s, P.SkipWs(s, p)) == Ok((name, k))
    ensures P.Consume(s, P.SkipWs(s, k), ':') == Ok(q)
    ensures P.SkipWs(s, q) == q + 1 && Tail(s, q + 1, Written(Val(v)) + rest)
    ensures q + 1 + |Written(Val(v))| == i + |Written(Mem(name, v))|
  {
    k := KeyPart(s, p, i, name, v, rest);
    q := ColonPart(s, k, v, rest);
  }

  /** What `parseObject`'s loop reads of a written member: the key, the
      colon and the value, with the positions after each. */
  lemma {:induction false} MemberFacts(s: string, p: nat, i: nat, name: string, v: Value, rest: string) returns (k: nat, q: nat, e: nat)
    requires Tail(s, i, Written(Mem(name, v)) + rest) && p <= i + 5 && P.SkipWs(s, p) == i + 5
    requires Readable(name) && Writable(v) && EndsNumber(rest)
    ensures p <= |s| && P.ParseString(s, P.SkipWs(s, p)) == Ok((name, k))
    ensures P.Consume(s, P.SkipWs(s, k), ':') == Ok(q)
    ensures P.ParseValue(s, q) == Ok((JsonOf(v), e))
    ensures e == i + |Written(Mem(name, v))|
  {
    k, q := KeyColonAt(s, p, i, name, v, rest);
    e := ValueAtW(s, q, q + 1, v, rest);
  }

  lemma {:induction false} MemberReadsBack(s: string, p: nat, i: nat, name: string, v: Value, rest: string) returns (e: nat)
    requires Tail(s, i, Written(Mem(name, v)) + rest) && p <= i + 5 && P.SkipWs(s, p) == i + 5
    requires Readable(name) && Writable(v) && EndsNumber(rest)
    ensures e == i + |Written(Mem(name, v))|
    ensures P.MemberAt(s, p) == Ok((P.Member(name, JsonOf(v)), e))
  {
    var k, q;
    k, q, e := MemberFacts(s, p, i, name, v, rest);
    MemberStep(s, p, (name, k), q, (JsonOf(v), e));
  }

  /** The piece view of a member is the text the writer produces for it. */
  lemma {:induction false} WrittenMember(name: string, v: Value)
    ensures Written(Mem(name, v)) == MemberText(name, v)
  {
    assert Written(Mem(name, v)) == "\n    " + (Quote(name) + (": " + ValueText(v)));
  }

  /** A member as `writeJsonObject` prints it, with a readable key and a
      value the parser accepts, reads back through `parseObject`'s loop as
      the same key and value. */
  lemma {:induction false} MemberTextReadsBack(s: string, p: nat, i: nat, name: string, v: Value, rest: string) returns (e: nat)
    requires Tail(s, i, MemberText(name, v) + rest) && p <= i + 5 && P.SkipWs(s, p) == i + 5
    requires Readable(name) && Writable(v) && EndsNumber(rest)
    ensures e == i + |MemberText(name, v)|
    ensures P.MemberAt(s, p) == Ok((P.Member(name, JsonOf(v)), e))
  {
    WrittenMember(name, v);
    e := MemberReadsBack(s, p, i, name, v, rest);
  }
}
