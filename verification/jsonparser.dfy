/** JsonParser: a character cursor over the trimmed text, a recursive-descent
    parser for values, objects, arrays, strings and numbers, and the
    flattening of parsed objects into rows with dot-joined keys. */
module JsonParsing {
  import opened Wrappers
  import opened Errors
  import opened Text
  import opened Values
  import opened DataRows
  import opened ParserBase

  /** A parsed JSON value, as the parser builds it from Java objects: null,
      Boolean, Integer, Double (kept as its lexeme), String, List and a
      LinkedHashMap whose members are listed in insertion order. */
  datatype Json =
    | JNull
    | JBool(b: bool)
    | JInt(i: Int32)
    | JDbl(lexeme: string)
    | JStr(s: string)
    | JArr(items: seq<Json>)
    | JObj(members: seq<Member>)

  datatype Member = Member(key: string, value: Json)

  /** A parse result: the value and the cursor position just after it. */
  type Parsed<T> = Result<(T, nat), Error>

  const EndOfInput := ParseError("Unexpected end of JSON")

  // ---------------------------------------------------------------------------
  // JsonTokenizer

  /** Character.isWhitespace (Unicode 8 and later): tab, line feed, vertical
      tab, form feed, carriage return, the four separators 0x1C-0x1F, and
      every space, line and paragraph separator except the no-break spaces
      U+00A0, U+2007 and U+202F. */
  predicate IsWhitespace(c: char) {
    || (9 <= c as int <= 13) || (28 <= c as int <= 32)
    || c as int == 0x1680
    || (0x2000 <= c as int <= 0x200A && c as int != 0x2007)
    || c as int == 0x2028 || c as int == 0x2029 || c as int == 0x205F || c as int == 0x3000
  }

  /** `skipWhitespace()`: the position of the first non-whitespace character at
      or after `pos`, or the end. */
  function SkipWs(s: string, pos: nat): (p: nat)
    requires pos <= |s|
    ensures pos <= p <= |s|
    ensures p == |s| || !IsWhitespace(s[p])
    decreases |s| - pos
  {
    if pos < |s| && IsWhitespace(s[pos]) then SkipWs(s, pos + 1) else pos
  }

  /** `consume(expected)`: reads one character, which must be `expected`. The
      message names the tokenizer's cursor after the failed read, counted in
      UTF-16 code units as Java strings are: one past the character read, or
      the end of the text when there was nothing left to read. Reading the
      first half of a character above U+FFFF moves the cursor by one unit. */
  function Consume(s: string, pos: nat, c: char): (r: Result<nat, Error>)
    requires pos <= |s|
    ensures r.Ok? <==> pos < |s| && s[pos] == c
    ensures r.Ok? ==> r.value == pos + 1
    ensures r.Err? && pos < |s| ==> r.error == ExpectedError(c, UnitIndex(s, pos) + 1)
    ensures r.Err? && pos == |s| ==> r.error == ExpectedError(c, |Utf16(s)|)
  {
    if pos < |s| && s[pos] == c then Ok(pos + 1)
    else if pos < |s| then Err(ExpectedError(c, UnitIndex(s, pos) + 1))
    else
      assert s[..pos] == s;
      Err(ExpectedError(c, UnitIndex(s, pos)))
  }

  function ExpectedError(c: char, position: nat): Error {
    ParseError("Expected '" + [c] + "' at position " + NatToString(position))
  }

  /** `consume(String)`: the word must follow character by character. */
  function ConsumeWord(s: string, pos: nat, w: string): (r: Result<nat, Error>)
    requires pos <= |s|
    ensures r.Ok? ==> r.value == pos + |w| <= |s|
    decreases |w|
  {
    if w == [] then Ok(pos)
    else
      var p :- Consume(s, pos, w[0]);
      ConsumeWord(s, p, w[1..])
  }

  /** The word is consumed exactly when the text at `pos` spells it. */
  lemma {:induction false} ConsumeWordMatches(s: string, pos: nat, w: string)
    requires pos <= |s|
    ensures ConsumeWord(s, pos, w).Ok? <==> pos + |w| <= |s| && s[pos..pos + |w|] == w
    decreases |w|
  {
    if w != [] && pos < |s| && s[pos] == w[0] {
      ConsumeWordMatches(s, pos + 1, w[1..]);
      assert pos + |w| <= |s| ==> s[pos..pos + |w|] == [s[pos]] + s[pos + 1..pos + 1 + |w[1..]|];
      assert w == [w[0]] + w[1..];
    }
  }

  // ---------------------------------------------------------------------------
  // Strings

  /** The character an escape sequence `\e` stands for, or None when `e` is
      not one of the eight escapes the parser accepts. */
  function Unescape(e: char): (d: Option<char>)
    ensures d.Some? <==> e in "\"\\/bfnrt"
  {
    match e
    case '"' => Some('"')
    case '\\' => Some('\\')
    case '/' => Some('/')
    case 'b' => Some(8 as char)
    case 'f' => Some(12 as char)
    case 'n' => Some('\n')
    case 'r' => Some('\r')
    case 't' => Some('\t')
    case _ => None
  }

  /** The body of a string literal from `pos` (just after the opening quote):
      the decoded text and the position after the closing quote. */
  function StringBody(s: string, pos: nat): (r: Parsed<string>)
    requires pos <= |s|
    ensures r.Ok? ==> pos < r.value.1 <= |s| && s[r.value.1 - 1] == '"'
    ensures r.Ok? ==> |r.value.0| <= r.value.1 - 1 - pos
    ensures pos == |s| ==> r == Err(ParseError("Unterminated string"))
    ensures r.Err? ==> r.error.kind.Parse?
    decreases |s| - pos
  {
    if pos == |s| then Err(ParseError("Unterminated string"))
    else if s[pos] == '"' then Ok(([], pos + 1))
    else if s[pos] == '\\' then
      if pos + 1 == |s| then Err(ParseError("Unterminated string escape"))
      else
        var d := Unescape(s[pos + 1]);
        if d.None? then Err(ParseError("Invalid escape character: \\" + [s[pos + 1]]))
        else
          var rest :- StringBody(s, pos + 2);
          Ok(([d.value] + rest.0, rest.1))
    else
      var rest :- StringBody(s, pos + 1);
      Ok(([s[pos]] + rest.0, rest.1))
  }

  /** `parseString`: an opening quote, then the body. */
  function ParseString(s: string, pos: nat): (r: Parsed<string>)
    requires pos <= |s|
    ensures r.Ok? ==> pos < r.value.1 <= |s| && s[pos] == '"'
    ensures r.Err? ==> r.error.kind.Parse?
  {
    var p :- Consume(s, pos, '"');
    StringBody(s, p)
  }

  // ---------------------------------------------------------------------------
  // Numbers

  /** NumberFormatException, with the message Integer.parseInt and
      Double.parseDouble give for text they cannot read. */
  function NumberFormatError(lexeme: string): Error {
    IllegalArgumentError("For input string: \"" + lexeme + "\"")
  }

  /** Where the characters `parseNumber` reads from `pos` end: an optional
      '-', a run of digits and, if a '.' follows, the '.' and a second run of
      digits. */
  function NumberEnd(s: string, pos: nat): (e: nat)
    requires pos < |s|
    ensures pos <= e <= |s|
    ensures e == |s| || !IsDigit(s[e])
  {
    var d := SkipDigits(s, if s[pos] == '-' then pos + 1 else pos);
    if d < |s| && s[d] == '.' then SkipDigits(s, d + 1) else d
  }

  /** Whether the number read from `pos` has a fraction part. */
  predicate HasFraction(s: string, pos: nat)
    requires pos < |s|
  {
    var d := SkipDigits(s, if s[pos] == '-' then pos + 1 else pos);
    d < |s| && s[d] == '.'
  }

  /** `parseNumber`: the lexeme up to `NumberEnd`. With a fraction part it
      goes to Double.parseDouble, otherwise to Integer.parseInt; there is no
      exponent, and text neither accepts is a NumberFormatException. */
  function ParseNumber(s: string, pos: nat): (r: Parsed<Json>)
    requires pos < |s|
    ensures r.Ok? ==> pos < r.value.1 == NumberEnd(s, pos)
    ensures r.Ok? ==> (r.value.0.JInt? <==> !HasFraction(s, pos)) && (r.value.0.JDbl? <==> HasFraction(s, pos))
  {
    var e := NumberEnd(s, pos);
    var lexeme := s[pos..e];
    if HasFraction(s, pos) then
      if IsJavaDouble(lexeme) then Ok((JDbl(lexeme), e)) else Err(NumberFormatError(lexeme))
    else
      match ParseInt(lexeme)
      case Some(i) => Ok((JInt(i), e))
      case None => Err(NumberFormatError(lexeme))
  }

  /** What `parseNumber` makes of its lexeme: an Integer.parseInt result, a
      Double.parseDouble lexeme, or a NumberFormatException naming it. */
  lemma {:induction false} ParseNumberLexeme(s: string, pos: nat)
    requires pos < |s|
    ensures var r := ParseNumber(s, pos); var lexeme := s[pos..NumberEnd(s, pos)];
      && (r.Ok? && r.value.0.JInt? ==> ParseInt(lexeme) == Some(r.value.0.i))
      && (r.Ok? && r.value.0.JDbl? ==> r.value.0.lexeme == lexeme && IsJavaDouble(lexeme))
      && (r.Err? ==> r.error == NumberFormatError(lexeme))
  {
  }

  // ---------------------------------------------------------------------------
  // Objects as LinkedHashMap

  function Keys(members: seq<Member>): (keys: seq<string>)
    ensures |keys| == |members|
    ensures forall i | 0 <= i < |members| :: keys[i] == members[i].key
    decreases |members|
  {
    if members == [] then [] else [members[0].key] + Keys(members[1..])
  }

  /** `map.get(key)` for a key that is present. */
  function Find(members: seq<Member>, key: string): (v: Option<Json>)
    ensures v.Some? <==> key in Keys(members)
    decreases |members|
  {
    if members == [] then None
    else if members[0].key == key then Some(members[0].value)
    else Find(members[1..], key)
  }

  /** `map.put(key, value)`: an existing key keeps its place and takes the new
      value; a new key goes to the end. */
  function PutMember(members: seq<Member>, key: string, value: Json): (r: seq<Member>)
    ensures Keys(r) == if key in Keys(members) then Keys(members) else Keys(members) + [key]
    ensures Find(r, key) == Some(value)
    ensures forall k | k != key :: Find(r, k) == Find(members, k)
    decreases |members|
  {
    if members == [] then [Member(key, value)]
    else if members[0].key == key then [Member(key, value)] + members[1..]
    else [members[0]] + PutMember(members[1..], key, value)
  }

  /** The map an object literal builds: its members put into `acc` one after
      the other, as the parsing loop does. */
  function PutAll(acc: seq<Member>, pairs: seq<Member>): (obj: seq<Member>)
    decreases |pairs|
  {
    if pairs == [] then acc else PutAll(PutMember(acc, pairs[0].key, pairs[0].value), pairs[1..])
  }

  function Assemble(pairs: seq<Member>): seq<Member> {
    PutAll([], pairs)
  }

  /** The value a key was last written with in an object literal; None when
      the key does not occur. */
  function LastValue(pairs: seq<Member>, key: string): (v: Option<Json>)
    decreases |pairs|
  {
    if pairs == [] then None
    else
      var later := LastValue(pairs[1..], key);
      if later.Some? then later
      else if pairs[0].key == key then Some(pairs[0].value)
      else None
  }

  /** Putting a literal's members keeps the keys distinct and adds exactly the literal's keys. */
  lemma {:induction false} PutAllKeys(acc: seq<Member>, pairs: seq<Member>)
    requires Distinct(Keys(acc))
    ensures Distinct(Keys(PutAll(acc, pairs)))
    ensures forall k :: k in Keys(PutAll(acc, pairs)) <==> k in Keys(acc) || k in Keys(pairs)
    decreases |pairs|
  {
    if pairs != [] {
      var next := PutMember(acc, pairs[0].key, pairs[0].value);
      AppendDistinct(Keys(acc), pairs[0].key);
      PutAllKeys(next, pairs[1..]);
      assert Keys(pairs) == [pairs[0].key] + Keys(pairs[1..]);
    }
  }

  /** After putting a literal's members, a key holds the value the literal
      wrote last, or its earlier value when the literal does not write it. */
  lemma {:induction false} PutAllFind(acc: seq<Member>, pairs: seq<Member>, key: string)
    ensures Find(PutAll(acc, pairs), key) == if LastValue(pairs, key).Some? then LastValue(pairs, key) else Find(acc, key)
    decreases |pairs|
  {
    if pairs != [] {
      PutAllFind(PutMember(acc, pairs[0].key, pairs[0].value), pairs[1..], key);
    }
  }

  /** The assembled map holds each key of the literal exactly once. */
  lemma AssembleKeys(pairs: seq<Member>)
    ensures Distinct(Keys(Assemble(pairs)))
    ensures forall k :: k in Keys(Assemble(pairs)) <==> k in Keys(pairs)
  {
    PutAllKeys([], pairs);
  }

  /** A key of the assembled map holds the value the literal wrote last. */
  lemma AssembleFind(pairs: seq<Member>, key: string)
    ensures Find(Assemble(pairs), key) == LastValue(pairs, key)
  {
    PutAllFind([], pairs, key);
  }

  /** Members whose keys are new to the map and distinct are appended in order. */
  lemma {:induction false} PutAllFresh(acc: seq<Member>, pairs: seq<Member>)
    requires Distinct(Keys(pairs))
    requires forall i | 0 <= i < |pairs| :: pairs[i].key !in Keys(acc)
    ensures PutAll(acc, pairs) == acc + pairs
    decreases |pairs|
  {
    if pairs != [] {
      var m := pairs[0];
      PutMemberFresh(acc, m.key, m.value);
      FreshForTail(acc, pairs);
      PutAllFresh(acc + [m], pairs[1..]);
      AppendHead(acc, pairs);
      calc {
        PutAll(acc, pairs);
        PutAll(PutMember(acc, m.key, m.value), pairs[1..]);
        PutAll(acc + [m], pairs[1..]);
        acc + [m] + pairs[1..];
        acc + pairs;
      }
    }
  }

  lemma FreshForTail(acc: seq<Member>, pairs: seq<Member>)
    requires pairs != [] && Distinct(Keys(pairs))
    requires forall i | 0 <= i < |pairs| :: pairs[i].key !in Keys(acc)
    ensures Distinct(Keys(pairs[1..]))
    ensures forall i | 0 <= i < |pairs[1..]| :: pairs[1..][i].key !in Keys(acc + [pairs[0]])
  {
    KeysAppendOne(acc, pairs[0]);
    DistinctTail(pairs);
    forall i | 0 <= i < |pairs[1..]| ensures pairs[1..][i].key !in Keys(acc + [pairs[0]]) {
      assert pairs[1..][i] == pairs[i + 1];
      assert Keys(pairs)[i + 1] != Keys(pairs)[0];
    }
  }

  lemma KeysAppendOne(acc: seq<Member>, m: Member)
    ensures Keys(acc + [m]) == Keys(acc) + [m.key]
  {
    var a := Keys(acc + [m]);
    assert forall i | 0 <= i < |a| :: a[i] == (Keys(acc) + [m.key])[i];
  }

  /** A literal without repeated keys is its own map. */
  lemma AssembleDistinct(pairs: seq<Member>)
    requires Distinct(Keys(pairs))
    ensures Assemble(pairs) == pairs
  {
    PutAllFresh([], pairs);
  }

  lemma {:induction false} PutMemberFresh(members: seq<Member>, key: string, value: Json)
    requires key !in Keys(members)
    ensures PutMember(members, key, value) == members + [Member(key, value)]
    decreases |members|
  {
    if members != [] {
      assert Keys(members) == [members[0].key] + Keys(members[1..]);
      PutMemberFresh(members[1..], key, value);
      ConsAppend(members, Member(key, value));
    }
  }

  lemma {:induction false} ConsAppend(members: seq<Member>, m: Member)
    requires members != []
    ensures [members[0]] + (members[1..] + [m]) == members + [m]
  {
    assert [members[0]] + members[1..] == members;
  }

  // ---------------------------------------------------------------------------
  // Values, objects and arrays (mutually recursive descent)

  /** `parseValue`: skips whitespace and dispatches on the next character;
      anything that does not open an object, array, string or literal is
      read as a number. */
  function ParseValue(s: string, pos: nat): (r: Parsed<Json>)
    requires pos <= |s|
    ensures r.Ok? ==> pos < r.value.1 <= |s|
    decreases |s| - pos, 1
  {
    var p := SkipWs(s, pos);
    if p == |s| then Err(EndOfInput)
    else if s[p] == '{' then ParseObject(s, p)
    else if s[p] == '[' then ParseArray(s, p)
    else if s[p] == '"' then
      var str :- ParseString(s, p);
      Ok((JStr(str.0), str.1))
    else if s[p] == 't' then
      var q :- ConsumeWord(s, p, "true");
      Ok((JBool(true), q))
    else if s[p] == 'f' then
      var q :- ConsumeWord(s, p, "false");
      Ok((JBool(false), q))
    else if s[p] == 'n' then
      var q :- ConsumeWord(s, p, "null");
      Ok((JNull, q))
    else ParseNumber(s, p)
  }

  /** `parseObject` from its opening brace: `{}` or members separated by ','. */
  function ParseObject(s: string, pos: nat): (r: Parsed<Json>)
    requires pos < |s| && s[pos] == '{'
    ensures r.Ok? ==> pos < r.value.1 <= |s| && r.value.0.JObj?
    ensures r.Ok? ==> Distinct(Keys(r.value.0.members))
    decreases |s| - pos, 0
  {
    var p := SkipWs(s, pos + 1);
    if p == |s| then Err(EndOfInput)
    else if s[p] == '}' then Ok((JObj([]), p + 1))
    else
      var m :- ObjectMembers(s, p);
      AssembleKeys(m.0);
      Ok((JObj(Assemble(m.0)), m.1))
  }

  /** The members of an object from `pos` up to and past its closing brace,
      in the order written, repeated keys included. */
  function ObjectMembers(s: string, pos: nat): (r: Parsed<seq<Member>>)
    requires pos <= |s|
    ensures r.Ok? ==> pos < r.value.1 <= |s| && |r.value.0| > 0
    decreases |s| - pos, 3
  {
    var m :- MemberAt(s, pos);
    var e := SkipWs(s, m.1);
    if e == |s| then Err(EndOfInput)
    else if s[e] == '}' then Ok(([m.0], e + 1))
    else if s[e] == ',' then
      var rest :- ObjectMembers(s, e + 1);
      Ok(([m.0] + rest.0, rest.1))
    else Err(ParseError("Expected ',' or '}' in object"))
  }

  /** One member: the key string, a ':' and the value, with whitespace
      allowed before each. */
  function MemberAt(s: string, pos: nat): (r: Parsed<Member>)
    requires pos <= |s|
    ensures r.Ok? ==> pos < r.value.1 <= |s|
    decreases |s| - pos, 2
  {
    var key :- ParseString(s, SkipWs(s, pos));
    var q :- Consume(s, SkipWs(s, key.1), ':');
    var value :- ParseValue(s, q);
    Ok((Member(key.0, value.0), value.1))
  }

  /** `parseArray` from its opening bracket: `[]` or values separated by ','. */
  function ParseArray(s: string, pos: nat): (r: Parsed<Json>)
    requires pos < |s| && s[pos] == '['
    ensures r.Ok? ==> pos < r.value.1 <= |s| && r.value.0.JArr?
    decreases |s| - pos, 0
  {
    var p := SkipWs(s, pos + 1);
    if p == |s| then Err(EndOfInput)
    else if s[p] == ']' then Ok((JArr([]), p + 1))
    else
      var items :- ArrayItems(s, p);
      Ok((JArr(items.0), items.1))
  }

  /** The elements of an array from `pos` up to and past its closing bracket. */
  function ArrayItems(s: string, pos: nat): (r: Parsed<seq<Json>>)
    requires pos <= |s|
    ensures r.Ok? ==> pos < r.value.1 <= |s| && |r.value.0| > 0
    decreases |s| - pos, 2
  {
    var value :- ParseValue(s, pos);
    var e := SkipWs(s, value.1);
    if e == |s| then Err(EndOfInput)
    else if s[e] == ']' then Ok(([value.0], e + 1))
    else if s[e] == ',' then
      var rest :- ArrayItems(s, e + 1);
      Ok(([value.0] + rest.0, rest.1))
    else Err(ParseError("Expected ',' or ']' in array"))
  }

  /** `parseJson`: the first complete value of the text; whatever follows it
      is not examined. */
  function ParseJson(s: string): (r: Result<Json, Error>)
    ensures s == [] ==> r == Err(EndOfInput)
  {
    var v :- ParseValue(s, 0);
    Ok(v.0)
  }

  // ---------------------------------------------------------------------------
  // Text forms: Object.toString of the parsed Java objects

  /** `String.valueOf(o)` as the collection classes print their elements:
      null prints "null", a List "[a, b]", a Map "{k=v, k2=v2}". A Double
      prints its lexeme (Double.toString is not modelled). */
  function TextOf(j: Json): string
    decreases j
  {
    match j
    case JNull => "null"
    case JBool(b) => if b then "true" else "false"
    case JInt(i) => IntToString(i)
    case JDbl(lexeme) => lexeme
    case JStr(t) => t
    case JArr(items) => "[" + Join(ItemTexts(items), ", ") + "]"
    case JObj(members) => "{" + Join(MemberTexts(members), ", ") + "}"
  }

  function ItemTexts(items: seq<Json>): (texts: seq<string>)
    ensures |texts| == |items|
    decreases items
  {
    if items == [] then [] else [TextOf(items[0])] + ItemTexts(items[1..])
  }

  function MemberTexts(members: seq<Member>): (texts: seq<string>)
    ensures |texts| == |members|
    decreases members
  {
    if members == [] then []
    else [members[0].key + "=" + TextOf(members[0].value)] + MemberTexts(members[1..])
  }

  /** The NullPointerException `Object::toString` throws on a null element.
      Its message depends on the JVM; the model uses the text "null", which is
      what the wrapping code prints for an exception without a message. */
  const NullElement := Error(NullPointer, "null")

  /** How `flattenMap` stores an array: each element's toString joined with
      ", " inside brackets ("[]" when empty); a null element throws. */
  function ArrayText(items: seq<Json>): (r: Result<string, Error>)
    ensures r.Err? <==> JNull in items
    ensures r.Err? ==> r.error == NullElement
    ensures r.Ok? ==> StartsWith(r.value, "[") && EndsWith(r.value, "]")
    ensures items == [] ==> r == Ok("[]")
  {
    if JNull in items then Err(NullElement)
    else if items == [] then Ok("[]")
    else Ok("[" + Join(ItemTexts(items), ", ") + "]")
  }

  /** The row value `row.set` receives for a value that is neither a map nor a list. */
  function ScalarValue(j: Json): (v: Value)
    requires !j.JArr? && !j.JObj?
    ensures v.Null? <==> j.JNull?
  {
    match j
    case JNull => Null
    case JBool(b) => Bool(b)
    case JInt(i) => Int(i)
    case JDbl(lexeme) => Dbl(lexeme)
    case JStr(t) => Str(t)
  }

  predicate IsScalar(j: Json) {
    !j.JArr? && !j.JObj?
  }

  // ---------------------------------------------------------------------------
  // flattenMap and the conversion to rows

  /** The key under which a member of an object flattened with `prefix` is stored. */
  function MemberKey(prefix: string, key: string): (k: string)
    ensures StartsWith(k, prefix)
  {
    if prefix == [] then key else prefix + "." + key
  }

  /** Stores one member's value under `key`: a nested object is flattened
      under that key, a list becomes its text, anything else goes to `set`.
      Fields whose names do not start with `key` are untouched. */
  function FlattenValue(v: Json, key: string, row: Row): (r: Result<Row, Error>)
    ensures r.Ok? && IsScalar(v) ==> Get(r.value, key) == Some(ScalarValue(v))
    decreases v
  {
    match v
    case JObj(members) => FlattenMembers(members, key, row)
    case JArr(items) =>
      var t :- ArrayText(items);
      Set(row, Some(key), Str(t))
    case _ => Set(row, Some(key), ScalarValue(v))
  }

  /** `flattenMap(map, prefix, row)`: the members in order, each under its
      dot-joined key. Only fields whose names start with `prefix` change. */
  function FlattenMembers(members: seq<Member>, prefix: string, row: Row): (r: Result<Row, Error>)
    decreases members
  {
    if members == [] then Ok(row)
    else
      var key := MemberKey(prefix, members[0].key);
      var next :- FlattenValue(members[0].value, key, row);
      StartsWithTrans(key, prefix);
      FlattenMembers(members[1..], prefix, next)
  }

  lemma StartsWithTrans(key: string, prefix: string)
    requires StartsWith(key, prefix)
    ensures forall n | StartsWith(n, key) :: StartsWith(n, prefix)
  {
    forall n | StartsWith(n, key) ensures StartsWith(n, prefix) {
      assert n[..|prefix|] == n[..|key|][..|prefix|];
    }
  }

  /** An object whose members all hold scalars under non-blank keys. */
  predicate FlatMembers(members: seq<Member>) {
    forall i | 0 <= i < |members| :: IsScalar(members[i].value) && ValidName(members[i].key)
  }

  /** A flat object with distinct keys, flattened at the top level into a row
      that has none of its keys, appends its keys to the row's, in order. */
  lemma {:induction false} FlattenFlatNames(members: seq<Member>, row: Row)
    requires FlatMembers(members) && Distinct(Keys(members))
    requires forall i | 0 <= i < |members| :: !Has(row, members[i].key)
    ensures FlattenMembers(members, [], row).Ok?
    ensures FieldNames(FlattenMembers(members, [], row).value) == FieldNames(row) + Keys(members)
    decreases |members|
  {
    if members != [] {
      var m := members[0];
      var tail := members[1..];
      FlatTail(members);
      var next := Put(row, m.key, ScalarValue(m.value));
      FlattenFlatStep(members, row);
      DistinctTail(members);
      FreshAfterPut(members, row);
      FlattenFlatNames(tail, next);
      assert !Has(row, m.key);
      NamesStep(FieldNames(row), FieldNames(next), FieldNames(FlattenMembers(tail, [], next).value), m.key, Keys(tail));
    }
  }

  /** Flattening a flat object at the top level changes no field other than its keys. */
  lemma {:induction false} FlattenFlatOthers(members: seq<Member>, row: Row, n: string)
    requires FlatMembers(members) && n !in Keys(members)
    requires FlattenMembers(members, [], row).Ok?
    ensures Get(FlattenMembers(members, [], row).value, n) == Get(row, n)
    decreases |members|
  {
    if members != [] {
      FlatTail(members);
      FlattenFlatStep(members, row);
      assert Keys(members) == [members[0].key] + Keys(members[1..]);
      FlattenFlatOthers(members[1..], Put(row, members[0].key, ScalarValue(members[0].value)), n);
    }
  }

  /** Flattening a flat object with distinct keys at the top level stores
      each member's value under its key. */
  lemma {:induction false} FlattenFlatValues(members: seq<Member>, row: Row, i: nat)
    requires FlatMembers(members) && Distinct(Keys(members)) && i < |members|
    requires FlattenMembers(members, [], row).Ok?
    ensures Get(FlattenMembers(members, [], row).value, members[i].key) == Some(ScalarValue(members[i].value))
  {
    DistinctLater(members, i);
    FlatValueAt(members, row, i);
  }

  /** The same, for a member whose key no later member repeats. */
  lemma {:induction false} FlatValueAt(members: seq<Member>, row: Row, i: nat)
    requires FlatMembers(members) && i < |members| && members[i].key !in Keys(members[i + 1..])
    requires FlattenMembers(members, [], row).Ok?
    ensures Get(FlattenMembers(members, [], row).value, members[i].key) == Some(ScalarValue(members[i].value))
    decreases |members|
  {
    if i == 0 {
      FlatValueFirst(members, row);
    } else {
      FlatTail(members);
      var tail, next := members[1..], Put(row, members[0].key, ScalarValue(members[0].value));
      FlattenFlatStep(members, row);
      LaterKeyShift(members, i);
      FlatValueAt(tail, next, i - 1);
      assert tail[i - 1] == members[i];
      SameGet(FlattenMembers(members, [], row), FlattenMembers(tail, [], next), members[i].key, ScalarValue(members[i].value));
    }
  }

  /** The first member's value survives the members after it when they do not repeat its key. */
  lemma FlatValueFirst(members: seq<Member>, row: Row)
    requires FlatMembers(members) && members != [] && members[0].key !in Keys(members[1..])
    requires FlattenMembers(members, [], row).Ok?
    ensures Get(FlattenMembers(members, [], row).value, members[0].key) == Some(ScalarValue(members[0].value))
  {
    FlatTail(members);
    var next := Put(row, members[0].key, ScalarValue(members[0].value));
    FlattenFlatStep(members, row);
    FlattenFlatOthers(members[1..], next, members[0].key);
  }

  lemma SameGet(whole: Result<Row, Error>, part: Result<Row, Error>, k: string, v: Value)
    requires whole == part && part.Ok? && Get(part.value, k) == Some(v)
    ensures whole.Ok? && Get(whole.value, k) == Some(v)
  {
  }

  lemma LaterKeyShift(members: seq<Member>, i: nat)
    requires 0 < i < |members| && members[i].key !in Keys(members[i + 1..])
    ensures members[1..][i - 1].key !in Keys(members[1..][i..])
  {
    assert members[1..][i - 1] == members[i];
    assert members[1..][i..] == members[i + 1..];
  }

  lemma {:induction false} DistinctLater(members: seq<Member>, i: nat)
    requires Distinct(Keys(members)) && i < |members|
    ensures members[i].key !in Keys(members[i + 1..])
  {
    var later := Keys(members[i + 1..]);
    forall k | 0 <= k < |later| ensures later[k] != members[i].key {
      assert later[k] == members[i + 1 + k].key == Keys(members)[i + 1 + k];
      assert members[i].key == Keys(members)[i];
    }
  }

  lemma {:induction false} FlatTail(members: seq<Member>)
    requires FlatMembers(members) && members != []
    ensures IsScalar(members[0].value) && ValidName(members[0].key)
    ensures FlatMembers(members[1..])
  {
    forall i | 0 <= i < |members[1..]| ensures IsScalar(members[1..][i].value) && ValidName(members[1..][i].key) {
      assert members[1..][i] == members[i + 1];
    }
  }

  lemma NamesStep(a: seq<string>, b: seq<string>, c: seq<string>, x: string, tail: seq<string>)
    requires b == a + [x] && c == b + tail
    ensures c == a + ([x] + tail)
  {
  }

  lemma FlattenFlatStep(members: seq<Member>, row: Row)
    requires members != [] && IsScalar(members[0].value) && ValidName(members[0].key)
    ensures FlattenMembers(members, [], row)
         == FlattenMembers(members[1..], [], Put(row, members[0].key, ScalarValue(members[0].value)))
  {
    assert FlattenValue(members[0].value, members[0].key, row)
        == Ok(Put(row, members[0].key, ScalarValue(members[0].value)));
  }

  lemma DistinctTail(members: seq<Member>)
    requires Distinct(Keys(members)) && members != []
    ensures Keys(members) == [members[0].key] + Keys(members[1..])
    ensures Distinct(Keys(members[1..])) && members[0].key !in Keys(members[1..])
  {
    var keys := Keys(members);
    assert Keys(members[1..]) == keys[1..];
  }

  lemma FreshAfterPut(members: seq<Member>, row: Row)
    requires FlatMembers(members) && Distinct(Keys(members)) && members != []
    requires forall i | 0 <= i < |members| :: !Has(row, members[i].key)
    ensures var next := Put(row, members[0].key, ScalarValue(members[0].value));
      forall i | 0 <= i < |members[1..]| :: !Has(next, members[1..][i].key)
  {
    var next := Put(row, members[0].key, ScalarValue(members[0].value));
    forall i | 0 <= i < |members[1..]| ensures !Has(next, members[1..][i].key) {
      assert Keys(members)[i + 1] != Keys(members)[0];
      assert !Has(row, members[i + 1].key);
    }
  }

  /** Nested objects merge into the row under dot-joined keys, and an array
      becomes the text of its elements. */
  lemma NestedExample()
    ensures ConvertObject([Member("user", JObj([Member("name", JStr("Ann")), Member("tags", JArr([JInt(1), JStr("x")]))]))])
         == Ok([("user.name", Str("Ann")), ("user.tags", Str("[1, x]"))])
  {
    var inner := [Member("name", JStr("Ann")), Member("tags", JArr([JInt(1), JStr("x")]))];
    InnerExample();
    var outer := [Member("user", JObj(inner))];
    assert FlattenValue(JObj(inner), MemberKey([], "user"), EmptyRow) == FlattenMembers(inner, "user", EmptyRow);
  }

  /** The rows of the nested example: after its first member, and at the end. */
  function NameRow(): Row {
    BlankIffAllTrimmable("user.name");
    [("user.name", Str("Ann"))]
  }

  function UserRow(): Row {
    ExampleNames();
    [("user.name", Str("Ann")), ("user.tags", Str("[1, x]"))]
  }

  lemma InnerExample()
    ensures FlattenMembers([Member("name", JStr("Ann")), Member("tags", JArr([JInt(1), JStr("x")]))], "user", EmptyRow)
         == Ok(UserRow())
  {
    var tags := Member("tags", JArr([JInt(1), JStr("x")]));
    var inner := [Member("name", JStr("Ann")), tags];
    NameStepExample();
    MembersStep(inner, "user", EmptyRow, NameRow());
    assert inner[1..] == [tags];
    TagsStepExample();
    MembersStep([tags], "user", NameRow(), UserRow());
    assert [tags][1..] == [];
  }

  /** `flattenMap` after its first member. */
  lemma {:induction false} MembersStep(members: seq<Member>, prefix: string, row: Row, next: Row)
    requires members != [] && FlattenValue(members[0].value, MemberKey(prefix, members[0].key), row) == Ok(next)
    ensures FlattenMembers(members, prefix, row) == FlattenMembers(members[1..], prefix, next)
  {
  }

  lemma ExampleNames()
    ensures ValidName("user.name") && ValidName("user.tags") && "user.name" != "user.tags"
  {
    BlankIffAllTrimmable("user.name");
    BlankIffAllTrimmable("user.tags");
    assert "user.name"[5] != "user.tags"[5];
  }

  lemma NameStepExample()
    ensures FlattenValue(JStr("Ann"), MemberKey("user", "name"), EmptyRow) == Ok(NameRow())
  {
    BlankIffAllTrimmable("user.name");
    assert MemberKey("user", "name") == "user.name";
  }

  lemma TagsStepExample()
    ensures FlattenValue(JArr([JInt(1), JStr("x")]), MemberKey("user", "tags"), NameRow())
         == Ok(UserRow())
  {
    ExampleNames();
    assert MemberKey("user", "tags") == "user.tags";
    ArrayExample();
    ArrayValueStep([JInt(1), JStr("x")], "user.tags", NameRow(), "[1, x]");
    PutSecond("user.name", Str("Ann"), "user.tags", Str("[1, x]"));
  }

  /** An array member is stored as its text. */
  lemma {:induction false} ArrayValueStep(items: seq<Json>, key: string, row: Row, t: string)
    requires ValidName(key) && ArrayText(items) == Ok(t)
    ensures FlattenValue(JArr(items), key, row) == Ok(Put(row, key, Str(t)))
  {
  }

  lemma {:induction false} PutSecond(a: string, x: Value, b: string, y: Value)
    requires a != b
    ensures PutFields([(a, x)], b, y) == [(a, x), (b, y)]
  {
    assert [(a, x)][1..] == [];
  }

  lemma ArrayExample()
    ensures ArrayText([JInt(1), JStr("x")]) == Ok("[1, x]")
  {
    assert IntToString(1) == "1";
    assert ItemTexts([JStr("x")]) == ["x"];
    assert ItemTexts([JInt(1), JStr("x")]) == ["1", "x"];
    assert Join(["1", "x"], ", ") == "1, x";
    assert JNull !in [JInt(1), JStr("x")];
    assert "[" + "1, x" + "]" == "[1, x]";
  }

  /** `convertMapToDataRow`: flattening into a fresh row. */
  function ConvertObject(members: seq<Member>): Result<Row, Error> {
    FlattenMembers(members, [], EmptyRow)
  }

  function ObjectCount(items: seq<Json>): (n: nat)
    ensures n <= |items|
    decreases |items|
  {
    if items == [] then 0 else (if items[0].JObj? then 1 else 0) + ObjectCount(items[1..])
  }

  /** The loop of `convertToDataRows`: every object element becomes a row, in
      order; other elements are skipped; the first failing object stops it. */
  function ConvertItems(items: seq<Json>): (r: Result<seq<Row>, Error>)
    ensures r.Ok? ==> |r.value| == ObjectCount(items)
    ensures r.Ok? ==> forall i | 0 <= i < |items| && items[i].JObj? :: ConvertObject(items[i].members).Ok?
    decreases |items|
  {
    if items == [] then Ok([])
    else if items[0].JObj? then
      var row :- ConvertObject(items[0].members);
      var rest :- ConvertItems(items[1..]);
      Ok([row] + rest)
    else ConvertItems(items[1..])
  }

  /** The member lists of the object elements of an array, in order. */
  function ObjectsOf(items: seq<Json>): (objects: seq<seq<Member>>)
    ensures |objects| == ObjectCount(items)
    decreases |items|
  {
    if items == [] then []
    else if items[0].JObj? then [items[0].members] + ObjectsOf(items[1..])
    else ObjectsOf(items[1..])
  }

  /** The conversion loop succeeds exactly when every object element converts,
      and then row `n` is the flattening of the `n`-th object element. */
  lemma {:induction false} ConvertItemsRows(items: seq<Json>)
    ensures ConvertItems(items).Ok? <==>
      forall n | 0 <= n < |ObjectsOf(items)| :: ConvertObject(ObjectsOf(items)[n]).Ok?
    ensures ConvertItems(items).Ok? ==>
      && |ConvertItems(items).value| == |ObjectsOf(items)|
      && forall n | 0 <= n < |ObjectsOf(items)| :: ConvertObject(ObjectsOf(items)[n]) == Ok(ConvertItems(items).value[n])
    decreases |items|
  {
    if items != [] {
      ConvertItemsRows(items[1..]);
      var tail := ObjectsOf(items[1..]);
      if items[0].JObj? {
        var objects := ObjectsOf(items);
        assert objects == [items[0].members] + tail;
        forall n | 1 <= n < |objects| ensures objects[n] == tail[n - 1] { }
        if ConvertObject(items[0].members).Ok? && ConvertItems(items[1..]).Ok? {
          var rows := ConvertItems(items).value;
          assert rows == [ConvertObject(items[0].members).value] + ConvertItems(items[1..]).value;
          forall n | 1 <= n < |objects| ensures ConvertObject(objects[n]) == Ok(rows[n]) {
            assert rows[n] == ConvertItems(items[1..]).value[n - 1];
          }
        } else if ConvertObject(items[0].members).Ok? {
          var n :| 0 <= n < |tail| && !ConvertObject(tail[n]).Ok?;
          assert objects[n + 1] == tail[n];
          assert !ConvertObject(objects[n + 1]).Ok?;
        } else {
          assert objects[0] == items[0].members;
        }
      } else {
        assert ObjectsOf(items) == tail;
      }
    }
  }

    /** A first failure among `tail` stays the first failure behind an object
      that converts. */
  lemma FirstFailureShifts(head: seq<Member>, tail: seq<seq<Member>>, e: Error)
    requires ConvertObject(head).Ok?
    requires exists n | 0 <= n < |tail| ::
      && ConvertObject(tail[n]) == Err(e)
      && forall q | 0 <= q < n :: ConvertObject(tail[q]).Ok?
    ensures exists n | 0 <= n < |[head] + tail| ::
      && ConvertObject(([head] + tail)[n]) == Err(e)
      && forall q | 0 <= q < n :: ConvertObject(([head] + tail)[q]).Ok?
  {
    var objects := [head] + tail;
    var n :| 0 <= n < |tail| && ConvertObject(tail[n]) == Err(e) && forall q | 0 <= q < n :: ConvertObject(tail[q]).Ok?;
    assert objects[n + 1] == tail[n];
    forall q | 0 <= q < n + 1 ensures ConvertObject(objects[q]).Ok? {
      if q > 0 {
        assert objects[q] == tail[q - 1];
      }
    }
  }

/** A failing conversion loop reports the failure of the first object
      element that does not convert. */
  lemma {:induction false} ConvertItemsFailure(items: seq<Json>)
    ensures ConvertItems(items).Err? ==>
      exists n | 0 <= n < |ObjectsOf(items)| ::
        && ConvertObject(ObjectsOf(items)[n]) == Err(ConvertItems(items).error)
        && forall q | 0 <= q < n :: ConvertObject(ObjectsOf(items)[q]).Ok?
    decreases |items|
  {
    if items != [] {
      ConvertItemsFailure(items[1..]);
      if items[0].JObj? && ConvertObject(items[0].members).Ok? && ConvertItems(items).Err? {
        assert ObjectsOf(items) == [items[0].members] + ObjectsOf(items[1..]);
        assert ConvertItems(items).error == ConvertItems(items[1..]).error;
        FirstFailureShifts(items[0].members, ObjectsOf(items[1..]), ConvertItems(items).error);
      } else if items[0].JObj? && ConvertItems(items).Err? {
        var objects := ObjectsOf(items);
        assert objects[0] == items[0].members;
        assert ConvertItems(items) == Err(ConvertObject(items[0].members).error);
        assert ConvertObject(objects[0]) == Err(ConvertItems(items).error);
      } else if !items[0].JObj? {
        assert ObjectsOf(items) == ObjectsOf(items[1..]);
      }
    }
  }

  /** `convertToDataRows`: only a top-level array is accepted. */
  function ConvertToRows(j: Json): (r: Result<seq<Row>, Error>)
    ensures !j.JArr? ==> r == Err(ParseError("JSON must be an array of objects"))
    ensures r.Ok? ==> j.JArr? && |r.value| == ObjectCount(j.items)
  {
    if j.JArr? then ConvertItems(j.items) else Err(ParseError("JSON must be an array of objects"))
  }

  /** Rewraps any failure as a ParseException whose message is `prefix`
      followed by the original message. */
  function Reword<T>(r: Result<T, Error>, prefix: string): (w: Result<T, Error>)
    ensures r.Ok? ==> w == r
    ensures r.Err? ==> w == Err(ParseError(prefix + r.error.message))
  {
    if r.Ok? then r else Err(ParseError(prefix + r.error.message))
  }

  lemma NullMessage()
    ensures "JSON" + " content cannot be null" == "JSON content cannot be null"
  {
  }

  lemma NotObjectMessage()
    ensures "Failed to parse JSON object: " + "JSON must be an object" == "Failed to parse JSON object: JSON must be an object"
  {
  }

  /** `parse(String)`: null content throws IllegalArgumentException, blank
      content gives no rows, and every failure of parsing or conversion
      surfaces as "Invalid JSON format: <message>". */
  function Parse(content: Option<string>): (r: Result<seq<Row>, Error>)
    ensures content.None? ==> r == Err(IllegalArgumentError("JSON content cannot be null"))
    ensures content.Some? && IsBlank(content.value) ==> r == Ok([])
    ensures content.Some? && !IsBlank(content.value) && r.Err? ==>
      r.error.kind.Parse? && StartsWith(r.error.message, "Invalid JSON format: ")
    ensures content.Some? && !IsBlank(content.value) && r.Ok? ==>
      && ParseJson(Trim(content.value)).Ok?
      && ParseJson(Trim(content.value)).value.JArr?
      && |r.value| == ObjectCount(ParseJson(Trim(content.value)).value.items)
  {
    var check := ValidateInput(content, "JSON");
    NullMessage();
    if check.Fail? then Err(check.error)
    else if IsEmpty(content.value) then Ok([])
    else
      var parsed := ParseJson(Trim(content.value));
      var rows := if parsed.Ok? then ConvertToRows(parsed.value) else Err(parsed.error);
      Reword(rows, "Invalid JSON format: ")
  }

  /** Non-blank content: parsing succeeds exactly when the trimmed text is an
      array whose object elements all convert, and then row `n` is the
      flattening of the `n`-th object element. */
  lemma ParseRows(content: string)
    requires !IsBlank(content)
    ensures Parse(Some(content)).Ok? <==>
      && ParseJson(Trim(content)).Ok? && ParseJson(Trim(content)).value.JArr?
      && forall n | 0 <= n < |ObjectsOf(ParseJson(Trim(content)).value.items)| ::
           ConvertObject(ObjectsOf(ParseJson(Trim(content)).value.items)[n]).Ok?
    ensures Parse(Some(content)).Ok? ==>
      && |Parse(Some(content)).value| == |ObjectsOf(ParseJson(Trim(content)).value.items)|
      && forall n | 0 <= n < |ObjectsOf(ParseJson(Trim(content)).value.items)| ::
           ConvertObject(ObjectsOf(ParseJson(Trim(content)).value.items)[n]) == Ok(Parse(Some(content)).value[n])
  {
    var parsed := ParseJson(Trim(content));
    ParseBody(content);
    if parsed.Ok? && parsed.value.JArr? {
      ConvertItemsRows(parsed.value.items);
    }
  }

  /** What `parse(String)` runs on non-blank content. */
  lemma ParseBody(content: string)
    requires !IsBlank(content)
    ensures ParseJson(Trim(content)).Err? ==>
      Parse(Some(content)) == Err(ParseError("Invalid JSON format: " + ParseJson(Trim(content)).error.message))
    ensures ParseJson(Trim(content)).Ok? ==>
      Parse(Some(content)) == Reword(ConvertToRows(ParseJson(Trim(content)).value), "Invalid JSON format: ")
  {
  }

  lemma NotArrayMessage()
    ensures "Invalid JSON format: " + "JSON must be an array of objects" == "Invalid JSON format: JSON must be an array of objects"
  {
  }

  /** Non-blank content that fails: a text that does not parse reports the
      JSON error, an array reports the first object element that does not
      convert, and anything else reports that it is not an array; every
      message is prefixed with "Invalid JSON format: ". */
  lemma ParseFailure(content: string)
    requires !IsBlank(content)
    ensures ParseJson(Trim(content)).Err? ==>
      Parse(Some(content)) == Err(ParseError("Invalid JSON format: " + ParseJson(Trim(content)).error.message))
    ensures ParseJson(Trim(content)).Ok? && !ParseJson(Trim(content)).value.JArr? ==>
      Parse(Some(content)) == Err(ParseError("Invalid JSON format: JSON must be an array of objects"))
    ensures ParseJson(Trim(content)).Ok? && ParseJson(Trim(content)).value.JArr? && Parse(Some(content)).Err? ==>
      exists n | 0 <= n < |ObjectsOf(ParseJson(Trim(content)).value.items)| ::
        && ConvertObject(ObjectsOf(ParseJson(Trim(content)).value.items)[n]).Err?
        && Parse(Some(content)) ==
             Err(ParseError("Invalid JSON format: " + ConvertObject(ObjectsOf(ParseJson(Trim(content)).value.items)[n]).error.message))
        && forall q | 0 <= q < n :: ConvertObject(ObjectsOf(ParseJson(Trim(content)).value.items)[q]).Ok?
  {
    var parsed := ParseJson(Trim(content));
    ParseBody(content);
    NotArrayMessage();
    if parsed.Ok? && parsed.value.JArr? {
      ConvertItemsFailure(parsed.value.items);
    }
  }

  /** `convertJsonToDataRow(text)`: the text must hold an object; any failure
      surfaces as "Failed to parse JSON object: <message>". */
  function ConvertJsonToDataRow(text: string): (r: Result<Row, Error>)
    ensures r.Err? ==> r.error.kind.Parse? && StartsWith(r.error.message, "Failed to parse JSON object: ")
    ensures r.Ok? ==> ParseJson(Trim(text)).Ok? && ParseJson(Trim(text)).value.JObj?
    ensures ParseJson(Trim(text)).Ok? && !ParseJson(Trim(text)).value.JObj? ==>
      r == Err(ParseError("Failed to parse JSON object: JSON must be an object"))
  {
    var parsed := ParseJson(Trim(text));
    var row :=
      if parsed.Err? then Err(parsed.error)
      else if parsed.value.JObj? then ConvertObject(parsed.value.members)
      else Err(ParseError("JSON must be an object"));
    NotObjectMessage();
    Reword(row, "Failed to parse JSON object: ")
  }

  /** The JSON text `[`, an ideographic space U+3000, `{}]`: the tokenizer
      skips the space, as Character.isWhitespace does, and reads an array
      holding one empty object. */
  lemma WideSpaceSkipped()
    ensures ParseJson("[\U{3000}{}]") == Ok(JArr([JObj([])]))
  {
    var s := "[\U{3000}{}]";
    assert SkipWs(s, 0) == 0 && SkipWs(s, 1) == 2;
  }

  /** The member `"c" 1`, its ':' missing: the tokenizer fails reading the
      `1`, the character at index 5. */
  lemma ColonMissingAt(c: char)
    requires c != '"' && c != '\\'
    ensures var s := "{\"" + [c] + "\" 1}";
      MemberAt(s, 1) == Err(ExpectedError(':', UnitIndex(s, 5) + 1))
  {
    var s := "{\"" + [c] + "\" 1}";
    assert s[1] == '"' && s[2] == c && s[3] == '"' && s[4] == ' ' && s[5] == '1';
    assert SkipWs(s, 1) == 1;
    assert StringBody(s, 3) == Ok(([], 4));
    assert [c] + [] == [c];
    assert StringBody(s, 2) == Ok(([c], 4));
    assert SkipWs(s, 4) == 5;
  }

  /** Before the cursor, a key character above U+FFFF counts as two code
      units, so the tokenizer's position is one past the character count. */
  lemma KeyUnits(c: char)
    ensures UnitIndex("{\"" + [c] + "\" 1}", 5) == if c as int < 0x10000 then 5 else 6
  {
    var s := "{\"" + [c] + "\" 1}";
    assert s[..5] == "{\"" + [c] + "\" ";
    Utf16Append("{\"" + [c], "\" ");
    Utf16Append("{\"", [c]);
  }

  /** The two messages for a missing ':' at positions 6 and 7. */
  lemma ColonMessages()
    ensures ExpectedError(':', 6) == ParseError("Expected ':' at position 6")
    ensures ExpectedError(':', 7) == ParseError("Expected ':' at position 7")
  {
    assert NatToString(6) == "6" && NatToString(7) == "7";
  }

  /** The missing ':' after a one-character key is reported at position 6,
      or at 7 when the key is a character above U+FFFF, which a Java string
      holds as two code units. */
  lemma SupplementaryPosition(c: char)
    requires c != '"' && c != '\\'
    ensures MemberAt("{\"" + [c] + "\" 1}", 1)
         == Err(ParseError("Expected ':' at position " + if c as int < 0x10000 then "6" else "7"))
  {
    var s := "{\"" + [c] + "\" 1}";
    ColonMissingAt(c);
    KeyUnits(c);
    ColonMessages();
    var n := UnitIndex(s, 5) + 1;
    assert MemberAt(s, 1) == Err(ExpectedError(':', n));
    if c as int < 0x10000 {
      assert n == 6;
      assert "Expected ':' at position " + "6" == "Expected ':' at position 6";
    } else {
      assert n == 7;
      assert "Expected ':' at position " + "7" == "Expected ':' at position 7";
    }
  }

  /** Only the first complete value is read: text after it is never examined. */
  lemma TrailingTextIgnored()
    ensures ParseJson("[7] tail") == Ok(JArr([JInt(7)]))
  {
    var s := "[7] tail";
    assert SkipWs(s, 0) == 0 && SkipWs(s, 1) == 1 && SkipWs(s, 2) == 2;
    assert SkipDigits(s, 1) == 2 by {
      assert SkipDigits(s, 2) == 2;
    }
    assert s[1..2] == "7";
    assert ParseInt("7") == Some(7) by {
      assert DigitsValue("7") == 7 by {
        assert "7"[..0] == [];
      }
    }
    assert ParseNumber(s, 1) == Ok((JInt(7), 2));
    assert ParseValue(s, 1) == Ok((JInt(7), 2));
    assert ArrayItems(s, 1) == Ok(([JInt(7)], 3));
    assert ParseArray(s, 0) == Ok((JArr([JInt(7)]), 3));
  }
}
