/** The values PHP's `json_decode($text, true)` produces, the array reads the
    plugin performs on them (`isset($v['k'])`, `array_keys`, string
    interpolation), and a JSON codec on them.

    JSON objects are kept as ordered member lists rather than merged with
    lists as PHP's associative decoding does, so that `json_encode` followed
    by `json_decode` can be stated exactly: `Decode(Encode(v)) == Some(v)`. */
module Json {
  import opened Wrappers
  import opened Text

  datatype Value =
    | Null
    | Bool(b: bool)
    | Num(n: int)
    | Str(s: string)
    | Arr(items: seq<Value>)
    | Obj(members: seq<Member>)

  datatype Member = Member(key: string, value: Value)

  /** PHP `is_array($v)`: a decoded JSON list or object. */
  predicate IsArray(v: Value) {
    v.Arr? || v.Obj?
  }

  // ---------------------------------------------------------------------
  // array reads
  // ---------------------------------------------------------------------

  /** A key PHP treats as the integer index it spells: "0", "17", not "007". */
  predicate IsIndexKey(key: string) {
    |key| >= 1 && AllDigits(key) && (key[0] != '0' || |key| == 1)
  }

  /** The value of the last member called `key` (PHP keeps the last of
      duplicated object keys), or `Null` when there is none. */
  function LastValue(ms: seq<Member>, key: string): Value
    decreases |ms|
  {
    if ms == [] then Null
    else if ms[|ms| - 1].key == key then ms[|ms| - 1].value
    else LastValue(ms[..|ms| - 1], key)
  }

  /** `$v[$key]` read inside `isset()`: an object member, a list element at
      an index key, the one-character string at an index key of a string
      (PHP string offsets), and `Null` for anything else. */
  function Get(v: Value, key: string): Value
  {
    match v
    case Obj(ms) => LastValue(ms, key)
    case Arr(xs) => if IsIndexKey(key) && DigitsValue(key) < |xs| then xs[DigitsValue(key)] else Null
    case Str(s) => if IsIndexKey(key) && DigitsValue(key) < |s| then Str([s[DigitsValue(key)]]) else Null
    case _ => Null
  }

  /** PHP `isset($v[$key])`: the key is present and its value is not null. */
  predicate IsSet(v: Value, key: string) {
    Get(v, key) != Null
  }

  /** `$v[$k1][$k2]...` along a path of keys. */
  function GetPath(v: Value, path: seq<string>): Value
    decreases path
  {
    if path == [] then v else GetPath(Get(v, path[0]), path[1..])
  }

  /** PHP `array_keys($v)` with each key as the string PHP compares it by. */
  function Keys(v: Value): seq<string>
  {
    match v
    case Obj(ms) => seq(|ms|, i requires 0 <= i < |ms| => ms[i].key)
    case Arr(xs) => seq(|xs|, i requires 0 <= i < |xs| => NatToString(i))
    case _ => []
  }

  /** PHP's conversion of a value to a string, as string interpolation and
      `esc_html` perform it: null and false give "", true gives "1", and an
      array gives "Array". */
  function ToText(v: Value): string
  {
    match v
    case Null => ""
    case Bool(b) => if b then "1" else ""
    case Num(n) => IntToString(n)
    case Str(s) => s
    case Arr(_) => "Array"
    case Obj(_) => "Array"
  }

  /** The elements `foreach` visits in a PHP array. */
  function Elements(v: Value): seq<Value>
  {
    match v
    case Arr(xs) => xs
    case Obj(ms) => seq(|ms|, i requires 0 <= i < |ms| => ms[i].value)
    case _ => []
  }

  // ---------------------------------------------------------------------
  // encoding
  // ---------------------------------------------------------------------

  function HexDigit(d: nat): (c: char)
    requires d < 16
  {
    if d < 10 then (d + '0' as int) as char else (d - 10 + 'a' as int) as char
  }

  /** One character of a JSON string literal: quote and backslash are
      escaped, control characters become `\u00XX`, everything else is kept. */
  function EscapeChar(c: char): string
  {
    if c == '"' then "\\\""
    else if c == '\\' then "\\\\"
    else if (c as int) < 0x20 then "\\u00" + [HexDigit(c as int / 16), HexDigit(c as int % 16)]
    else [c]
  }

  function EscapeString(s: string): string
  {
    if s == [] then "" else EscapeChar(s[0]) + EscapeString(s[1..])
  }

  function Quote(s: string): string
  {
    "\"" + EscapeString(s) + "\""
  }

  /** `json_encode($v)`, without insignificant whitespace. */
  function Encode(v: Value): string
    decreases v
  {
    match v
    case Null => "null"
    case Bool(b) => if b then "true" else "false"
    case Num(n) => IntToString(n)
    case Str(s) => Quote(s)
    case Arr(xs) => "[" + EncodeItems(xs) + "]"
    case Obj(ms) => "{" + EncodeMembers(ms) + "}"
  }

  function EncodeItems(xs: seq<Value>): string
    decreases xs
  {
    if xs == [] then ""
    else if |xs| == 1 then Encode(xs[0])
    else Encode(xs[0]) + "," + EncodeItems(xs[1..])
  }

  function EncodeMember(m: Member): string
    decreases m
  {
    Quote(m.key) + ":" + Encode(m.value)
  }

  function EncodeMembers(ms: seq<Member>): string
    decreases ms
  {
    if ms == [] then ""
    else if |ms| == 1 then EncodeMember(ms[0])
    else EncodeMember(ms[0]) + "," + EncodeMembers(ms[1..])
  }

  // ---------------------------------------------------------------------
  // decoding
  // ---------------------------------------------------------------------

  predicate IsJsonWs(c: char) {
    c == ' ' || c == '\t' || c == '\n' || c == '\r'
  }

  function SkipWs(s: string): (r: string)
    ensures |r| <= |s|
    ensures r == [] || !IsJsonWs(r[0])
  {
    if s != [] && IsJsonWs(s[0]) then SkipWs(s[1..]) else s
  }

  function HexValue(c: char): (r: Option<nat>)
    ensures r.Some? ==> r.value < 16
  {
    if '0' <= c <= '9' then Some(c as int - '0' as int)
    else if 'a' <= c <= 'f' then Some(c as int - 'a' as int + 10)
    else if 'A' <= c <= 'F' then Some(c as int - 'A' as int + 10)
    else None
  }

  function ParseHex4(s: string): (r: Option<nat>)
    requires |s| == 4
    ensures r.Some? ==> r.value < 0x10000
  {
    match (HexValue(s[0]), HexValue(s[1]), HexValue(s[2]), HexValue(s[3]))
    case (Some(a), Some(b), Some(c), Some(d)) => Some(((a * 16 + b) * 16 + c) * 16 + d)
    case _ => None
  }

  /** The character an escape sequence stands for; `s` is the text after the
      backslash. A `\u` escape in the surrogate range is refused: surrogate
      pairs are not part of this model. */
  function ParseEscape(s: string): (r: Option<(char, string)>)
    ensures r.Some? ==> |r.value.1| < |s|
  {
    if s == [] then None
    else if s[0] == '"' || s[0] == '\\' || s[0] == '/' then Some((s[0], s[1..]))
    else if s[0] == 'b' then Some((8 as char, s[1..]))
    else if s[0] == 'f' then Some((12 as char, s[1..]))
    else if s[0] == 'n' then Some(('\n', s[1..]))
    else if s[0] == 'r' then Some(('\r', s[1..]))
    else if s[0] == 't' then Some(('\t', s[1..]))
    else if s[0] == 'u' && |s| >= 5 then
      match ParseHex4(s[1..5])
      case None => None
      case Some(code) => if 0xD800 <= code < 0xE000 then None else Some((code as char, s[5..]))
    else None
  }

  /** The body of a string literal up to its closing quote; `s` is the text
      after the opening quote, and the rest after the closing quote is returned. */
  function ParseStringBody(s: string): (r: Option<(string, string)>)
    ensures r.Some? ==> |r.value.1| < |s|
    decreases |s|
  {
    if s == [] then None
    else if s[0] == '"' then Some(([], s[1..]))
    else if s[0] == '\\' then
      match ParseEscape(s[1..])
      case None => None
      case Some((c, rest)) =>
        match ParseStringBody(rest)
        case None => None
        case Some((t, rest')) => Some(([c] + t, rest'))
    else if (s[0] as int) < 0x20 then None
    else
      match ParseStringBody(s[1..])
      case None => None
      case Some((t, rest)) => Some(([s[0]] + t, rest))
  }

  /** Length of the run of decimal digits `s` starts with. */
  function DigitRun(s: string): (n: nat)
    ensures n <= |s| && AllDigits(s[..n]) && (n == |s| || !IsDigit(s[n]))
  {
    if s != [] && IsDigit(s[0]) then
      var n := 1 + DigitRun(s[1..]);
      assert s[..n] == [s[0]] + s[1..][..n - 1];
      n
    else 0
  }

  /** An integer literal. Fractions and exponents are refused: floating point
      is not part of this model. */
  function ParseNumber(s: string): (r: Option<(Value, string)>)
    ensures r.Some? ==> |r.value.1| < |s|
  {
    var neg := s != [] && s[0] == '-';
    var t := if neg then s[1..] else s;
    var n := DigitRun(t);
    if n == 0 || (n > 1 && t[0] == '0') then None
    else if n < |t| && (t[n] == '.' || t[n] == 'e' || t[n] == 'E') then None
    else
      var m: int := DigitsValue(t[..n]);
      Some((Num(if neg then -m else m), t[n..]))
  }

  /** A literal, string or number at the start of `s`, and the rest. */
  function ParseScalar(s: string): (r: Option<(Value, string)>)
    ensures r.Some? ==> |r.value.1| < |s|
  {
    if s == [] then None
    else if HasPrefix(s, "null") then Some((Null, s[4..]))
    else if HasPrefix(s, "true") then Some((Bool(true), s[4..]))
    else if HasPrefix(s, "false") then Some((Bool(false), s[5..]))
    else if s[0] == '"' then
      match ParseStringBody(s[1..])
      case None => None
      case Some((t, rest)) => Some((Str(t), rest))
    else if s[0] == '-' || IsDigit(s[0]) then ParseNumber(s)
    else None
  }

  /** One JSON value at the start of `s` (no leading whitespace), and the rest. */
  function ParseValue(s: string): (r: Option<(Value, string)>)
    ensures r.Some? ==> |r.value.1| < |s|
    decreases |s|, 0
  {
    if s == [] then None
    else if s[0] == '[' then ParseArray(SkipWs(s[1..]))
    else if s[0] == '{' then ParseObject(SkipWs(s[1..]))
    else ParseScalar(s)
  }

  /** A list after its opening bracket and any whitespace. */
  function ParseArray(s: string): (r: Option<(Value, string)>)
    ensures r.Some? ==> |r.value.1| < |s|
    decreases |s|, 3
  {
    if s != [] && s[0] == ']' then Some((Arr([]), s[1..]))
    else
      match ParseItems(s)
      case None => None
      case Some((xs, rest)) => Some((Arr(xs), rest))
  }

  /** The elements of a non-empty list up to and including its closing bracket. */
  function ParseItems(s: string): (r: Option<(seq<Value>, string)>)
    ensures r.Some? ==> |r.value.1| < |s|
    decreases |s|, 1
  {
    match ParseValue(s)
    case None => None
    case Some((v, rest)) =>
      var t := SkipWs(rest);
      if t != [] && t[0] == ']' then Some(([v], t[1..]))
      else if t != [] && t[0] == ',' then
        match ParseItems(SkipWs(t[1..]))
        case None => None
        case Some((vs, rest')) => Some(([v] + vs, rest'))
      else None
  }

  /** An object after its opening brace and any whitespace. */
  function ParseObject(s: string): (r: Option<(Value, string)>)
    ensures r.Some? ==> |r.value.1| < |s|
    decreases |s|, 3
  {
    if s != [] && s[0] == '}' then Some((Obj([]), s[1..]))
    else
      match ParseMembers(s)
      case None => None
      case Some((ms, rest)) => Some((Obj(ms), rest))
  }

  /** One `"key": value` member, and the rest after its value. */
  function ParseMember(s: string): (r: Option<(Member, string)>)
    ensures r.Some? ==> |r.value.1| < |s|
    decreases |s|, 1
  {
    if s == [] || s[0] != '"' then None
    else
      match ParseStringBody(s[1..])
      case None => None
      case Some((k, rest)) =>
        var t := SkipWs(rest);
        if t == [] || t[0] != ':' then None
        else
          match ParseValue(SkipWs(t[1..]))
          case None => None
          case Some((v, rest')) => Some((Member(k, v), rest'))
  }

  /** The members of a non-empty object up to and including its closing brace. */
  function ParseMembers(s: string): (r: Option<(seq<Member>, string)>)
    ensures r.Some? ==> |r.value.1| < |s|
    decreases |s|, 2
  {
    match ParseMember(s)
    case None => None
    case Some((m, rest)) =>
      var t := SkipWs(rest);
      if t != [] && t[0] == '}' then Some(([m], t[1..]))
      else if t != [] && t[0] == ',' then
        match ParseMembers(SkipWs(t[1..]))
        case None => None
        case Some((ms, rest')) => Some(([m] + ms, rest'))
      else None
  }

  /** `json_decode($text, true)`: `None` is a decoding error (PHP's
      `json_last_error() !== JSON_ERROR_NONE`). */
  function Decode(text: string): Option<Value>
  {
    match ParseValue(SkipWs(text))
    case None => None
    case Some((v, rest)) => if SkipWs(rest) == [] then Some(v) else None
  }

  // ---------------------------------------------------------------------
  // the round trip
  // ---------------------------------------------------------------------

  /** What may follow an encoded value inside an encoding: nothing, or a
      separator or closing bracket. */
  predicate EndsToken(rest: string) {
    rest == [] || rest[0] == ',' || rest[0] == ']' || rest[0] == '}'
  }

  /** Encodings start with a character that opens a value. */
  lemma EncodeStart(v: Value)
    ensures Encode(v) != []
    ensures !IsJsonWs(Encode(v)[0]) && Encode(v)[0] != ']' && Encode(v)[0] != '}'
  {
    match v
    case Num(n) =>
      if n < 0 {
        assert Encode(v)[0] == '-';
      } else {
        assert Encode(v) == NatToString(n);
      }
    case _ =>
  }

  lemma HexRoundTrip(c: char)
    requires (c as int) < 0x20
    ensures ParseHex4(['0', '0', HexDigit(c as int / 16), HexDigit(c as int % 16)]) == Some(c as int)
  {
  }

  /** Decoding one escaped character, then whatever follows it. */
  lemma ParseEscapedChar(c: char, tail: string)
    ensures ParseStringBody(EscapeChar(c) + tail) ==
      match ParseStringBody(tail)
      case None => None
      case Some((t, r)) => Some(([c] + t, r))
  {
    var u := EscapeChar(c) + tail;
    if c == '"' || c == '\\' {
      assert u[1..] == [c] + tail;
      assert u[1..][1..] == tail;
    } else if (c as int) < 0x20 {
      var hex := ['0', '0', HexDigit(c as int / 16), HexDigit(c as int % 16)];
      assert u[1..] == "u" + hex + tail;
      assert u[1..][1..5] == hex;
      assert u[1..][5..] == tail;
      HexRoundTrip(c);
    } else {
      assert u[1..] == tail;
    }
  }

  lemma {:induction false} ParseEscapedString(s: string, rest: string)
    ensures ParseStringBody(EscapeString(s) + "\"" + rest) == Some((s, rest))
    decreases |s|
  {
    if s == [] {
      assert EscapeString(s) + "\"" + rest == "\"" + rest;
    } else {
      var tail := EscapeString(s[1..]) + "\"" + rest;
      assert EscapeString(s) + "\"" + rest == EscapeChar(s[0]) + tail;
      ParseEscapedString(s[1..], rest);
      ParseEscapedChar(s[0], tail);
      assert [s[0]] + s[1..] == s;
    }
  }

  lemma {:induction false} DigitRunOfDigits(d: string, rest: string)
    requires AllDigits(d)
    requires rest == [] || !IsDigit(rest[0])
    ensures DigitRun(d + rest) == |d|
    decreases |d|
  {
    if d != [] {
      assert (d + rest)[1..] == d[1..] + rest;
      DigitRunOfDigits(d[1..], rest);
    } else {
      assert d + rest == rest;
    }
  }

  lemma ParseEncodedNat(m: nat, rest: string)
    requires EndsToken(rest)
    ensures ParseNumber(NatToString(m) + rest) == Some((Num(m), rest))
  {
    var d := NatToString(m);
    var t := d + rest;
    DigitRunOfDigits(d, rest);
    assert t[..|d|] == d;
    assert t[|d|..] == rest;
    NatToStringRoundTrip(m);
  }

  lemma ParseEncodedNumber(n: int, rest: string)
    requires EndsToken(rest)
    ensures ParseScalar(Encode(Num(n)) + rest) == Some((Num(n), rest))
  {
    var s := Encode(Num(n)) + rest;
    var m: nat := if n < 0 then -n else n;
    var t := NatToString(m) + rest;
    ParseEncodedNat(m, rest);
    if n < 0 {
      assert s == "-" + t;
      assert s[1..] == t;
    } else {
      assert s == t;
    }
    NoLiteralAt(s);
  }

  /** Text starting with anything but `n`, `t` or `f` starts no literal. */
  lemma NoLiteralAt(s: string)
    requires s != [] && s[0] != 'n' && s[0] != 't' && s[0] != 'f'
    ensures !HasPrefix(s, "null") && !HasPrefix(s, "true") && !HasPrefix(s, "false")
  {
    assert |s| < 4 || s[..4][0] == s[0];
    assert |s| < 5 || s[..5][0] == s[0];
  }

  lemma ParseEncodedString(x: string, rest: string)
    ensures ParseScalar(Encode(Str(x)) + rest) == Some((Str(x), rest))
  {
    var s := Encode(Str(x)) + rest;
    var body := EscapeString(x) + "\"" + rest;
    assert s == "\"" + body;
    assert s[1..] == body;
    ParseEscapedString(x, rest);
    NoLiteralAt(s);
    StringScalar(s, x, rest);
  }

  lemma StringScalar(s: string, x: string, rest: string)
    requires s != [] && s[0] == '"' && !HasPrefix(s, "null") && !HasPrefix(s, "true") && !HasPrefix(s, "false")
    requires ParseStringBody(s[1..]) == Some((x, rest))
    ensures ParseScalar(s) == Some((Str(x), rest))
  {
  }

  /** Scalars decode back from their encoding. */
  lemma ParseEncodedScalar(v: Value, rest: string)
    requires !v.Arr? && !v.Obj?
    requires EndsToken(rest)
    ensures ParseValue(Encode(v) + rest) == Some((v, rest))
  {
    var s := Encode(v) + rest;
    match v
    case Null =>
      assert s[..4] == "null";
    case Bool(b) =>
      if b {
        assert s[..4] == "true";
        assert !HasPrefix(s, "null") by { assert s[..4][0] == 't'; }
      } else {
        assert s[..5] == "false";
        assert !HasPrefix(s, "null") && !HasPrefix(s, "true") by { assert s[..4][0] == 'f'; }
      }
    case Num(n) =>
      ParseEncodedNumber(n, rest);
    case Str(x) =>
      ParseEncodedString(x, rest);
  }

  lemma {:induction false} ParseEncodedValue(v: Value, rest: string)
    requires EndsToken(rest)
    ensures ParseValue(Encode(v) + rest) == Some((v, rest))
    decreases v, 2
  {
    match v
    case Arr(xs) =>
      ParseEncodedArr(xs, rest);
    case Obj(ms) =>
      ParseEncodedObj(ms, rest);
    case _ =>
      ParseEncodedScalar(v, rest);
  }

  // The recursive round-trip lemmas below only make their recursive calls;
  // each hands the results to a non-recursive step lemma that does the
  // reasoning about one layer of the parser.

  lemma {:induction false} ParseEncodedArr(xs: seq<Value>, rest: string)
    requires EndsToken(rest)
    ensures ParseValue(Encode(Arr(xs)) + rest) == Some((Arr(xs), rest))
    decreases xs, 1
  {
    if xs == [] {
      ArrEmptyEncoded(rest);
    } else {
      ParseEncodedItems(xs, rest);
      ArrEncoded(xs, rest);
    }
  }

  lemma {:induction false} ParseEncodedObj(ms: seq<Member>, rest: string)
    requires EndsToken(rest)
    ensures ParseValue(Encode(Obj(ms)) + rest) == Some((Obj(ms), rest))
    decreases ms, 1
  {
    if ms == [] {
      ObjEmptyEncoded(rest);
    } else {
      ParseEncodedMembers(ms, rest);
      ObjEncoded(ms, rest);
    }
  }

  lemma {:induction false} ParseEncodedItems(xs: seq<Value>, rest: string)
    requires xs != []
    ensures ParseItems(EncodeItems(xs) + "]" + rest) == Some((xs, rest))
    decreases xs, 0
  {
    if |xs| == 1 {
      ParseEncodedValue(xs[0], "]" + rest);
      ItemsOneEncoded(xs, rest);
    } else {
      var body := EncodeItems(xs[1..]) + "]" + rest;
      assert EndsToken("," + body);
      ParseEncodedValue(xs[0], "," + body);
      ParseEncodedItems(xs[1..], rest);
      ItemsConsEncoded(xs, rest);
    }
  }

  lemma {:induction false} ParseEncodedMember(m: Member, after: string)
    requires EndsToken(after)
    ensures ParseMember(EncodeMember(m) + after) == Some((m, after))
    decreases m, 0
  {
    ParseEncodedValue(m.value, after);
    MemberEncoded(m.key, m.value, after);
    assert Member(m.key, m.value) == m;
  }

  lemma {:induction false} ParseEncodedMembers(ms: seq<Member>, rest: string)
    requires ms != []
    ensures ParseMembers(EncodeMembers(ms) + "}" + rest) == Some((ms, rest))
    decreases ms, 0
  {
    if |ms| == 1 {
      ParseEncodedMember(ms[0], "}" + rest);
      MembersOneEncoded(ms, rest);
    } else {
      var body := EncodeMembers(ms[1..]) + "}" + rest;
      assert EndsToken("," + body);
      ParseEncodedMember(ms[0], "," + body);
      ParseEncodedMembers(ms[1..], rest);
      MembersConsEncoded(ms, rest);
    }
  }

  // ---------------------------------------------------------------------
  // one parser layer at a time
  // ---------------------------------------------------------------------

  lemma ArrEmptyEncoded(rest: string)
    ensures ParseValue(Encode(Arr([])) + rest) == Some((Arr([]), rest))
  {
    var s := "[" + "" + "]" + rest;
    assert Encode(Arr([])) + rest == s;
    var t := "]" + rest;
    assert s[1..] == t;
    assert SkipWs(t) == t;
    assert t[1..] == rest;
  }

  lemma ArrEncoded(xs: seq<Value>, rest: string)
    requires xs != []
    requires ParseItems(EncodeItems(xs) + "]" + rest) == Some((xs, rest))
    ensures ParseValue(Encode(Arr(xs)) + rest) == Some((Arr(xs), rest))
  {
    var e := EncodeItems(xs);
    var t := e + "]" + rest;
    SplitAfter("[", e, "]", rest);
    Assoc(e, "]", rest);
    assert Encode(Arr(xs)) + rest == "[" + t;
    EncodeItemsNoWs(xs, "]" + rest);
    ArrayAfterBracket(t, xs, rest);
  }

  /** A list whose body does not start with the closing bracket. */
  lemma ArrayAfterBracket(t: string, xs: seq<Value>, rest: string)
    requires t != [] && t[0] != ']' && SkipWs(t) == t
    requires ParseItems(t) == Some((xs, rest))
    ensures ParseValue("[" + t) == Some((Arr(xs), rest))
  {
    assert ("[" + t)[1..] == t;
  }

  lemma ObjEmptyEncoded(rest: string)
    ensures ParseValue(Encode(Obj([])) + rest) == Some((Obj([]), rest))
  {
    var s := "{" + "" + "}" + rest;
    assert Encode(Obj([])) + rest == s;
    var t := "}" + rest;
    assert s[1..] == t;
    assert SkipWs(t) == t;
    assert t[1..] == rest;
  }

  lemma ObjEncoded(ms: seq<Member>, rest: string)
    requires ms != []
    requires ParseMembers(EncodeMembers(ms) + "}" + rest) == Some((ms, rest))
    ensures ParseValue(Encode(Obj(ms)) + rest) == Some((Obj(ms), rest))
  {
    var e := EncodeMembers(ms);
    var t := e + "}" + rest;
    SplitAfter("{", e, "}", rest);
    Assoc(e, "}", rest);
    assert Encode(Obj(ms)) + rest == "{" + t;
    EncodeMembersStart(ms, "}" + rest);
    ObjectAfterBrace(t, ms, rest);
  }

  /** An object whose body does not start with the closing brace. */
  lemma ObjectAfterBrace(t: string, ms: seq<Member>, rest: string)
    requires t != [] && t[0] != '}' && SkipWs(t) == t
    requires ParseMembers(t) == Some((ms, rest))
    ensures ParseValue("{" + t) == Some((Obj(ms), rest))
  {
    assert ("{" + t)[1..] == t;
  }

  /** The last element of a list, followed by the closing bracket. */
  lemma ItemsLast(s: string, x: Value, rest: string)
    requires ParseValue(s) == Some((x, "]" + rest))
    ensures ParseItems(s) == Some(([x], rest))
  {
    var after := "]" + rest;
    assert SkipWs(after) == after;
    assert after[1..] == rest;
  }

  /** An element followed by a comma and the remaining elements. */
  lemma ItemsCons(s: string, x: Value, body: string, ys: seq<Value>, rest: string)
    requires ParseValue(s) == Some((x, "," + body))
    requires SkipWs(body) == body
    requires ParseItems(body) == Some((ys, rest))
    ensures ParseItems(s) == Some(([x] + ys, rest))
  {
    var after := "," + body;
    assert SkipWs(after) == after;
    assert after[1..] == body;
  }

  lemma ItemsOneEncoded(xs: seq<Value>, rest: string)
    requires |xs| == 1
    requires ParseValue(Encode(xs[0]) + ("]" + rest)) == Some((xs[0], "]" + rest))
    ensures ParseItems(EncodeItems(xs) + "]" + rest) == Some((xs, rest))
  {
    EncodeItemsOne(xs, rest);
    ItemsLast(EncodeItems(xs) + "]" + rest, xs[0], rest);
    assert [xs[0]] == xs;
  }

  lemma ItemsConsEncoded(xs: seq<Value>, rest: string)
    requires |xs| > 1
    requires ParseValue(Encode(xs[0]) + ("," + (EncodeItems(xs[1..]) + "]" + rest)))
             == Some((xs[0], "," + (EncodeItems(xs[1..]) + "]" + rest)))
    requires ParseItems(EncodeItems(xs[1..]) + "]" + rest) == Some((xs[1..], rest))
    ensures ParseItems(EncodeItems(xs) + "]" + rest) == Some((xs, rest))
  {
    var body := EncodeItems(xs[1..]) + "]" + rest;
    EncodeItemsCons(xs, rest);
    EncodeItemsNoWs(xs[1..], "]" + rest);
    Assoc(EncodeItems(xs[1..]), "]", rest);
    ItemsCons(EncodeItems(xs) + "]" + rest, xs[0], body, xs[1..], rest);
    assert [xs[0]] + xs[1..] == xs;
  }

  lemma EncodeItemsOne(xs: seq<Value>, rest: string)
    requires |xs| == 1
    ensures EncodeItems(xs) + "]" + rest == Encode(xs[0]) + ("]" + rest)
  {
    Assoc(Encode(xs[0]), "]", rest);
  }

  lemma EncodeItemsCons(xs: seq<Value>, rest: string)
    requires |xs| > 1
    ensures EncodeItems(xs) + "]" + rest == Encode(xs[0]) + ("," + (EncodeItems(xs[1..]) + "]" + rest))
  {
    var a := Encode(xs[0]);
    var b := EncodeItems(xs[1..]);
    assert EncodeItems(xs) == a + "," + b;
    SplitAfter(a + ",", b, "]", rest);
    SplitAfter(a, ",", b, "]" + rest);
    Assoc(b, "]", rest);
  }

  /** An encoded non-empty list body starts where its first element does, so no
      whitespace is skipped in front of it. */
  lemma EncodeItemsNoWs(xs: seq<Value>, tail: string)
    requires xs != []
    ensures EncodeItems(xs) + tail != []
    ensures SkipWs(EncodeItems(xs) + tail) == EncodeItems(xs) + tail
    ensures (EncodeItems(xs) + tail)[0] != ']'
  {
    EncodeStart(xs[0]);
    var b := EncodeItems(xs) + tail;
    assert b[0] == Encode(xs[0])[0];
  }

  /** A member whose key string and value both parse. */
  lemma MemberStep(s: string, k: string, t: string, v: Value, after: string)
    requires s != [] && s[0] == '"'
    requires ParseStringBody(s[1..]) == Some((k, ":" + t))
    requires SkipWs(t) == t
    requires ParseValue(t) == Some((v, after))
    ensures ParseMember(s) == Some((Member(k, v), after))
  {
    var u := ":" + t;
    assert SkipWs(u) == u;
    assert u[1..] == t;
  }

  lemma MemberEncoded(k: string, v: Value, after: string)
    requires EndsToken(after)
    requires ParseValue(Encode(v) + after) == Some((v, after))
    ensures ParseMember(EncodeMember(Member(k, v)) + after) == Some((Member(k, v), after))
  {
    var u := Encode(v) + after;
    var t := ":" + u;
    var body := EscapeString(k) + "\"" + t;
    MemberNested(k, v, after);
    PrefixThen("\"", body);
    ParseEscapedString(k, t);
    EncodeStart(v);
    assert u[0] == Encode(v)[0];
    NoWsStart(u);
    MemberStep("\"" + body, k, u, v, after);
  }

  lemma NoWsStart(u: string)
    requires u != [] && !IsJsonWs(u[0])
    ensures SkipWs(u) == u
  {
  }

  /** A member followed by more text, written as one right-nested sequence. */
  lemma MemberNested(k: string, v: Value, after: string)
    ensures EncodeMember(Member(k, v)) + after == "\"" + (EscapeString(k) + "\"" + (":" + (Encode(v) + after)))
  {
    var e := EscapeString(k);
    assert Quote(k) == "\"" + e + "\"";
    SplitAfter("\"" + e + "\"", ":", Encode(v), after);
    SplitAfter("\"", e, "\"", ":" + (Encode(v) + after));
    Assoc(e, "\"", ":" + (Encode(v) + after));
  }

  /** The last member of an object, followed by the closing brace. */
  lemma MembersLast(s: string, m: Member, rest: string)
    requires ParseMember(s) == Some((m, "}" + rest))
    ensures ParseMembers(s) == Some(([m], rest))
  {
    var after := "}" + rest;
    assert SkipWs(after) == after;
    assert after[1..] == rest;
  }

  /** A member followed by a comma and the remaining members. */
  lemma MembersCons(s: string, m: Member, body: string, ns: seq<Member>, rest: string)
    requires ParseMember(s) == Some((m, "," + body))
    requires SkipWs(body) == body
    requires ParseMembers(body) == Some((ns, rest))
    ensures ParseMembers(s) == Some(([m] + ns, rest))
  {
    var after := "," + body;
    assert SkipWs(after) == after;
    assert after[1..] == body;
  }

  lemma MembersOneEncoded(ms: seq<Member>, rest: string)
    requires |ms| == 1
    requires ParseMember(EncodeMember(ms[0]) + ("}" + rest)) == Some((ms[0], "}" + rest))
    ensures ParseMembers(EncodeMembers(ms) + "}" + rest) == Some((ms, rest))
  {
    Assoc(EncodeMember(ms[0]), "}", rest);
    MembersLast(EncodeMembers(ms) + "}" + rest, ms[0], rest);
    assert [ms[0]] == ms;
  }

  lemma MembersConsEncoded(ms: seq<Member>, rest: string)
    requires |ms| > 1
    requires ParseMember(EncodeMember(ms[0]) + ("," + (EncodeMembers(ms[1..]) + "}" + rest)))
             == Some((ms[0], "," + (EncodeMembers(ms[1..]) + "}" + rest)))
    requires ParseMembers(EncodeMembers(ms[1..]) + "}" + rest) == Some((ms[1..], rest))
    ensures ParseMembers(EncodeMembers(ms) + "}" + rest) == Some((ms, rest))
  {
    var body := EncodeMembers(ms[1..]) + "}" + rest;
    EncodeMembersCons(ms, rest);
    EncodeMembersStart(ms[1..], "}" + rest);
    Assoc(EncodeMembers(ms[1..]), "}", rest);
    MembersCons(EncodeMembers(ms) + "}" + rest, ms[0], body, ms[1..], rest);
    assert [ms[0]] + ms[1..] == ms;
  }

  lemma EncodeMembersCons(ms: seq<Member>, rest: string)
    requires |ms| > 1
    ensures EncodeMembers(ms) + "}" + rest == EncodeMember(ms[0]) + ("," + (EncodeMembers(ms[1..]) + "}" + rest))
  {
    var a := EncodeMember(ms[0]);
    var b := EncodeMembers(ms[1..]);
    assert EncodeMembers(ms) == a + "," + b;
    SplitAfter(a + ",", b, "}", rest);
    SplitAfter(a, ",", b, "}" + rest);
    Assoc(b, "}", rest);
  }

  /** An encoded non-empty member list starts with the first key's quote. */
  lemma EncodeMembersStart(ms: seq<Member>, tail: string)
    requires ms != []
    ensures EncodeMembers(ms) + tail != [] && (EncodeMembers(ms) + tail)[0] == '"'
    ensures SkipWs(EncodeMembers(ms) + tail) == EncodeMembers(ms) + tail
  {
    var q := Quote(ms[0].key);
    assert q[0] == '"';
    var em := EncodeMember(ms[0]);
    assert em == q + ":" + Encode(ms[0].value);
    assert em[0] == '"';
    var e := EncodeMembers(ms);
    assert e == em || e == em + "," + EncodeMembers(ms[1..]);
    assert e[0] == '"';
    assert (e + tail)[0] == '"';
  }

  /** `json_decode(json_encode($v), true)` gives `$v` back, for every value. */
  lemma DecodeEncode(v: Value)
    ensures Decode(Encode(v)) == Some(v)
  {
    var e := Encode(v);
    EncodeStart(v);
    assert SkipWs(e) == e;
    ParseEncodedValue(v, []);
    assert e + [] == e;
    assert ParseValue(e) == Some((v, []));
    assert SkipWs([]) == [];
  }
}
