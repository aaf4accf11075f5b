/** What the byte parser accepts, as functions from a position to a value and the next position.
    `JsonParser` proves that the parser's loops compute these. */
module JsonGrammar {
  import opened Doubles
  import opened Basics
  import opened Utf8
  import opened Json

  const MAX_DEPTH: nat := 16

  datatype Problem =
    | UnexpectedEnd | TooDeep | UnexpectedToken | TrailingGarbage
    | UnterminatedString | TruncatedEscape | UnknownEscape | RawControl
    | TruncatedUnicode | InvalidUnicode | NotHex
    | TruncatedUtf8 | InvalidUtf8 | InvalidNumber
    | ExpectedCommaOrBracket | ExpectedCommaOrBrace | ExpectedColon | KeyNotString

  datatype Parsed<+T> = Ok(value: T, next: nat) | Err(at: nat, what: Problem)

  predicate IsSpace(b: Byte) {
    b == 32 || b == 9 || b == 10 || b == 13
  }

  function SkipSpace(b: seq<Byte>, i: nat): (j: nat)
    ensures i <= j && (i <= |b| ==> j <= |b|)
    decreases |b| - i
  {
    if i < |b| && IsSpace(b[i]) then SkipSpace(b, i + 1) else i
  }

  predicate At(b: seq<Byte>, i: nat, t: seq<Byte>) {
    i + |t| <= |b| && b[i..i + |t|] == t
  }

  predicate Peeks(b: seq<Byte>, i: nat, c: Byte) {
    i < |b| && b[i] == c
  }

  // ---- strings ----

  function HexValue(d: Byte): Option<nat> {
    if 48 <= d <= 57 then Some(d - 48)
    else if 97 <= d <= 102 then Some(d - 87)
    else if 65 <= d <= 70 then Some(d - 55)
    else None
  }

  function HexDigits(h: seq<Byte>): Option<nat> {
    if h == [] then Some(0)
    else match (HexDigits(h[..|h| - 1]), HexValue(h[|h| - 1]))
      case (Some(v), Some(d)) => Some(v * 16 + d)
      case _ => None
  }

  /** `u32::from_str_radix(_, 16)` on four bytes: a leading `+` is accepted. */
  function FromHex(h: seq<Byte>): Option<nat> {
    if |h| > 1 && h[0] == 43 then HexDigits(h[1..]) else if h == [] then None else HexDigits(h)
  }

  function Unescaped(e: Byte): Option<Scalar> {
    if e == 34 then Some(34)
    else if e == 92 then Some(92)
    else if e == 47 then Some(47)
    else if e == 110 then Some(10)
    else if e == 114 then Some(13)
    else if e == 116 then Some(9)
    else if e == 98 then Some(8)
    else if e == 102 then Some(12)
    else None
  }

  /** `char::from_u32(n)`, with U+FFFD for a surrogate or an over-large value. */
  function ScalarOrReplacement(n: nat): Scalar {
    if n < 0xD800 || 0xE000 <= n < 0x110000 then n else 0xFFFD
  }

  /** The part of a `\u` escape after the `u`. */
  function UnicodeEscape(b: seq<Byte>, i: nat): (r: Parsed<Scalar>)
    ensures r.Ok? ==> r.next == i + 4 <= |b|
  {
    if i + 4 > |b| then Err(i, TruncatedUnicode)
    else if FromUtf8(b[i..i + 4]).None? then Err(i, InvalidUnicode)
    else match FromHex(b[i..i + 4])
      case None => Err(i, NotHex)
      case Some(n) => Ok(ScalarOrReplacement(n), i + 4)
  }

  /** An escape, from the byte after the backslash. */
  function EscapeAt(b: seq<Byte>, i: nat): (r: Parsed<Scalar>)
    ensures r.Ok? ==> i < r.next <= |b|
  {
    if i >= |b| then Err(i, TruncatedEscape)
    else if b[i] == 117 then UnicodeEscape(b, i + 1)
    else match Unescaped(b[i])
      case None => Err(i + 1, UnknownEscape)
      case Some(c) => Ok(c, i + 1)
  }

  /** How many bytes follow a lead byte, judged by the lead byte alone. */
  function Extra(c: Byte): Option<nat> {
    if c < 0x80 then Some(0)
    else if 0xC0 <= c < 0xE0 then Some(1)
    else if 0xE0 <= c < 0xF0 then Some(2)
    else if 0xF0 <= c < 0xF8 then Some(3)
    else None
  }

  /** A plain character, from its lead byte. */
  function PlainAt(b: seq<Byte>, i: nat): (r: Parsed<Text>)
    requires i < |b|
    ensures r.Ok? ==> i < r.next <= |b|
  {
    match Extra(b[i])
    case None => Err(i + 1, InvalidUtf8)
    case Some(extra) =>
      if i + 1 + extra > |b| then Err(i + 1 + extra, TruncatedUtf8)
      else match FromUtf8(b[i..i + 1 + extra])
        case None => Err(i + 1 + extra, InvalidUtf8)
        case Some(raw) => Ok(raw, i + 1 + extra)
  }

  /** The rest of a string whose characters up to `i` are `out`. */
  function StringFrom(b: seq<Byte>, i: nat, out: Text): (r: Parsed<Text>)
    ensures r.Ok? ==> i < r.next <= |b|
    decreases |b| - i
  {
    if i >= |b| then Err(i, UnterminatedString)
    else if b[i] == QUOTE then Ok(out, i + 1)
    else if b[i] == BACKSLASH then
      match EscapeAt(b, i + 1)
      case Err(at, what) => Err(at, what)
      case Ok(c, next) => StringFrom(b, next, out + [c])
    else if b[i] < 0x20 then Err(i + 1, RawControl)
    else
      match PlainAt(b, i)
      case Err(at, what) => Err(at, what)
      case Ok(raw, next) => StringFrom(b, next, out + raw)
  }

  // ---- numbers ----

  predicate IsDigit(c: Byte) {
    48 <= c <= 57
  }

  predicate IsNumberByte(c: Byte) {
    IsDigit(c) || c == 46 || c == 101 || c == 69 || c == 43 || c == 45
  }

  function NumberEnd(b: seq<Byte>, i: nat): (j: nat)
    ensures i <= j && (i <= |b| ==> j <= |b|)
    decreases |b| - i
  {
    if i < |b| && IsNumberByte(b[i]) then NumberEnd(b, i + 1) else i
  }

  predicate AllDigits(t: seq<Byte>) {
    forall k :: 0 <= k < |t| ==> IsDigit(t[k])
  }

  function DigitsValue(t: seq<Byte>): nat
    requires AllDigits(t)
  {
    if t == [] then 0 else DigitsValue(t[..|t| - 1]) * 10 + (t[|t| - 1] - 48)
  }

  function DigitRun(t: seq<Byte>): (n: nat)
    ensures n <= |t|
  {
    if t != [] && IsDigit(t[0]) then 1 + DigitRun(t[1..]) else 0
  }

  /** `Exp` of Rust's float grammar, or nothing at all. */
  predicate IsExponent(t: seq<Byte>) {
    t == [] ||
    ((t[0] == 101 || t[0] == 69) &&
     var u := if |t| > 1 && (t[1] == 43 || t[1] == 45) then t[2..] else t[1..];
     u != [] && AllDigits(u))
  }

  /** The finite part of the grammar of `str::parse::<f64>`, after the sign. */
  predicate IsFloat(t: seq<Byte>) {
    var n := DigitRun(t);
    if n < |t| && t[n] == 46 then
      var f := DigitRun(t[n + 1..]);
      n + f > 0 && IsExponent(t[n + 1 + f..])
    else n > 0 && IsExponent(t[n..])
  }

  function Unsigned(t: seq<Byte>): seq<Byte> {
    if t != [] && (t[0] == MINUS || t[0] == 43) then t[1..] else t
  }

  /** What a plain integer is read as: the nearest double, or infinity. */
  function WholeNumber(v: nat, negative: bool): Number {
    var r: int := Rounded(v);
    if Overflows(v) then Infinite(negative) else Whole(if negative then -r else r)
  }

  /** `str::parse::<f64>`: plain integers by value, other numbers by their text. */
  function ParseFloat(t: seq<Byte>): Option<Number> {
    var u := Unsigned(t);
    if u != [] && AllDigits(u) then
      Some(WholeNumber(DigitsValue(u), t[0] == MINUS))
    else if IsFloat(u) then Some(Other(t))
    else None
  }

  function NumberAt(b: seq<Byte>, i: nat): (r: Parsed<Json>)
    requires i < |b|
    ensures r.Ok? ==> i <= r.next <= |b|
  {
    var end := NumberEnd(b, if b[i] == MINUS then i + 1 else i);
    match ParseFloat(b[i..end])
    case None => Err(i, InvalidNumber)
    case Some(number) => Ok(Num(number), end)
  }

  // ---- values ----

  function ValueAt(b: seq<Byte>, i: nat, depth: nat): (r: Parsed<Json>)
    requires i <= |b|
    ensures r.Ok? ==> i <= r.next <= |b|
    decreases |b| - i, 3
  {
    if depth > MAX_DEPTH then Err(i, TooDeep)
    else if i >= |b| then Err(i, UnexpectedEnd)
    else if At(b, i, Ascii("null")) then Ok(Null, i + 4)
    else if At(b, i, Ascii("true")) then Ok(Bool(true), i + 4)
    else if At(b, i, Ascii("false")) then Ok(Bool(false), i + 5)
    else if b[i] == QUOTE then
      match StringFrom(b, i + 1, [])
      case Err(at, what) => Err(at, what)
      case Ok(s, next) => Ok(Str(s), next)
    else if b[i] == OPEN_BRACKET then ArrayAt(b, i, depth)
    else if b[i] == OPEN_BRACE then ObjectAt(b, i, depth)
    else if b[i] == MINUS || IsDigit(b[i]) then NumberAt(b, i)
    else Err(i, UnexpectedToken)
  }

  function ArrayAt(b: seq<Byte>, i: nat, depth: nat): (r: Parsed<Json>)
    requires i < |b|
    ensures r.Ok? ==> i <= r.next <= |b|
    decreases |b| - i, 2
  {
    var j := SkipSpace(b, i + 1);
    if Peeks(b, j, CLOSE_BRACKET) then Ok(Arr([]), j + 1) else ItemsFrom(b, j, [], depth)
  }

  /** The rest of an array whose items up to `i` are `out`. */
  function ItemsFrom(b: seq<Byte>, i: nat, out: seq<Json>, depth: nat): (r: Parsed<Json>)
    requires i <= |b|
    ensures r.Ok? ==> i <= r.next <= |b|
    decreases |b| - i, 4
  {
    match ValueAt(b, SkipSpace(b, i), depth + 1)
    case Err(at, what) => Err(at, what)
    case Ok(v, next) =>
      var j := SkipSpace(b, next);
      if Peeks(b, j, COMMA) then ItemsFrom(b, j + 1, out + [v], depth)
      else if Peeks(b, j, CLOSE_BRACKET) then Ok(Arr(out + [v]), j + 1)
      else Err(j, ExpectedCommaOrBracket)
  }

  function ObjectAt(b: seq<Byte>, i: nat, depth: nat): (r: Parsed<Json>)
    requires i < |b|
    ensures r.Ok? ==> i <= r.next <= |b|
    decreases |b| - i, 2
  {
    var j := SkipSpace(b, i + 1);
    if Peeks(b, j, CLOSE_BRACE) then Ok(Obj([]), j + 1) else FieldsFrom(b, j, [], depth)
  }

  /** A key with its colon; the next position is where the value is looked for. */
  function KeyAt(b: seq<Byte>, i: nat): (r: Parsed<Text>)
    requires i <= |b|
    ensures r.Ok? ==> i < r.next <= |b|
  {
    if !Peeks(b, i, QUOTE) then Err(i, KeyNotString)
    else match StringFrom(b, i + 1, [])
      case Err(at, what) => Err(at, what)
      case Ok(k, next) =>
        var j := SkipSpace(b, next);
        if Peeks(b, j, COLON) then Ok(k, SkipSpace(b, j + 1)) else Err(j, ExpectedColon)
  }

  /** The rest of an object whose fields up to `i` have been inserted into `m`. */
  function FieldsFrom(b: seq<Byte>, i: nat, m: seq<Field>, depth: nat): (r: Parsed<Json>)
    requires i <= |b|
    ensures r.Ok? ==> i <= r.next <= |b|
    decreases |b| - i, 4
  {
    match KeyAt(b, SkipSpace(b, i))
    case Err(at, what) => Err(at, what)
    case Ok(k, start) =>
      match ValueAt(b, start, depth + 1)
      case Err(at, what) => Err(at, what)
      case Ok(v, next) =>
        var j := SkipSpace(b, next);
        if Peeks(b, j, COMMA) then FieldsFrom(b, j + 1, Insert(m, k, v), depth)
        else if Peeks(b, j, CLOSE_BRACE) then Ok(Obj(Insert(m, k, v)), j + 1)
        else Err(j, ExpectedCommaOrBrace)
  }

  function Parse(b: seq<Byte>): Parsed<Json> {
    match ValueAt(b, SkipSpace(b, 0), 0)
    case Err(at, what) => Err(at, what)
    case Ok(v, next) =>
      var j := SkipSpace(b, next);
      if j == |b| then Ok(v, j) else Err(j, TrailingGarbage)
  }
}
