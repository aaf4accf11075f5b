/** Parsing undoes printing, for every printable value that nests within the parser's limit, and
    fails for every printable value that does not. */
module JsonRoundTrip {
  import opened Doubles
  import opened Basics
  import opened Utf8
  import opened Json
  import opened JsonGrammar

  // ---- positions ----

  lemma AtConcat(b: seq<Byte>, i: nat, s: seq<Byte>, t: seq<Byte>)
    ensures At(b, i, s + t) <==> At(b, i, s) && At(b, i + |s|, t)
  {
    if At(b, i, s + t) {
      assert b[i..i + |s|] == b[i..i + |s + t|][..|s|] == s;
      assert b[i + |s|..i + |s| + |t|] == b[i..i + |s + t|][|s|..] == t;
    }
    if At(b, i, s) && At(b, i + |s|, t) {
      assert b[i..i + |s + t|] == b[i..i + |s|] + b[i + |s|..i + |s| + |t|];
    }
  }

  lemma AtByte(b: seq<Byte>, i: nat, t: seq<Byte>, k: nat)
    requires At(b, i, t) && k < |t|
    ensures i + k < |b| && b[i + k] == t[k]
  {
    assert b[i..i + |t|][k] == b[i + k];
  }

  lemma NoSpace(b: seq<Byte>, i: nat)
    requires i >= |b| || !IsSpace(b[i])
    ensures SkipSpace(b, i) == i
  {
  }

  // ---- strings ----

  lemma {:induction false} AsciiIsUtf8(b: seq<Byte>)
    requires forall k :: 0 <= k < |b| ==> b[k] < 0x80
    ensures FromUtf8(b).Some?
  {
    if b != [] {
      AsciiIsUtf8(b[1..]);
    }
  }

  lemma HexOfByte(n: nat, h: seq<Byte>)
    requires n < 0x20 && h == [48, 48, HexDigit(n / 16), HexDigit(n % 16)]
    ensures FromHex(h) == Some(n)
  {
    assert h[..3] == [48, 48, HexDigit(n / 16)] && h[..3][..2] == [48, 48];
    assert h[..3][..2][..1] == [48] && h[..3][..2][..1][..0] == [];
    assert HexDigits([48]) == Some(0) && HexDigits([48, 48]) == Some(0);
    assert HexDigits(h[..3]) == Some(n / 16);
  }

  lemma ControlEscape(b: seq<Byte>, i: nat, c: Scalar)
    requires c < 0x20 && At(b, i, [BACKSLASH, 117, 48, 48, HexDigit(c / 16), HexDigit(c % 16)])
    ensures EscapeAt(b, i + 1) == Ok(c, i + 6)
  {
    var t := [BACKSLASH, 117, 48, 48, HexDigit(c / 16), HexDigit(c % 16)];
    forall k | 0 <= k < 6 ensures b[i + k] == t[k] {
      AtByte(b, i, t, k);
    }
    var h := b[i + 2..i + 6];
    assert h == [48, 48, HexDigit(c / 16), HexDigit(c % 16)];
    AsciiIsUtf8(h);
    HexOfByte(c, h);
  }

  lemma PlainScalar(b: seq<Byte>, i: nat, c: Scalar)
    requires At(b, i, EncodeScalar(c)) && i < |b|
    ensures PlainAt(b, i) == Ok([c], i + |EncodeScalar(c)|)
  {
    hide FromUtf8, EncodeScalar;
    var e := EncodeScalar(c);
    AtByte(b, i, e, 0);
    LeadByte(c);
    EncodeRoundTrip([c]);
    assert [c][1..] == [] && Encode([c]) == e + [] == e;
  }

  lemma LeadByte(c: Scalar)
    ensures Extra(EncodeScalar(c)[0]) == Some(|EncodeScalar(c)| - 1)
  {
  }

  /** Reading one escaped character appends that character. */
  lemma PlainEscapeScalar(c: Scalar)
    requires c >= 0x20 && c != 34 && c != 92
    ensures var e := EncodeScalar(c)[0]; e != QUOTE && e != BACKSLASH && e >= 0x20
  {
  }

  lemma EscapedScalar(b: seq<Byte>, i: nat, c: Scalar, out: Text)
    requires At(b, i, EscapeScalar(c))
    ensures StringFrom(b, i, out) == StringFrom(b, i + |EscapeScalar(c)|, out + [c])
  {
    hide At, EncodeScalar, PlainAt;
    var e := EscapeScalar(c);
    AtByte(b, i, e, 0);
    if c == 34 || c == 92 || c == 10 || c == 13 || c == 9 {
      AtByte(b, i, e, 1);
    } else if c < 0x20 {
      ControlEscape(b, i, c);
    } else {
      PlainEscapeScalar(c);
      PlainScalar(b, i, c);
    }
  }

  lemma {:induction false} StringRoundTrip(b: seq<Byte>, i: nat, s: Text, out: Text)
    requires At(b, i, Escape(s) + [QUOTE])
    ensures StringFrom(b, i, out) == Ok(out + s, i + |Escape(s)| + 1)
    decreases |s|
  {
    hide EscapeScalar, At, EscapeAt, PlainAt;
    if s == [] {
      AtByte(b, i, Escape(s) + [QUOTE], 0);
      assert out + s == out;
    } else {
      var e, rest := EscapeScalar(s[0]), Escape(s[1..]) + [QUOTE];
      assert Escape(s) + [QUOTE] == e + rest;
      AtConcat(b, i, e, rest);
      EscapedScalar(b, i, s[0], out);
      StringRoundTrip(b, i + |e|, s[1..], out + [s[0]]);
      assert out + [s[0]] + s[1..] == out + s;
    }
  }

  lemma QuotedRoundTrip(b: seq<Byte>, i: nat, s: Text)
    requires At(b, i, Quoted(s))
    ensures Peeks(b, i, QUOTE) && StringFrom(b, i + 1, []) == Ok(s, i + |Quoted(s)|)
  {
    hide At, Escape, StringFrom;
    assert Quoted(s) == [QUOTE] + (Escape(s) + [QUOTE]);
    AtConcat(b, i, [QUOTE], Escape(s) + [QUOTE]);
    AtByte(b, i, Quoted(s), 0);
    StringRoundTrip(b, i + 1, s, []);
    assert [] + s == s;
  }

  // ---- numbers ----

  lemma {:induction false} DigitsRoundTrip(n: nat)
    ensures AllDigits(Digits(n)) && DigitsValue(Digits(n)) == n
  {
    if n >= 10 {
      DigitsRoundTrip(n / 10);
      var d := Digits(n);
      assert d[..|d| - 1] == Digits(n / 10);
    } else {
      var d := Digits(n);
      assert d[..|d| - 1] == [];
    }
  }

  lemma {:induction false} NumberRun(b: seq<Byte>, i: nat, t: seq<Byte>)
    requires At(b, i, t) && forall k :: 0 <= k < |t| ==> IsNumberByte(t[k])
    requires i + |t| == |b| || !IsNumberByte(b[i + |t|])
    ensures NumberEnd(b, i) == i + |t|
    decreases |t|
  {
    if t != [] {
      AtByte(b, i, t, 0);
      assert t == t[..1] + t[1..];
      AtConcat(b, i, t[..1], t[1..]);
      NumberRun(b, i + 1, t[1..]);
    }
  }

  /** The integer form is read as the double nearest to the integer. */
  lemma DecimalParses(n: int)
    ensures Decimal(n) != [] && ParseFloat(Decimal(n)) == Some(WholeNumber(if n < 0 then -n else n, n < 0))
    ensures forall k :: 0 <= k < |Decimal(n)| ==> IsNumberByte(Decimal(n)[k])
    ensures Decimal(n)[0] == MINUS || IsDigit(Decimal(n)[0])
    ensures n >= 0 ==> Decimal(n)[0] != MINUS
  {
    hide Digits, DigitsValue, WholeNumber;
    DigitsRoundTrip(if n < 0 then -n else n);
    if n < 0 {
      assert Unsigned(Decimal(n)) == Digits(-n);
    }
  }

  /** Up to 2^53 that is the integer itself. */
  lemma SmallDecimalParses(n: int)
    requires -0x20_0000_0000_0000 <= n <= 0x20_0000_0000_0000
    ensures ParseFloat(Decimal(n)) == Some(Whole(n))
  {
    hide Decimal, ParseFloat, Overflows, Rounded;
    var v := if n < 0 then -n else n;
    DecimalParses(n);
    SmallWholesAreDoubles(v);
    if Overflows(v) {
      OverflowIsFar(v);
    }
  }

  /** What an integer is read as, with its sign. */
  function Read(n: int): Json {
    Num(WholeNumber(if n < 0 then -n else n, n < 0))
  }

  lemma NumberRoundTrip(b: seq<Byte>, i: nat, n: int)
    requires At(b, i, Decimal(n)) && i < |b|
    requires i + |Decimal(n)| == |b| || !IsNumberByte(b[i + |Decimal(n)|])
    ensures b[i] == MINUS || IsDigit(b[i])
    ensures NumberAt(b, i) == Ok(Read(n), i + |Decimal(n)|)
  {
    hide ParseFloat, Decimal, WholeNumber;
    var t := Decimal(n);
    DecimalParses(n);
    AtByte(b, i, t, 0);
    NumberRun(b, i, t);
    if t[0] == MINUS {
      assert NumberEnd(b, i) == NumberEnd(b, i + 1);
    }
  }

  // ---- values ----

  /** Whether a value met at nesting level `depth` stays within the limit. */
  predicate Fits(j: Json, depth: nat)
    decreases j
  {
    && depth <= MAX_DEPTH
    && match j
       case Arr(items) => forall k :: 0 <= k < |items| ==> Fits(items[k], depth + 1)
       case Obj(fields) => forall k :: 0 <= k < |fields| ==> Fits(fields[k].value, depth + 1)
       case _ => true
  }

  predicate AllFit(items: seq<Json>, depth: nat) {
    forall k :: 0 <= k < |items| ==> Fits(items[k], depth)
  }

  predicate FieldsFit(fields: seq<Field>, depth: nat) {
    forall k :: 0 <= k < |fields| ==> Fits(fields[k].value, depth)
  }

  predicate AllPrintable(items: seq<Json>) {
    forall k :: 0 <= k < |items| ==> Printable(items[k])
  }

  predicate FieldsPrintable(fields: seq<Field>) {
    forall k :: 0 <= k < |fields| ==> Printable(fields[k].value)
  }

  /** What follows a printed value inside a printed document: the end or a closing or separating byte. */
  predicate Stops(b: seq<Byte>, i: nat) {
    i == |b| || (i < |b| && (b[i] == COMMA || b[i] == CLOSE_BRACKET || b[i] == CLOSE_BRACE))
  }

  /** A value starts with a byte that is neither white space nor a separator. */
  lemma FirstByte(j: Json)
    requires Printable(j)
    ensures Print(j) != []
    ensures var c := Print(j)[0]; !IsSpace(c) && c != CLOSE_BRACKET && c != CLOSE_BRACE && c != COMMA
  {
    if j.Num? {
      var n := j.number.n;
      DigitsRoundTrip(if n < 0 then -n else n);
    }
  }

  /** All fields inserted in order, as the object loop does. */
  function InsertAll(m: seq<Field>, fields: seq<Field>): seq<Field>
    decreases |fields|
  {
    if fields == [] then m else InsertAll(Insert(m, fields[0].key, fields[0].value), fields[1..])
  }

  lemma {:induction false} InsertAllSorted(m: seq<Field>, fields: seq<Field>)
    requires Sorted(m + fields)
    ensures InsertAll(m, fields) == m + fields
    decreases |fields|
  {
    if fields == [] {
      assert m + fields == m;
    } else {
      var f := fields[0];
      forall k | 0 <= k < |m| ensures Less(m[k].key, f.key) {
        assert (m + fields)[k] == m[k] && (m + fields)[|m|] == f;
      }
      InsertAtEnd(m, f.key, f.value);
      assert f == Field(f.key, f.value);
      assert m + [f] + fields[1..] == m + fields;
      InsertAllSorted(m + [f], fields[1..]);
    }
  }

  /** The parse of a printed value at any place of a document: the value if it fits, else an error. */
  ghost predicate ParsedBack(r: Parsed<Json>, fits: bool, j: Json, next: nat) {
    if fits then r == Ok(j, next) else r.Err? && r.what == TooDeep
  }

  lemma LiteralHead(b: seq<Byte>, i: nat)
    ensures At(b, i, Ascii("null")) ==> i < |b| && b[i] == 110
    ensures At(b, i, Ascii("true")) ==> i < |b| && b[i] == 116
    ensures At(b, i, Ascii("false")) ==> i < |b| && b[i] == 102
  {
    if At(b, i, Ascii("null")) {
      AtByte(b, i, Ascii("null"), 0);
    }
    if At(b, i, Ascii("true")) {
      AtByte(b, i, Ascii("true"), 0);
    }
    if At(b, i, Ascii("false")) {
      AtByte(b, i, Ascii("false"), 0);
    }
  }

  lemma LiteralRoundTrip(b: seq<Byte>, i: nat, j: Json, depth: nat)
    requires (j.Null? || j.Bool?) && i <= |b| && At(b, i, Print(j)) && depth <= MAX_DEPTH
    ensures ValueAt(b, i, depth) == Ok(j, i + |Print(j)|)
  {
    hide At;
    AtByte(b, i, Print(j), 0);
    LiteralHead(b, i);
  }

  lemma ScalarRoundTrip(b: seq<Byte>, i: nat, j: Json, depth: nat)
    requires (j.Num? || j.Str?) && Printable(j) && i <= |b| && At(b, i, Print(j)) && depth <= MAX_DEPTH
    requires Stops(b, i + |Print(j)|)
    ensures ValueAt(b, i, depth) == Ok(j, i + |Print(j)|)
  {
    hide ValueAt, At, Decimal, Quoted, WholeNumber, ParseFloat;
    if j.Num? {
      SmallDecimalParses(j.number.n);
      DecimalParses(j.number.n);
      NumberValue(b, i, j.number.n, depth);
    } else {
      StringValue(b, i, j.s, depth);
    }
  }

  lemma NumberValue(b: seq<Byte>, i: nat, n: int, depth: nat)
    requires i <= |b| && At(b, i, Decimal(n)) && depth <= MAX_DEPTH && Stops(b, i + |Decimal(n)|)
    ensures ValueAt(b, i, depth) == Ok(Read(n), i + |Decimal(n)|)
  {
    hide NumberAt, Decimal, At, StringFrom, ArrayAt, ObjectAt, ParseFloat, Read;
    DecimalParses(n);
    AtByte(b, i, Decimal(n), 0);
    NumberRoundTrip(b, i, n);
    LiteralHead(b, i);
  }

  lemma StringValue(b: seq<Byte>, i: nat, s: Text, depth: nat)
    requires i <= |b| && At(b, i, Quoted(s)) && depth <= MAX_DEPTH
    ensures ValueAt(b, i, depth) == Ok(Str(s), i + |Quoted(s)|)
  {
    hide NumberAt, Escape, At, StringFrom, ArrayAt, ObjectAt;
    AtByte(b, i, Quoted(s), 0);
    QuotedRoundTrip(b, i, s);
    LiteralHead(b, i);
  }

  lemma TooDeepValue(b: seq<Byte>, i: nat, j: Json, depth: nat)
    requires depth > MAX_DEPTH && i <= |b|
    ensures ValueAt(b, i, depth) == Err(i, TooDeep) && !Fits(j, depth)
  {
  }

  lemma FitsLeaf(j: Json, depth: nat)
    requires !j.Arr? && !j.Obj? && depth <= MAX_DEPTH
    ensures Fits(j, depth)
  {
  }

  lemma {:induction false} ValueRoundTrip(b: seq<Byte>, i: nat, j: Json, depth: nat)
    requires Printable(j) && i <= |b| && At(b, i, Print(j)) && Stops(b, i + |Print(j)|)
    ensures ParsedBack(ValueAt(b, i, depth), Fits(j, depth), j, i + |Print(j)|)
    decreases j, 1
  {
    hide Printable, ValueAt, At, Stops, Print, PrintFields, Fits, InsertAll;
    if depth > MAX_DEPTH {
      TooDeepValue(b, i, j, depth);
    } else if j.Arr? {
      ArrayRoundTrip(b, i, j.items, depth);
    } else if j.Obj? {
      PrintableObject(j.fields);
      ObjectRoundTrip(b, i, j.fields, depth);
      InsertAllSorted([], j.fields);
      FitsObject(j.fields, depth);
      assert [] + j.fields == j.fields;
    } else {
      FitsLeaf(j, depth);
      if j.Null? || j.Bool? {
        LiteralRoundTrip(b, i, j, depth);
      } else {
        ScalarRoundTrip(b, i, j, depth);
      }
    }
  }

  lemma FitsObject(fields: seq<Field>, depth: nat)
    requires depth <= MAX_DEPTH
    ensures Fits(Obj(fields), depth) == FieldsFit(fields, depth + 1)
  {
  }

  lemma PrintableObject(fields: seq<Field>)
    requires Printable(Obj(fields))
    ensures FieldsPrintable(fields) && Sorted([] + fields)
    ensures Print(Obj(fields)) == [OPEN_BRACE] + PrintFields(fields) + [CLOSE_BRACE]
  {
    assert [] + fields == fields;
  }

  // The separator or closing byte that follows the first element of a container's text.

  lemma ItemsText(b: seq<Byte>, i: nat, items: seq<Json>)
    requires items != [] && AllPrintable(items) && At(b, i, PrintItems(items) + [CLOSE_BRACKET])
    ensures var v, n := Print(items[0]), i + |Print(items[0])|;
            && At(b, i, v) && n < |b| && Stops(b, n) && SkipSpace(b, n) == n
            && (|items| == 1 ==> b[n] == CLOSE_BRACKET && n == i + |PrintItems(items)|)
            && (|items| > 1 ==> b[n] == COMMA && At(b, n + 1, PrintItems(items[1..]) + [CLOSE_BRACKET]))
            && (|items| > 1 ==> n + 1 + |PrintItems(items[1..])| == i + |PrintItems(items)|)
    ensures SkipSpace(b, i) == i && i < |b| && b[i] != CLOSE_BRACKET
  {
    hide Print, Printable, At;
    var v := Print(items[0]);
    FirstByte(items[0]);
    if |items| == 1 {
      assert PrintItems(items) == v;
      AtConcat(b, i, v, [CLOSE_BRACKET]);
      AtByte(b, i + |v|, [CLOSE_BRACKET], 0);
    } else {
      var rest := PrintItems(items[1..]) + [CLOSE_BRACKET];
      assert PrintItems(items) + [CLOSE_BRACKET] == v + ([COMMA] + rest);
      AtConcat(b, i, v, [COMMA] + rest);
      AtConcat(b, i + |v|, [COMMA], rest);
      AtByte(b, i + |v|, [COMMA], 0);
    }
    AtByte(b, i, v, 0);
    NoSpace(b, i);
    NoSpace(b, i + |v|);
  }

  lemma {:induction false} ItemsRoundTrip(b: seq<Byte>, i: nat, items: seq<Json>, out: seq<Json>, depth: nat)
    requires items != [] && AllPrintable(items) && i <= |b| && At(b, i, PrintItems(items) + [CLOSE_BRACKET])
    ensures ParsedBack(ItemsFrom(b, i, out, depth), AllFit(items, depth + 1), Arr(out + items), i + |PrintItems(items)| + 1)
    decreases items, 0
  {
    hide Print, PrintItems, Printable, At, Stops, SkipSpace, ValueAt, Fits;
    ItemsText(b, i, items);
    ValueRoundTrip(b, i, items[0], depth + 1);
    if |items| == 1 {
      assert out + items == out + [items[0]];
    } else {
      var rest := items[1..];
      if Fits(items[0], depth + 1) {
        ItemsRoundTrip(b, i + |Print(items[0])| + 1, rest, out + [items[0]], depth);
        assert out + [items[0]] + rest == out + items;
        assert AllFit(items, depth + 1) <==> AllFit(rest, depth + 1) by {
          assert items == [items[0]] + rest;
        }
      }
    }
  }

  lemma ArrayRoundTrip(b: seq<Byte>, i: nat, items: seq<Json>, depth: nat)
    requires Printable(Arr(items)) && i <= |b| && At(b, i, Print(Arr(items))) && depth <= MAX_DEPTH
    ensures ParsedBack(ValueAt(b, i, depth), Fits(Arr(items), depth), Arr(items), i + |Print(Arr(items))|)
    decreases items, 1
  {
    hide At, PrintItems, Printable, ItemsFrom, StringFrom, NumberAt, ObjectAt, SkipSpace;
    PrintableItems(items);
    var text := PrintItems(items) + [CLOSE_BRACKET];
    ArrayText(items);
    AtConcat(b, i, [OPEN_BRACKET], text);
    AtByte(b, i, [OPEN_BRACKET], 0);
    LiteralHead(b, i);
    if items == [] {
      NoItems();
      AtByte(b, i + 1, text, 0);
      NoSpace(b, i + 1);
    } else {
      AtByte(b, i + 1, text, 0);
      ItemsText(b, i + 1, items);
      ItemsRoundTrip(b, i + 1, items, [], depth);
      assert [] + items == items;
    }
    FitsArray(items, depth);
  }

  lemma PrintableItems(items: seq<Json>)
    requires Printable(Arr(items))
    ensures AllPrintable(items)
  {
  }

  lemma ArrayText(items: seq<Json>)
    requires Printable(Arr(items)) && AllPrintable(items)
    ensures Print(Arr(items)) == [OPEN_BRACKET] + (PrintItems(items) + [CLOSE_BRACKET])
  {
    assert [OPEN_BRACKET] + PrintItems(items) + [CLOSE_BRACKET] == [OPEN_BRACKET] + (PrintItems(items) + [CLOSE_BRACKET]);
  }

  lemma NoItems()
    ensures AllPrintable([]) && PrintItems([]) == []
    ensures FieldsPrintable([]) && PrintFields([]) == []
  {
  }

  lemma FitsArray(items: seq<Json>, depth: nat)
    requires depth <= MAX_DEPTH
    ensures Fits(Arr(items), depth) == AllFit(items, depth + 1)
  {
  }

  lemma FieldsText(b: seq<Byte>, i: nat, fields: seq<Field>)
    requires fields != [] && FieldsPrintable(fields) && At(b, i, PrintFields(fields) + [CLOSE_BRACE])
    ensures var k, v := Quoted(fields[0].key), Print(fields[0].value);
            var m, n := i + |k| + 1, i + |k| + 1 + |v|;
            && KeyAt(b, i) == Ok(fields[0].key, m) && At(b, m, v)
            && n < |b| && Stops(b, n) && SkipSpace(b, n) == n
            && (|fields| == 1 ==> b[n] == CLOSE_BRACE && n == i + |PrintFields(fields)|)
            && (|fields| > 1 ==> b[n] == COMMA && At(b, n + 1, PrintFields(fields[1..]) + [CLOSE_BRACE]))
            && (|fields| > 1 ==> n + 1 + |PrintFields(fields[1..])| == i + |PrintFields(fields)|)
    ensures SkipSpace(b, i) == i && i < |b| && b[i] != CLOSE_BRACE
  {
    hide Print, PrintFields, Printable, At, Quoted, StringFrom;
    var k, v := Quoted(fields[0].key), Print(fields[0].value);
    FirstByte(fields[0].value);
    var tail := AfterFirst(fields);
    FieldsParts(fields);
    AtConcat(b, i, k, [COLON] + (v + tail));
    AtConcat(b, i + |k|, [COLON], v + tail);
    AtConcat(b, i + |k| + 1, v, tail);
    QuotedRoundTrip(b, i, fields[0].key);
    AtByte(b, i + |k|, [COLON], 0);
    AtByte(b, i + |k| + 1, v, 0);
    var n := i + |k| + 1 + |v|;
    AtByte(b, n, tail, 0);
    if |fields| > 1 {
      AtConcat(b, n, [COMMA], PrintFields(fields[1..]) + [CLOSE_BRACE]);
    }
    NoSpace(b, i);
    NoSpace(b, i + |k|);
    NoSpace(b, i + |k| + 1);
    NoSpace(b, n);
  }

  /** The text after the first field, up to the closing brace. */
  function AfterFirst(fields: seq<Field>): seq<Byte>
    requires fields != [] && FieldsPrintable(fields)
  {
    if |fields| == 1 then [CLOSE_BRACE] else [COMMA] + (PrintFields(fields[1..]) + [CLOSE_BRACE])
  }

  lemma FieldsParts(fields: seq<Field>)
    requires fields != [] && FieldsPrintable(fields)
    ensures PrintFields(fields) + [CLOSE_BRACE]
      == Quoted(fields[0].key) + ([COLON] + (Print(fields[0].value) + AfterFirst(fields)))
  {
    hide Print, Printable, Quoted;
  }

  /** Where the parts of a field and of the comma behind it lie. */
  lemma FieldParts(b: seq<Byte>, i: nat, key: Text, t: seq<Byte>, rest: seq<Byte>)
    requires i <= |b| && At(b, i, Quoted(key) + ([COLON] + (t + ([COMMA] + rest)))) && t != [] && !IsSpace(t[0])
    ensures var start := i + |Quoted(key)| + 1;
            && start + |t| < |b| && KeyAt(b, i) == Ok(key, start) && At(b, start, t)
            && b[start + |t|] == COMMA && At(b, start + |t| + 1, rest)
    ensures SkipSpace(b, i) == i && SkipSpace(b, i + |Quoted(key)| + 1 + |t|) == i + |Quoted(key)| + 1 + |t|
  {
    hide At, Quoted, StringFrom, SkipSpace;
    var k := i + |Quoted(key)|;
    AtConcat(b, i, Quoted(key), [COLON] + (t + ([COMMA] + rest)));
    AtConcat(b, k, [COLON], t + ([COMMA] + rest));
    AtConcat(b, k + 1, t, [COMMA] + rest);
    AtConcat(b, k + 1 + |t|, [COMMA], rest);
    QuotedRoundTrip(b, i, key);
    AtByte(b, k, [COLON], 0);
    AtByte(b, k + 1, t, 0);
    AtByte(b, k + 1 + |t|, [COMMA], 0);
    NoSpace(b, i);
    NoSpace(b, k);
    NoSpace(b, k + 1);
    NoSpace(b, k + 1 + |t|);
  }

  /** One field whose value is read as `v`, and the comma behind it. */
  lemma FieldStep(b: seq<Byte>, i: nat, key: Text, t: seq<Byte>, rest: seq<Byte>, v: Json, m: seq<Field>, depth: nat)
    requires i <= |b| && At(b, i, Quoted(key) + ([COLON] + (t + ([COMMA] + rest)))) && t != [] && !IsSpace(t[0])
    requires var start := i + |Quoted(key)| + 1;
             start <= |b| && ValueAt(b, start, depth + 1) == Ok(v, start + |t|)
    ensures var n := i + |Quoted(key)| + 1 + |t|;
            n < |b| && At(b, n + 1, rest) && FieldsFrom(b, i, m, depth) == FieldsFrom(b, n + 1, Insert(m, key, v), depth)
  {
    hide At, Quoted, KeyAt, ValueAt, SkipSpace, Insert;
    FieldParts(b, i, key, t, rest);
  }

  lemma {:induction false} FieldsRoundTrip(b: seq<Byte>, i: nat, fields: seq<Field>, m: seq<Field>, depth: nat)
    requires fields != [] && FieldsPrintable(fields) && i <= |b| && At(b, i, PrintFields(fields) + [CLOSE_BRACE])
    ensures ParsedBack(FieldsFrom(b, i, m, depth), FieldsFit(fields, depth + 1), Obj(InsertAll(m, fields)),
                       i + |PrintFields(fields)| + 1)
    decreases fields, 0
  {
    hide Print, PrintFields, Printable, At, Stops, SkipSpace, ValueAt, KeyAt, Fits, Quoted, Insert;
    var f := fields[0];
    FieldsText(b, i, fields);
    ValueRoundTrip(b, i + |Quoted(f.key)| + 1, f.value, depth + 1);
    var rest := fields[1..];
    if |fields| == 1 {
      assert rest == [];
    } else if Fits(f.value, depth + 1) {
      FieldsRoundTrip(b, i + |Quoted(f.key)| + 1 + |Print(f.value)| + 1, rest, Insert(m, f.key, f.value), depth);
      assert FieldsFit(fields, depth + 1) <==> FieldsFit(rest, depth + 1) by {
        assert fields == [f] + rest;
      }
    }
  }

  /** What follows the opening brace. */
  lemma ObjectContent(b: seq<Byte>, i: nat, fields: seq<Field>, depth: nat)
    requires FieldsPrintable(fields) && i < |b| && At(b, i + 1, PrintFields(fields) + [CLOSE_BRACE])
    ensures ParsedBack(ObjectAt(b, i, depth), FieldsFit(fields, depth + 1), Obj(InsertAll([], fields)),
                       i + |PrintFields(fields)| + 2)
    decreases fields, 1
  {
    hide At, PrintFields, Printable, FieldsFrom, SkipSpace, InsertAll, FieldsFit, ParsedBack;
    if fields == [] {
      EmptyObject(b, i, fields, depth);
    } else {
      FieldsStart(b, i + 1, fields);
      FieldsRoundTrip(b, i + 1, fields, [], depth);
    }
  }

  lemma FieldsStart(b: seq<Byte>, i: nat, fields: seq<Field>)
    requires fields != [] && FieldsPrintable(fields) && At(b, i, PrintFields(fields) + [CLOSE_BRACE])
    ensures SkipSpace(b, i) == i && i < |b| && b[i] != CLOSE_BRACE
  {
    hide At, PrintFields, Printable, SkipSpace, KeyAt, Stops;
    FieldsText(b, i, fields);
  }

  lemma EmptyObject(b: seq<Byte>, i: nat, fields: seq<Field>, depth: nat)
    requires fields == [] && i < |b| && At(b, i + 1, PrintFields([]) + [CLOSE_BRACE])
    ensures ParsedBack(ObjectAt(b, i, depth), FieldsFit(fields, depth + 1), Obj(InsertAll([], fields)), i + 2)
    ensures PrintFields([]) == []
  {
    hide At, SkipSpace, FieldsFrom;
    NoItems();
    AtByte(b, i + 1, PrintFields([]) + [CLOSE_BRACE], 0);
    NoSpace(b, i + 1);
    NothingInserted();
    NothingFits(depth);
  }

  lemma NothingFits(depth: nat)
    ensures FieldsFit([], depth + 1)
  {
  }

  lemma ObjectDispatch(b: seq<Byte>, i: nat, depth: nat)
    requires i < |b| && b[i] == OPEN_BRACE && depth <= MAX_DEPTH
    ensures ValueAt(b, i, depth) == ObjectAt(b, i, depth)
  {
    hide ObjectAt, At;
    LiteralHead(b, i);
  }

  /** The object text of any printable fields, in any order: they are inserted one by one. */
  lemma ObjectRoundTrip(b: seq<Byte>, i: nat, fields: seq<Field>, depth: nat)
    requires FieldsPrintable(fields) && i <= |b| && depth <= MAX_DEPTH
    requires At(b, i, [OPEN_BRACE] + PrintFields(fields) + [CLOSE_BRACE])
    ensures ParsedBack(ValueAt(b, i, depth), FieldsFit(fields, depth + 1), Obj(InsertAll([], fields)),
                       i + |PrintFields(fields)| + 2)
    decreases fields, 2
  {
    hide At, PrintFields, Printable, ValueAt, ObjectAt, InsertAll, FieldsFit, ParsedBack;
    var text := PrintFields(fields) + [CLOSE_BRACE];
    assert [OPEN_BRACE] + PrintFields(fields) + [CLOSE_BRACE] == [OPEN_BRACE] + text;
    AtConcat(b, i, [OPEN_BRACE], text);
    AtByte(b, i, [OPEN_BRACE], 0);
    ObjectDispatch(b, i, depth);
    ObjectContent(b, i, fields, depth);
  }

  lemma NothingInserted()
    ensures InsertAll([], []) == []
  {
  }

  /** The whole document: parsing the printed form gives the value back exactly when its nesting is
      within the limit; otherwise it is refused as too deep. */
  lemma ParseUndoesPrint(j: Json)
    requires Printable(j)
    ensures Fits(j, 0) ==> Parse(Print(j)) == Ok(j, |Print(j)|)
    ensures !Fits(j, 0) ==> Parse(Print(j)).Err? && Parse(Print(j)).what == TooDeep
  {
    hide Print, Printable, ValueAt, Fits;
    var b := Print(j);
    FirstByte(j);
    NoSpace(b, 0);
    NoSpace(b, |b|);
    assert b[0..|b|] == b;
    ValueRoundTrip(b, 0, j, 0);
  }

  // ---- printed text is one line ----

  /** No control byte: in particular no line feed, the frame delimiter of the line protocol. */
  predicate NoControl(t: seq<Byte>) {
    forall k :: 0 <= k < |t| ==> t[k] >= 0x20
  }

  lemma {:induction false} EscapeNoControl(s: Text)
    ensures NoControl(Escape(s))
  {
    if s != [] {
      EscapeScalarNoControl(s[0]);
      EscapeNoControl(s[1..]);
    }
  }

  lemma EscapeScalarNoControl(c: Scalar)
    ensures NoControl(EscapeScalar(c))
  {
  }

  lemma QuotedNoControl(s: Text)
    ensures NoControl(Quoted(s))
  {
    EscapeNoControl(s);
  }

  lemma DecimalNoControl(n: int)
    ensures NoControl(Decimal(n))
  {
    DecimalParses(n);
  }

  /** The text of a value that has no parts. */
  lemma ScalarNoControl(j: Json)
    requires Printable(j) && !j.Arr? && !j.Obj?
    ensures NoControl(Print(j))
  {
    match j
    case Num(number) => DecimalNoControl(number.n);
    case Str(s) => QuotedNoControl(s);
    case _ =>
  }

  lemma BracketsNoControl(open: Byte, t: seq<Byte>, close: Byte)
    requires open >= 0x20 && close >= 0x20 && NoControl(t)
    ensures NoControl([open] + t + [close])
  {
  }

  lemma {:induction false} PrintNoControl(j: Json)
    requires Printable(j)
    ensures NoControl(Print(j))
    decreases j, 1
  {
    hide NoControl, PrintItems, PrintFields;
    match j
    case Arr(items) =>
      ItemsNoControl(items);
      BracketsNoControl(OPEN_BRACKET, PrintItems(items), CLOSE_BRACKET);
    case Obj(fields) =>
      FieldsNoControl(fields);
      BracketsNoControl(OPEN_BRACE, PrintFields(fields), CLOSE_BRACE);
    case _ => ScalarNoControl(j);
  }

  lemma {:induction false} ItemsNoControl(items: seq<Json>)
    requires AllPrintable(items)
    ensures NoControl(PrintItems(items))
    decreases items, 0
  {
    hide Print;
    if items != [] {
      PrintNoControl(items[0]);
      ItemsNoControl(items[1..]);
    }
  }

  lemma {:induction false} FieldsNoControl(fields: seq<Field>)
    requires FieldsPrintable(fields)
    ensures NoControl(PrintFields(fields))
    decreases fields, 0
  {
    hide Print, Quoted;
    if fields != [] {
      QuotedNoControl(fields[0].key);
      PrintNoControl(fields[0].value);
      FieldsNoControl(fields[1..]);
    }
  }

  // ---- what any parse yields ----

  /** Every object inside the value has strictly ascending keys, and every whole number is a double. */
  ghost predicate WellFormed(j: Json)
    decreases j
  {
    match j
    case Num(Whole(n)) => IsDouble(if n < 0 then -n else n)
    case Arr(items) => forall k :: 0 <= k < |items| ==> WellFormed(items[k])
    case Obj(fields) => Sorted(fields) && forall k :: 0 <= k < |fields| ==> WellFormed(fields[k].value)
    case _ => true
  }

  lemma {:induction false} InsertWellFormed(m: seq<Field>, k: Text, v: Json)
    requires WellFormed(Obj(m)) && WellFormed(v)
    ensures WellFormed(Obj(Insert(m, k, v)))
  {
    InsertKeepsSorted(m, k, v);
    InsertKeepsValues(m, k, v);
  }

  lemma {:induction false} InsertKeepsValues(m: seq<Field>, k: Text, v: Json)
    requires WellFormed(v) && forall f :: f in m ==> WellFormed(f.value)
    ensures forall f :: f in Insert(m, k, v) ==> WellFormed(f.value)
  {
    if m != [] {
      InsertKeepsValues(m[1..], k, v);
    }
  }

  lemma NumberWellFormed(b: seq<Byte>, i: nat)
    requires i < |b| && NumberAt(b, i).Ok?
    ensures WellFormed(NumberAt(b, i).value)
  {
    hide NumberEnd, IsDouble, Rounded, Overflows, IsFloat;
    var t := b[i..NumberAt(b, i).next];
    if AllDigits(Unsigned(t)) {
      RoundedIsDouble(DigitsValue(Unsigned(t)));
    }
  }

  /** Whatever the bytes, a value that parses is well formed: no duplicate keys, keys in order, whole
      numbers that a double holds. */
  lemma {:induction false} ValueWellFormed(b: seq<Byte>, i: nat, depth: nat)
    requires i <= |b| && ValueAt(b, i, depth).Ok?
    ensures WellFormed(ValueAt(b, i, depth).value)
    decreases |b| - i, 3
  {
    hide StringFrom, NumberEnd, ParseFloat, SkipSpace, At, Insert;
    if i < |b| && b[i] == OPEN_BRACKET {
      var j := SkipSpace(b, i + 1);
      if !Peeks(b, j, CLOSE_BRACKET) && ItemsFrom(b, j, [], depth).Ok? {
        ItemsWellFormed(b, j, [], depth);
      }
    } else if i < |b| && b[i] == OPEN_BRACE {
      var j := SkipSpace(b, i + 1);
      if !Peeks(b, j, CLOSE_BRACE) && FieldsFrom(b, j, [], depth).Ok? {
        FieldsWellFormed(b, j, [], depth);
      }
    } else if i < |b| && (b[i] == MINUS || IsDigit(b[i])) && NumberAt(b, i).Ok? {
      NumberWellFormed(b, i);
    }
  }

  lemma {:induction false} LookupWellFormed(m: seq<Field>, k: Text)
    requires (forall f :: f in m ==> WellFormed(f.value)) && Lookup(m, k).Some?
    ensures WellFormed(Lookup(m, k).value)
  {
    if m[0].key != k {
      LookupWellFormed(m[1..], k);
    }
  }

  lemma WholeWellFormed(n: int)
    ensures WellFormed(Num(Whole(n))) <==> IsDouble(if n < 0 then -n else n)
  {
  }

  lemma GetWellFormed(j: Json, k: Text)
    requires WellFormed(j) && Get(j, k).Some?
    ensures WellFormed(Get(j, k).value)
  {
    LookupWellFormed(j.fields, k);
  }

  lemma {:induction false} ItemsWellFormed(b: seq<Byte>, i: nat, out: seq<Json>, depth: nat)
    requires i <= |b| && WellFormed(Arr(out)) && ItemsFrom(b, i, out, depth).Ok?
    ensures WellFormed(ItemsFrom(b, i, out, depth).value)
    decreases |b| - i, 4
  {
    hide ValueAt, SkipSpace;
    var s := SkipSpace(b, i);
    ValueWellFormed(b, s, depth + 1);
    var r := ValueAt(b, s, depth + 1);
    var j := SkipSpace(b, r.next);
    if Peeks(b, j, COMMA) {
      ItemsWellFormed(b, j + 1, out + [r.value], depth);
    }
  }

  lemma {:induction false} FieldsWellFormed(b: seq<Byte>, i: nat, m: seq<Field>, depth: nat)
    requires i <= |b| && WellFormed(Obj(m)) && FieldsFrom(b, i, m, depth).Ok?
    ensures WellFormed(FieldsFrom(b, i, m, depth).value)
    decreases |b| - i, 4
  {
    hide ValueAt, SkipSpace, KeyAt, Insert, WellFormed;
    var k := KeyAt(b, SkipSpace(b, i));
    ValueWellFormed(b, k.next, depth + 1);
    var r := ValueAt(b, k.next, depth + 1);
    InsertWellFormed(m, k.value, r.value);
    var j := SkipSpace(b, r.next);
    if Peeks(b, j, COMMA) {
      FieldsWellFormed(b, j + 1, Insert(m, k.value, r.value), depth);
    }
  }
}
