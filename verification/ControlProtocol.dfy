/** What travels on the control socket: every reply line gives its content back to the client that
    parses it, every request form is read back as the command it names, and every reply to a request
    carries that request's id. */
module ControlProtocol {
  import opened Doubles
  import opened Basics
  import opened Utf8
  import opened Json
  import opened JsonGrammar
  import opened JsonRoundTrip
  import opened ReplyLines

  /** The value the last field with key `k` has, or `before` when there is none. */
  function LastValue(fields: seq<Field>, k: Text, before: Option<Json>): Option<Json>
    decreases |fields|
  {
    if fields == [] then before
    else LastValue(fields[1..], k, if fields[0].key == k then Some(fields[0].value) else before)
  }

  /** An object parsed from a text maps each key to the last value the text gave it. */
  lemma {:induction false} LookupInserted(m: seq<Field>, fields: seq<Field>, k: Text)
    ensures Lookup(InsertAll(m, fields), k) == LastValue(fields, k, Lookup(m, k))
    decreases |fields|
  {
    if fields != [] {
      InsertThenLookup(m, fields[0].key, fields[0].value, k);
      LookupInserted(Insert(m, fields[0].key, fields[0].value), fields[1..], k);
    }
  }

  lemma {:induction false} LastOfAppended(a: seq<Field>, b: seq<Field>, k: Text, before: Option<Json>)
    ensures LastValue(a + b, k, before) == LastValue(b, k, LastValue(a, k, before))
    decreases |a|
  {
    if a == [] {
      assert a + b == b;
    } else {
      assert (a + b)[1..] == a[1..] + b;
      LastOfAppended(a[1..], b, k, if a[0].key == k then Some(a[0].value) else before);
    }
  }

  lemma {:induction false} LastUnmentioned(fields: seq<Field>, k: Text, before: Option<Json>)
    requires forall f :: f in fields ==> f.key != k
    ensures LastValue(fields, k, before) == before
    decreases |fields|
  {
    if fields != [] {
      LastUnmentioned(fields[1..], k, before);
    }
  }

  /** The text `{fields}`. */
  function LineOf(fields: seq<Field>): seq<Byte>
    requires FieldsPrintable(fields)
  {
    [OPEN_BRACE] + PrintFields(fields) + [CLOSE_BRACE]
  }

  /** A line of printable fields, in any order and with repetitions, parses to the map of their last
      values, and holds no control byte; it is refused exactly when a value nests too deep. */
  lemma LineIsReadBack(fields: seq<Field>)
    requires FieldsPrintable(fields)
    ensures NoControl(LineOf(fields))
    ensures FieldsFit(fields, 1) ==> Parse(LineOf(fields)) == Ok(Obj(InsertAll([], fields)), |LineOf(fields)|)
    ensures !FieldsFit(fields, 1) ==> Parse(LineOf(fields)).Err? && Parse(LineOf(fields)).what == TooDeep
    ensures forall k :: Lookup(InsertAll([], fields), k) == LastValue(fields, k, None)
  {
    hide PrintFields, Printable, ValueAt, InsertAll, LastValue, Lookup;
    var b := LineOf(fields);
    FieldsNoControl(fields);
    assert b[0..|b|] == b && b[0] == OPEN_BRACE;
    NoSpace(b, 0);
    NoSpace(b, |b|);
    ObjectRoundTrip(b, 0, fields, 0);
    forall k ensures Lookup(InsertAll([], fields), k) == LastValue(fields, k, None) {
      LookupInserted([], fields, k);
      EmptyLookup(k);
    }
  }

  /** The version and the id as a client reads them. */
  function HeadRead(id: Option<nat>): seq<Field> {
    [Version(), Field(Chars("id"), IdRead(id))]
  }

  /** The value of the id at any place of a text. */
  lemma IdRoundTrip(b: seq<Byte>, i: nat, id: Option<nat>, depth: nat)
    requires i <= |b| && At(b, i, IdText(id)) && depth <= MAX_DEPTH && Stops(b, i + |IdText(id)|)
    ensures ValueAt(b, i, depth) == Ok(IdRead(id), i + |IdText(id)|)
    ensures IdText(id) != [] && !IsSpace(IdText(id)[0]) && NoControl(IdText(id))
  {
    hide At, ValueAt, Read, ParseFloat, Digits;
    match id
    case Some(n) =>
      assert Decimal(n) == Digits(n);
      DecimalParses(n);
      DecimalNoControl(n);
      NumberValue(b, i, n, depth);
    case None =>
      LiteralRoundTrip(b, i, Null, depth);
  }

  /** The two fields every reply starts with: after them the object loop goes on with what follows. */
  lemma HeadIsRead(b: seq<Byte>, id: Option<nat>, rest: seq<Byte>)
    requires At(b, 0, [OPEN_BRACE] + (PrintField(Version())
               + ([COMMA] + (Quoted(Chars("id")) + ([COLON] + (IdText(id) + ([COMMA] + rest)))))))
    ensures var next := |PrintField(Version())| + |Quoted(Chars("id"))| + |IdText(id)| + 4;
            && next <= |b| && At(b, next, rest)
            && ValueAt(b, 0, 0) == FieldsFrom(b, next, InsertAll([], HeadRead(id)), 0)
    ensures NoControl(IdText(id)) && b != [] && b[0] == OPEN_BRACE
  {
    hide At, Quoted, Chars, ValueAt, FieldsFrom, SkipSpace, Stops, Print, IdText, IdRead, InsertAll;
    var tail := Quoted(Chars("id")) + ([COLON] + (IdText(id) + ([COMMA] + rest)));
    var version := PrintField(Version()) + ([COMMA] + tail);
    AtConcat(b, 0, [OPEN_BRACE], version);
    AtByte(b, 0, [OPEN_BRACE], 0);
    ObjectDispatch(b, 0, 0);
    var n := VersionIsRead(b, 1, tail);
    FirstField(b, 1, Chars("v"));
    IdIsRead(b, n, id, Insert([], Chars("v"), Num(Whole(PROTOCOL_V))), rest);
    HeadInserted(id);
  }

  /** Where a key starts, the object loop starts. */
  lemma FirstField(b: seq<Byte>, i: nat, key: Text)
    requires 0 < i <= |b| && At(b, i, Quoted(key))
    ensures ObjectAt(b, i - 1, 0) == FieldsFrom(b, i, [], 0)
  {
    hide At, FieldsFrom;
    AtByte(b, i, Quoted(key), 0);
    NoSpace(b, i);
  }

  lemma HeadInserted(id: Option<nat>)
    ensures InsertAll([], HeadRead(id))
         == Insert(Insert([], Chars("v"), Num(Whole(PROTOCOL_V))), Chars("id"), IdRead(id))
  {
    hide Insert, IdRead, Chars;
    var head := HeadRead(id);
    assert head[1..] == [head[1]] && head[1..][1..] == [];
    var m := Insert([], head[0].key, head[0].value);
    assert InsertAll(m, [head[1]]) == InsertAll(Insert(m, head[1].key, head[1].value), []);
  }

  lemma VersionIsRead(b: seq<Byte>, i: nat, tail: seq<Byte>) returns (n: nat)
    requires i <= |b| && At(b, i, PrintField(Version()) + ([COMMA] + tail))
    ensures n == i + |PrintField(Version())| + 1 <= |b| && At(b, n, tail) && At(b, i, Quoted(Chars("v")))
    ensures FieldsFrom(b, i, [], 0) == FieldsFrom(b, n, Insert([], Chars("v"), Num(Whole(PROTOCOL_V))), 0)
  {
    hide At, Quoted, Chars, ValueAt, FieldsFrom, Stops, Print, Insert;
    var k, v := Quoted(Chars("v")), Print(Num(Whole(PROTOCOL_V)));
    FirstByte(Num(Whole(PROTOCOL_V)));
    assert PrintField(Version()) + ([COMMA] + tail) == k + ([COLON] + (v + ([COMMA] + tail)));
    AtConcat(b, i, k, [COLON] + (v + ([COMMA] + tail)));
    AtConcat(b, i + |k|, [COLON], v + ([COMMA] + tail));
    AtConcat(b, i + |k| + 1, v, [COMMA] + tail);
    CommaStops(b, i + |k| + 1 + |v|, tail);
    AtByte(b, i + |k|, [COLON], 0);
    ScalarRoundTrip(b, i + |k| + 1, Num(Whole(PROTOCOL_V)), 1);
    FieldStep(b, i, Chars("v"), v, tail, Num(Whole(PROTOCOL_V)), [], 0);
    n := i + |PrintField(Version())| + 1;
  }

  lemma CommaStops(b: seq<Byte>, i: nat, tail: seq<Byte>)
    requires At(b, i, [COMMA] + tail)
    ensures Stops(b, i) && i < |b|
  {
    AtByte(b, i, [COMMA] + tail, 0);
  }

  lemma IdIsRead(b: seq<Byte>, i: nat, id: Option<nat>, m: seq<Field>, rest: seq<Byte>)
    requires i <= |b| && At(b, i, Quoted(Chars("id")) + ([COLON] + (IdText(id) + ([COMMA] + rest))))
    ensures var n := i + |Quoted(Chars("id"))| + |IdText(id)| + 2;
            n <= |b| && At(b, n, rest)
            && FieldsFrom(b, i, m, 0) == FieldsFrom(b, n, Insert(m, Chars("id"), IdRead(id)), 0)
    ensures NoControl(IdText(id))
  {
    hide At, Quoted, Chars, ValueAt, FieldsFrom, Stops, Insert, IdText, IdRead, NoControl;
    var k, t := Quoted(Chars("id")), IdText(id);
    AtConcat(b, i, k, [COLON] + (t + ([COMMA] + rest)));
    AtConcat(b, i + |k|, [COLON], t + ([COMMA] + rest));
    AtConcat(b, i + |k| + 1, t, [COMMA] + rest);
    AtByte(b, i + |k|, [COLON], 0);
    CommaStops(b, i + |k| + 1 + |t|, rest);
    IdRoundTrip(b, i + |k| + 1, id, 1);
    FieldStep(b, i, Chars("id"), t, rest, IdRead(id), m, 0);
  }

  lemma {:induction false} InsertedInTurn(m: seq<Field>, a: seq<Field>, b: seq<Field>)
    ensures InsertAll(m, a + b) == InsertAll(InsertAll(m, a), b)
    decreases |a|
  {
    if a == [] {
      assert a + b == b;
    } else {
      assert (a + b)[1..] == a[1..] + b;
      InsertedInTurn(Insert(m, a[0].key, a[0].value), a[1..], b);
    }
  }

  /** A reply with any id at all: the id is read as its nearest double, the other members as written. */
  lemma HeadedIsReadBack(id: Option<nat>, rest: seq<Field>)
    requires FieldsPrintable(rest) && rest != []
    ensures NoControl(HeadedText(id, rest))
    ensures FieldsFit(rest, 1) ==>
      Parse(HeadedText(id, rest)) == Ok(Obj(InsertAll([], HeadRead(id) + rest)), |HeadedText(id, rest)|)
    ensures !FieldsFit(rest, 1) ==> Parse(HeadedText(id, rest)).Err? && Parse(HeadedText(id, rest)).what == TooDeep
    ensures forall k :: Lookup(InsertAll([], HeadRead(id) + rest), k) == LastValue(HeadRead(id) + rest, k, None)
  {
    hide At, PrintField, PrintFields, Printable, ValueAt, FieldsFrom, InsertAll, LastValue, Lookup, HeadRead, IdText,
      Quoted, Chars, FieldsFit, NoControl;
    var b := HeadedText(id, rest);
    var text := PrintFields(rest) + [CLOSE_BRACE];
    WholeText(b);
    HeadIsRead(b, id, text);
    HeadedNoControl(id, rest);
    var next := |PrintField(Version())| + |Quoted(Chars("id"))| + |IdText(id)| + 4;
    FieldsRoundTrip(b, next, rest, InsertAll([], HeadRead(id)), 0);
    InsertedInTurn([], HeadRead(id), rest);
    NoSpace(b, 0);
    NoSpace(b, |b|);
    forall k ensures Lookup(InsertAll([], HeadRead(id) + rest), k) == LastValue(HeadRead(id) + rest, k, None) {
      LookupInserted([], HeadRead(id) + rest, k);
      EmptyLookup(k);
    }
  }

  lemma WholeText(b: seq<Byte>)
    ensures At(b, 0, b)
  {
    assert b[0..|b|] == b;
  }

  lemma HeadedNoControl(id: Option<nat>, rest: seq<Field>)
    requires FieldsPrintable(rest) && NoControl(IdText(id))
    ensures NoControl(HeadedText(id, rest))
  {
    hide PrintField, PrintFields, Printable, IdText, Quoted, Chars;
    FieldNoControl(Version());
    QuotedNoControl(Chars("id"));
    FieldsNoControl(rest);
  }

  lemma FieldNoControl(f: Field)
    requires Printable(f.value)
    ensures NoControl(PrintField(f))
  {
    hide Print, Quoted;
    QuotedNoControl(f.key);
    PrintNoControl(f.value);
  }

  /** A 64-bit id is read back exactly when it is a double, so at least up to 2^53. */
  lemma IdIsExact(id: nat)
    requires id < 0x1_0000_0000_0000_0000
    ensures IdRead(Some(id)) == IdValue(Some(id)) <==> IsDouble(id)
    ensures id <= 0x20_0000_0000_0000 ==> IsDouble(id)
  {
    hide Rounded, Overflows, IsDouble;
    RoundedKeepsDoubles(id);
    if Overflows(id) {
      OverflowIsFar(id);
    }
    if id <= 0x20_0000_0000_0000 {
      SmallWholesAreDoubles(id);
    }
  }

  lemma EmptyLookup(k: Text)
    ensures Lookup([], k) == None
  {
  }

  /** Keys the response itself sets. */
  predicate Reserved(k: Text) {
    k == Chars("v") || k == Chars("id") || k == Chars("ok")
  }

  lemma TopKeys()
    ensures |Chars("v")| == 1 && |Chars("id")| == 2 && |Chars("ok")| == 2 && Chars("id")[0] != Chars("ok")[0]
    ensures Chars("id") != Chars("ok")
    ensures |Chars("error")| == |Chars("async")| == 5 && |Chars("payload")| == 7
    ensures |Chars("code")| == 4 && |Chars("detail")| == 6
  {
    assert Chars("id")[0] == 105 && Chars("ok")[0] == 111;
  }

  /** What a client reads in a success line: version, id, `ok`, and every extra key's last value. */
  ghost predicate SaysOk(r: Parsed<Json>, id: nat, extra: seq<Field>) {
    && r.Ok?
    && Get(r.value, Chars("v")) == Some(Num(Whole(1)))
    && Get(r.value, Chars("id")) == Some(IdRead(Some(id)))
    && Get(r.value, Chars("ok")) == Some(Bool(true))
    && forall k :: !Reserved(k) ==> Get(r.value, k) == LastValue(extra, k, None)
  }

  lemma OkLineIsReadBack(id: nat, extra: seq<Field>)
    requires FieldsPrintable(extra) && FieldsFit(extra, 1) && forall f :: f in extra ==> !Reserved(f.key)
    ensures NoControl(OkLine(id, Serialized(extra)))
    ensures SaysOk(Parse(OkLine(id, Serialized(extra))), id, extra)
  {
    hide Chars, Parse, Printable, PrintFields, NoControl, Serialized, OkLine, IdRead, HeadedText;
    var head := HeadRead(Some(id)) + OkRest([]);
    OkLineIsObject(id, extra);
    OkRestFits(extra);
    HeadedIsReadBack(Some(id), OkRest(extra));
    assert HeadRead(Some(id)) + OkRest(extra) == head + extra;
    TopKeys();
    forall k ensures LastValue(head + extra, k, None) == LastValue(extra, k, LastValue(head, k, None)) {
      LastOfAppended(head, extra, k, None);
    }
    var v, i, ok := head[0], head[1], head[2];
    assert head == [v, i, ok];
    forall k ensures LastValue(head, k, None) == if k == ok.key then Some(ok.value) else if k == i.key then Some(i.value)
      else if k == v.key then Some(v.value) else None {
      ThreeFields(v, i, ok, k);
    }
    LastUnmentioned(extra, Chars("v"), Some(v.value));
    LastUnmentioned(extra, Chars("id"), Some(i.value));
    LastUnmentioned(extra, Chars("ok"), Some(ok.value));
  }

  lemma OkRestFits(extra: seq<Field>)
    requires FieldsFit(extra, 1)
    ensures FieldsFit(OkRest(extra), 1)
  {
  }

  lemma OneField(f: Field, k: Text, before: Option<Json>)
    ensures LastValue([f], k, before) == if k == f.key then Some(f.value) else before
  {
    assert [f][1..] == [];
  }

  lemma ThreeFields(f: Field, g: Field, h: Field, k: Text)
    ensures LastValue([f, g, h], k, None)
         == if k == h.key then Some(h.value) else if k == g.key then Some(g.value)
            else if k == f.key then Some(f.value) else None
  {
    assert [f, g, h][1..] == [g, h] && [g, h][1..] == [h];
    OneField(h, k, if k == g.key then Some(g.value) else if k == f.key then Some(f.value) else None);
  }

  lemma FourFields(f: Field, g: Field, h: Field, e: Field, k: Text)
    ensures LastValue([f, g, h, e], k, None) == if k == e.key then Some(e.value) else LastValue([f, g, h], k, None)
  {
    assert [f, g, h, e] == [f, g, h] + [e];
    LastOfAppended([f, g, h], [e], k, None);
    OneField(e, k, LastValue([f, g, h], k, None));
  }

  /** What a client reads in an error line: the id or its absence, the code and the exact detail. */
  ghost predicate SaysError(r: Parsed<Json>, id: Option<nat>, code: string, detail: Text) {
    && IsAscii(code) && r.Ok?
    && Get(r.value, Chars("v")) == Some(Num(Whole(1)))
    && Get(r.value, Chars("id")) == Some(IdRead(id))
    && Get(r.value, Chars("ok")) == Some(Bool(false))
    && var e := Get(r.value, Chars("error"));
    && e.Some?
    && Get(e.value, Chars("code")) == Some(Str(Chars(code)))
    && Get(e.value, Chars("detail")) == Some(Str(detail))
  }

  lemma ErrLineIsReadBack(id: Option<nat>, code: string, detail: Text)
    requires IsPlain(code)
    ensures NoControl(ErrLine(id, code, detail))
    ensures SaysError(Parse(ErrLine(id, code, detail)), id, code, detail)
  {
    hide Chars, Parse, Printable, PrintFields, NoControl, LastValue, ErrLine, ErrorValue, IdRead, HeadedText;
    var fields := HeadRead(id) + ErrRest(code, detail);
    ErrLineIsObject(id, code, detail);
    ErrRestFits(code, detail);
    HeadedIsReadBack(id, ErrRest(code, detail));
    TopKeys();
    assert fields == [fields[0], fields[1], fields[2], fields[3]];
    forall k ensures LastValue(fields, k, None)
      == if k == fields[3].key then Some(fields[3].value) else if k == fields[2].key then Some(fields[2].value)
         else if k == fields[1].key then Some(fields[1].value) else if k == fields[0].key then Some(fields[0].value)
         else None {
      ThreeFields(fields[0], fields[1], fields[2], k);
      FourFields(fields[0], fields[1], fields[2], fields[3], k);
    }
    ErrorParts(code, detail);
  }

  lemma ErrorParts(code: string, detail: Text)
    requires IsAscii(code)
    ensures Get(ErrorValue(code, detail), Chars("code")) == Some(Str(Chars(code)))
    ensures Get(ErrorValue(code, detail), Chars("detail")) == Some(Str(detail))
  {
    hide Chars;
    TopKeys();
    var c, d := Field(Chars("code"), Str(Chars(code))), Field(Chars("detail"), Str(detail));
    assert [c, d][1..] == [d];
    assert Lookup([d], Chars("detail")) == Some(d.value);
  }

  lemma ErrRestFits(code: string, detail: Text)
    requires IsAscii(code)
    ensures FieldsFit(ErrRest(code, detail), 1)
  {
  }

  /** What a client reads in an event line: the payload, and no `id`, so it answers no request. */
  ghost predicate SaysEvent(r: Parsed<Json>, payload: Json) {
    && r.Ok?
    && Get(r.value, Chars("v")) == Some(Num(Whole(1)))
    && Get(r.value, Chars("async")) == Some(Bool(true))
    && Get(r.value, Chars("payload")) == Some(payload)
    && Get(r.value, Chars("id")) == None
  }

  lemma EventLineIsReadBack(payload: Json)
    requires Printable(payload) && Fits(payload, 1)
    ensures NoControl(EventLine(Print(payload)))
    ensures SaysEvent(Parse(EventLine(Print(payload))), payload)
  {
    hide Chars, Parse, Printable, PrintFields, NoControl, LastValue, EventLine, Fits, Print, InsertAll, Lookup;
    var fields := EventFields(payload);
    EventLineIsObject(payload);
    EventFieldsFit(payload);
    LineIsReadBack(fields);
    TopKeys();
    ThreeFields(fields[0], fields[1], fields[2], Chars("v"));
    ThreeFields(fields[0], fields[1], fields[2], Chars("async"));
    ThreeFields(fields[0], fields[1], fields[2], Chars("payload"));
    ThreeFields(fields[0], fields[1], fields[2], Chars("id"));
  }

  lemma EventFieldsFit(payload: Json)
    requires Fits(payload, 1)
    ensures FieldsFit(EventFields(payload), 1)
  {
  }
}
