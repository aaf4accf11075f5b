/** The reply lines of the control protocol, written by hand around escaped text, and what a client
    that parses them gets back. */
module ReplyLines {
  import opened Basics
  import opened Utf8
  import opened Json
  import opened JsonGrammar
  import opened JsonRoundTrip

  const PROTOCOL_V: nat := 1

  predicate IsAscii(s: string) {
    forall k :: 0 <= k < |s| ==> s[k] < 128 as char
  }

  /** An ASCII literal as text. */
  function Chars(s: string): (t: Text)
    requires IsAscii(s)
    ensures |t| == |s|
  {
    seq(|s|, k requires 0 <= k < |s| => s[k] as nat)
  }

  /** A literal that needs no escaping. */
  predicate IsPlain(s: string): (r: bool)
    ensures r ==> IsAscii(s)
  {
    IsAscii(s) && forall k :: 0 <= k < |s| ==> s[k] >= ' ' && s[k] != '"' && s[k] != '\\'
  }

  lemma {:induction false} EscapePlain(s: string)
    requires IsPlain(s)
    ensures Escape(Chars(s)) == Ascii(s)
    decreases |s|
  {
    if s != "" {
      EscapePlain(s[1..]);
      assert Chars(s)[1..] == Chars(s[1..]);
      assert Ascii(s) == [s[0] as nat] + Ascii(s[1..]);
    }
  }

  /** A response field: a key and a value already serialized by the caller. */
  datatype Extra = Extra(key: Text, text: seq<Byte>)

  function ExtraText(e: Extra): seq<Byte> {
    [COMMA] + Quoted(e.key) + [COLON] + e.text
  }

  function ExtrasText(extra: seq<Extra>): seq<Byte> {
    if extra == [] then [] else ExtraText(extra[0]) + ExtrasText(extra[1..])
  }

  function OkLine(id: nat, extra: seq<Extra>): seq<Byte> {
    Ascii("{\"v\":") + Digits(PROTOCOL_V) + Ascii(",\"id\":") + Digits(id) + Ascii(",\"ok\":true")
      + ExtrasText(extra) + [CLOSE_BRACE]
  }

  /** `ok_line`: the fields are appended one by one. */
  method WriteOkLine(id: nat, extra: seq<Extra>) returns (s: seq<Byte>)
    ensures s == OkLine(id, extra)
  {
    s := Ascii("{\"v\":") + Digits(PROTOCOL_V) + Ascii(",\"id\":") + Digits(id) + Ascii(",\"ok\":true");
    ghost var head := s;
    assert extra[0..] == extra;
    for k := 0 to |extra|
      invariant head + ExtrasText(extra) == s + ExtrasText(extra[k..])
    {
      assert extra[k..][1..] == extra[k + 1..];
      s := s + ExtraText(extra[k]);
    }
    s := s + [CLOSE_BRACE];
  }

  function IdText(id: Option<nat>): seq<Byte> {
    match id
    case Some(n) => Digits(n)
    case None => Ascii("null")
  }

  function ErrLine(id: Option<nat>, code: string, detail: Text): seq<Byte>
    requires IsAscii(code)
  {
    Ascii("{\"v\":") + Digits(PROTOCOL_V) + Ascii(",\"id\":") + IdText(id)
      + Ascii(",\"ok\":false") + Ascii(",\"error\":") + Ascii("{\"code\":\"") + Ascii(code)
      + Ascii("\",\"detail\":\"") + Escape(detail) + Ascii("\"}}")
  }

  function EventLine(payload: seq<Byte>): seq<Byte> {
    Ascii("{\"v\":") + Digits(PROTOCOL_V) + Ascii(",\"async\":true") + Ascii(",\"payload\":") + payload + [CLOSE_BRACE]
  }

  // ---- the fields a line carries ----

  function Version(): (f: Field)
    ensures Printable(f.value)
  {
    Field(Chars("v"), Num(Whole(PROTOCOL_V)))
  }

  function IdValue(id: Option<nat>): Json {
    match id
    case Some(n) => Num(Whole(n))
    case None => Null
  }

  /** What a written id is read as: its nearest double, or nothing. */
  function IdRead(id: Option<nat>): Json {
    match id
    case Some(n) => Read(n)
    case None => Null
  }

  /** The members behind the id. */
  function OkRest(extra: seq<Field>): seq<Field> {
    [Field(Chars("ok"), Bool(true))] + extra
  }

  function ErrRest(code: string, detail: Text): seq<Field>
    requires IsAscii(code)
  {
    [Field(Chars("ok"), Bool(false)), Field(Chars("error"), ErrorValue(code, detail))]
  }

  function ErrorValue(code: string, detail: Text): Json
    requires IsAscii(code)
  {
    Obj([Field(Chars("code"), Str(Chars(code))), Field(Chars("detail"), Str(detail))])
  }

  /** The fields of a line with that id, if the number is one the JSON printer writes like that. */
  function WithId(id: Option<nat>, rest: seq<Field>): seq<Field> {
    [Version(), Field(Chars("id"), IdValue(id))] + rest
  }

  /** The text of an object with the version, the id in decimal, and the members `rest`. */
  function HeadedText(id: Option<nat>, rest: seq<Field>): seq<Byte>
    requires FieldsPrintable(rest)
  {
    [OPEN_BRACE] + (PrintField(Version())
      + ([COMMA] + (Quoted(Chars("id")) + ([COLON] + (IdText(id) + ([COMMA] + (PrintFields(rest) + [CLOSE_BRACE])))))))
  }

  function EventFields(payload: Json): seq<Field> {
    [Version(), Field(Chars("async"), Bool(true)), Field(Chars("payload"), payload)]
  }

  function Serialized(extra: seq<Field>): seq<Extra>
    requires FieldsPrintable(extra)
  {
    seq(|extra|, k requires 0 <= k < |extra| => Extra(extra[k].key, Print(extra[k].value)))
  }

  lemma PrintFieldsCons(f: Field, rest: seq<Field>)
    requires Printable(f.value) && FieldsPrintable(rest)
    ensures FieldsPrintable([f] + rest)
    ensures PrintFields([f] + rest) == if rest == [] then PrintField(f) else PrintField(f) + ([COMMA] + PrintFields(rest))
  {
    hide Print, Printable, Quoted, PrintField;
    assert ([f] + rest)[1..] == rest;
    if rest == [] {
      assert PrintField(f) + [] == PrintField(f);
    }
  }

  lemma ExtrasCons(f: Field, rest: seq<Field>)
    requires Printable(f.value) && FieldsPrintable(rest)
    ensures FieldsPrintable([f] + rest)
    ensures ExtrasText(Serialized([f] + rest)) == [COMMA] + PrintField(f) + ExtrasText(Serialized(rest))
  {
    hide Print, Printable, Quoted;
    var s := Serialized([f] + rest);
    assert s[1..] == Serialized(rest);
    assert ExtraText(s[0]) == [COMMA] + PrintField(f);
  }

  /** The text of a non-empty field list is its first field followed by the rest behind commas. */
  lemma {:induction false} FieldsAsExtras(f: Field, rest: seq<Field>)
    requires Printable(f.value) && FieldsPrintable(rest)
    ensures FieldsPrintable([f] + rest)
    ensures PrintFields([f] + rest) == PrintField(f) + ExtrasText(Serialized(rest))
    decreases |rest|
  {
    hide Printable, PrintField, PrintFields, Serialized, ExtrasText;
    PrintFieldsCons(f, rest);
    NoExtras();
    if rest == [] {
      assert PrintField(f) + [] == PrintField(f);
    } else {
      var g, others := rest[0], rest[1..];
      assert rest == [g] + others;
      FieldsAsExtras(g, others);
      ExtrasCons(g, others);
      assert PrintField(f) + ([COMMA] + (PrintField(g) + ExtrasText(Serialized(others))))
          == PrintField(f) + ([COMMA] + PrintField(g) + ExtrasText(Serialized(others)));
    }
  }

  /** A quoted plain key with its colon. */
  function KeyText(key: string): seq<Byte>
    requires IsPlain(key)
  {
    [QUOTE] + Ascii(key) + [QUOTE, COLON]
  }

  lemma PlainField(key: string, value: Json)
    requires IsPlain(key) && Printable(value)
    ensures PrintField(Field(Chars(key), value)) == KeyText(key) + Print(value)
  {
    EscapePlain(key);
  }

  lemma LiteralValues(id: nat)
    requires id < 1_000_000_000_000_000
    ensures Print(Bool(true)) == Ascii("true") && Print(Bool(false)) == Ascii("false") && Print(Null) == Ascii("null")
    ensures Printable(Num(Whole(id))) && Print(Num(Whole(id))) == Digits(id)
  {
  }

  lemma PlainNames()
    ensures IsPlain("v") && IsPlain("id") && IsPlain("ok") && IsPlain("error") && IsPlain("code") && IsPlain("detail")
    ensures IsPlain("async") && IsPlain("payload")
    ensures Printable(Bool(true)) && Printable(Bool(false)) && Printable(Null)
  {
    hide IsPlain, KeyText, Ascii;
    VersionKey();
    IdKey();
    OkTrue();
    ErrorKey();
    CodeKey();
    DetailKey();
    AsyncTrue();
    PayloadKey();
  }

  lemma KeyTexts()
    ensures IsPlain("v") && Ascii("{\"v\":") == [OPEN_BRACE] + KeyText("v")
    ensures IsPlain("id") && Ascii(",\"id\":") == [COMMA] + KeyText("id")
    ensures IsPlain("ok") && Ascii(",\"ok\":true") == [COMMA] + (KeyText("ok") + Ascii("true"))
    ensures Ascii(",\"ok\":false") == [COMMA] + (KeyText("ok") + Ascii("false"))
  {
    hide IsPlain, KeyText, Ascii;
    VersionKey();
    IdKey();
    OkTrue();
    OkFalse();
  }

  lemma VersionKey()
    ensures IsPlain("v") && Ascii("{\"v\":") == [OPEN_BRACE] + KeyText("v")
  {
  }

  lemma IdKey()
    ensures IsPlain("id") && Ascii(",\"id\":") == [COMMA] + KeyText("id")
  {
  }

  lemma OkTrue()
    ensures IsPlain("ok") && Ascii(",\"ok\":true") == [COMMA] + (KeyText("ok") + Ascii("true"))
  {
  }

  lemma OkFalse()
    ensures IsPlain("ok") && Ascii(",\"ok\":false") == [COMMA] + (KeyText("ok") + Ascii("false"))
  {
  }

  lemma ErrorTexts()
    ensures IsPlain("error") && Ascii(",\"error\":") == [COMMA] + KeyText("error")
    ensures IsPlain("code") && Ascii("{\"code\":\"") == [OPEN_BRACE] + KeyText("code") + [QUOTE]
    ensures IsPlain("detail") && Ascii("\",\"detail\":\"") == [QUOTE] + [COMMA] + KeyText("detail") + [QUOTE]
    ensures Ascii("\"}}") == [QUOTE] + [CLOSE_BRACE] + [CLOSE_BRACE]
  {
    hide IsPlain, KeyText, Ascii;
    ErrorKey();
    CodeKey();
    DetailKey();
    ErrorEnd();
  }

  lemma ErrorKey()
    ensures IsPlain("error") && Ascii(",\"error\":") == [COMMA] + KeyText("error")
  {
  }

  lemma CodeKey()
    ensures IsPlain("code") && Ascii("{\"code\":\"") == [OPEN_BRACE] + KeyText("code") + [QUOTE]
  {
  }

  lemma DetailKey()
    ensures IsPlain("detail") && Ascii("\",\"detail\":\"") == [QUOTE] + [COMMA] + KeyText("detail") + [QUOTE]
  {
  }

  lemma ErrorEnd()
    ensures Ascii("\"}}") == [QUOTE] + [CLOSE_BRACE] + [CLOSE_BRACE]
  {
  }

  lemma EventTexts()
    ensures IsPlain("async") && Ascii(",\"async\":true") == [COMMA] + (KeyText("async") + Ascii("true"))
    ensures IsPlain("payload") && Ascii(",\"payload\":") == [COMMA] + KeyText("payload")
  {
    hide IsPlain, KeyText, Ascii;
    AsyncTrue();
    PayloadKey();
  }

  lemma AsyncTrue()
    ensures IsPlain("async") && Ascii(",\"async\":true") == [COMMA] + (KeyText("async") + Ascii("true"))
  {
  }

  lemma PayloadKey()
    ensures IsPlain("payload") && Ascii(",\"payload\":") == [COMMA] + KeyText("payload")
  {
  }

  lemma PlainKey(key: string)
    requires IsPlain(key)
    ensures Quoted(Chars(key)) + [COLON] == KeyText(key)
  {
    EscapePlain(key);
  }

  lemma VersionText()
    ensures IsPlain("v") && PrintField(Version()) == KeyText("v") + Digits(PROTOCOL_V)
  {
    hide IsPlain, Chars, KeyText, Digits, Print, PrintField, Printable;
    PlainNames();
    LiteralValues(PROTOCOL_V);
    PlainField("v", Num(Whole(PROTOCOL_V)));
  }

  /** Behind an id that the printer would write the same, the text is the printed object. */
  lemma HeadedIsObject(id: Option<nat>, rest: seq<Field>)
    requires FieldsPrintable(rest) && rest != [] && (id.Some? ==> id.value < 1_000_000_000_000_000)
    ensures FieldsPrintable(WithId(id, rest))
    ensures HeadedText(id, rest) == [OPEN_BRACE] + PrintFields(WithId(id, rest)) + [CLOSE_BRACE]
  {
    hide Print, Printable, Quoted, Chars, Digits;
    LiteralValues(PROTOCOL_V);
    IdIsPrintable(id);
    var fields := WithId(id, rest);
    var v, i := fields[0], fields[1];
    assert fields == [v] + ([i] + rest);
    PrintFieldsCons(i, rest);
    PrintFieldsCons(v, [i] + rest);
    HeadAssembly(PrintField(v), Quoted(i.key), IdText(id), PrintFields(rest));
  }

  /** Associativity only. */
  lemma HeadAssembly(v: seq<Byte>, k: seq<Byte>, i: seq<Byte>, r: seq<Byte>)
    ensures [OPEN_BRACE] + (v + ([COMMA] + (k + ([COLON] + (i + ([COMMA] + (r + [CLOSE_BRACE])))))))
         == [OPEN_BRACE] + (v + ([COMMA] + (k + [COLON] + i + ([COMMA] + r)))) + [CLOSE_BRACE]
  {
  }

  /** Associativity only. */
  lemma OkAssembly(kv: seq<Byte>, v: seq<Byte>, k: seq<Byte>, i: seq<Byte>, ok: seq<Byte>, x: seq<Byte>)
    ensures [OPEN_BRACE] + kv + v + ([COMMA] + (k + [COLON])) + i + ([COMMA] + ok) + x + [CLOSE_BRACE]
         == [OPEN_BRACE] + (kv + v + ([COMMA] + (k + ([COLON] + (i + ([COMMA] + (ok + x + [CLOSE_BRACE])))))))
  {
  }

  lemma OkLineIsObject(id: nat, extra: seq<Field>)
    requires FieldsPrintable(extra)
    ensures FieldsPrintable(OkRest(extra))
    ensures OkLine(id, Serialized(extra)) == HeadedText(Some(id), OkRest(extra))
    ensures id < 1_000_000_000_000_000 ==>
      var fields := WithId(Some(id), OkRest(extra));
      && FieldsPrintable(fields)
      && OkLine(id, Serialized(extra)) == [OPEN_BRACE] + PrintFields(fields) + [CLOSE_BRACE]
  {
    hide Print, Printable, Digits, Quoted, PrintField, PrintFields, Serialized, ExtrasText, Chars, Ascii, IsPlain,
      KeyText, WithId;
    LiteralValues(PROTOCOL_V);
    PlainNames();
    var ok := Field(Chars("ok"), Bool(true));
    FieldsAsExtras(ok, extra);
    PlainField("ok", ok.value);
    PlainKey("id");
    VersionText();
    KeyTexts();
    OkAssembly(KeyText("v"), Digits(PROTOCOL_V), Quoted(Chars("id")), Digits(id), KeyText("ok") + Ascii("true"),
               ExtrasText(Serialized(extra)));
    if id < 1_000_000_000_000_000 {
      HeadedIsObject(Some(id), OkRest(extra));
    }
  }

  lemma ErrorObjectText(code: string, detail: Text)
    requires IsPlain(code)
    ensures IsPlain("code") && IsPlain("detail") && Printable(ErrorValue(code, detail))
    ensures Print(ErrorValue(code, detail))
         == [OPEN_BRACE] + (KeyText("code") + ([QUOTE] + Ascii(code) + [QUOTE])
              + ([COMMA] + (KeyText("detail") + ([QUOTE] + Escape(detail) + [QUOTE])))) + [CLOSE_BRACE]
  {
    hide Escape, IsPlain, Chars, Ascii, KeyText, PrintField, Printable;
    var c, d := Field(Chars("code"), Str(Chars(code))), Field(Chars("detail"), Str(detail));
    PlainNames();
    EscapePlain(code);
    CodeBeforeDetail(code, detail);
    assert [c, d][1..] == [d];
    assert PrintFields([d]) == PrintField(d) + [] == PrintField(d);
    PlainField("code", c.value);
    PlainField("detail", d.value);
  }

  /** Associativity only. */
  lemma ErrorAssembly(kc: seq<Byte>, c: seq<Byte>, kd: seq<Byte>, d: seq<Byte>)
    ensures [OPEN_BRACE] + kc + [QUOTE] + c + ([QUOTE] + [COMMA] + kd + [QUOTE]) + d + ([QUOTE] + [CLOSE_BRACE] + [CLOSE_BRACE])
         == [OPEN_BRACE] + (kc + ([QUOTE] + c + [QUOTE]) + ([COMMA] + (kd + ([QUOTE] + d + [QUOTE])))) + [CLOSE_BRACE]
              + [CLOSE_BRACE]
  {
  }

  /** The text of the nested error object. */
  lemma ErrorValueText(code: string, detail: Text)
    requires IsPlain(code)
    ensures Printable(ErrorValue(code, detail))
    ensures Ascii("{\"code\":\"") + Ascii(code) + Ascii("\",\"detail\":\"") + Escape(detail) + Ascii("\"}}")
         == Print(ErrorValue(code, detail)) + [CLOSE_BRACE]
  {
    hide Escape, IsPlain, Ascii, KeyText, Print, Printable, ErrorValue;
    ErrorObjectText(code, detail);
    ErrorTexts();
    ErrorAssembly(KeyText("code"), Ascii(code), KeyText("detail"), Escape(detail));
  }

  lemma CodeBeforeDetail(code: string, detail: Text)
    requires IsAscii(code)
    ensures Printable(ErrorValue(code, detail))
    ensures Printable(Str(Chars(code))) && Printable(Str(detail))
  {
    assert Less(Chars("code"), Chars("detail"));
  }

  lemma ErrRestText(code: string, detail: Text)
    requires IsPlain(code)
    ensures FieldsPrintable(ErrRest(code, detail)) && Printable(ErrorValue(code, detail))
    ensures IsPlain("ok") && IsPlain("error")
    ensures PrintFields(ErrRest(code, detail))
         == KeyText("ok") + Ascii("false") + ([COMMA] + (KeyText("error") + Print(ErrorValue(code, detail))))
  {
    hide Print, Printable, PrintField, Chars, Ascii, IsPlain, ErrorValue, KeyText;
    LiteralValues(PROTOCOL_V);
    PlainNames();
    CodeBeforeDetail(code, detail);
    var ok, e := Field(Chars("ok"), Bool(false)), Field(Chars("error"), ErrorValue(code, detail));
    assert ErrRest(code, detail)[1..] == [e];
    assert PrintFields([e]) == PrintField(e) + [] == PrintField(e);
    PlainField("ok", ok.value);
    PlainField("error", e.value);
  }

  lemma ErrLineIsObject(id: Option<nat>, code: string, detail: Text)
    requires IsPlain(code)
    ensures FieldsPrintable(ErrRest(code, detail))
    ensures ErrLine(id, code, detail) == HeadedText(id, ErrRest(code, detail))
    ensures (id.Some? ==> id.value < 1_000_000_000_000_000) ==>
      var fields := WithId(id, ErrRest(code, detail));
      && FieldsPrintable(fields)
      && ErrLine(id, code, detail) == [OPEN_BRACE] + PrintFields(fields) + [CLOSE_BRACE]
  {
    hide Print, Printable, Digits, Quoted, PrintField, PrintFields, Chars, Ascii, IsPlain, Escape, ErrorValue, KeyText,
      IdText, WithId;
    ErrRestText(code, detail);
    ErrorValueText(code, detail);
    PlainNames();
    PlainKey("id");
    VersionText();
    KeyTexts();
    ErrorTexts();
    ErrAssembly(KeyText("v"), Digits(PROTOCOL_V), Quoted(Chars("id")), IdText(id), KeyText("ok") + Ascii("false"),
                KeyText("error"), Ascii("{\"code\":\""), Ascii(code), Ascii("\",\"detail\":\""), Escape(detail),
                Ascii("\"}}"), Print(ErrorValue(code, detail)));
    if id.Some? ==> id.value < 1_000_000_000_000_000 {
      HeadedIsObject(id, ErrRest(code, detail));
    }
  }

  lemma IdIsPrintable(id: Option<nat>)
    requires id.Some? ==> id.value < 1_000_000_000_000_000
    ensures Printable(IdValue(id)) && Print(IdValue(id)) == IdText(id)
  {
  }

  /** Associativity only: `p` to `t` are the pieces of the error object's text `e` and a brace. */
  lemma ErrAssembly(kv: seq<Byte>, v: seq<Byte>, k: seq<Byte>, i: seq<Byte>, ok: seq<Byte>, ke: seq<Byte>,
                    p: seq<Byte>, q: seq<Byte>, r: seq<Byte>, s: seq<Byte>, t: seq<Byte>, e: seq<Byte>)
    requires p + q + r + s + t == e + [CLOSE_BRACE]
    ensures [OPEN_BRACE] + kv + v + ([COMMA] + (k + [COLON])) + i + ([COMMA] + ok) + ([COMMA] + ke) + p + q + r + s + t
         == [OPEN_BRACE] + (kv + v + ([COMMA] + (k + ([COLON] + (i + ([COMMA] + (ok + ([COMMA] + (ke + e))
              + [CLOSE_BRACE])))))))
  {
    var head := [OPEN_BRACE] + kv + v + ([COMMA] + (k + [COLON])) + i + ([COMMA] + ok) + ([COMMA] + ke);
    assert head + p + q + r + s + t == head + (p + q + r + s + t);
    assert head + (e + [CLOSE_BRACE]) == head + e + [CLOSE_BRACE];
    OkAssembly(kv, v, k, i, ok, [COMMA] + (ke + e));
    assert head + e + [CLOSE_BRACE]
      == [OPEN_BRACE] + kv + v + ([COMMA] + (k + [COLON])) + i + ([COMMA] + ok) + ([COMMA] + (ke + e)) + [CLOSE_BRACE];
  }

  lemma NoExtras()
    ensures Serialized([]) == [] && ExtrasText([]) == []
  {
  }

  /** Associativity only. */
  lemma EventAssembly(kv: seq<Byte>, v: seq<Byte>, a: seq<Byte>, kp: seq<Byte>, p: seq<Byte>)
    ensures [OPEN_BRACE] + kv + v + ([COMMA] + a) + ([COMMA] + kp) + p + [CLOSE_BRACE]
         == [OPEN_BRACE] + (kv + v + ([COMMA] + (a + ([COMMA] + (kp + p))))) + [CLOSE_BRACE]
  {
  }

  lemma EventLineIsObject(payload: Json)
    requires Printable(payload)
    ensures FieldsPrintable(EventFields(payload))
    ensures EventLine(Print(payload)) == [OPEN_BRACE] + PrintFields(EventFields(payload)) + [CLOSE_BRACE]
  {
    hide Print, Printable, Digits, PrintField, PrintFields, Chars, Ascii, IsPlain, KeyText;
    LiteralValues(PROTOCOL_V);
    PlainNames();
    var v, a, p := Version(), Field(Chars("async"), Bool(true)), Field(Chars("payload"), payload);
    assert [p] + [] == [p] && EventFields(payload) == [v] + ([a] + [p]);
    PrintFieldsCons(p, []);
    PrintFieldsCons(a, [p]);
    PrintFieldsCons(v, [a] + [p]);
    VersionText();
    PlainField("async", a.value);
    PlainField("payload", p.value);
    KeyTexts();
    EventTexts();
    EventAssembly(KeyText("v"), Digits(PROTOCOL_V), KeyText("async") + Ascii("true"), KeyText("payload"), Print(payload));
  }
}
