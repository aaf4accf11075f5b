/** JSON values and their printed form: the `Json` type, `escape` and `Display`. Text is printed
    straight to the UTF-8 bytes of the Rust `String`. */
module Json {
  import opened Basics
  import opened Utf8

  /** An `f64`. `Whole` is a finite one with no fraction; `Other` stands for the number named by a
      numeric text that is not a plain integer, without computing its value. */
  datatype Number = Whole(n: int) | Infinite(negative: bool) | Other(text: seq<Byte>)

  /** An object is a `BTreeMap`: its fields are kept strictly ascending by key. */
  datatype Json =
    | Null
    | Bool(b: bool)
    | Num(number: Number)
    | Str(s: Text)
    | Arr(items: seq<Json>)
    | Obj(fields: seq<Field>)

  datatype Field = Field(key: Text, value: Json)

  const QUOTE: Byte := 34
  const COMMA: Byte := 44
  const MINUS: Byte := 45
  const COLON: Byte := 58
  const OPEN_BRACKET: Byte := 91
  const BACKSLASH: Byte := 92
  const CLOSE_BRACKET: Byte := 93
  const OPEN_BRACE: Byte := 123
  const CLOSE_BRACE: Byte := 125

  /** The bytes of an ASCII literal. */
  function Ascii(s: string): (b: seq<Byte>)
    requires forall k :: 0 <= k < |s| ==> s[k] < 128 as char
    ensures |b| == |s|
  {
    seq(|s|, k requires 0 <= k < |s| => s[k] as nat)
  }

  // ---- the ordered map behind objects ----

  /** The order of keys: lexicographic by scalar, which is Rust's order on `String`. */
  predicate Less(a: Text, b: Text) {
    b != [] && (a == [] || a[0] < b[0] || (a[0] == b[0] && Less(a[1..], b[1..])))
  }

  predicate Sorted(fields: seq<Field>) {
    forall i, j :: 0 <= i < j < |fields| ==> Less(fields[i].key, fields[j].key)
  }

  /** `BTreeMap::insert`: a repeated key keeps its place and takes the new value. */
  function Insert(fields: seq<Field>, key: Text, value: Json): (r: seq<Field>) {
    if fields == [] then [Field(key, value)]
    else if fields[0].key == key then [Field(key, value)] + fields[1..]
    else if Less(key, fields[0].key) then [Field(key, value)] + fields
    else [fields[0]] + Insert(fields[1..], key, value)
  }

  /** `Json::get` on the fields of an object. */
  function Lookup(fields: seq<Field>, key: Text): Option<Json> {
    if fields == [] then None
    else if fields[0].key == key then Some(fields[0].value)
    else Lookup(fields[1..], key)
  }

  function Get(j: Json, key: Text): Option<Json> {
    if j.Obj? then Lookup(j.fields, key) else None
  }

  lemma {:induction false} LessIsIrreflexive(a: Text)
    ensures !Less(a, a)
  {
    if a != [] {
      LessIsIrreflexive(a[1..]);
    }
  }

  lemma {:induction false} LessIsTransitive(a: Text, b: Text, c: Text)
    requires Less(a, b) && Less(b, c)
    ensures Less(a, c)
  {
    if a != [] && a[0] == b[0] == c[0] {
      LessIsTransitive(a[1..], b[1..], c[1..]);
    }
  }

  lemma {:induction false} LessIsTotal(a: Text, b: Text)
    ensures a == b || Less(a, b) || Less(b, a)
  {
    if a != [] && b != [] && a[0] == b[0] {
      LessIsTotal(a[1..], b[1..]);
      if a[1..] == b[1..] {
        assert a == [a[0]] + a[1..] && b == [b[0]] + b[1..];
      }
    }
  }

  /** Inserting into a map is a map update: the key gets the value, every other key keeps its own. */
  lemma {:induction false} InsertThenLookup(fields: seq<Field>, key: Text, value: Json, k: Text)
    ensures Lookup(Insert(fields, key, value), k) == if k == key then Some(value) else Lookup(fields, k)
  {
    if fields != [] && fields[0].key != key && !Less(key, fields[0].key) {
      InsertThenLookup(fields[1..], key, value, k);
    }
  }

  lemma {:induction false} InsertKeys(fields: seq<Field>, key: Text, value: Json, f: Field)
    requires f in Insert(fields, key, value)
    ensures f.key == key || f in fields
  {
    if fields != [] && fields[0].key != key && !Less(key, fields[0].key) && f != fields[0] {
      InsertKeys(fields[1..], key, value, f);
    }
  }

  /** Inserting keeps the keys strictly ascending. */
  lemma {:induction false} InsertKeepsSorted(fields: seq<Field>, key: Text, value: Json)
    requires Sorted(fields)
    ensures Sorted(Insert(fields, key, value))
  {
    if fields != [] {
      var rest := fields[1..];
      if fields[0].key == key {
      } else if Less(key, fields[0].key) {
        forall j | 0 < j < |fields| ensures Less(key, fields[j].key) {
          LessIsTransitive(key, fields[0].key, fields[j].key);
        }
      } else {
        LessIsTotal(key, fields[0].key);
        InsertKeepsSorted(rest, key, value);
        var r := Insert(rest, key, value);
        forall j | 0 <= j < |r| ensures Less(fields[0].key, r[j].key) {
          InsertKeys(rest, key, value, r[j]);
        }
      }
    }
  }

  /** A key above all others goes to the end. */
  lemma {:induction false} InsertAtEnd(fields: seq<Field>, key: Text, value: Json)
    requires forall i :: 0 <= i < |fields| ==> Less(fields[i].key, key)
    ensures Insert(fields, key, value) == fields + [Field(key, value)]
  {
    hide Less;
    if fields != [] {
      LessIsIrreflexive(key);
      if Less(key, fields[0].key) {
        LessIsTransitive(key, fields[0].key, key);
      }
      InsertAtEnd(fields[1..], key, value);
      assert fields == [fields[0]] + fields[1..];
    }
  }

  // ---- printing ----

  function HexDigit(d: nat): Byte
    requires d < 16
  {
    if d < 10 then 48 + d else 87 + d
  }

  /** What `escape` pushes for one character. */
  function EscapeScalar(c: Scalar): (e: seq<Byte>)
    ensures e != []
  {
    if c == 34 then [BACKSLASH, QUOTE]
    else if c == 92 then [BACKSLASH, BACKSLASH]
    else if c == 10 then [BACKSLASH, 110]
    else if c == 13 then [BACKSLASH, 114]
    else if c == 9 then [BACKSLASH, 116]
    else if c < 0x20 then [BACKSLASH, 117, 48, 48, HexDigit(c / 16), HexDigit(c % 16)]
    else EncodeScalar(c)
  }

  function Escape(s: Text): seq<Byte> {
    if s == [] then [] else EscapeScalar(s[0]) + Escape(s[1..])
  }

  /** The loop of `escape`. */
  method EscapeText(s: Text) returns (out: seq<Byte>)
    ensures out == Escape(s)
  {
    hide Escape, EscapeScalar;
    out := [];
    NothingEscaped(s);
    for k := 0 to |s|
      invariant Escape(s) == out + Escape(s[k..])
    {
      EscapeFrom(s, k);
      assert out + (EscapeScalar(s[k]) + Escape(s[k + 1..])) == out + EscapeScalar(s[k]) + Escape(s[k + 1..]);
      out := out + EscapeScalar(s[k]);
    }
  }

  lemma NothingEscaped(s: Text)
    ensures Escape(s) == [] + Escape(s[0..]) && Escape(s[|s|..]) == []
  {
    assert s[0..] == s;
  }

  lemma EscapeFrom(s: Text, k: nat)
    requires k < |s|
    ensures Escape(s[k..]) == EscapeScalar(s[k]) + Escape(s[k + 1..])
  {
    hide EscapeScalar;
    assert s[k..][1..] == s[k + 1..];
  }

  /** A control character without a letter of its own is written by four lower-case hexadecimal digits. */
  lemma HexEscapes(c: Scalar)
    requires c < 0x20 && c != 9 && c != 10 && c != 13
    ensures EscapeScalar(c) == [92, 117, 48, 48, if c < 16 then 48 else 49, "0123456789abcdef"[c % 16] as nat]
  {
  }

  /** Text without quotes, backslashes and control characters is left as it is. */
  lemma {:induction false} EscapeKeeps(s: Text)
    requires forall k :: 0 <= k < |s| ==> s[k] >= 0x20 && s[k] != 34 && s[k] != 92
    ensures Escape(s) == Encode(s)
  {
    hide EncodeScalar;
    if s != [] {
      EscapeKeeps(s[1..]);
    }
  }

  function Quoted(s: Text): seq<Byte> {
    [QUOTE] + Escape(s) + [QUOTE]
  }

  function Digits(n: nat): (d: seq<Byte>)
    ensures d != []
  {
    if n < 10 then [48 + n] else Digits(n / 10) + [48 + n % 10]
  }

  function Decimal(n: int): seq<Byte> {
    if n < 0 then [MINUS] + Digits(-n) else Digits(n)
  }

  /** Values the model prints: whole numbers below 10^15 in magnitude, which take the printer's
      integer branch, and objects whose fields are in map order. */
  predicate Printable(j: Json)
    decreases j
  {
    match j
    case Num(Whole(n)) => -1_000_000_000_000_000 < n < 1_000_000_000_000_000
    case Num(_) => false
    case Arr(items) => forall k :: 0 <= k < |items| ==> Printable(items[k])
    case Obj(fields) => Sorted(fields) && forall k :: 0 <= k < |fields| ==> Printable(fields[k].value)
    case _ => true
  }

  /** `Display for Json`. */
  function Print(j: Json): (t: seq<Byte>)
    requires Printable(j)
    decreases j, 1
  {
    match j
    case Null => Ascii("null")
    case Bool(b) => if b then Ascii("true") else Ascii("false")
    case Num(number) => Decimal(number.n)
    case Str(s) => Quoted(s)
    case Arr(items) => [OPEN_BRACKET] + PrintItems(items) + [CLOSE_BRACKET]
    case Obj(fields) => [OPEN_BRACE] + PrintFields(fields) + [CLOSE_BRACE]
  }

  function PrintItems(items: seq<Json>): seq<Byte>
    requires forall k :: 0 <= k < |items| ==> Printable(items[k])
    decreases items, 0
  {
    if items == [] then []
    else Print(items[0]) + (if |items| > 1 then [COMMA] + PrintItems(items[1..]) else [])
  }

  function PrintField(f: Field): seq<Byte>
    requires Printable(f.value)
    decreases f, 0
  {
    Quoted(f.key) + [COLON] + Print(f.value)
  }

  function PrintFields(fields: seq<Field>): seq<Byte>
    requires forall k :: 0 <= k < |fields| ==> Printable(fields[k].value)
    decreases fields, 0
  {
    if fields == [] then []
    else PrintField(fields[0]) + (if |fields| > 1 then [COMMA] + PrintFields(fields[1..]) else [])
  }
}
