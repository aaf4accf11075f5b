/** Which texts denote which JSON values, said by writing them: a document with every choice a writer has
    (white space, escapes and the case of their digits, forms of numbers, order and repetition of keys),
    the bytes it is written as, and the value it means. Nothing here reads a text. */
module JsonTexts {
  import opened Doubles
  import opened Basics
  import opened Utf8
  import opened Json

  /** White space between tokens. */
  predicate Blank(w: seq<Byte>) {
    forall k :: 0 <= k < |w| ==> w[k] == 32 || w[k] == 9 || w[k] == 10 || w[k] == 13
  }

  // ---- strings ----

  /** A hexadecimal digit, in either case. */
  datatype HexDigit = HexDigit(value: nat, upper: bool)

  /** One character of a string as written. The digits of a Unicode escape are four, or three behind a
      plus sign. */
  datatype Piece = Plain(c: Scalar) | Short(letter: Byte) | Unicode(plus: bool, digits: seq<HexDigit>)

  /** The letters behind a backslash and what they stand for. */
  const LETTERS: map<nat, nat> := map[34 := 34, 92 := 92, 47 := 47, 98 := 8, 102 := 12, 110 := 10, 114 := 13, 116 := 9]

  predicate PieceOk(p: Piece) {
    match p
    case Plain(c) => c >= 0x20 && c != 34 && c != 92
    case Short(letter) => letter in LETTERS
    case Unicode(plus, digits) => |digits| == (if plus then 3 else 4) && forall k :: 0 <= k < |digits| ==> digits[k].value < 16
  }

  function HexByte(d: HexDigit): Byte
    requires d.value < 16
  {
    if d.value < 10 then 48 + d.value else (if d.upper then 65 else 97) + (d.value - 10)
  }

  function HexText(digits: seq<HexDigit>): (t: seq<Byte>)
    requires forall k :: 0 <= k < |digits| ==> digits[k].value < 16
    ensures |t| == |digits|
  {
    seq(|digits|, k requires 0 <= k < |digits| => HexByte(digits[k]))
  }

  /** The number written by hexadecimal digits, the most significant first. */
  function HexNumber(digits: seq<HexDigit>): nat {
    if digits == [] then 0 else digits[0].value * Power(16, |digits| - 1) + HexNumber(digits[1..])
  }

  function Power(base: nat, n: nat): nat {
    if n == 0 then 1 else base * Power(base, n - 1)
  }

  function PieceText(p: Piece): (t: seq<Byte>)
    requires PieceOk(p)
    ensures t != []
  {
    match p
    case Plain(c) => EncodeScalar(c)
    case Short(letter) => [92, letter]
    case Unicode(plus, digits) => [92, 117] + (if plus then [43] else []) + HexText(digits)
  }

  /** A Unicode escape that names no scalar stands for the replacement character. */
  function PieceMeaning(p: Piece): Scalar
    requires PieceOk(p)
  {
    match p
    case Plain(c) => c
    case Short(letter) => LETTERS[letter]
    case Unicode(_, digits) =>
      var n := HexNumber(digits);
      if n < 0xD800 || 0xE000 <= n < 0x110000 then n else 0xFFFD
  }

  predicate PiecesOk(ps: seq<Piece>) {
    forall k :: 0 <= k < |ps| ==> PieceOk(ps[k])
  }

  function PiecesText(ps: seq<Piece>): seq<Byte>
    requires PiecesOk(ps)
  {
    if ps == [] then [] else PieceText(ps[0]) + PiecesText(ps[1..])
  }

  function PiecesMeaning(ps: seq<Piece>): (s: Text)
    requires PiecesOk(ps)
    ensures |s| == |ps|
  {
    seq(|ps|, k requires 0 <= k < |ps| => PieceMeaning(ps[k]))
  }

  // ---- numbers ----

  datatype Exponent = Exponent(upper: bool, sign: seq<Byte>, digits: seq<nat>)

  /** A numeral: digits before the point, digits behind it if there is one, and an exponent if there is
      one. */
  datatype Numeral = Numeral(negative: bool, whole: seq<nat>, fraction: Option<seq<nat>>, exponent: Option<Exponent>)

  predicate DigitsOk(ds: seq<nat>) {
    forall k :: 0 <= k < |ds| ==> ds[k] < 10
  }

  predicate ExponentOk(e: Exponent) {
    DigitsOk(e.digits) && e.digits != [] && (e.sign == [] || e.sign == [43] || e.sign == [45])
  }

  predicate NumeralOk(n: Numeral) {
    && DigitsOk(n.whole) && (n.fraction.Some? ==> DigitsOk(n.fraction.value))
    && (n.whole != [] || (n.negative && n.fraction.Some? && n.fraction.value != []))
    && (n.exponent.Some? ==> ExponentOk(n.exponent.value))
  }

  function DigitsText(ds: seq<nat>): (t: seq<Byte>)
    requires DigitsOk(ds)
    ensures |t| == |ds|
  {
    seq(|ds|, k requires 0 <= k < |ds| => 48 + ds[k])
  }

  function FractionText(f: Option<seq<nat>>): seq<Byte>
    requires f.Some? ==> DigitsOk(f.value)
  {
    match f
    case None => []
    case Some(ds) => [46] + DigitsText(ds)
  }

  function ExponentText(e: Option<Exponent>): seq<Byte>
    requires e.Some? ==> ExponentOk(e.value)
  {
    match e
    case None => []
    case Some(x) => [if x.upper then 69 else 101] + (x.sign + DigitsText(x.digits))
  }

  function NumeralText(n: Numeral): seq<Byte>
    requires NumeralOk(n)
  {
    (if n.negative then [45] else []) + (DigitsText(n.whole) + (FractionText(n.fraction) + ExponentText(n.exponent)))
  }

  /** The number written by decimal digits, the most significant first. */
  function Natural(ds: seq<nat>): nat {
    if ds == [] then 0 else ds[0] * Power(10, |ds| - 1) + Natural(ds[1..])
  }

  /** A plain integer means the double nearest to it, or an infinity; other numerals are kept as text. */
  function NumeralMeaning(n: Numeral): Number
    requires NumeralOk(n)
  {
    if n.fraction.Some? || n.exponent.Some? then Other(NumeralText(n))
    else
      var v := Natural(n.whole);
      var r: int := Rounded(v);
      if Overflows(v) then Infinite(n.negative) else Whole(if n.negative then -r else r)
  }

  // ---- documents ----

  datatype Doc =
    | Word(value: Json)
    | Numb(numeral: Numeral)
    | Quote(pieces: seq<Piece>)
    | EmptyList(blank: seq<Byte>)
    | List(items: seq<Item>)
    | EmptyMap(blank: seq<Byte>)
    | Map(members: seq<Member>)

  /** An item with the white space around it. */
  datatype Item = Item(before: seq<Byte>, doc: Doc, after: seq<Byte>)

  /** A member with the white space around its key and its value. */
  datatype Member = Member(before: seq<Byte>, key: seq<Piece>, colonBefore: seq<Byte>, colonAfter: seq<Byte>,
                           doc: Doc, after: seq<Byte>)

  predicate DocOk(d: Doc)
    decreases d
  {
    match d
    case Word(v) => v.Null? || v.Bool?
    case Numb(n) => NumeralOk(n)
    case Quote(ps) => PiecesOk(ps)
    case EmptyList(w) => Blank(w)
    case List(items) => items != [] && forall k :: 0 <= k < |items| ==> ItemOk(items[k])
    case EmptyMap(w) => Blank(w)
    case Map(members) => members != [] && forall k :: 0 <= k < |members| ==> MemberOk(members[k])
  }

  predicate ItemOk(x: Item)
    decreases x
  {
    Blank(x.before) && DocOk(x.doc) && Blank(x.after)
  }

  predicate MemberOk(x: Member)
    decreases x
  {
    Blank(x.before) && PiecesOk(x.key) && Blank(x.colonBefore) && Blank(x.colonAfter) && DocOk(x.doc) && Blank(x.after)
  }

  predicate ItemsOk(items: seq<Item>) {
    forall k :: 0 <= k < |items| ==> ItemOk(items[k])
  }

  predicate MembersOk(members: seq<Member>) {
    forall k :: 0 <= k < |members| ==> MemberOk(members[k])
  }

  /** The bytes a document is written as. */
  function Render(d: Doc): (t: seq<Byte>)
    requires DocOk(d)
    decreases d, 1
  {
    match d
    case Word(Null) => Ascii("null")
    case Word(Bool(b)) => if b then Ascii("true") else Ascii("false")
    case Word(_) => []
    case Numb(n) => NumeralText(n)
    case Quote(ps) => QuoteText(ps)
    case EmptyList(w) => [91] + (w + [93])
    case List(items) => [91] + (RenderItems(items) + [93])
    case EmptyMap(w) => [123] + (w + [125])
    case Map(members) => [123] + (RenderMembers(members) + [125])
  }

  function QuoteText(ps: seq<Piece>): seq<Byte>
    requires PiecesOk(ps)
  {
    [34] + (PiecesText(ps) + [34])
  }

  function RenderItem(x: Item): seq<Byte>
    requires ItemOk(x)
    decreases x, 0
  {
    x.before + (Render(x.doc) + x.after)
  }

  function RenderItems(items: seq<Item>): seq<Byte>
    requires forall k :: 0 <= k < |items| ==> ItemOk(items[k])
    decreases items, 0
  {
    if items == [] then []
    else RenderItem(items[0]) + (if |items| > 1 then [44] + RenderItems(items[1..]) else [])
  }

  function RenderMember(x: Member): seq<Byte>
    requires MemberOk(x)
    decreases x, 0
  {
    x.before + (QuoteText(x.key) + (x.colonBefore + ([58] + (x.colonAfter + (Render(x.doc) + x.after)))))
  }

  function RenderMembers(members: seq<Member>): seq<Byte>
    requires forall k :: 0 <= k < |members| ==> MemberOk(members[k])
    decreases members, 0
  {
    if members == [] then []
    else RenderMember(members[0]) + (if |members| > 1 then [44] + RenderMembers(members[1..]) else [])
  }

  /** The value it means. */
  function Meaning(d: Doc): Json
    requires DocOk(d)
    decreases d, 1
  {
    match d
    case Word(v) => v
    case Numb(n) => Num(NumeralMeaning(n))
    case Quote(ps) => Str(PiecesMeaning(ps))
    case EmptyList(_) => Arr([])
    case List(items) => Arr(ItemsMeaning(items))
    case EmptyMap(_) => Obj([])
    case Map(members) => Obj(MembersMeaning([], members))
  }

  function ItemsMeaning(items: seq<Item>): seq<Json>
    requires forall k :: 0 <= k < |items| ==> ItemOk(items[k])
    decreases items, 0
  {
    if items == [] then []
    else
      assert ItemOk(items[0]);
      [Meaning(items[0].doc)] + ItemsMeaning(items[1..])
  }

  /** The members put into the map `m` one after the other. */
  function MembersMeaning(m: seq<Field>, members: seq<Member>): seq<Field>
    requires forall k :: 0 <= k < |members| ==> MemberOk(members[k])
    decreases members, 0
  {
    if members == [] then m
    else
      assert MemberOk(members[0]);
      MembersMeaning(Insert(m, PiecesMeaning(members[0].key), Meaning(members[0].doc)), members[1..])
  }

  /** Whether a document at nesting level `depth` stays within sixteen levels below the outermost. */
  predicate Within(d: Doc, depth: nat)
    decreases d
  {
    && depth <= 16
    && match d
       case List(items) => forall k :: 0 <= k < |items| ==> Within(items[k].doc, depth + 1)
       case Map(members) => forall k :: 0 <= k < |members| ==> Within(members[k].doc, depth + 1)
       case _ => true
  }

  predicate ItemsWithin(items: seq<Item>, depth: nat) {
    forall k :: 0 <= k < |items| ==> Within(items[k].doc, depth)
  }

  predicate MembersWithin(members: seq<Member>, depth: nat) {
    forall k :: 0 <= k < |members| ==> Within(members[k].doc, depth)
  }
}
