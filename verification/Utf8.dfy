/** Unicode scalar values and their UTF-8 encoding, as Rust's `char` and `str` define them. */
module Utf8 {
  import opened Basics

  type Scalar = c: nat | c < 0xD800 || 0xE000 <= c < 0x110000

  type Text = seq<Scalar>

  function EncodeScalar(c: Scalar): (e: seq<Byte>)
    ensures 1 <= |e| <= 4
  {
    if c < 0x80 then [c]
    else if c < 0x800 then [0xC0 + c / 64, 0x80 + c % 64]
    else if c < 0x10000 then [0xE0 + c / 64 / 64, 0x80 + c / 64 % 64, 0x80 + c % 64]
    else [0xF0 + c / 64 / 64 / 64, 0x80 + c / 64 / 64 % 64, 0x80 + c / 64 % 64, 0x80 + c % 64]
  }

  /** The form that section 3 of RFC 3629 prescribes: the lead byte tells the length and holds the
      highest bits, each further byte holds six more, and no shorter form would do. */
  lemma EncodedForm(c: Scalar)
    ensures var e := EncodeScalar(c);
      && (forall i :: 1 <= i < |e| ==> 0x80 <= e[i] < 0xC0)
      && (|e| == 1 ==> e[0] < 0x80 && c == e[0])
      && (|e| == 2 ==> 0xC0 <= e[0] < 0xE0 && c == Six(e[0] - 0xC0, e[1]) && c >= 0x80)
      && (|e| == 3 ==> 0xE0 <= e[0] < 0xF0 && c == Six(Six(e[0] - 0xE0, e[1]), e[2]) && c >= 0x800)
      && (|e| == 4 ==> 0xF0 <= e[0] < 0xF8 && c == Six(Six(Six(e[0] - 0xF0, e[1]), e[2]), e[3]) && c >= 0x10000)
  {
  }

  function Six(high: nat, b: Byte): int {
    high * 64 + (b as int - 0x80)
  }

  function Encode(s: Text): seq<Byte> {
    if s == [] then [] else EncodeScalar(s[0]) + Encode(s[1..])
  }

  predicate Continuation(b: Byte) {
    0x80 <= b < 0xC0
  }

  /** A code point from its leading bits and the six bits of each continuation byte. */
  function Join(lead: nat, b1: nat): int {
    lead * 64 + (b1 - 0x80)
  }

  function IfScalar(v: int, least: nat, n: nat): Option<(Scalar, nat)>
    requires least >= 0x80
  {
    if least <= v < 0xD800 || (least <= v && 0xE000 <= v < 0x110000) then Some((v, n)) else None
  }

  /** The first scalar of `b` and its length, or nothing when `b` does not start with a well-formed
      sequence: overlong forms, surrogates and values above the last plane are refused. */
  function DecodeOne(b: seq<Byte>): (r: Option<(Scalar, nat)>)
    ensures r.Some? ==> 1 <= r.value.1 <= |b| && r.value.1 <= 4
  {
    if |b| == 0 then None
    else if b[0] < 0x80 then Some((b[0], 1))
    else if 0xC0 <= b[0] < 0xE0 && |b| >= 2 && Continuation(b[1]) then
      IfScalar(Join(b[0] - 0xC0, b[1]), 0x80, 2)
    else if 0xE0 <= b[0] < 0xF0 && |b| >= 3 && Continuation(b[1]) && Continuation(b[2]) then
      IfScalar(Join(Join(b[0] - 0xE0, b[1]), b[2]), 0x800, 3)
    else if 0xF0 <= b[0] < 0xF8 && |b| >= 4 && Continuation(b[1]) && Continuation(b[2]) && Continuation(b[3]) then
      IfScalar(Join(Join(Join(b[0] - 0xF0, b[1]), b[2]), b[3]), 0x10000, 4)
    else None
  }

  /** `std::str::from_utf8`. */
  function FromUtf8(b: seq<Byte>): Option<Text> {
    if b == [] then Some([])
    else match DecodeOne(b)
      case None => None
      case Some((c, n)) =>
        match FromUtf8(b[n..])
        case None => None
        case Some(rest) => Some([c] + rest)
  }

  lemma JoinSplits(lead: nat, b1: nat)
    requires 0x80 <= b1 < 0xC0
    ensures Join(lead, b1) / 64 == lead && Join(lead, b1) % 64 + 0x80 == b1
  {
  }

  lemma DecodeEncoded(c: Scalar, rest: seq<Byte>)
    ensures DecodeOne(EncodeScalar(c) + rest) == Some((c, |EncodeScalar(c)|))
  {
    hide DecodeOne, EncodeScalar;
    if c < 0x800 {
      DecodeShort(c, rest);
    } else if c < 0x10000 {
      DecodeThree(c, rest);
    } else {
      DecodeFour(c, rest);
    }
  }

  lemma JoinBack(c: nat)
    ensures Join(c / 64, 0x80 + c % 64) == c
  {
  }

  lemma DecodeShort(c: Scalar, rest: seq<Byte>)
    requires c < 0x800
    ensures DecodeOne(EncodeScalar(c) + rest) == Some((c, |EncodeScalar(c)|))
  {
    hide Join;
    JoinBack(c);
  }

  lemma DecodeThree(c: Scalar, rest: seq<Byte>)
    requires 0x800 <= c < 0x10000
    ensures DecodeOne(EncodeScalar(c) + rest) == Some((c, |EncodeScalar(c)|))
  {
    hide Join;
    JoinBack(c);
    JoinBack(c / 64);
  }

  lemma DecodeFour(c: Scalar, rest: seq<Byte>)
    requires 0x10000 <= c
    ensures DecodeOne(EncodeScalar(c) + rest) == Some((c, |EncodeScalar(c)|))
  {
    hide Join;
    JoinBack(c);
    JoinBack(c / 64);
    JoinBack(c / 64 / 64);
  }

  /** Decoding undoes encoding. */
  lemma {:induction false} EncodeRoundTrip(s: Text)
    ensures FromUtf8(Encode(s)) == Some(s)
  {
    hide DecodeOne, EncodeScalar;
    if s != [] {
      var e := EncodeScalar(s[0]);
      DecodeEncoded(s[0], Encode(s[1..]));
      assert (e + Encode(s[1..]))[|e|..] == Encode(s[1..]);
      EncodeRoundTrip(s[1..]);
      assert [s[0]] + s[1..] == s;
    }
  }

  /** Only the encoding of a scalar decodes to it: there is one well-formed form. */
  lemma DecodedIsEncoding(b: seq<Byte>)
    requires DecodeOne(b).Some?
    ensures b[..DecodeOne(b).value.1] == EncodeScalar(DecodeOne(b).value.0)
  {
    hide Join;
    if b[0] < 0x80 {
    } else if b[0] < 0xE0 {
      JoinSplits(b[0] - 0xC0, b[1]);
    } else if b[0] < 0xF0 {
      JoinSplits(b[0] - 0xE0, b[1]);
      JoinSplits(Join(b[0] - 0xE0, b[1]), b[2]);
    } else {
      JoinSplits(b[0] - 0xF0, b[1]);
      JoinSplits(Join(b[0] - 0xF0, b[1]), b[2]);
      JoinSplits(Join(Join(b[0] - 0xF0, b[1]), b[2]), b[3]);
    }
  }

  /** Encoding undoes decoding. */
  lemma {:induction false} DecodeRoundTrip(b: seq<Byte>)
    requires FromUtf8(b).Some?
    ensures Encode(FromUtf8(b).value) == b
    decreases |b|
  {
    hide DecodeOne, EncodeScalar;
    if b != [] {
      var (c, n) := DecodeOne(b).value;
      DecodedIsEncoding(b);
      DecodeRoundTrip(b[n..]);
      var s := FromUtf8(b).value;
      assert s[1..] == FromUtf8(b[n..]).value;
      assert b == b[..n] + b[n..];
    }
  }

  /** Appending an ASCII byte to a byte string does not change whether it is well formed. */
  lemma {:induction false} AppendAscii(b: seq<Byte>, a: Byte)
    requires a < 0x80
    ensures FromUtf8(b + [a]).Some? <==> FromUtf8(b).Some?
    decreases |b|
  {
    if b == [] {
      assert b + [a] == [a];
      assert [a][1..] == [];
    } else {
      AppendKeepsFirst(b, a);
      if DecodeOne(b).Some? {
        var n := DecodeOne(b).value.1;
        assert (b + [a])[n..] == b[n..] + [a];
        AppendAscii(b[n..], a);
      }
    }
  }

  lemma AppendKeepsFirst(b: seq<Byte>, a: Byte)
    requires a < 0x80 && b != []
    ensures DecodeOne(b + [a]) == DecodeOne(b)
  {
  }
}
