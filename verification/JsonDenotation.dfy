/** The grammar accepts exactly the texts that denote a value, and yields that value: every document is
    read as what it means, and whatever is read was written as some document. */
module JsonDenotation {
  import opened Doubles
  import opened Basics
  import opened Utf8
  import opened Json
  import opened JsonGrammar
  import opened JsonTexts
  import opened JsonRoundTrip

  // ---- digits ----

  lemma {:induction false} DigitsTextValue(ds: seq<nat>)
    requires DigitsOk(ds)
    ensures AllDigits(DigitsText(ds)) && DigitsValue(DigitsText(ds)) == Natural(ds)
    decreases |ds|
  {
    if ds != [] {
      var n := |ds| - 1;
      DigitsTextValue(ds[..n]);
      NaturalSnoc(ds[..n], ds[n]);
      assert ds == ds[..n] + [ds[n]];
      assert DigitsText(ds)[..n] == DigitsText(ds[..n]);
    }
  }

  lemma {:induction false} NaturalSnoc(ds: seq<nat>, d: nat)
    ensures Natural(ds + [d]) == Natural(ds) * 10 + d
    decreases |ds|
  {
    if ds == [] {
      assert [] + [d] == [d] && [d][1..] == [];
      assert Power(10, 0) == 1;
    } else {
      assert (ds + [d])[1..] == ds[1..] + [d];
      NaturalSnoc(ds[1..], d);
      TimesTen(ds[0], Power(10, |ds| - 1), Natural(ds[1..]));
    }
  }

  lemma TimesTen(a: nat, p: nat, rest: nat)
    ensures a * (10 * p) + rest * 10 == (a * p + rest) * 10
  {
  }

  lemma {:induction false} HexTextValue(ds: seq<HexDigit>)
    requires forall k :: 0 <= k < |ds| ==> ds[k].value < 16
    ensures HexDigits(HexText(ds)) == Some(HexNumber(ds))
    decreases |ds|
  {
    if ds != [] {
      var n := |ds| - 1;
      HexTextValue(ds[..n]);
      HexNumberSnoc(ds[..n], ds[n]);
      assert ds == ds[..n] + [ds[n]];
      assert HexText(ds)[..n] == HexText(ds[..n]);
      HexByteValue(ds[n]);
    }
  }

  lemma HexByteValue(d: HexDigit)
    requires d.value < 16
    ensures HexValue(HexByte(d)) == Some(d.value) && HexByte(d) != 43 && HexByte(d) < 0x80
  {
  }

  lemma {:induction false} HexNumberSnoc(ds: seq<HexDigit>, d: HexDigit)
    ensures HexNumber(ds + [d]) == HexNumber(ds) * 16 + d.value
    decreases |ds|
  {
    if ds == [] {
      assert [] + [d] == [d] && [d][1..] == [];
      assert Power(16, 0) == 1;
    } else {
      assert (ds + [d])[1..] == ds[1..] + [d];
      HexNumberSnoc(ds[1..], d);
      TimesSixteen(ds[0].value, Power(16, |ds| - 1), HexNumber(ds[1..]));
    }
  }

  lemma TimesSixteen(a: nat, p: nat, rest: nat)
    ensures a * (16 * p) + rest * 16 == (a * p + rest) * 16
  {
  }

  // ---- white space ----

  lemma {:induction false} SkipBlank(b: seq<Byte>, i: nat, w: seq<Byte>)
    requires At(b, i, w) && Blank(w) && (i + |w| == |b| || !IsSpace(b[i + |w|]))
    ensures SkipSpace(b, i) == i + |w|
    decreases |w|
  {
    if w != [] {
      AtByte(b, i, w, 0);
      assert w == w[..1] + w[1..];
      AtConcat(b, i, w[..1], w[1..]);
      SkipBlank(b, i + 1, w[1..]);
    }
  }

  lemma {:induction false} SkippedIsBlank(b: seq<Byte>, i: nat)
    requires i <= |b|
    ensures Blank(b[i..SkipSpace(b, i)])
    ensures SkipSpace(b, i) == |b| || !IsSpace(b[SkipSpace(b, i)])
    ensures SkipSpace(b, SkipSpace(b, i)) == SkipSpace(b, i)
    decreases |b| - i
  {
    if i < |b| && IsSpace(b[i]) {
      SkippedIsBlank(b, i + 1);
      assert b[i..SkipSpace(b, i)] == [b[i]] + b[i + 1..SkipSpace(b, i)];
    }
  }

  // ---- documents are read as what they mean: strings ----

  lemma ShortComplete(b: seq<Byte>, i: nat, letter: Byte)
    requires letter in LETTERS && At(b, i, [92, letter])
    ensures i + 1 < |b| && EscapeAt(b, i + 1) == Ok(LETTERS[letter], i + 2)
  {
    AtByte(b, i, [92, letter], 1);
  }

  lemma UnicodeComplete(b: seq<Byte>, i: nat, plus: bool, digits: seq<HexDigit>)
    requires PieceOk(Unicode(plus, digits)) && At(b, i, PieceText(Unicode(plus, digits)))
    ensures EscapeAt(b, i + 1) == Ok(PieceMeaning(Unicode(plus, digits)), i + 6)
  {
    hide HexNumber, HexDigits, FromUtf8, HexByte;
    var t := PieceText(Unicode(plus, digits));
    AtByte(b, i, t, 1);
    var h := (if plus then [43] else []) + HexText(digits);
    assert t == [92, 117] + h;
    AtConcat(b, i, [92, 117], h);
    assert b[i + 2..i + 6] == h;
    forall k | 0 <= k < |digits| ensures HexText(digits)[k] < 0x80 && HexText(digits)[k] != 43 {
      HexByteValue(digits[k]);
    }
    AsciiIsUtf8(h);
    HexTextValue(digits);
    assert if plus then h[1..] == HexText(digits) && h[0] == 43 else h == HexText(digits);
  }

  /** Reading one piece appends what it means. */
  lemma PieceComplete(b: seq<Byte>, i: nat, p: Piece, out: Text)
    requires PieceOk(p) && At(b, i, PieceText(p))
    ensures StringFrom(b, i, out) == StringFrom(b, i + |PieceText(p)|, out + [PieceMeaning(p)])
  {
    hide At, EscapeAt, PlainAt, EncodeScalar, HexNumber, HexText;
    match p
    case Plain(c) => EscapedScalar(b, i, c, out);
    case Short(letter) =>
      AtByte(b, i, PieceText(p), 0);
      ShortComplete(b, i, letter);
    case Unicode(plus, digits) =>
      AtByte(b, i, PieceText(p), 0);
      UnicodeComplete(b, i, plus, digits);
  }

  lemma {:induction false} PiecesComplete(b: seq<Byte>, i: nat, ps: seq<Piece>, out: Text)
    requires PiecesOk(ps) && At(b, i, PiecesText(ps) + [34])
    ensures StringFrom(b, i, out) == Ok(out + PiecesMeaning(ps), i + |PiecesText(ps)| + 1)
    decreases |ps|
  {
    hide At, PieceText, PieceMeaning, EscapeAt, PlainAt;
    if ps == [] {
      AtByte(b, i, PiecesText(ps) + [34], 0);
      assert out + PiecesMeaning(ps) == out;
    } else {
      var t, rest := PieceText(ps[0]), PiecesText(ps[1..]) + [34];
      assert PiecesText(ps) + [34] == t + rest;
      AtConcat(b, i, t, rest);
      PieceComplete(b, i, ps[0], out);
      PiecesComplete(b, i + |t|, ps[1..], out + [PieceMeaning(ps[0])]);
      assert out + [PieceMeaning(ps[0])] + PiecesMeaning(ps[1..]) == out + PiecesMeaning(ps);
    }
  }

  lemma QuoteComplete(b: seq<Byte>, i: nat, ps: seq<Piece>)
    requires PiecesOk(ps) && At(b, i, QuoteText(ps))
    ensures Peeks(b, i, QUOTE) && StringFrom(b, i + 1, []) == Ok(PiecesMeaning(ps), i + |QuoteText(ps)|)
  {
    hide At, PiecesText, StringFrom, PiecesMeaning;
    AtConcat(b, i, [34], PiecesText(ps) + [34]);
    AtByte(b, i, QuoteText(ps), 0);
    PiecesComplete(b, i + 1, ps, []);
    assert [] + PiecesMeaning(ps) == PiecesMeaning(ps);
  }

  // ---- numbers ----

  lemma {:induction false} RunOfDigits(ds: seq<nat>, rest: seq<Byte>)
    requires DigitsOk(ds) && (rest == [] || !IsDigit(rest[0]))
    ensures DigitRun(DigitsText(ds) + rest) == |ds|
    decreases |ds|
  {
    var t := DigitsText(ds) + rest;
    if ds == [] {
      assert t == rest;
    } else {
      assert t[1..] == DigitsText(ds[1..]) + rest;
      RunOfDigits(ds[1..], rest);
    }
  }

  lemma ExponentComplete(e: Option<Exponent>)
    requires e.Some? ==> ExponentOk(e.value)
    ensures IsExponent(ExponentText(e))
    ensures e.Some? ==> ExponentText(e) != [] && (ExponentText(e)[0] == 69 || ExponentText(e)[0] == 101)
  {
    if e.Some? {
      var x, t := e.value, ExponentText(e);
      var ds := DigitsText(x.digits);
      DigitsTextValue(x.digits);
      if x.sign == [] {
        assert t[1..] == ds;
      } else {
        assert t[2..] == ds;
      }
    }
  }

  lemma UnsignedComplete(whole: seq<nat>, f: Option<seq<nat>>, e: Option<Exponent>)
    requires DigitsOk(whole) && (f.Some? ==> DigitsOk(f.value)) && (e.Some? ==> ExponentOk(e.value))
    requires (f.Some? || e.Some?) && (whole != [] || (f.Some? && f.value != []))
    ensures var u := DigitsText(whole) + (FractionText(f) + ExponentText(e)); IsFloat(u) && !AllDigits(u)
  {
    hide IsExponent, ExponentText, DigitsText, DigitRun, IsFloat, AllDigits;
    ExponentComplete(e);
    match f
    case Some(ds) => WithPoint(whole, ds, ExponentText(e));
    case None =>
      assert FractionText(None) + ExponentText(e) == ExponentText(e);
      WithoutPoint(whole, ExponentText(e));
  }

  lemma WithPoint(whole: seq<nat>, ds: seq<nat>, x: seq<Byte>)
    requires DigitsOk(whole) && DigitsOk(ds) && |whole| + |ds| > 0 && IsExponent(x)
    requires x == [] || !IsDigit(x[0])
    ensures var u := DigitsText(whole) + ([46] + DigitsText(ds) + x); IsFloat(u) && !AllDigits(u)
  {
    hide IsExponent, DigitsText, DigitRun;
    var u := DigitsText(whole) + ([46] + DigitsText(ds) + x);
    RunOfDigits(whole, [46] + DigitsText(ds) + x);
    RunOfDigits(ds, x);
    assert u[|whole|] == 46 && u[|whole| + 1..] == DigitsText(ds) + x;
    assert u[|whole| + 1 + |ds|..] == x;
  }

  lemma WithoutPoint(whole: seq<nat>, x: seq<Byte>)
    requires DigitsOk(whole) && whole != [] && IsExponent(x) && x != [] && !IsDigit(x[0]) && x[0] != 46
    ensures var u := DigitsText(whole) + x; IsFloat(u) && !AllDigits(u)
  {
    hide IsExponent, DigitsText, DigitRun;
    var u := DigitsText(whole) + x;
    RunOfDigits(whole, x);
    assert u[|whole|] == x[0] && u[|whole|..] == x;
  }

  predicate NumberBytes(t: seq<Byte>) {
    forall k :: 0 <= k < |t| ==> IsNumberByte(t[k])
  }

  lemma DigitsBytes(ds: seq<nat>)
    requires DigitsOk(ds)
    ensures NumberBytes(DigitsText(ds))
  {
  }

  lemma FractionBytes(f: Option<seq<nat>>)
    requires f.Some? ==> DigitsOk(f.value)
    ensures NumberBytes(FractionText(f))
  {
    hide DigitsText;
    if f.Some? {
      DigitsBytes(f.value);
    }
  }

  lemma ExponentBytes(e: Option<Exponent>)
    requires e.Some? ==> ExponentOk(e.value)
    ensures NumberBytes(ExponentText(e))
  {
    hide DigitsText;
    if e.Some? {
      DigitsBytes(e.value.digits);
    }
  }

  lemma NumeralBytes(n: Numeral)
    requires NumeralOk(n)
    ensures NumberBytes(NumeralText(n))
  {
    hide DigitsText, FractionText, ExponentText;
    DigitsBytes(n.whole);
    FractionBytes(n.fraction);
    ExponentBytes(n.exponent);
  }

  lemma NumeralComplete(n: Numeral)
    requires NumeralOk(n)
    ensures ParseFloat(NumeralText(n)) == Some(NumeralMeaning(n))
  {
    hide Rounded, Overflows, IsFloat, DigitsValue, Natural, DigitsText, FractionText, ExponentText;
    var t := NumeralText(n);
    var u := DigitsText(n.whole) + (FractionText(n.fraction) + ExponentText(n.exponent));
    NumeralHead(n);
    assert n.negative ==> t[1..] == u;
    assert Unsigned(t) == u;
    if n.fraction.Some? || n.exponent.Some? {
      UnsignedComplete(n.whole, n.fraction, n.exponent);
    } else {
      NoParts();
      assert u == DigitsText(n.whole);
      DigitsTextValue(n.whole);
    }
  }

  lemma NumeralHead(n: Numeral)
    requires NumeralOk(n)
    ensures var t := NumeralText(n); t != [] && (t[0] == 45 <==> n.negative) && (!n.negative ==> IsDigit(t[0]))
  {
  }

  lemma NoParts()
    ensures FractionText(None) == [] && ExponentText(None) == []
  {
  }

  lemma NumberComplete(b: seq<Byte>, i: nat, n: Numeral)
    requires NumeralOk(n) && At(b, i, NumeralText(n))
    requires i + |NumeralText(n)| == |b| || !IsNumberByte(b[i + |NumeralText(n)|])
    ensures i < |b| && (b[i] == MINUS || IsDigit(b[i]))
    ensures NumberAt(b, i) == Ok(Num(NumeralMeaning(n)), i + |NumeralText(n)|)
  {
    hide ParseFloat, NumeralText, NumeralMeaning;
    var t := NumeralText(n);
    NumeralHead(n);
    NumeralBytes(n);
    NumeralComplete(n);
    AtByte(b, i, t, 0);
    NumberRun(b, i, t);
    if t[0] == MINUS {
      assert NumberEnd(b, i) == NumberEnd(b, i + 1);
    }
  }

  // ---- containers ----

  /** A numeral must not go on; any other document ends by itself. */
  predicate Ends(b: seq<Byte>, n: nat, d: Doc) {
    n <= |b| && (d.Numb? ==> n == |b| || !IsNumberByte(b[n]))
  }

  /** What may come first in a document: no white space and no separator. */
  predicate Starts(c: Byte) {
    !IsSpace(c) && c != COMMA && c != COLON && c != CLOSE_BRACKET && c != CLOSE_BRACE
  }

  lemma DocStarts(d: Doc)
    requires DocOk(d)
    ensures Render(d) != [] && Starts(Render(d)[0])
  {
    hide NumeralText, PiecesText;
    if d.Numb? {
      NumeralHead(d.numeral);
    }
  }

  /** White space up to a byte that is none. */
  lemma BlankBefore(b: seq<Byte>, i: nat, w: seq<Byte>, t: seq<Byte>)
    requires At(b, i, w + t) && Blank(w) && t != [] && !IsSpace(t[0])
    ensures SkipSpace(b, i) == i + |w| && At(b, i + |w|, t) && i + |w| < |b| && b[i + |w|] == t[0]
  {
    hide At, SkipSpace;
    AtConcat(b, i, w, t);
    AtByte(b, i + |w|, t, 0);
    SkipBlank(b, i, w);
  }

  /** What follows the first item: a comma and the other items, or the closing bracket. */
  function AfterItem(items: seq<Item>): (t: seq<Byte>)
    requires items != [] && ItemsOk(items)
    ensures t != []
  {
    if |items| == 1 then [93] else [44] + (RenderItems(items[1..]) + [93])
  }

  /** Associativity only. */
  lemma Regroup(a: seq<Byte>, d: seq<Byte>, c: seq<Byte>, t: seq<Byte>)
    ensures a + (d + c) + t == a + (d + (c + t))
  {
  }

  /** Associativity only. */
  lemma RegroupTail(a: seq<Byte>, t: seq<Byte>, close: Byte)
    ensures a + [] + [close] == a + [close]
    ensures a + ([44] + t) + [close] == a + ([44] + (t + [close]))
  {
  }

  lemma ItemsText(items: seq<Item>)
    requires items != [] && ItemsOk(items)
    ensures ItemOk(items[0]) && DocOk(items[0].doc)
    ensures RenderItems(items) + [93]
         == items[0].before + (Render(items[0].doc) + (items[0].after + AfterItem(items)))
    ensures !IsSpace(AfterItem(items)[0]) && !IsNumberByte(AfterItem(items)[0])
    ensures var x := items[0];
      |RenderItems(items)| + 1 == |x.before| + |Render(x.doc)| + |x.after| + |AfterItem(items)|
  {
    hide Render, DocOk;
    var x := items[0];
    assert ItemOk(x);
    RegroupTail(RenderItem(x), if |items| > 1 then RenderItems(items[1..]) else [], 93);
    Regroup(x.before, Render(x.doc), x.after, AfterItem(items));
  }

  lemma EndsBefore(b: seq<Byte>, n: nat, d: Doc, w: seq<Byte>, t: seq<Byte>)
    requires At(b, n, w + t) && Blank(w) && t != [] && !IsNumberByte(t[0])
    ensures Ends(b, n, d)
  {
    hide At;
    AtByte(b, n, w + t, 0);
  }

  lemma ItemParts(b: seq<Byte>, i: nat, items: seq<Item>)
    requires items != [] && ItemsOk(items) && At(b, i, RenderItems(items) + [93])
    ensures var d := items[0].doc;
            var s := i + |items[0].before|; var n := s + |Render(d)|; var e := n + |items[0].after|;
            && DocOk(d) && SkipSpace(b, i) == s < |b| && At(b, s, Render(d)) && Ends(b, n, d)
            && b[s] != CLOSE_BRACKET && SkipSpace(b, n) == e < |b|
            && (|items| == 1 ==> b[e] == CLOSE_BRACKET && e == i + |RenderItems(items)|)
            && (|items| > 1 ==> b[e] == COMMA && At(b, e + 1, RenderItems(items[1..]) + [93]))
            && (|items| > 1 ==> e + 1 + |RenderItems(items[1..])| == i + |RenderItems(items)|)
  {
    hide At, Render, DocOk, RenderItems, SkipSpace, AfterItem, ItemsOk, IsNumberByte, IsSpace, Blank;
    var x := items[0];
    ItemsText(items);
    DocStarts(x.doc);
    var tail := AfterItem(items);
    BlankBefore(b, i, x.before, Render(x.doc) + (x.after + tail));
    var s := i + |x.before|;
    AtConcat(b, s, Render(x.doc), x.after + tail);
    var n := s + |Render(x.doc)|;
    EndsBefore(b, n, x.doc, x.after, tail);
    BlankBefore(b, n, x.after, tail);
    ItemTail(b, n + |x.after|, items);
  }

  lemma ItemTail(b: seq<Byte>, e: nat, items: seq<Item>)
    requires items != [] && ItemsOk(items) && At(b, e, AfterItem(items))
    ensures e < |b|
    ensures |items| == 1 ==> b[e] == CLOSE_BRACKET && |AfterItem(items)| == 1
    ensures |items| > 1 ==> b[e] == COMMA && At(b, e + 1, RenderItems(items[1..]) + [93])
    ensures |items| > 1 ==> |AfterItem(items)| == |RenderItems(items[1..])| + 2
  {
    hide At, RenderItems;
    AtByte(b, e, AfterItem(items), 0);
    if |items| > 1 {
      AtConcat(b, e, [44], RenderItems(items[1..]) + [93]);
    }
  }

  lemma {:induction false} ItemsComplete(b: seq<Byte>, i: nat, items: seq<Item>, out: seq<Json>, depth: nat)
    requires items != [] && ItemsOk(items) && i <= |b| && At(b, i, RenderItems(items) + [93])
    ensures ParsedBack(ItemsFrom(b, i, out, depth), ItemsWithin(items, depth + 1), Arr(out + ItemsMeaning(items)),
                       i + |RenderItems(items)| + 1)
    decreases items, 0
  {
    hide At, Render, RenderItems, DocOk, Meaning, SkipSpace, ValueAt, Within, Ends, ItemsMeaning, ItemOk;
    var x := items[0];
    ItemParts(b, i, items);
    DocComplete(b, i + |x.before|, x.doc, depth + 1);
    FirstItemMeans(items, out);
    if |items| == 1 {
      assert items[1..] == [] && out + [Meaning(x.doc)] + [] == out + [Meaning(x.doc)];
    } else if Within(x.doc, depth + 1) {
      ItemsComplete(b, i + |x.before| + |Render(x.doc)| + |x.after| + 1, items[1..], out + [Meaning(x.doc)], depth);
      assert items == [x] + items[1..];
    }
  }

  lemma FirstItemMeans(items: seq<Item>, out: seq<Json>)
    requires items != [] && ItemsOk(items)
    ensures DocOk(items[0].doc) && out + [Meaning(items[0].doc)] + ItemsMeaning(items[1..]) == out + ItemsMeaning(items)
    ensures ItemsMeaning([]) == []
  {
    hide Meaning, DocOk;
    assert ItemOk(items[0]);
  }

  /** The first step over the white space may be taken before. */
  lemma SkipFirst(b: seq<Byte>, i: nat, out: seq<Json>, m: seq<Field>, depth: nat)
    requires i <= |b|
    ensures ItemsFrom(b, SkipSpace(b, i), out, depth) == ItemsFrom(b, i, out, depth)
    ensures FieldsFrom(b, SkipSpace(b, i), m, depth) == FieldsFrom(b, i, m, depth)
  {
    hide SkipSpace, ValueAt, KeyAt;
    SkippedIsBlank(b, i);
  }

  lemma ContainerDispatch(b: seq<Byte>, i: nat, depth: nat)
    requires i < |b| && depth <= MAX_DEPTH
    ensures b[i] == OPEN_BRACKET ==> ValueAt(b, i, depth) == ArrayAt(b, i, depth)
    ensures b[i] == OPEN_BRACE ==> ValueAt(b, i, depth) == ObjectAt(b, i, depth)
  {
    hide At, StringFrom, NumberAt, ArrayAt, ObjectAt;
    LiteralHead(b, i);
  }

  lemma OpenDispatch(b: seq<Byte>, i: nat, depth: nat)
    requires i < |b| && depth <= MAX_DEPTH
    ensures b[i] == 91 && !Peeks(b, SkipSpace(b, i + 1), 93) ==> ValueAt(b, i, depth) == ItemsFrom(b, i + 1, [], depth)
    ensures b[i] == 123 && !Peeks(b, SkipSpace(b, i + 1), 125) ==> ValueAt(b, i, depth) == FieldsFrom(b, i + 1, [], depth)
  {
    hide ValueAt, ItemsFrom, FieldsFrom, SkipSpace;
    ContainerDispatch(b, i, depth);
    SkipFirst(b, i + 1, [], [], depth);
  }

  lemma ListComplete(b: seq<Byte>, i: nat, d: Doc, depth: nat)
    requires d.List? && DocOk(d) && i <= |b| && At(b, i, Render(d)) && depth <= MAX_DEPTH
    ensures ParsedBack(ValueAt(b, i, depth), Within(d, depth), Meaning(d), i + |Render(d)|)
    decreases d, 0
  {
    hide At, RenderItems, ItemsFrom, SkipSpace, ValueAt, ItemsMeaning, ItemsWithin, Within, Ends, Blank;
    var text := RenderItems(d.items) + [93];
    AtConcat(b, i, [91], text);
    AtByte(b, i, [91], 0);
    ItemParts(b, i + 1, d.items);
    ItemsComplete(b, i + 1, d.items, [], depth);
    OpenDispatch(b, i, depth);
    assert [] + ItemsMeaning(d.items) == ItemsMeaning(d.items);
    ListWithin(d, depth);
  }

  lemma ListWithin(d: Doc, depth: nat)
    requires depth <= 16
    ensures d.List? ==> Within(d, depth) == ItemsWithin(d.items, depth + 1)
    ensures d.Map? ==> Within(d, depth) == MembersWithin(d.members, depth + 1)
  {
  }

  function AfterMember(members: seq<Member>): (t: seq<Byte>)
    requires members != [] && MembersOk(members)
    ensures t != []
  {
    if |members| == 1 then [125] else [44] + (RenderMembers(members[1..]) + [125])
  }

  /** The text from the value of the first member on. */
  function FromValue(members: seq<Member>): (t: seq<Byte>)
    requires members != [] && MembersOk(members) && MemberOk(members[0]) && DocOk(members[0].doc)
  {
    Render(members[0].doc) + (members[0].after + AfterMember(members))
  }

  lemma MembersText(members: seq<Member>)
    requires members != [] && MembersOk(members)
    ensures MemberOk(members[0]) && DocOk(members[0].doc) && PiecesOk(members[0].key)
    ensures var x := members[0];
      RenderMembers(members) + [125]
      == x.before + (QuoteText(x.key) + (x.colonBefore + ([58] + (x.colonAfter + FromValue(members)))))
    ensures !IsSpace(AfterMember(members)[0]) && !IsNumberByte(AfterMember(members)[0])
    ensures |RenderMembers(members)| + 1 == |RenderMembers(members) + [125]|
  {
    hide Render, DocOk, QuoteText;
    var x := members[0];
    assert MemberOk(x);
    RegroupTail(RenderMember(x), if |members| > 1 then RenderMembers(members[1..]) else [], 125);
    MemberText(x, AfterMember(members));
  }

  lemma MemberText(x: Member, t: seq<Byte>)
    requires MemberOk(x) && DocOk(x.doc)
    ensures RenderMember(x) + t
      == x.before + (QuoteText(x.key) + (x.colonBefore + ([58] + (x.colonAfter + (Render(x.doc) + (x.after + t))))))
  {
    hide Render, DocOk, QuoteText;
    var value := Render(x.doc) + x.after;
    var colon := [58] + (x.colonAfter + value);
    Regroup(x.before, QuoteText(x.key), x.colonBefore + colon, t);
    Regroup(x.colonBefore, [58], x.colonAfter + value, t);
    Regroup(x.colonAfter, Render(x.doc), x.after, t);
  }

  /** A key with its colon, up to where its value starts. */
  lemma KeyComplete(b: seq<Byte>, i: nat, x: Member, v: seq<Byte>)
    requires MemberOk(x) && v != [] && !IsSpace(v[0])
    requires At(b, i, x.before + (QuoteText(x.key) + (x.colonBefore + ([58] + (x.colonAfter + v)))))
    ensures var s := i + |x.before|; var n := s + |QuoteText(x.key)| + |x.colonBefore| + 1 + |x.colonAfter|;
            && SkipSpace(b, i) == s < |b| && b[s] == QUOTE
            && KeyAt(b, s) == Ok(PiecesMeaning(x.key), n) && At(b, n, v)
  {
    hide At, QuoteText, PiecesMeaning, DocOk, StringFrom, SkipSpace;
    var s := i + |x.before|;
    var k := s + |QuoteText(x.key)|;
    QuoteHead(x.key);
    BlankBefore(b, i, x.before, QuoteText(x.key) + (x.colonBefore + ([58] + (x.colonAfter + v))));
    AtConcat(b, s, QuoteText(x.key), x.colonBefore + ([58] + (x.colonAfter + v)));
    QuoteComplete(b, s, x.key);
    BlankBefore(b, k, x.colonBefore, [58] + (x.colonAfter + v));
    AtConcat(b, k + |x.colonBefore|, [58], x.colonAfter + v);
    BlankBefore(b, k + |x.colonBefore| + 1, x.colonAfter, v);
  }

  lemma QuoteHead(ps: seq<Piece>)
    requires PiecesOk(ps)
    ensures QuoteText(ps) != [] && QuoteText(ps)[0] == 34
  {
  }

  lemma MemberParts(b: seq<Byte>, i: nat, members: seq<Member>)
    requires members != [] && MembersOk(members) && At(b, i, RenderMembers(members) + [125])
    ensures var x := members[0];
            var s := i + |x.before|; var v := s + |QuoteText(x.key)| + |x.colonBefore| + 1 + |x.colonAfter|;
            && MemberOk(x) && DocOk(x.doc) && PiecesOk(x.key)
            && SkipSpace(b, i) == s < |b| && b[s] == QUOTE && KeyAt(b, s) == Ok(PiecesMeaning(x.key), v)
            && var n := v + |Render(x.doc)|; var e := n + |x.after|;
            && v <= |b| && At(b, v, Render(x.doc)) && Ends(b, n, x.doc) && SkipSpace(b, n) == e < |b|
            && (|members| == 1 ==> b[e] == CLOSE_BRACE && e == i + |RenderMembers(members)|)
            && (|members| > 1 ==> b[e] == COMMA && At(b, e + 1, RenderMembers(members[1..]) + [125]))
            && (|members| > 1 ==> e + 1 + |RenderMembers(members[1..])| == i + |RenderMembers(members)|)
  {
    hide At, Render, DocOk, RenderMembers, SkipSpace, QuoteText, PiecesMeaning, KeyAt, AfterMember, MembersOk,
      IsNumberByte, IsSpace, Blank;
    var x := members[0];
    MembersText(members);
    DocStarts(x.doc);
    KeyComplete(b, i, x, FromValue(members));
    var v := i + |x.before| + |QuoteText(x.key)| + |x.colonBefore| + 1 + |x.colonAfter|;
    var tail := AfterMember(members);
    AtConcat(b, v, Render(x.doc), x.after + tail);
    AtByte(b, v, Render(x.doc), 0);
    var n := v + |Render(x.doc)|;
    EndsBefore(b, n, x.doc, x.after, tail);
    BlankBefore(b, n, x.after, tail);
    MemberTail(b, n + |x.after|, members);
  }

  lemma MemberTail(b: seq<Byte>, e: nat, members: seq<Member>)
    requires members != [] && MembersOk(members) && At(b, e, AfterMember(members))
    ensures e < |b|
    ensures |members| == 1 ==> b[e] == CLOSE_BRACE && |AfterMember(members)| == 1
    ensures |members| > 1 ==> b[e] == COMMA && At(b, e + 1, RenderMembers(members[1..]) + [125])
    ensures |members| > 1 ==> |AfterMember(members)| == |RenderMembers(members[1..])| + 2
  {
    hide At, RenderMembers;
    AtByte(b, e, AfterMember(members), 0);
    if |members| > 1 {
      AtConcat(b, e, [44], RenderMembers(members[1..]) + [125]);
    }
  }

  lemma {:induction false} MembersComplete(b: seq<Byte>, i: nat, members: seq<Member>, m: seq<Field>, depth: nat)
    requires members != [] && MembersOk(members) && i <= |b| && At(b, i, RenderMembers(members) + [125])
    ensures ParsedBack(FieldsFrom(b, i, m, depth), MembersWithin(members, depth + 1), Obj(MembersMeaning(m, members)),
                       i + |RenderMembers(members)| + 1)
    decreases members, 0
  {
    hide At, Render, RenderMembers, DocOk, Meaning, SkipSpace, ValueAt, Within, Ends, KeyAt, QuoteText, PiecesMeaning,
      Insert;
    var x := members[0];
    MemberParts(b, i, members);
    var v := i + |x.before| + |QuoteText(x.key)| + |x.colonBefore| + 1 + |x.colonAfter|;
    DocComplete(b, v, x.doc, depth + 1);
    var rest := members[1..];
    if |members| == 1 {
      assert rest == [];
    } else if Within(x.doc, depth + 1) {
      MembersComplete(b, v + |Render(x.doc)| + |x.after| + 1, rest, Insert(m, PiecesMeaning(x.key), Meaning(x.doc)), depth);
      assert members == [x] + rest;
    }
  }

  lemma MapComplete(b: seq<Byte>, i: nat, d: Doc, depth: nat)
    requires d.Map? && DocOk(d) && i <= |b| && At(b, i, Render(d)) && depth <= MAX_DEPTH
    ensures ParsedBack(ValueAt(b, i, depth), Within(d, depth), Meaning(d), i + |Render(d)|)
    decreases d, 0
  {
    hide At, RenderMembers, FieldsFrom, SkipSpace, ValueAt, MembersMeaning, KeyAt, MembersWithin, Within, Ends, Blank;
    var text := RenderMembers(d.members) + [125];
    AtConcat(b, i, [123], text);
    AtByte(b, i, [123], 0);
    MemberParts(b, i + 1, d.members);
    MembersComplete(b, i + 1, d.members, [], depth);
    OpenDispatch(b, i, depth);
    ListWithin(d, depth);
  }

  lemma EmptyComplete(b: seq<Byte>, i: nat, d: Doc, depth: nat)
    requires (d.EmptyList? || d.EmptyMap?) && DocOk(d) && i <= |b| && At(b, i, Render(d)) && depth <= MAX_DEPTH
    ensures ValueAt(b, i, depth) == Ok(Meaning(d), i + |Render(d)|)
  {
    hide At, FieldsFrom, ItemsFrom, SkipSpace, StringFrom, NumberAt;
    AtByte(b, i, Render(d), 0);
    LiteralHead(b, i);
    var close: Byte := if d.EmptyList? then 93 else 125;
    AtConcat(b, i, [Render(d)[0]], d.blank + [close]);
    BlankBefore(b, i + 1, d.blank, [close]);
  }

  lemma LeafComplete(b: seq<Byte>, i: nat, d: Doc, depth: nat)
    requires (d.Word? || d.Numb? || d.Quote?) && DocOk(d) && i <= |b| && At(b, i, Render(d)) && depth <= MAX_DEPTH
    requires Ends(b, i + |Render(d)|, d)
    ensures ValueAt(b, i, depth) == Ok(Meaning(d), i + |Render(d)|)
  {
    hide At, StringFrom, NumberAt, ArrayAt, ObjectAt, NumeralText, NumeralMeaning, QuoteText, PiecesMeaning;
    AtByte(b, i, Render(d), 0) by { DocStarts(d); }
    LiteralHead(b, i);
    match d
    case Word(_) =>
    case Numb(n) =>
      NumberComplete(b, i, n);
    case Quote(ps) =>
      QuoteComplete(b, i, ps);
  }

  /** Every document, anywhere in a text and at any depth, is read as what it means; when it nests too
      deep, that is said. */
  lemma {:induction false} DocComplete(b: seq<Byte>, i: nat, d: Doc, depth: nat)
    requires DocOk(d) && i <= |b| && At(b, i, Render(d)) && Ends(b, i + |Render(d)|, d)
    ensures ParsedBack(ValueAt(b, i, depth), Within(d, depth), Meaning(d), i + |Render(d)|)
    decreases d, 1
  {
    hide At, Render, Meaning, DocOk, ValueAt, Ends;
    if depth > MAX_DEPTH {
      TooDeepDoc(b, i, d, depth);
    } else if d.List? {
      ListComplete(b, i, d, depth);
    } else if d.Map? {
      MapComplete(b, i, d, depth);
    } else if d.EmptyList? || d.EmptyMap? {
      EmptyComplete(b, i, d, depth);
    } else {
      LeafComplete(b, i, d, depth);
    }
  }

  lemma TooDeepDoc(b: seq<Byte>, i: nat, d: Doc, depth: nat)
    requires depth > MAX_DEPTH && i <= |b|
    ensures ValueAt(b, i, depth) == Err(i, TooDeep) && !Within(d, depth)
  {
  }
}
