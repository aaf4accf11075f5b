/** Whatever the grammar accepts was written as some document, and is read as what that means; with the
    other direction, the exact set of texts that are accepted, and where the others are refused. */
module JsonSoundness {
  import opened Basics
  import opened Utf8
  import opened Json
  import opened JsonGrammar
  import opened JsonTexts
  import opened JsonRoundTrip
  import opened JsonDenotation

  // ---- strings ----

  function HexDigitOf(d: Byte): HexDigit {
    if 48 <= d <= 57 then HexDigit(d - 48, false)
    else if 97 <= d <= 102 then HexDigit(d - 87, false)
    else if 65 <= d <= 70 then HexDigit(d - 55, true)
    else HexDigit(0, false)
  }

  lemma {:induction false} HexSound(h: seq<Byte>) returns (digits: seq<HexDigit>)
    requires HexDigits(h).Some?
    ensures |digits| == |h| && (forall k :: 0 <= k < |digits| ==> digits[k].value < 16) && HexText(digits) == h
    decreases |h|
  {
    if h == [] {
      digits := [];
    } else {
      var n := |h| - 1;
      var front := HexSound(h[..n]);
      digits := front + [HexDigitOf(h[n])];
      assert HexByte(HexDigitOf(h[n])) == h[n];
      assert HexText(digits) == HexText(front) + [h[n]];
      assert h == h[..n] + [h[n]];
    }
  }

  lemma UnicodeSound(b: seq<Byte>, i: nat) returns (p: Piece)
    requires i + 1 < |b| && b[i] == 92 && b[i + 1] == 117 && UnicodeEscape(b, i + 2).Ok?
    ensures PieceOk(p) && i + 6 <= |b| && PieceText(p) == b[i..i + 6] && UnicodeEscape(b, i + 2) == Ok(PieceMeaning(p), i + 6)
  {
    hide HexDigits, HexText, HexNumber, FromUtf8;
    var h := b[i + 2..i + 6];
    var plus := h[0] == 43;
    var digits := HexSound(if plus then h[1..] else h);
    p := Unicode(plus, digits);
    HexTextValue(digits);
    assert (if plus then [43] else []) + HexText(digits) == h;
    assert b[i..i + 6] == [92, 117] + h;
  }

  lemma EscapeSound(b: seq<Byte>, i: nat) returns (p: Piece)
    requires i < |b| && b[i] == 92 && EscapeAt(b, i + 1).Ok?
    ensures PieceOk(p)
    ensures var r := EscapeAt(b, i + 1); i < r.next <= |b| && PieceText(p) == b[i..r.next] && PieceMeaning(p) == r.value
  {
    hide UnicodeEscape;
    if b[i + 1] == 117 {
      p := UnicodeSound(b, i);
    } else {
      p := Short(b[i + 1]);
      assert b[i..i + 2] == [92, b[i + 1]];
    }
  }

  lemma {:induction false} NotEncodedEmpty(s: Text)
    requires Encode(s) == []
    ensures s == []
  {
  }

  lemma PlainSound(b: seq<Byte>, i: nat) returns (p: Piece)
    requires i < |b| && b[i] != 34 && b[i] != 92 && b[i] >= 0x20 && PlainAt(b, i).Ok?
    ensures PieceOk(p)
    ensures var r := PlainAt(b, i); i < r.next <= |b| && PieceText(p) == b[i..r.next] && r.value == [PieceMeaning(p)]
  {
    hide FromUtf8, EncodeScalar;
    var r := PlainAt(b, i);
    var bytes := b[i..r.next];
    var raw := r.value;
    DecodeRoundTrip(bytes);
    var c, rest := raw[0], raw[1..];
    assert bytes == EncodeScalar(c) + Encode(rest);
    LeadByte(c);
    assert bytes[0] == b[i] == EncodeScalar(c)[0];
    NotEncodedEmpty(rest);
    assert raw == [c];
    AsciiHead(c);
    p := Plain(c);
  }

  lemma AsciiHead(c: Scalar)
    ensures c < 0x80 ==> EncodeScalar(c) == [c]
  {
  }

  lemma {:induction false} StringSound(b: seq<Byte>, i: nat, out: Text) returns (ps: seq<Piece>)
    requires StringFrom(b, i, out).Ok?
    ensures PiecesOk(ps)
    ensures var r := StringFrom(b, i, out);
      i < r.next <= |b| && r.value == out + PiecesMeaning(ps) && b[i..r.next] == PiecesText(ps) + [34]
    decreases |b| - i
  {
    hide EscapeAt, PlainAt, PieceText, PieceMeaning, PieceOk, PiecesMeaning, PiecesText;
    if b[i] == QUOTE {
      ps := [];
      NoPieces(out);
    } else {
      var p, next := PieceSound(b, i, out);
      var rest := StringSound(b, next, out + [PieceMeaning(p)]);
      ps := [p] + rest;
      ConsPieces(p, rest, out);
      var r := StringFrom(b, i, out);
      assert b[i..r.next] == b[i..next] + b[next..r.next];
    }
  }

  /** The first piece of a string that does not end yet. */
  lemma PieceSound(b: seq<Byte>, i: nat, out: Text) returns (p: Piece, next: nat)
    requires StringFrom(b, i, out).Ok? && b[i] != QUOTE
    ensures PieceOk(p) && i < next <= |b| && b[i..next] == PieceText(p)
    ensures StringFrom(b, i, out) == StringFrom(b, next, out + [PieceMeaning(p)])
  {
    hide EscapeAt, PlainAt, PieceText, PieceMeaning, PieceOk;
    if b[i] == BACKSLASH {
      p := EscapeSound(b, i);
      next := EscapeAt(b, i + 1).next;
    } else {
      p := PlainSound(b, i);
      next := PlainAt(b, i).next;
    }
  }

  lemma ConsPieces(p: Piece, ps: seq<Piece>, out: Text)
    requires PieceOk(p) && PiecesOk(ps)
    ensures PiecesOk([p] + ps) && PiecesText([p] + ps) == PieceText(p) + PiecesText(ps)
    ensures out + [PieceMeaning(p)] + PiecesMeaning(ps) == out + PiecesMeaning([p] + ps)
  {
    hide PieceText, PieceMeaning, PieceOk;
    assert ([p] + ps)[1..] == ps;
  }

  lemma NoPieces(out: Text)
    ensures out + PiecesMeaning([]) == out && PiecesText([]) + [34] == [34]
  {
  }

  lemma QuoteSound(b: seq<Byte>, i: nat) returns (ps: seq<Piece>)
    requires Peeks(b, i, QUOTE) && StringFrom(b, i + 1, []).Ok?
    ensures PiecesOk(ps)
    ensures var r := StringFrom(b, i + 1, []);
      i < r.next <= |b| && r.value == PiecesMeaning(ps) && b[i..r.next] == QuoteText(ps)
  {
    hide StringFrom, PiecesText, PiecesMeaning;
    ps := StringSound(b, i + 1, []);
    var r := StringFrom(b, i + 1, []);
    assert b[i..r.next] == [b[i]] + b[i + 1..r.next];
    assert [] + PiecesMeaning(ps) == PiecesMeaning(ps);
  }

  // ---- numbers ----

  function DigitsOf(t: seq<Byte>): (ds: seq<nat>)
    requires AllDigits(t)
    ensures |ds| == |t|
  {
    seq(|t|, k requires 0 <= k < |t| => t[k] - 48)
  }

  lemma DigitsOfText(t: seq<Byte>)
    requires AllDigits(t)
    ensures DigitsOk(DigitsOf(t)) && DigitsText(DigitsOf(t)) == t
  {
  }

  lemma {:induction false} RunIsDigits(t: seq<Byte>)
    ensures AllDigits(t[..DigitRun(t)])
    ensures t != [] && IsDigit(t[0]) ==> DigitRun(t) > 0
  {
    if t != [] && IsDigit(t[0]) {
      RunIsDigits(t[1..]);
      assert t[..DigitRun(t)] == [t[0]] + t[1..][..DigitRun(t[1..])];
    }
  }

  lemma ExponentSound(t: seq<Byte>) returns (e: Option<Exponent>)
    requires IsExponent(t)
    ensures (e.Some? ==> ExponentOk(e.value)) && ExponentText(e) == t
  {
    hide DigitsText, DigitsOk;
    if t == [] {
      e := None;
    } else if |t| > 1 && (t[1] == 43 || t[1] == 45) {
      DigitsOfText(t[2..]);
      e := Some(Exponent(t[0] == 69, [t[1]], DigitsOf(t[2..])));
      assert t == [t[0]] + ([t[1]] + t[2..]);
    } else {
      DigitsOfText(t[1..]);
      e := Some(Exponent(t[0] == 69, [], DigitsOf(t[1..])));
      assert t == [t[0]] + ([] + t[1..]);
    }
  }

  lemma PointSound(u: seq<Byte>, r: nat) returns (fraction: seq<nat>, e: Option<Exponent>)
    requires r < |u| && u[r] == 46
    requires var f := DigitRun(u[r + 1..]); IsExponent(u[r + 1 + f..])
    ensures DigitsOk(fraction) && |fraction| == DigitRun(u[r + 1..]) && (e.Some? ==> ExponentOk(e.value))
    ensures u[r..] == FractionText(Some(fraction)) + ExponentText(e)
  {
    hide DigitsText, DigitsOk, DigitRun, IsExponent, ExponentText, ExponentOk;
    var behind := u[r + 1..];
    var f := DigitRun(behind);
    RunIsDigits(behind);
    DigitsOfText(behind[..f]);
    assert behind[f..] == u[r + 1 + f..];
    e := ExponentSound(behind[f..]);
    fraction := DigitsOf(behind[..f]);
    assert u[r..] == [46] + behind[..f] + behind[f..];
  }

  lemma UnsignedSound(u: seq<Byte>) returns (whole: seq<nat>, f: Option<seq<nat>>, e: Option<Exponent>)
    requires IsFloat(u)
    ensures DigitsOk(whole) && (f.Some? ==> DigitsOk(f.value)) && (e.Some? ==> ExponentOk(e.value))
    ensures whole != [] || (f.Some? && f.value != [])
    ensures |whole| == DigitRun(u) && u == DigitsText(whole) + (FractionText(f) + ExponentText(e))
  {
    hide DigitsText, DigitsOk, DigitRun, IsExponent, ExponentText, ExponentOk, FractionText;
    var r := DigitRun(u);
    RunIsDigits(u);
    DigitsOfText(u[..r]);
    whole := DigitsOf(u[..r]);
    assert u == u[..r] + u[r..];
    if r < |u| && u[r] == 46 {
      var fraction;
      fraction, e := PointSound(u, r);
      f := Some(fraction);
    } else {
      e := ExponentSound(u[r..]);
      f := None;
      NoParts();
      assert [] + u[r..] == u[r..];
    }
  }

  lemma FloatSound(u: seq<Byte>, negative: bool) returns (n: Numeral)
    requires IsFloat(u) && (negative || (u != [] && IsDigit(u[0])))
    ensures NumeralOk(n) && NumeralText(n) == (if negative then [45] else []) + u
  {
    hide DigitsText, DigitsOk, DigitRun, ExponentText, ExponentOk, FractionText, IsFloat;
    RunIsDigits(u);
    var whole, f, e := UnsignedSound(u);
    n := Numeral(negative, whole, f, e);
  }

  lemma IntegerSound(u: seq<Byte>, negative: bool) returns (n: Numeral)
    requires AllDigits(u) && u != []
    ensures NumeralOk(n) && NumeralText(n) == (if negative then [45] else []) + u
  {
    hide DigitsText, DigitsOk;
    DigitsOfText(u);
    n := Numeral(negative, DigitsOf(u), None, None);
    NoParts();
    assert u + ([] + []) == u;
  }

  lemma NumberSound(b: seq<Byte>, i: nat) returns (n: Numeral)
    requires i < |b| && (b[i] == MINUS || IsDigit(b[i])) && NumberAt(b, i).Ok?
    ensures NumeralOk(n)
    ensures var r := NumberAt(b, i);
      i < r.next <= |b| && b[i..r.next] == NumeralText(n) && r.value == Num(NumeralMeaning(n))
  {
    hide NumberEnd, NumeralText, NumeralMeaning, AllDigits, IsFloat, WholeNumber, DigitsValue;
    var r := NumberAt(b, i);
    EndIsFurther(b, i);
    var t := b[i..r.next];
    var negative := t[0] == 45;
    var u := Unsigned(t);
    assert t == (if negative then [45] else []) + u;
    if u != [] && AllDigits(u) {
      n := IntegerSound(u, negative);
    } else {
      n := FloatSound(u, negative);
    }
    NumeralComplete(n);
  }

  lemma EndIsFurther(b: seq<Byte>, i: nat)
    requires i < |b| && (b[i] == MINUS || IsDigit(b[i]))
    ensures i < NumberEnd(b, if b[i] == MINUS then i + 1 else i) <= |b|
  {
  }

  // ---- values ----

  /** `d` was read at `i` and ends at `next`. */
  ghost predicate WasRead(b: seq<Byte>, i: nat, d: Doc, depth: nat, r: Parsed<Json>) {
    && DocOk(d) && Within(d, depth) && r.Ok? && i < r.next <= |b|
    && b[i..r.next] == Render(d) && r.value == Meaning(d)
  }

  lemma WordSound(b: seq<Byte>, i: nat, depth: nat) returns (d: Doc)
    requires i <= |b| && depth <= MAX_DEPTH
    requires At(b, i, Ascii("null")) || At(b, i, Ascii("true")) || At(b, i, Ascii("false"))
    ensures WasRead(b, i, d, depth, ValueAt(b, i, depth))
  {
    LiteralHead(b, i);
    d := if At(b, i, Ascii("null")) then Word(Null) else Word(Bool(At(b, i, Ascii("true"))));
  }

  lemma ScalarSound(b: seq<Byte>, i: nat, depth: nat) returns (d: Doc)
    requires i <= |b| && ValueAt(b, i, depth).Ok? && b[i] != OPEN_BRACKET && b[i] != OPEN_BRACE
    ensures WasRead(b, i, d, depth, ValueAt(b, i, depth))
  {
    hide At, StringFrom, NumberAt, QuoteText, PiecesMeaning, NumeralText, NumeralMeaning;
    if At(b, i, Ascii("null")) || At(b, i, Ascii("true")) || At(b, i, Ascii("false")) {
      d := WordSound(b, i, depth);
    } else if b[i] == QUOTE {
      var ps := QuoteSound(b, i);
      d := Quote(ps);
    } else {
      var n := NumberSound(b, i);
      d := Numb(n);
    }
  }

  /** What a value that is not at the end of the text starts with. */
  lemma ValueStarts(b: seq<Byte>, i: nat, depth: nat)
    requires i <= |b| && ValueAt(b, i, depth).Ok?
    ensures i < |b| && depth <= MAX_DEPTH
  {
    hide At, StringFrom, NumberAt, ArrayAt, ObjectAt;
  }

  /** Whatever is accepted as a value at any place was written as a document there. */
  lemma {:induction false} ValueSound(b: seq<Byte>, i: nat, depth: nat) returns (d: Doc)
    requires i <= |b| && ValueAt(b, i, depth).Ok?
    ensures WasRead(b, i, d, depth, ValueAt(b, i, depth))
    decreases |b| - i, 3
  {
    hide ValueAt, ArrayAt, ObjectAt, WasRead;
    ValueStarts(b, i, depth);
    ContainerDispatch(b, i, depth);
    if b[i] == OPEN_BRACKET {
      d := ArraySound(b, i, depth);
    } else if b[i] == OPEN_BRACE {
      d := ObjectSound(b, i, depth);
    } else {
      d := ScalarSound(b, i, depth);
    }
  }

  lemma ArraySound(b: seq<Byte>, i: nat, depth: nat) returns (d: Doc)
    requires i < |b| && b[i] == OPEN_BRACKET && depth <= MAX_DEPTH && ArrayAt(b, i, depth).Ok?
    ensures WasRead(b, i, d, depth, ArrayAt(b, i, depth))
    decreases |b| - i, 2
  {
    hide ItemsFrom, SkipSpace, RenderItems, ItemsMeaning, ItemOk, Blank, Within, ItemsWithin;
    var j := SkipSpace(b, i + 1);
    var r := ArrayAt(b, i, depth);
    SkippedIsBlank(b, i + 1);
    if Peeks(b, j, CLOSE_BRACKET) {
      d := EmptyList(b[i + 1..j]);
      EmptyWithin(d, depth);
      assert b[i..r.next] == [b[i]] + (b[i + 1..j] + [b[j]]);
    } else {
      SkipFirst(b, i + 1, [], [], depth);
      var items := ItemsSound(b, i + 1, [], depth);
      d := List(items);
      ListWithin(d, depth);
      assert b[i..r.next] == [b[i]] + b[i + 1..r.next];
      assert [] + ItemsMeaning(items) == ItemsMeaning(items);
    }
  }

  lemma EmptyWithin(d: Doc, depth: nat)
    requires (d.EmptyList? || d.EmptyMap?) && depth <= MAX_DEPTH
    ensures Within(d, depth)
  {
  }

  /** One item from its three parts. */
  lemma ItemRead(b: seq<Byte>, i: nat, s: nat, d: Doc, n: nat, e: nat)
    requires i <= s <= n <= e <= |b| && Blank(b[i..s]) && DocOk(d) && b[s..n] == Render(d) && Blank(b[n..e])
    ensures ItemOk(Item(b[i..s], d, b[n..e])) && RenderItem(Item(b[i..s], d, b[n..e])) == b[i..e]
  {
    hide Render, DocOk;
    assert b[i..e] == b[i..s] + (b[s..n] + b[n..e]);
  }

  lemma ConsItems(x: Item, items: seq<Item>, out: seq<Json>, depth: nat)
    requires ItemOk(x) && ItemsOk(items) && Within(x.doc, depth) && ItemsWithin(items, depth)
    ensures ItemsWithin([x] + items, depth)
    ensures ItemsOk([x] + items) && DocOk(x.doc)
    ensures RenderItems([x] + items) == RenderItem(x) + (if items == [] then [] else [44] + RenderItems(items))
    ensures out + [Meaning(x.doc)] + ItemsMeaning(items) == out + ItemsMeaning([x] + items)
    ensures items == [] ==> out + [Meaning(x.doc)] == out + ItemsMeaning([x] + items)
  {
    hide Render, DocOk, Meaning, RenderItem, Within;
    assert ItemOk(x);
    assert ([x] + items)[1..] == items;
    assert ItemsMeaning([x] + items) == [Meaning(x.doc)] + ItemsMeaning(items);
  }

  lemma {:induction false} ItemsSound(b: seq<Byte>, i: nat, out: seq<Json>, depth: nat) returns (items: seq<Item>)
    requires i <= |b| && ItemsFrom(b, i, out, depth).Ok?
    ensures items != [] && ItemsOk(items) && ItemsWithin(items, depth + 1)
    ensures var r := ItemsFrom(b, i, out, depth);
      i < r.next <= |b| && b[i..r.next] == RenderItems(items) + [93] && r.value == Arr(out + ItemsMeaning(items))
    decreases |b| - i, 4
  {
    hide ValueAt, SkipSpace, RenderItems, ItemsMeaning, Render, Meaning, DocOk, Within, Blank, ItemOk, RenderItem,
      ItemsOk, ItemsWithin;
    var s := SkipSpace(b, i);
    var v := ValueAt(b, s, depth + 1);
    var d := ValueSound(b, s, depth + 1);
    var e := SkipSpace(b, v.next);
    SkippedIsBlank(b, i);
    SkippedIsBlank(b, v.next);
    ItemRead(b, i, s, d, v.next, e);
    var x := Item(b[i..s], d, b[v.next..e]);
    var r := ItemsFrom(b, i, out, depth);
    if Peeks(b, e, COMMA) {
      var rest := ItemsSound(b, e + 1, out + [v.value], depth);
      items := [x] + rest;
      ConsItems(x, rest, out, depth + 1);
      assert b[i..r.next] == b[i..e] + ([b[e]] + b[e + 1..r.next]);
    } else {
      items := [x] + [];
      NoMeaning([]);
      ConsItems(x, [], out, depth + 1);
      assert b[i..r.next] == b[i..e] + [b[e]];
      assert b[i..e] + [] == b[i..e];
    }
  }

  lemma NoMeaning(m: seq<Field>)
    ensures ItemsMeaning([]) == [] && MembersMeaning(m, []) == m
    ensures ItemsOk([]) && MembersOk([]) && forall depth :: ItemsWithin([], depth) && MembersWithin([], depth)
  {
  }

  lemma ObjectSound(b: seq<Byte>, i: nat, depth: nat) returns (d: Doc)
    requires i < |b| && b[i] == OPEN_BRACE && depth <= MAX_DEPTH && ObjectAt(b, i, depth).Ok?
    ensures WasRead(b, i, d, depth, ObjectAt(b, i, depth))
    decreases |b| - i, 2
  {
    hide FieldsFrom, SkipSpace, RenderMembers, MembersMeaning, MemberOk, Blank, Within, MembersWithin;
    var j := SkipSpace(b, i + 1);
    var r := ObjectAt(b, i, depth);
    SkippedIsBlank(b, i + 1);
    if Peeks(b, j, CLOSE_BRACE) {
      d := EmptyMap(b[i + 1..j]);
      EmptyWithin(d, depth);
      assert r.next == j + 1;
      assert b[i..r.next] == [b[i]] + (b[i + 1..j] + [b[j]]);
    } else {
      SkipFirst(b, i + 1, [], [], depth);
      var members := MembersSound(b, i + 1, [], depth);
      d := Map(members);
      ListWithin(d, depth);
      assert b[i..r.next] == [b[i]] + b[i + 1..r.next];
    }
  }

  /** A key with its colon, as read from `s`. */
  lemma KeySound(b: seq<Byte>, s: nat) returns (ps: seq<Piece>, cb: seq<Byte>, ca: seq<Byte>)
    requires s <= |b| && KeyAt(b, s).Ok?
    ensures PiecesOk(ps) && Blank(cb) && Blank(ca)
    ensures var k := KeyAt(b, s);
      s < k.next <= |b| && k.value == PiecesMeaning(ps) && b[s..k.next] == QuoteText(ps) + (cb + ([58] + ca))
  {
    hide StringFrom, SkipSpace, QuoteText, PiecesMeaning, Blank;
    ps := QuoteSound(b, s);
    var n := StringFrom(b, s + 1, []).next;
    var j := SkipSpace(b, n);
    var k := KeyAt(b, s);
    SkippedIsBlank(b, n);
    SkippedIsBlank(b, j + 1);
    cb, ca := b[n..j], b[j + 1..k.next];
    assert b[s..k.next] == b[s..n] + (b[n..j] + ([b[j]] + b[j + 1..k.next]));
  }

  /** One member from its parts. */
  lemma MemberRead(b: seq<Byte>, i: nat, s: nat, key: seq<Byte>, k: nat, d: Doc, n: nat, e: nat, x: Member)
    requires i <= s <= k <= n <= e <= |b| && DocOk(d) && b[s..k] == key && b[k..n] == Render(d)
    requires x.before == b[i..s] && x.doc == d && x.after == b[n..e]
    requires PiecesOk(x.key) && key == QuoteText(x.key) + (x.colonBefore + ([58] + x.colonAfter))
    requires Blank(b[i..s]) && Blank(x.colonBefore) && Blank(x.colonAfter) && Blank(b[n..e])
    ensures MemberOk(x) && RenderMember(x) == b[i..e]
  {
    hide Render, DocOk, QuoteText, Blank;
    var q, cb, ca, v, a := QuoteText(x.key), x.colonBefore, x.colonAfter, Render(d), x.after;
    assert b[i..e] == b[i..s] + (b[s..k] + (b[k..n] + b[n..e]));
    Regroup(q, cb, [58] + ca, v + a);
    Regroup(cb, [58], ca, v + a);
    assert q + (cb + ([58] + ca)) + (v + a) == q + (cb + ([58] + (ca + (v + a))));
  }

  lemma KeyIsAhead(b: seq<Byte>, s: nat)
    requires s <= |b| && KeyAt(b, s).Ok?
    ensures s < KeyAt(b, s).next <= |b|
  {
  }

  /** The member at `i`, whose value was written as `d`. */
  lemma MemberSound(b: seq<Byte>, i: nat, d: Doc, depth: nat) returns (x: Member)
    requires i <= |b| && SkipSpace(b, i) <= |b| && KeyAt(b, SkipSpace(b, i)).Ok?
    requires var k := KeyAt(b, SkipSpace(b, i));
      k.next <= |b| && WasRead(b, k.next, d, depth + 1, ValueAt(b, k.next, depth + 1))
    ensures var k := KeyAt(b, SkipSpace(b, i));
      var e := SkipSpace(b, ValueAt(b, k.next, depth + 1).next);
      && MemberOk(x) && i <= e <= |b| && RenderMember(x) == b[i..e] && x.doc == d
      && PiecesOk(x.key) && PiecesMeaning(x.key) == k.value
  {
    hide ValueAt, KeyAt, SkipSpace, Render, Meaning, DocOk, Within, Blank, MemberOk, RenderMember, PiecesMeaning, QuoteText;
    var s := SkipSpace(b, i);
    var k := KeyAt(b, s);
    var ps, cb, ca := KeySound(b, s);
    var v := ValueAt(b, k.next, depth + 1);
    var e := SkipSpace(b, v.next);
    SkippedIsBlank(b, i);
    SkippedIsBlank(b, v.next);
    x := Member(b[i..s], ps, cb, ca, d, b[v.next..e]);
    MemberRead(b, i, s, b[s..k.next], k.next, d, v.next, e, x);
  }

  lemma ConsMembers(x: Member, members: seq<Member>, m: seq<Field>, depth: nat)
    requires MemberOk(x) && MembersOk(members) && Within(x.doc, depth) && MembersWithin(members, depth)
    ensures MembersWithin([x] + members, depth)
    ensures MembersOk([x] + members) && DocOk(x.doc) && PiecesOk(x.key)
    ensures RenderMembers([x] + members) == RenderMember(x) + (if members == [] then [] else [44] + RenderMembers(members))
    ensures MembersMeaning(m, [x] + members)
         == MembersMeaning(Insert(m, PiecesMeaning(x.key), Meaning(x.doc)), members)
  {
    hide Render, DocOk, Meaning, RenderMember, Insert, PiecesMeaning, Within;
    assert MemberOk(x);
    assert ([x] + members)[1..] == members;
  }

  lemma {:induction false} MembersSound(b: seq<Byte>, i: nat, m: seq<Field>, depth: nat) returns (members: seq<Member>)
    requires i <= |b| && FieldsFrom(b, i, m, depth).Ok?
    ensures members != [] && MembersOk(members) && MembersWithin(members, depth + 1)
    ensures var r := FieldsFrom(b, i, m, depth);
      i < r.next <= |b| && b[i..r.next] == RenderMembers(members) + [125] && r.value == Obj(MembersMeaning(m, members))
    decreases |b| - i, 4
  {
    hide ValueAt, KeyAt, SkipSpace, RenderMembers, MembersMeaning, Render, Meaning, DocOk, Within, Blank, MemberOk,
      RenderMember, Insert, PiecesMeaning, QuoteText, MembersOk, MembersWithin;
    var s := SkipSpace(b, i);
    var k := KeyAt(b, s);
    KeyIsAhead(b, s);
    SkippedIsBlank(b, i);
    var v := ValueAt(b, k.next, depth + 1);
    var d := ValueSound(b, k.next, depth + 1);
    var e := SkipSpace(b, v.next);
    var x := MemberSound(b, i, d, depth);
    var more := Insert(m, k.value, v.value);
    var r := FieldsFrom(b, i, m, depth);
    if Peeks(b, e, COMMA) {
      var rest := MembersSound(b, e + 1, more, depth);
      members := [x] + rest;
      ConsMembers(x, rest, m, depth + 1);
      assert b[i..r.next] == b[i..e] + ([b[e]] + b[e + 1..r.next]);
    } else {
      members := [x] + [];
      NoMeaning(more);
      ConsMembers(x, [], m, depth + 1);
      assert b[i..r.next] == b[i..e] + [b[e]];
      assert b[i..e] + [] == b[i..e];
    }
  }

  // ---- whole texts ----

  /** `b` is `d` with white space around it. */
  ghost predicate Denotes(b: seq<Byte>, before: seq<Byte>, d: Doc, after: seq<Byte>) {
    Blank(before) && Blank(after) && DocOk(d) && b == before + (Render(d) + after)
  }

  /** How a document with white space around it is read, whatever comes behind. */
  lemma DocAtStart(b: seq<Byte>, before: seq<Byte>, d: Doc, after: seq<Byte>, t: seq<Byte>)
    requires Blank(before) && Blank(after) && DocOk(d) && b == before + (Render(d) + (after + t))
    requires t == [] || (!IsSpace(t[0]) && (d.Numb? && after == [] ==> !IsNumberByte(t[0])))
    ensures var n := |before| + |Render(d)|;
      && n <= |b| && SkipSpace(b, 0) == |before| && SkipSpace(b, n) == n + |after|
      && ParsedBack(ValueAt(b, |before|, 0), Within(d, 0), Meaning(d), n)
  {
    hide Render, DocOk, Meaning, ValueAt, Within, SkipSpace, At, Ends, Blank, IsSpace, IsNumberByte, ParsedBack;
    DocStarts(d);
    PartsOfText(b, before, Render(d), after + t);
    EndsAt(b, |before| + |Render(d)|, d, after, t);
    DocComplete(b, |before|, d, 0);
  }

  lemma EndsAt(b: seq<Byte>, n: nat, d: Doc, after: seq<Byte>, t: seq<Byte>)
    requires At(b, n, after + t) && n + |after + t| == |b| && Blank(after)
    requires t == [] || (!IsSpace(t[0]) && (d.Numb? && after == [] ==> !IsNumberByte(t[0])))
    ensures Ends(b, n, d) && SkipSpace(b, n) == n + |after|
  {
    hide At, SkipSpace;
    AtConcat(b, n, after, t);
    if t != [] {
      AtByte(b, n + |after|, t, 0);
    }
    if after != [] {
      AtByte(b, n, after, 0);
    }
    SkipBlank(b, n, after);
  }

  lemma PartsOfText(b: seq<Byte>, before: seq<Byte>, x: seq<Byte>, rest: seq<Byte>)
    requires b == before + (x + rest) && Blank(before) && x != [] && !IsSpace(x[0])
    ensures SkipSpace(b, 0) == |before| && At(b, |before|, x) && At(b, |before| + |x|, rest)
    ensures |before| + |x| + |rest| == |b|
  {
    hide SkipSpace, Blank, IsSpace, At;
    assert At(b, 0, b) by { WholeIsAt(b); }
    BlankBefore(b, 0, before, x + rest);
    AtConcat(b, |before|, x, rest);
  }

  lemma WholeIsAt(b: seq<Byte>)
    ensures At(b, 0, b)
  {
    assert b[0..|b|] == b;
  }

  /** The texts that are accepted, and their values: exactly the documents nested no deeper than sixteen
      levels, with white space around them, and what they mean. */
  lemma ParseIsDenotation(b: seq<Byte>, v: Json)
    ensures Parse(b) == Ok(v, |b|) <==> exists before, d, after :: Denotes(b, before, d, after) && Within(d, 0) && Meaning(d) == v
    ensures Parse(b).Ok? ==> Parse(b).next == |b|
  {
    hide Render, DocOk, Meaning, ValueAt, Within, SkipSpace, Blank;
    if Parse(b).Ok? {
      var i := SkipSpace(b, 0);
      var r := ValueAt(b, i, 0);
      var d := ValueSound(b, i, 0);
      SkippedIsBlank(b, 0);
      SkippedIsBlank(b, r.next);
      assert b == b[..i] + (b[i..r.next] + b[r.next..]);
      assert b[0..i] == b[..i] && b[r.next..|b|] == b[r.next..];
      assert Denotes(b, b[..i], d, b[r.next..]);
    }
    if before, d, after :| Denotes(b, before, d, after) && Within(d, 0) && Meaning(d) == v {
      assert before + (Render(d) + after) == before + (Render(d) + (after + []));
      DocAtStart(b, before, d, after, []);
    }
  }

  /** A document nested deeper is refused for that. */
  lemma TooDeepIsSaid(b: seq<Byte>, before: seq<Byte>, d: Doc, after: seq<Byte>)
    requires Denotes(b, before, d, after) && !Within(d, 0)
    ensures Parse(b).Err? && Parse(b).what == TooDeep
  {
    hide Render, DocOk, Meaning, ValueAt, Within, SkipSpace, Blank;
    assert before + (Render(d) + after) == before + (Render(d) + (after + []));
    DocAtStart(b, before, d, after, []);
  }

  /** Whatever comes behind a document is refused, at its first byte. */
  lemma GarbageIsRefused(before: seq<Byte>, d: Doc, after: seq<Byte>, t: seq<Byte>)
    requires Blank(before) && Blank(after) && DocOk(d) && Within(d, 0)
    requires t != [] && !IsSpace(t[0]) && (d.Numb? && after == [] ==> !IsNumberByte(t[0]))
    ensures Parse(before + (Render(d) + (after + t))) == Err(|before| + |Render(d)| + |after|, TrailingGarbage)
  {
    hide Render, DocOk, Meaning, ValueAt, Within, SkipSpace, Blank;
    DocAtStart(before + (Render(d) + (after + t)), before, d, after, t);
  }
}
