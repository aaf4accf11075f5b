/** Where a text that is no document is refused, and as what: at its first defect, however deep that lies,
    and whatever follows it. What precedes the defect is described by writing it, as for documents. */
module JsonErrors {
  import opened Basics
  import opened Utf8
  import opened Json
  import opened JsonGrammar
  import opened JsonTexts
  import opened JsonRoundTrip
  import opened JsonDenotation
  import opened JsonSoundness

  // ---- strings ----

  lemma {:induction false} PiecesSkipped(b: seq<Byte>, i: nat, ps: seq<Piece>, out: Text)
    requires PiecesOk(ps) && At(b, i, PiecesText(ps))
    ensures StringFrom(b, i, out) == StringFrom(b, i + |PiecesText(ps)|, out + PiecesMeaning(ps))
    decreases |ps|
  {
    hide At, PieceText, PieceMeaning, StringFrom;
    if ps == [] {
      assert out + PiecesMeaning(ps) == out;
    } else {
      AtConcat(b, i, PieceText(ps[0]), PiecesText(ps[1..]));
      PieceComplete(b, i, ps[0], out);
      PiecesSkipped(b, i + |PieceText(ps[0])|, ps[1..], out + [PieceMeaning(ps[0])]);
      assert out + [PieceMeaning(ps[0])] + PiecesMeaning(ps[1..]) == out + PiecesMeaning(ps);
    }
  }

  /** Four bytes that are no digits of a Unicode escape. */
  ghost predicate NoDigits(h: seq<Byte>) {
    forall plus, digits :: PieceOk(Unicode(plus, digits)) ==> PieceText(Unicode(plus, digits)) != [92, 117] + h
  }

  /** How long the encoding of a character is that starts with this byte. */
  function LeadLength(c: Byte): nat {
    if c < 0xE0 then 2 else if c < 0xF0 then 3 else 4
  }

  /** The position and the kind of a defect at `q` inside a string, where another piece or the closing
      quote should be. */
  ghost predicate StringDefect(b: seq<Byte>, q: nat, at: nat, what: Problem)
    requires q <= |b|
  {
    match what
    case UnterminatedString => q == |b| && at == q
    case RawControl => q < |b| && b[q] < 0x20 && at == q + 1
    case TruncatedEscape => q + 1 == |b| && b[q] == 92 && at == q + 1
    case UnknownEscape => q + 1 < |b| && b[q] == 92 && b[q + 1] != 117 && b[q + 1] !in LETTERS && at == q + 2
    case TruncatedUnicode => q + 1 < |b| && |b| < q + 6 && b[q] == 92 && b[q + 1] == 117 && at == q + 2
    case InvalidUnicode =>
      q + 6 <= |b| && b[q] == 92 && b[q + 1] == 117 && FromUtf8(b[q + 2..q + 6]).None? && at == q + 2
    case NotHex =>
      && q + 6 <= |b| && b[q] == 92 && b[q + 1] == 117 && FromUtf8(b[q + 2..q + 6]).Some?
      && NoDigits(b[q + 2..q + 6]) && at == q + 2
    case InvalidUtf8 =>
      && q < |b| && (0x80 <= b[q] < 0xC0 || b[q] >= 0xF8 ==> at == q + 1)
      && b[q] >= 0x80
      && (0xC0 <= b[q] < 0xF8 ==> at <= |b| && at == q + LeadLength(b[q]) && FromUtf8(b[q..at]).None?)
    case TruncatedUtf8 => q < |b| && 0xC0 <= b[q] < 0xF8 && |b| < q + LeadLength(b[q]) == at
    case _ => false
  }

  lemma NoDigitsIsNotHex(b: seq<Byte>, q: nat)
    requires q + 6 <= |b| && b[q] == 92 && b[q + 1] == 117 && NoDigits(b[q + 2..q + 6])
    ensures UnicodeEscape(b, q + 2).Err?
  {
    hide UnicodeEscape, PieceText;
    if UnicodeEscape(b, q + 2).Ok? {
      var p := UnicodeSound(b, q);
      assert b[q..q + 6] == [92, 117] + b[q + 2..q + 6];
      ByUnicode(p);
    }
  }

  lemma ByUnicode(p: Piece)
    requires PieceOk(p)
    ensures |PieceText(p)| > 1 && PieceText(p)[0] == 92 && PieceText(p)[1] == 117 ==> p.Unicode?
  {
  }

  lemma DefectiveString(b: seq<Byte>, q: nat, at: nat, what: Problem, out: Text)
    requires q <= |b| && StringDefect(b, q, at, what)
    ensures StringFrom(b, q, out) == Err(at, what)
  {
    hide FromUtf8, NoDigits;
    if what.NotHex? {
      NoDigitsIsNotHex(b, q);
    }
  }

  /** A string that starts at `i` with the pieces `ps` is refused for the defect behind them. */
  lemma StringRefused(b: seq<Byte>, i: nat, ps: seq<Piece>, at: nat, what: Problem)
    requires PiecesOk(ps) && At(b, i, [34] + PiecesText(ps))
    requires i + 1 + |PiecesText(ps)| <= |b| && StringDefect(b, i + 1 + |PiecesText(ps)|, at, what)
    ensures Peeks(b, i, QUOTE) && StringFrom(b, i + 1, []) == Err(at, what)
  {
    hide At, PiecesText, StringFrom, StringDefect, PiecesMeaning;
    AtConcat(b, i, [34], PiecesText(ps));
    AtByte(b, i, [34], 0);
    PiecesSkipped(b, i + 1, ps, []);
    DefectiveString(b, i + 1 + |PiecesText(ps)|, at, what, [] + PiecesMeaning(ps));
  }

  // ---- values ----

  /** Bytes of numbers that are no numeral. */
  ghost predicate NoNumeral(t: seq<Byte>) {
    forall n :: NumeralOk(n) ==> NumeralText(n) != t
  }

  /** What no value starts with. */
  predicate StartsNothing(b: seq<Byte>, i: nat)
    requires i < |b|
  {
    && b[i] != 34 && b[i] != 91 && b[i] != 123 && b[i] != 45 && !(48 <= b[i] <= 57)
    && !At(b, i, Ascii("null")) && !At(b, i, Ascii("true")) && !At(b, i, Ascii("false"))
  }

  lemma NoNumeralIsRefused(b: seq<Byte>, i: nat, t: seq<Byte>)
    requires t != [] && At(b, i, t) && (t[0] == 45 || 48 <= t[0] <= 57) && NumberBytes(t) && NoNumeral(t)
    requires i + |t| == |b| || !IsNumberByte(b[i + |t|])
    ensures i < |b| && NumberAt(b, i) == Err(i, InvalidNumber)
  {
    hide ParseFloat, NumeralText;
    AtByte(b, i, t, 0);
    NumberRun(b, i, t);
    if t[0] == MINUS {
      assert NumberEnd(b, i) == NumberEnd(b, i + 1);
    }
    if NumberAt(b, i).Ok? {
      var n := NumberSound(b, i);
    }
  }

  /** What is refused where a value should start. */
  lemma ValueRefused(b: seq<Byte>, i: nat, depth: nat)
    requires i <= |b|
    ensures depth > 16 ==> ValueAt(b, i, depth) == Err(i, TooDeep)
    ensures depth <= 16 && i == |b| ==> ValueAt(b, i, depth) == Err(i, UnexpectedEnd)
    ensures depth <= 16 && i < |b| && StartsNothing(b, i) ==> ValueAt(b, i, depth) == Err(i, UnexpectedToken)
  {
    hide At, StringFrom, NumberAt, ArrayAt, ObjectAt;
  }

  lemma StringValueRefused(b: seq<Byte>, i: nat, depth: nat, ps: seq<Piece>, at: nat, what: Problem)
    requires i <= |b| && depth <= 16 && PiecesOk(ps) && At(b, i, [34] + PiecesText(ps))
    requires i + 1 + |PiecesText(ps)| <= |b| && StringDefect(b, i + 1 + |PiecesText(ps)|, at, what)
    ensures ValueAt(b, i, depth) == Err(at, what)
  {
    hide At, StringFrom, NumberAt, ArrayAt, ObjectAt, PiecesText, StringDefect;
    LiteralHead(b, i);
    StringRefused(b, i, ps, at, what);
  }

  lemma NumberValueRefused(b: seq<Byte>, i: nat, depth: nat, t: seq<Byte>)
    requires i <= |b| && depth <= 16
    requires t != [] && At(b, i, t) && (t[0] == 45 || 48 <= t[0] <= 57) && NumberBytes(t) && NoNumeral(t)
    requires i + |t| == |b| || !IsNumberByte(b[i + |t|])
    ensures ValueAt(b, i, depth) == Err(i, InvalidNumber)
  {
    hide At, StringFrom, NumberAt, ArrayAt, ObjectAt, NumberBytes, NoNumeral, IsNumberByte;
    LiteralHead(b, i);
    NoNumeralIsRefused(b, i, t);
    AtByte(b, i, t, 0);
  }

  // ---- containers ----

  /** The items before a defect, each with its comma. */
  function Done(items: seq<Item>): seq<Byte>
    requires ItemsOk(items)
  {
    if items == [] then []
    else
      assert ItemOk(items[0]);
      RenderItem(items[0]) + ([44] + Done(items[1..]))
  }

  lemma ItemsPassed(b: seq<Byte>, i: nat, items: seq<Item>, out: seq<Json>, depth: nat)
    requires ItemsOk(items) && ItemsWithin(items, depth + 1) && i <= |b| && At(b, i, Done(items))
    ensures i + |Done(items)| <= |b|
    ensures ItemsFrom(b, i, out, depth) == ItemsFrom(b, i + |Done(items)|, out + ItemsMeaning(items), depth)
    ensures items != [] ==> !Peeks(b, SkipSpace(b, i), CLOSE_BRACKET)
    decreases |items|
  {
    hide At, RenderItem, Done, ItemsFrom, ItemsMeaning, Within, ItemOk, SkipSpace;
    NothingDone();
    if items == [] {
      assert out + [] == out;
    } else {
      var x, rest := items[0], items[1..];
      DoneUnfolds(items);
      AtConcat(b, i, RenderItem(x), [44] + Done(rest));
      var e := i + |RenderItem(x)|;
      AtConcat(b, e, [44], Done(rest));
      ItemPassed(b, i, x, Done(rest), out, depth);
      FirstItemMeans(items, out);
      DoneWithin(b, e + 1, Done(rest));
      ItemsPassed(b, e + 1, rest, out + [Meaning(x.doc)], depth);
    }
  }

  lemma OnlyItems(items: seq<Item>)
    requires ItemsOk(items)
    ensures [] + ItemsMeaning(items) == ItemsMeaning(items)
  {
  }

  lemma NothingDone()
    ensures ItemsMeaning([]) == [] && Done([]) == []
  {
  }

  lemma DoneUnfolds(items: seq<Item>)
    requires ItemsOk(items) && items != []
    ensures ItemOk(items[0]) && DocOk(items[0].doc) && ItemsOk(items[1..])
    ensures Done(items) == RenderItem(items[0]) + ([44] + Done(items[1..]))
  {
    hide DocOk, Render;
    assert ItemOk(items[0]);
  }

  lemma DoneWithin(b: seq<Byte>, i: nat, t: seq<Byte>)
    requires At(b, i, t)
    ensures i + |t| <= |b|
  {
  }

  /** One item and its comma. */
  lemma ItemPassed(b: seq<Byte>, i: nat, x: Item, t: seq<Byte>, out: seq<Json>, depth: nat)
    requires ItemOk(x) && DocOk(x.doc) && Within(x.doc, depth + 1) && i <= |b| && At(b, i, RenderItem(x) + ([44] + t))
    ensures var e := i + |RenderItem(x)|;
      e < |b| && ItemsFrom(b, i, out, depth) == ItemsFrom(b, e + 1, out + [Meaning(x.doc)], depth)
    ensures !Peeks(b, SkipSpace(b, i), CLOSE_BRACKET)
  {
    hide At, Render, DocOk, Meaning, SkipSpace, ValueAt, Within, Ends, Blank, IsSpace, IsNumberByte;
    var tail := [44] + t;
    Regroup(x.before, Render(x.doc), x.after, tail);
    DocStarts(x.doc);
    BlankBefore(b, i, x.before, Render(x.doc) + (x.after + tail));
    var s := i + |x.before|;
    AtConcat(b, s, Render(x.doc), x.after + tail);
    var n := s + |Render(x.doc)|;
    CommaIsNone();
    EndsBefore(b, n, x.doc, x.after, tail);
    BlankBefore(b, n, x.after, tail);
    DocComplete(b, s, x.doc, depth + 1);
  }

  lemma CommaIsNone()
    ensures !IsSpace(44) && !IsNumberByte(44)
  {
  }

  /** Where a list stands when it has passed some items. */
  lemma ListReaches(b: seq<Byte>, i: nat, items: seq<Item>, before: seq<Byte>, depth: nat)
    requires ItemsOk(items) && ItemsWithin(items, depth + 1) && Blank(before) && depth <= 16
    requires At(b, i, [91] + (Done(items) + before))
    requires var p := i + 1 + |Done(items)| + |before|; p == |b| || (p < |b| && !IsSpace(b[p]))
    requires items == [] ==> !Peeks(b, i + 1 + |Done(items)| + |before|, 93)
    ensures var c := i + 1 + |Done(items)|; var p := c + |before|;
      && p <= |b| && SkipSpace(b, c) == p && ValueAt(b, i, depth) == ItemsFrom(b, c, ItemsMeaning(items), depth)
  {
    hide At, Done, ValueAt, SkipSpace, Blank, IsSpace, ItemsMeaning, ItemsWithin, ItemsOk, ItemsFrom;
    Opened(b, i, 91, Done(items), before);
    ItemsPassed(b, i + 1, items, [], depth);
    OnlyItems(items);
    if items == [] {
      NothingDone();
    }
    OpenDispatch(b, i, depth);
  }

  /** An opening byte, what has been passed, and white space up to the next byte. */
  lemma Opened(b: seq<Byte>, i: nat, open: Byte, done: seq<Byte>, before: seq<Byte>)
    requires Blank(before) && At(b, i, [open] + (done + before))
    requires var p := i + 1 + |done| + |before|; p == |b| || (p < |b| && !IsSpace(b[p]))
    ensures i < |b| && b[i] == open && At(b, i + 1, done)
    ensures var c := i + 1 + |done|; c + |before| <= |b| && SkipSpace(b, c) == c + |before|
  {
    hide At, SkipSpace, Blank, IsSpace;
    AtConcat(b, i, [open], done + before);
    AtByte(b, i, [open], 0);
    AtConcat(b, i + 1, done, before);
    DoneWithin(b, i + 1 + |done|, before);
    SkipBlank(b, i + 1 + |done|, before);
  }

  /** A list is refused for the defect of its first defective item, and for what follows an item if that
      is neither a comma nor the closing bracket. */
  lemma ListRefused(b: seq<Byte>, i: nat, items: seq<Item>, before: seq<Byte>, depth: nat)
    requires ItemsOk(items) && ItemsWithin(items, depth + 1) && Blank(before) && depth <= 16
    requires At(b, i, [91] + (Done(items) + before))
    requires var p := i + 1 + |Done(items)| + |before|; p == |b| || (p < |b| && !IsSpace(b[p]))
    requires items == [] ==> !Peeks(b, i + 1 + |Done(items)| + |before|, 93)
    ensures i + 1 + |Done(items)| + |before| <= |b|
    ensures var v := ValueAt(b, i + 1 + |Done(items)| + |before|, depth + 1);
      && (v.Err? ==> ValueAt(b, i, depth) == v)
      && (v.Ok? ==>
        var j := SkipSpace(b, v.next);
        !Peeks(b, j, 44) && !Peeks(b, j, 93) ==> ValueAt(b, i, depth) == Err(j, ExpectedCommaOrBracket))
  {
    hide At, Done, ValueAt, SkipSpace, Blank, IsSpace, ItemsMeaning, ItemsWithin, ItemsOk;
    ListReaches(b, i, items, before, depth);
  }

  /** The members before a defect, each with its comma. */
  function DoneMembers(members: seq<Member>): seq<Byte>
    requires MembersOk(members)
  {
    if members == [] then []
    else
      assert MemberOk(members[0]);
      RenderMember(members[0]) + ([44] + DoneMembers(members[1..]))
  }

  lemma DoneMembersUnfolds(members: seq<Member>)
    requires MembersOk(members) && members != []
    ensures MemberOk(members[0]) && DocOk(members[0].doc) && PiecesOk(members[0].key) && MembersOk(members[1..])
    ensures DoneMembers(members) == RenderMember(members[0]) + ([44] + DoneMembers(members[1..]))
  {
    hide DocOk, Render;
    assert MemberOk(members[0]);
  }

  /** The first member and the comma behind it. */
  lemma MemberPassed(b: seq<Byte>, i: nat, x: Member, t: seq<Byte>, m: seq<Field>, depth: nat)
    requires MemberOk(x) && DocOk(x.doc) && PiecesOk(x.key) && Within(x.doc, depth + 1)
    requires i <= |b| && At(b, i, RenderMember(x) + ([44] + t))
    ensures SkipSpace(b, i) < |b| && b[SkipSpace(b, i)] == QUOTE
    ensures var e := i + |RenderMember(x)|;
      e < |b| && FieldsFrom(b, i, m, depth) == FieldsFrom(b, e + 1, Insert(m, PiecesMeaning(x.key), Meaning(x.doc)), depth)
  {
    hide At, Render, DocOk, Meaning, SkipSpace, ValueAt, Within, Ends, Blank, IsSpace, IsNumberByte, KeyAt, QuoteText,
      PiecesMeaning, Insert;
    var tail := [44] + t;
    var v := Render(x.doc);
    MemberText(x, tail);
    DocStarts(x.doc);
    KeyComplete(b, i, x, v + (x.after + tail));
    var s := i + |x.before| + |QuoteText(x.key)| + |x.colonBefore| + 1 + |x.colonAfter|;
    AtConcat(b, s, v, x.after + tail);
    AtByte(b, s, v, 0);
    var n := s + |v|;
    CommaIsNone();
    EndsBefore(b, n, x.doc, x.after, tail);
    BlankBefore(b, n, x.after, tail);
    DocComplete(b, s, x.doc, depth + 1);
  }

  lemma {:induction false} MembersPassed(b: seq<Byte>, i: nat, members: seq<Member>, m: seq<Field>, depth: nat)
    requires MembersOk(members) && MembersWithin(members, depth + 1) && i <= |b| && At(b, i, DoneMembers(members))
    ensures i + |DoneMembers(members)| <= |b|
    ensures FieldsFrom(b, i, m, depth) == FieldsFrom(b, i + |DoneMembers(members)|, MembersMeaning(m, members), depth)
    ensures members != [] ==> SkipSpace(b, i) < |b| && b[SkipSpace(b, i)] == QUOTE
    decreases |members|
  {
    hide At, RenderMember, DoneMembers, FieldsFrom, Within, MemberOk, SkipSpace, Insert, Meaning, PiecesMeaning;
    DoneWithin(b, i, DoneMembers(members));
    if members == [] {
      NoMemberDone();
    } else {
      var x, rest := members[0], members[1..];
      DoneMembersUnfolds(members);
      AtConcat(b, i, RenderMember(x), [44] + DoneMembers(rest));
      var e := i + |RenderMember(x)|;
      AtConcat(b, e, [44], DoneMembers(rest));
      MemberPassed(b, i, x, DoneMembers(rest), m, depth);
      MembersPassed(b, e + 1, rest, Insert(m, PiecesMeaning(x.key), Meaning(x.doc)), depth);
    }
  }

  lemma NoMemberDone()
    ensures DoneMembers([]) == []
  {
  }

  /** Where an object stands when it has passed some members. */
  lemma MapReaches(b: seq<Byte>, i: nat, members: seq<Member>, before: seq<Byte>, depth: nat)
    requires MembersOk(members) && MembersWithin(members, depth + 1) && Blank(before) && depth <= 16
    requires At(b, i, [123] + (DoneMembers(members) + before))
    requires var p := i + 1 + |DoneMembers(members)| + |before|; p == |b| || (p < |b| && !IsSpace(b[p]))
    requires members == [] ==> !Peeks(b, i + 1 + |DoneMembers(members)| + |before|, 125)
    ensures var c := i + 1 + |DoneMembers(members)|; var p := c + |before|;
      && p <= |b| && SkipSpace(b, c) == p && ValueAt(b, i, depth) == FieldsFrom(b, c, MembersMeaning([], members), depth)
  {
    hide At, DoneMembers, ValueAt, SkipSpace, Blank, IsSpace, MembersMeaning, MembersWithin, MembersOk, FieldsFrom;
    Opened(b, i, 123, DoneMembers(members), before);
    MembersPassed(b, i + 1, members, [], depth);
    if members == [] {
      NoMemberDone();
    }
    OpenDispatch(b, i, depth);
  }

  /** An object is refused where a key should be and no string starts, and for the defect of a key. */
  lemma KeyRefused(b: seq<Byte>, i: nat, members: seq<Member>, before: seq<Byte>, depth: nat)
    requires MembersOk(members) && MembersWithin(members, depth + 1) && Blank(before) && depth <= 16
    requires At(b, i, [123] + (DoneMembers(members) + before))
    requires var p := i + 1 + |DoneMembers(members)| + |before|; p == |b| || (p < |b| && !IsSpace(b[p]))
    requires members == [] ==> !Peeks(b, i + 1 + |DoneMembers(members)| + |before|, 125)
    ensures var p := i + 1 + |DoneMembers(members)| + |before|;
      && (!Peeks(b, p, 34) ==> ValueAt(b, i, depth) == Err(p, KeyNotString))
      && (Peeks(b, p, 34) ==>
        var k := StringFrom(b, p + 1, []);
        && (k.Err? ==> ValueAt(b, i, depth) == Err(k.at, k.what))
        && (k.Ok? ==>
          var j := SkipSpace(b, k.next);
          !Peeks(b, j, 58) ==> ValueAt(b, i, depth) == Err(j, ExpectedColon)))
  {
    hide At, DoneMembers, ValueAt, SkipSpace, Blank, IsSpace, MembersMeaning, MembersWithin, MembersOk, StringFrom;
    MapReaches(b, i, members, before, depth);
  }

  /** And it is refused for the defect of a member's value, and for what follows a member if that is neither
      a comma nor the closing brace. */
  lemma MapRefused(b: seq<Byte>, i: nat, members: seq<Member>, before: seq<Byte>, depth: nat)
    requires MembersOk(members) && MembersWithin(members, depth + 1) && Blank(before) && depth <= 16
    requires At(b, i, [123] + (DoneMembers(members) + before))
    requires var p := i + 1 + |DoneMembers(members)| + |before|; p < |b| && b[p] == 34 && KeyAt(b, p).Ok?
    ensures var v := ValueAt(b, KeyAt(b, i + 1 + |DoneMembers(members)| + |before|).next, depth + 1);
      && (v.Err? ==> ValueAt(b, i, depth) == v)
      && (v.Ok? ==>
        var j := SkipSpace(b, v.next);
        !Peeks(b, j, 44) && !Peeks(b, j, 125) ==> ValueAt(b, i, depth) == Err(j, ExpectedCommaOrBrace))
  {
    hide At, DoneMembers, ValueAt, SkipSpace, Blank, MembersMeaning, MembersWithin, MembersOk, KeyAt;
    MapReaches(b, i, members, before, depth);
  }

  // ---- however deep ----

  /** A container that is open where the defect lies: a list after some items, or an object after some
      members and the key of the one that is defective. */
  datatype Frame =
    | InList(items: seq<Item>, before: seq<Byte>)
    | InMap(members: seq<Member>, before: seq<Byte>, key: seq<Piece>, colonBefore: seq<Byte>, colonAfter: seq<Byte>)

  predicate FrameOk(f: Frame, depth: nat) {
    match f
    case InList(items, before) => ItemsOk(items) && ItemsWithin(items, depth + 1) && Blank(before)
    case InMap(members, before, key, cb, ca) =>
      MembersOk(members) && MembersWithin(members, depth + 1) && Blank(before) && PiecesOk(key) && Blank(cb) && Blank(ca)
  }

  function FrameText(f: Frame, depth: nat): (t: seq<Byte>)
    requires FrameOk(f, depth)
    ensures t != []
  {
    match f
    case InList(items, before) => [91] + (Done(items) + before)
    case InMap(members, before, key, cb, ca) =>
      [123] + (DoneMembers(members) + before) + (QuoteText(key) + (cb + ([58] + ca)))
  }

  lemma FrameStarts(f: Frame, depth: nat)
    requires FrameOk(f, depth)
    ensures FrameText(f, depth)[0] == 91 || FrameText(f, depth)[0] == 123
  {
    hide Done, DoneMembers, QuoteText;
  }

  /** A key and its colon, with the white space around it, up to `p`. */
  lemma KeyReached(b: seq<Byte>, s: nat, key: seq<Piece>, cb: seq<Byte>, ca: seq<Byte>)
    requires PiecesOk(key) && Blank(cb) && Blank(ca) && At(b, s, QuoteText(key) + (cb + ([58] + ca)))
    requires var p := s + |QuoteText(key)| + |cb| + 1 + |ca|; p == |b| || (p < |b| && !IsSpace(b[p]))
    ensures Peeks(b, s, 34) && KeyAt(b, s) == Ok(PiecesMeaning(key), s + |QuoteText(key)| + |cb| + 1 + |ca|)
  {
    hide At, QuoteText, PiecesMeaning, StringFrom, SkipSpace;
    AtConcat(b, s, QuoteText(key), cb + ([58] + ca));
    QuoteComplete(b, s, key);
    var k := s + |QuoteText(key)|;
    BlankBefore(b, k, cb, [58] + ca);
    AtConcat(b, k + |cb|, [58], ca);
    SkipBlank(b, k + |cb| + 1, ca);
  }

  lemma FrameRefused(b: seq<Byte>, i: nat, f: Frame, depth: nat)
    requires FrameOk(f, depth) && depth <= 16 && At(b, i, FrameText(f, depth))
    requires var p := i + |FrameText(f, depth)|; p == |b| || (p < |b| && !IsSpace(b[p]) && b[p] != 93)
    ensures i + |FrameText(f, depth)| <= |b|
    ensures var v := ValueAt(b, i + |FrameText(f, depth)|, depth + 1); v.Err? ==> ValueAt(b, i, depth) == v
  {
    hide At, Done, DoneMembers, QuoteText, ValueAt, SkipSpace, Blank, KeyAt;
    match f
    case InList(items, before) =>
      ListRefused(b, i, items, before, depth);
    case InMap(members, before, key, cb, ca) =>
      AtConcat(b, i, [123] + (DoneMembers(members) + before), QuoteText(key) + (cb + ([58] + ca)));
      KeyReached(b, i + 1 + |DoneMembers(members)| + |before|, key, cb, ca);
      MapRefused(b, i, members, before, depth);
  }

  predicate FramesOk(fs: seq<Frame>, depth: nat)
    decreases |fs|
  {
    fs == [] || (depth <= 16 && FrameOk(fs[0], depth) && FramesOk(fs[1..], depth + 1))
  }

  function FramesText(fs: seq<Frame>, depth: nat): seq<Byte>
    requires FramesOk(fs, depth)
    decreases |fs|
  {
    if fs == [] then [] else FrameText(fs[0], depth) + FramesText(fs[1..], depth + 1)
  }

  /** Inside any number of open containers a defective value is refused as it would be alone, at its own
      position. */
  lemma {:induction false} DeepRefused(b: seq<Byte>, i: nat, fs: seq<Frame>, depth: nat)
    requires FramesOk(fs, depth) && i <= |b| && At(b, i, FramesText(fs, depth))
    requires var p := i + |FramesText(fs, depth)|; p == |b| || (p < |b| && !IsSpace(b[p]) && b[p] != 93)
    ensures i + |FramesText(fs, depth)| <= |b|
    ensures var v := ValueAt(b, i + |FramesText(fs, depth)|, depth + |fs|); v.Err? ==> ValueAt(b, i, depth) == v
    decreases |fs|
  {
    hide At, FrameText, FrameOk, ValueAt;
    if fs != [] {
      var t, rest := FrameText(fs[0], depth), FramesText(fs[1..], depth + 1);
      AtConcat(b, i, t, rest);
      if |fs| > 1 {
        FrameStarts(fs[1], depth + 1);
        AtByte(b, i + |t|, rest, 0);
      }
      DoneWithin(b, i + |t|, rest);
      DeepRefused(b, i + |t|, fs[1..], depth + 1);
      FrameRefused(b, i, fs[0], depth);
    }
  }

  /** A whole text is refused for the defect of its value, at the same position. */
  lemma TextRefused(b: seq<Byte>, before: seq<Byte>)
    requires Blank(before) && At(b, 0, before) && (|before| == |b| || !IsSpace(b[|before|]))
    ensures ValueAt(b, |before|, 0).Err? ==> Parse(b) == ValueAt(b, |before|, 0)
  {
    hide ValueAt, SkipSpace, At;
    SkipBlank(b, 0, before);
  }
}
