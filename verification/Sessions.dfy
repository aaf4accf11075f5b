/** Whole sessions on the control socket: what a client writes, in the documented forms, from the bytes of
    the stream to the commands that run. */
module Sessions {
  import opened Basics
  import opened Utf8
  import opened Json
  import opened JsonGrammar
  import opened JsonRoundTrip
  import opened ReplyLines
  import opened ControlProtocol
  import opened Requests
  import LR = LineReader

  // ---- printed text is well-formed UTF-8 ----

  lemma {:induction false} EncodeConcat(s: Text, t: Text)
    ensures Encode(s + t) == Encode(s) + Encode(t)
  {
    hide EncodeScalar;
    if s == [] {
      assert s + t == t;
    } else {
      EncodeConcat(s[1..], t);
      assert (s + t)[1..] == s[1..] + t;
    }
  }

  ghost predicate IsUtf8(b: seq<Byte>) {
    FromUtf8(b).Some?
  }

  lemma ConcatIsUtf8(a: seq<Byte>, b: seq<Byte>)
    requires IsUtf8(a) && IsUtf8(b)
    ensures IsUtf8(a + b)
  {
    hide FromUtf8;
    DecodeRoundTrip(a);
    DecodeRoundTrip(b);
    EncodeConcat(FromUtf8(a).value, FromUtf8(b).value);
    EncodeRoundTrip(FromUtf8(a).value + FromUtf8(b).value);
  }

  lemma ByteIsUtf8(b: Byte)
    requires b < 0x80
    ensures IsUtf8([b])
  {
    AsciiIsUtf8([b]);
  }

  lemma EnclosedIsUtf8(open: Byte, t: seq<Byte>, close: Byte)
    requires open < 0x80 && close < 0x80 && IsUtf8(t)
    ensures IsUtf8([open] + t + [close])
  {
    hide IsUtf8;
    ByteIsUtf8(open);
    ByteIsUtf8(close);
    ConcatIsUtf8([open], t);
    ConcatIsUtf8([open] + t, [close]);
  }

  lemma EscapeScalarIsUtf8(c: Scalar)
    ensures IsUtf8(EscapeScalar(c))
  {
    hide EncodeScalar, FromUtf8;
    if c < 0x20 || c == 34 || c == 92 {
      AsciiIsUtf8(EscapeScalar(c));
    } else {
      EncodeRoundTrip([c]);
      assert [c][1..] == [] && Encode([c]) == EncodeScalar(c) + [] == EncodeScalar(c);
    }
  }

  lemma {:induction false} EscapeIsUtf8(s: Text)
    ensures IsUtf8(Escape(s))
  {
    hide EscapeScalar, IsUtf8;
    if s == [] {
      NothingIsUtf8();
    } else {
      EscapeScalarIsUtf8(s[0]);
      EscapeIsUtf8(s[1..]);
      ConcatIsUtf8(EscapeScalar(s[0]), Escape(s[1..]));
    }
  }

  lemma NothingIsUtf8()
    ensures IsUtf8([])
  {
  }

  lemma QuotedIsUtf8(s: Text)
    ensures IsUtf8(Quoted(s))
  {
    EscapeIsUtf8(s);
    EnclosedIsUtf8(QUOTE, Escape(s), QUOTE);
  }

  lemma DecimalIsUtf8(n: int)
    ensures IsUtf8(Decimal(n))
  {
    hide Decimal, ParseFloat;
    DecimalParses(n);
    AsciiIsUtf8(Decimal(n));
  }

  lemma {:induction false} PrintIsUtf8(j: Json)
    requires Printable(j)
    ensures IsUtf8(Print(j))
    decreases j, 1
  {
    hide IsUtf8, PrintItems, PrintFields;
    match j
    case Arr(items) =>
      ItemsAreUtf8(items);
      EnclosedIsUtf8(OPEN_BRACKET, PrintItems(items), CLOSE_BRACKET);
    case Obj(fields) =>
      FieldsAreUtf8(fields);
      EnclosedIsUtf8(OPEN_BRACE, PrintFields(fields), CLOSE_BRACE);
    case Num(number) => DecimalIsUtf8(number.n);
    case Str(s) => QuotedIsUtf8(s);
    case _ => LiteralIsUtf8(j);
  }

  lemma LiteralIsUtf8(j: Json)
    requires j.Null? || j.Bool?
    ensures IsUtf8(Print(j))
  {
    AsciiIsUtf8(Print(j));
  }

  lemma {:induction false} ItemsAreUtf8(items: seq<Json>)
    requires AllPrintable(items)
    ensures IsUtf8(PrintItems(items))
    decreases items, 0
  {
    hide IsUtf8, Print;
    if items == [] {
      NothingIsUtf8();
    } else {
      PrintIsUtf8(items[0]);
      if |items| > 1 {
        ItemsAreUtf8(items[1..]);
        ByteIsUtf8(COMMA);
        ConcatIsUtf8([COMMA], PrintItems(items[1..]));
        ConcatIsUtf8(Print(items[0]), [COMMA] + PrintItems(items[1..]));
      } else {
        assert PrintItems(items) == Print(items[0]) + [] == Print(items[0]);
      }
    }
  }

  lemma {:induction false} FieldsAreUtf8(fields: seq<Field>)
    requires FieldsPrintable(fields)
    ensures IsUtf8(PrintFields(fields))
    decreases fields, 0
  {
    hide IsUtf8, Print, Quoted, PrintField;
    if fields == [] {
      NothingIsUtf8();
    } else {
      PrintIsUtf8(fields[0].value);
      FieldIsUtf8(fields[0]);
      if |fields| > 1 {
        FieldsAreUtf8(fields[1..]);
        ByteIsUtf8(COMMA);
        ConcatIsUtf8([COMMA], PrintFields(fields[1..]));
        ConcatIsUtf8(PrintField(fields[0]), [COMMA] + PrintFields(fields[1..]));
      } else {
        assert PrintFields(fields) == PrintField(fields[0]) + [] == PrintField(fields[0]);
      }
    }
  }

  lemma FieldIsUtf8(f: Field)
    requires Printable(f.value) && IsUtf8(Print(f.value))
    ensures IsUtf8(PrintField(f))
  {
    hide IsUtf8, Print, Quoted;
    QuotedIsUtf8(f.key);
    ByteIsUtf8(COLON);
    ConcatIsUtf8(Quoted(f.key), [COLON]);
    ConcatIsUtf8(Quoted(f.key) + [COLON], Print(f.value));
  }

  // ---- one request line ----

  /** The text of a request in its documented form. */
  function RequestLine(id: nat, cmd: Cmd): seq<Byte>
    requires Sendable(id, cmd)
  {
    RequestPrintable(id, cmd);
    LineOf(RequestFields(id, cmd))
  }

  lemma BraceIsNotSpace(line: seq<Byte>)
    requires line != [] && line[0] == OPEN_BRACE && IsUtf8(line)
    ensures !LR.IsBlank(line)
  {
    assert FromUtf8(line).value[0] == OPEN_BRACE;
  }

  lemma RequestLineIsPlain(id: nat, cmd: Cmd)
    requires Sendable(id, cmd)
    ensures var line := RequestLine(id, cmd);
      && LR.NewlineFree(line) && IsUtf8(line) && LR.TrimReturns(line) == line && !LR.IsBlank(line)
  {
    hide IsUtf8, Parse, RequestFields, PrintFields, Printable, LR.IsBlank;
    RequestPrintable(id, cmd);
    var fields := RequestFields(id, cmd);
    LineIsReadBack(fields);
    FieldsAreUtf8(fields);
    EnclosedIsUtf8(OPEN_BRACE, PrintFields(fields), CLOSE_BRACE);
    BraceIsNotSpace(LineOf(fields));
  }

  lemma RequestRuns(id: nat, cmd: Cmd, helloDone: bool, other: OtherU64)
    requires Sendable(id, cmd) && (helloDone || cmd.Hello?)
    ensures LR.Respond(RequestLine(id, cmd), helloDone, other) == LR.Run(id, cmd)
  {
    hide FromLine, LineOf, LR.IsBlank, LR.TrimReturns;
    RequestLineIsPlain(id, cmd);
    RequestRoundTrip(id, cmd, other);
  }

  // ---- a whole session ----

  datatype Request = Request(id: nat, cmd: Cmd)

  ghost predicate AllSendable(requests: seq<Request>) {
    forall k :: 0 <= k < |requests| ==> Sendable(requests[k].id, requests[k].cmd)
  }

  function LinesOf(requests: seq<Request>): (lines: seq<seq<Byte>>)
    requires forall k :: 0 <= k < |requests| ==> Sendable(requests[k].id, requests[k].cmd)
    ensures |lines| == |requests|
  {
    seq(|requests|, k requires 0 <= k < |requests| => RequestLine(requests[k].id, requests[k].cmd))
  }

  function RunsOf(requests: seq<Request>): (outcomes: seq<LR.Outcome>)
    ensures |outcomes| == |requests|
  {
    seq(|requests|, k requires 0 <= k < |requests| => LR.Run(requests[k].id, requests[k].cmd))
  }

  lemma {:induction false} RequestsRun(requests: seq<Request>, helloDone: bool, other: OtherU64)
    requires AllSendable(requests) && (helloDone || requests == [] || requests[0].cmd.Hello?)
    ensures LR.Serve(LinesOf(requests), helloDone, other) == RunsOf(requests)
    decreases |requests|
  {
    hide RequestLine, LR.Respond, Sendable;
    if requests != [] {
      var q, rest := requests[0], requests[1..];
      RequestRuns(q.id, q.cmd, helloDone, other);
      RequestsRun(rest, helloDone || q.cmd.Hello?, other);
      assert LinesOf(requests)[1..] == LinesOf(rest);
      assert RunsOf(requests) == [LR.Run(q.id, q.cmd)] + RunsOf(rest);
    }
  }

  lemma {:induction false} ReadableIsAdmitted(lines: seq<seq<Byte>>)
    requires forall k :: 0 <= k < |lines| ==> LR.Readable(lines[k])
    ensures LR.Admitted(lines) == lines && LR.StopOf(lines) == LR.EndOfStream
    decreases |lines|
  {
    hide FromUtf8;
    if lines != [] {
      assert LR.Readable(lines[0]);
      ReadableIsAdmitted(lines[1..]);
    }
  }

  /** A client that says hello first and writes documented requests, each on a line of at most 64 KiB,
      gets each of them run once, in order, and nothing else; and the connection ends with the stream. */
  lemma SessionRuns(requests: seq<Request>, other: OtherU64)
    requires AllSendable(requests) && (requests == [] || requests[0].cmd.Hello?)
    requires forall k :: 0 <= k < |requests| ==> |LinesOf(requests)[k]| <= 65536
    ensures var segments := LR.Segments(LR.Terminated(LinesOf(requests)));
      && LR.Serve(LR.Admitted(segments), false, other) == RunsOf(requests)
      && LR.StopOf(segments) == LR.EndOfStream
  {
    hide Sendable, LR.Serve, LR.NewlineFree, RequestLine, LR.IsBlank;
    var lines := LinesOf(requests);
    forall k | 0 <= k < |lines| ensures LR.NewlineFree(lines[k]) && LR.Readable(lines[k]) {
      RequestLineIsPlain(requests[k].id, requests[k].cmd);
    }
    NothingIsNewlineFree();
    LR.SegmentsOfText(lines, []);
    assert LR.Terminated(lines) + [] == LR.Terminated(lines) && lines + [] == lines;
    ReadableIsAdmitted(lines);
    RequestsRun(requests, false, other);
  }

  lemma NothingIsNewlineFree()
    ensures LR.NewlineFree([])
  {
  }

  // ---- blank lines ----

  lemma {:induction false} BlankBytes(text: Text)
    requires forall k :: 0 <= k < |text| ==> LR.IsSpace(text[k])
    ensures forall k :: 0 <= k < |Encode(text)| ==> Encode(text)[k] >= 0x80 || LR.IsSpace(Encode(text)[k])
  {
    if text != [] {
      BlankBytes(text[1..]);
      EncodedForm(text[0]);
    }
  }

  /** A line that is ignored as blank would have been refused as no request. */
  lemma BlankIsNoRequest(line: seq<Byte>, other: OtherU64)
    requires LR.IsBlank(line)
    ensures FromLine(line, other) == Refused(None, BadRequest)
  {
    hide FromUtf8, Encode;
    DecodeRoundTrip(line);
    BlankBytes(FromUtf8(line).value);
    var i := SkipSpace(line, 0);
    if i < |line| {
      BlankIsNoValue(line, i);
    }
  }

  lemma BlankIsNoValue(line: seq<Byte>, i: nat)
    requires i < |line| && (line[i] >= 0x80 || LR.IsSpace(line[i]))
    ensures ValueAt(line, i, 0).Err?
  {
    hide StringFrom, ArrayAt, ObjectAt, NumberAt, At;
    LiteralHead(line, i);
  }
}
