/** The request loop of one control connection: a byte stream cut into bounded lines, the handshake
    gate, and one outcome per line. What a command answers belongs to the runtime, which is not part
    of this model; a write error, which ends the connection early, is left out too. */
module LineReader {
  import opened Basics
  import opened Utf8
  import opened Requests

  const MAX_LINE: nat := 64 * 1024
  const NEWLINE: Byte := 10
  const RETURN: Byte := 13

  // ---- the reference: newline-separated segments ----

  predicate NewlineFree(s: seq<Byte>) {
    forall k :: 0 <= k < |s| ==> s[k] != NEWLINE
  }

  /** Where the first line of `s` ends: at its first newline, or at the end. */
  function LineEnd(s: seq<Byte>): (k: nat)
    ensures k <= |s| && NewlineFree(s[..k])
    ensures k < |s| ==> s[k] == NEWLINE
  {
    if s == [] || s[0] == NEWLINE then 0 else 1 + LineEnd(s[1..])
  }

  /** The lines of `s`, without their newlines; the last one need not be terminated. */
  function Segments(s: seq<Byte>): seq<seq<Byte>>
    decreases |s|
  {
    if s == [] then []
    else
      var k := LineEnd(s);
      if k == |s| then [s] else [s[..k]] + Segments(s[k + 1..])
  }

  /** Lines written out, each with its newline. */
  function Terminated(lines: seq<seq<Byte>>): seq<Byte> {
    if lines == [] then [] else lines[0] + [NEWLINE] + Terminated(lines[1..])
  }

  lemma {:induction false} LineEndOf(line: seq<Byte>, rest: seq<Byte>)
    requires NewlineFree(line)
    requires rest == [] || rest[0] == NEWLINE
    ensures LineEnd(line + rest) == |line|
    decreases |line|
  {
    if line == [] {
      assert line + rest == rest;
    } else {
      LineEndOf(line[1..], rest);
      assert (line + rest)[1..] == line[1..] + rest;
    }
  }

  /** The first newline ends the first segment. */
  lemma FirstSegment(line: seq<Byte>, more: seq<Byte>)
    requires NewlineFree(line)
    ensures Segments(line + [NEWLINE] + more) == [line] + Segments(more)
  {
    hide LineEnd, NewlineFree;
    var s := line + [NEWLINE] + more;
    LineEndOf(line, [NEWLINE] + more);
    assert s == line + ([NEWLINE] + more);
    assert s[..|line|] == line && s[|line| + 1..] == more;
  }

  lemma LastSegment(last: seq<Byte>)
    requires NewlineFree(last)
    ensures Segments(last) == if last == [] then [] else [last]
  {
    hide LineEnd, NewlineFree;
    LineEndOf(last, []);
    assert last + [] == last;
  }

  /** Segments are exactly the lines a client wrote, including a last one it did not terminate. */
  lemma {:induction false} SegmentsOfText(lines: seq<seq<Byte>>, last: seq<Byte>)
    requires forall k :: 0 <= k < |lines| ==> NewlineFree(lines[k])
    requires NewlineFree(last)
    ensures Segments(Terminated(lines) + last) == lines + (if last == [] then [] else [last])
    decreases |lines|
  {
    hide LineEnd, NewlineFree, Segments;
    if lines == [] {
      assert Terminated(lines) + last == last;
      LastSegment(last);
    } else {
      var more := Terminated(lines[1..]) + last;
      assert Terminated(lines) + last == lines[0] + [NEWLINE] + more;
      FirstSegment(lines[0], more);
      SegmentsOfText(lines[1..], last);
      assert lines == [lines[0]] + lines[1..];
    }
  }

  predicate AllNewlineFree(lines: seq<seq<Byte>>) {
    forall k :: 0 <= k < |lines| ==> NewlineFree(lines[k])
  }

  /** The newline that is missing at the end of `s`, if one is. */
  function Missing(s: seq<Byte>): seq<Byte> {
    if s == [] || s[|s| - 1] == NEWLINE then [] else [NEWLINE]
  }

  /** No byte is lost: the segments, each terminated again, are the stream. */
  lemma {:induction false} TextOfSegments(s: seq<Byte>)
    ensures AllNewlineFree(Segments(s))
    ensures Terminated(Segments(s)) == s + Missing(s)
    decreases |s|
  {
    hide NewlineFree, Segments, LineEnd;
    if s == [] {
      NoSegments(s);
    } else {
      var k := LineEnd(s);
      if k == |s| {
        assert s[..k] == s;
        LastSegment(s);
        WholeLine(s);
      } else {
        var line, more := s[..k], s[k + 1..];
        assert s == line + [NEWLINE] + more;
        TextOfSegments(more);
        FirstSegment(line, more);
        TerminatedFirst(line, Segments(more));
        MissingAfter(line, more);
      }
    }
  }

  lemma MissingAfter(line: seq<Byte>, more: seq<Byte>)
    ensures line + [NEWLINE] + (more + Missing(more)) == (line + [NEWLINE] + more) + Missing(line + [NEWLINE] + more)
  {
  }

  lemma TerminatedFirst(line: seq<Byte>, lines: seq<seq<Byte>>)
    ensures Terminated([line] + lines) == line + [NEWLINE] + Terminated(lines)
  {
    assert ([line] + lines)[1..] == lines;
  }

  lemma WholeLine(s: seq<Byte>)
    requires s != [] && NewlineFree(s)
    ensures Terminated([s]) == s + Missing(s)
  {
    TerminatedFirst(s, []);
    assert [s] + [] == [s];
    assert s[|s| - 1] != NEWLINE;
  }

  // ---- which segments are accepted ----

  datatype Stop = EndOfStream | TooLong | NotUtf8

  predicate Readable(segment: seq<Byte>) {
    |segment| <= MAX_LINE && FromUtf8(segment).Some?
  }

  function Admitted(segments: seq<seq<Byte>>): seq<seq<Byte>> {
    if segments == [] || !Readable(segments[0]) then [] else [segments[0]] + Admitted(segments[1..])
  }

  function StopOf(segments: seq<seq<Byte>>): Stop {
    if segments == [] then EndOfStream
    else if |segments[0]| > MAX_LINE then TooLong
    else if FromUtf8(segments[0]).None? then NotUtf8
    else StopOf(segments[1..])
  }

  /** The bytes that must be consumed to find that out: each accepted segment with its newline, then
      the offending one, but no more of it than the limit and one byte. */
  function Extent(segments: seq<seq<Byte>>): nat {
    if segments == [] then 0
    else if |segments[0]| > MAX_LINE then MAX_LINE + 1
    else |segments[0]| + 1 + if FromUtf8(segments[0]).None? then 0 else Extent(segments[1..])
  }

  /** The accepted segments are the longest readable prefix, and the reason for stopping is the
      defect of the first segment after it. */
  lemma {:induction false} AdmittedIsLongest(segments: seq<seq<Byte>>)
    ensures var n := |Admitted(segments)|;
      && n <= |segments| && Admitted(segments) == segments[..n]
      && (forall k :: 0 <= k < n ==> Readable(segments[k]))
      && (n < |segments| ==> !Readable(segments[n]))
      && (StopOf(segments) == EndOfStream <==> n == |segments|)
      && (StopOf(segments) == TooLong <==> n < |segments| && |segments[n]| > MAX_LINE)
    decreases |segments|
  {
    if segments != [] && Readable(segments[0]) {
      AdmittedIsLongest(segments[1..]);
      assert segments == [segments[0]] + segments[1..];
    }
  }

  // ---- what happens to an accepted line ----

  /** `trim_end_matches('\r')`. */
  function TrimReturns(line: seq<Byte>): seq<Byte> {
    if line != [] && line[|line| - 1] == RETURN then TrimReturns(line[..|line| - 1]) else line
  }

  /** It takes off all the carriage returns at the end, and nothing else. */
  lemma {:induction false} TrimReturnsOnly(text: seq<Byte>, tail: seq<Byte>)
    requires text == [] || text[|text| - 1] != RETURN
    requires forall k :: 0 <= k < |tail| ==> tail[k] == RETURN
    ensures TrimReturns(text + tail) == text
    decreases |tail|
  {
    var line := text + tail;
    if tail == [] {
      assert line == text;
    } else {
      var n := |tail| - 1;
      assert line[..|line| - 1] == text + tail[..n];
      TrimReturnsOnly(text, tail[..n]);
    }
  }

  /** The Unicode `White_Space` property. */
  predicate IsSpace(c: Scalar) {
    9 <= c <= 13 || c == 0x20 || c == 0x85 || c == 0xA0 || c == 0x1680 || 0x2000 <= c <= 0x200A
    || c == 0x2028 || c == 0x2029 || c == 0x202F || c == 0x205F || c == 0x3000
  }

  /** The code points that Unicode lists with that property. */
  const WHITE_SPACE: seq<nat> := [0x9, 0xA, 0xB, 0xC, 0xD, 0x20, 0x85, 0xA0, 0x1680, 0x2000, 0x2001, 0x2002, 0x2003, 0x2004,
    0x2005, 0x2006, 0x2007, 0x2008, 0x2009, 0x200A, 0x2028, 0x2029, 0x202F, 0x205F, 0x3000]

  lemma SpacesAreListed(c: Scalar)
    ensures IsSpace(c) <==> c in WHITE_SPACE
  {
  }

  predicate IsBlank(line: seq<Byte>) {
    match FromUtf8(line)
    case None => false
    case Some(text) => forall k :: 0 <= k < |text| ==> IsSpace(text[k])
  }

  /** What one line leads to: nothing, a refusal, the demand for a handshake, or a command that runs. */
  datatype Outcome = Ignored | Refuse(errorId: Option<nat>, code: Code) | HelloFirst(id: nat) | Run(id: nat, cmd: Cmd)

  function Respond(segment: seq<Byte>, helloDone: bool, other: OtherU64): Outcome {
    var line := TrimReturns(segment);
    if IsBlank(line) then Ignored
    else match FromLine(line, other)
      case Refused(errorId, code) => Refuse(errorId, code)
      case Accepted(_, id, cmd) => if helloDone || cmd.Hello? then Run(id, cmd) else HelloFirst(id)
  }

  predicate Opens(o: Outcome) {
    o.Run? && o.cmd.Hello?
  }

  function Serve(lines: seq<seq<Byte>>, helloDone: bool, other: OtherU64): seq<Outcome>
    decreases |lines|
  {
    if lines == [] then []
    else
      var o := Respond(lines[0], helloDone, other);
      [o] + Serve(lines[1..], helloDone || Opens(o), other)
  }

  /** Every accepted line has exactly one outcome, in order; only a blank one goes without a reply,
      and a reply carries the id of its own line. */
  lemma {:induction false} OneOutcomePerLine(lines: seq<seq<Byte>>, helloDone: bool, other: OtherU64)
    ensures |Serve(lines, helloDone, other)| == |lines|
    ensures forall k {:trigger lines[k]} :: 0 <= k < |lines| ==>
      match Serve(lines, helloDone, other)[k]
      case Ignored => IsBlank(TrimReturns(lines[k]))
      case Refuse(errorId, _) => errorId == IdOf(TrimReturns(lines[k]), other)
      case HelloFirst(id) => Some(id) == IdOf(TrimReturns(lines[k]), other)
      case Run(id, _) => Some(id) == IdOf(TrimReturns(lines[k]), other)
    decreases |lines|
  {
    hide IsBlank, FromLine, IdOf, TrimReturns;
    if lines != [] {
      var o := Respond(lines[0], helloDone, other);
      EveryOutcomeIsCorrelated(TrimReturns(lines[0]), other);
      OneOutcomePerLine(lines[1..], helloDone || Opens(o), other);
      forall k | 1 <= k < |lines|
        ensures lines[k] == lines[1..][k - 1]
        ensures Serve(lines, helloDone, other)[k] == Serve(lines[1..], helloDone || Opens(o), other)[k - 1]
      {
      }
    }
  }

  /** Whether a `hello` has run on the connection before outcome `k`. */
  predicate Greeted(outcomes: seq<Outcome>, k: nat, helloDone: bool) {
    helloDone || exists j :: 0 <= j < k && j < |outcomes| && outcomes[j].Run? && outcomes[j].cmd.Hello?
  }

  lemma GreetedLater(o: Outcome, rest: seq<Outcome>, k: nat, helloDone: bool)
    ensures Greeted([o] + rest, k + 1, helloDone) <==> Greeted(rest, k, helloDone || (o.Run? && o.cmd.Hello?))
  {
    var all := [o] + rest;
    assert forall j :: 0 < j < |all| ==> all[j] == rest[j - 1];
    if j :| 0 <= j < k && j < |rest| && rest[j].Run? && rest[j].cmd.Hello? {
      assert all[j + 1] == rest[j];
    }
    assert all[0] == o;
  }

  /** Each line leads to what it asks for: a refused one to that refusal, a command to its run, once a
      `hello` has run on the connection or if it is one itself, and to the demand for one before. */
  lemma {:induction false} EachLineAnswered(lines: seq<seq<Byte>>, helloDone: bool, other: OtherU64, k: nat)
    requires k < |lines|
    ensures |Serve(lines, helloDone, other)| == |lines|
    ensures var outcomes, text := Serve(lines, helloDone, other), TrimReturns(lines[k]);
      if IsBlank(text) then outcomes[k] == Ignored
      else match FromLine(text, other)
        case Refused(errorId, code) => outcomes[k] == Refuse(errorId, code)
        case Accepted(_, id, cmd) =>
          outcomes[k] == if Greeted(outcomes, k, helloDone) || cmd.Hello? then Run(id, cmd) else HelloFirst(id)
    decreases k
  {
    hide IsBlank, FromLine, TrimReturns, Greeted;
    OneOutcomePerLine(lines, helloDone, other);
    if k == 0 {
      NotYetGreeted(Serve(lines, helloDone, other), helloDone);
    } else {
      hide Respond;
      var o := Respond(lines[0], helloDone, other);
      var rest := Serve(lines[1..], helloDone || Opens(o), other);
      EachLineAnswered(lines[1..], helloDone || Opens(o), other, k - 1);
      GreetedLater(o, rest, k - 1, helloDone);
    }
  }

  lemma NotYetGreeted(outcomes: seq<Outcome>, helloDone: bool)
    ensures Greeted(outcomes, 0, helloDone) == helloDone
  {
  }

  /** No command but `hello` runs on a connection before a `hello` has. */
  lemma HandshakeFirst(lines: seq<seq<Byte>>, helloDone: bool, other: OtherU64, k: nat)
    requires k < |Serve(lines, helloDone, other)|
    requires Serve(lines, helloDone, other)[k].Run?
    ensures Serve(lines, helloDone, other)[k].cmd.Hello? || Greeted(Serve(lines, helloDone, other), k, helloDone)
  {
    hide IsBlank, FromLine, TrimReturns, Greeted;
    OneOutcomePerLine(lines, helloDone, other);
    EachLineAnswered(lines, helloDone, other, k);
  }

  // ---- the loop ----

  /** How many bytes a read bounded by `limit` takes from `s`. */
  function ReadLength(s: seq<Byte>, limit: nat): (n: nat)
    ensures n <= limit && n <= |s| && (n == 0 <==> limit == 0 || s == [])
  {
    Min(Min(LineEnd(s) + 1, limit), |s|)
  }

  predicate Oversized(bytes: seq<Byte>) {
    |bytes| > MAX_LINE && bytes[|bytes| - 1] != NEWLINE
  }

  /** `trim_end_matches('\n')` on bytes that hold at most one newline, at their end. */
  function TrimNewline(bytes: seq<Byte>): seq<Byte>
    requires bytes != []
  {
    if bytes[|bytes| - 1] == NEWLINE then bytes[..|bytes| - 1] else bytes
  }

  /** What the first bounded read of a non-empty stream says about its first segment. */
  ghost predicate ReadsFirst(s: seq<Byte>, n: nat) {
    && 1 <= n <= |s| && Segments(s) != []
    && (Oversized(s[..n]) <==> |Segments(s)[0]| > MAX_LINE)
    && (!Oversized(s[..n]) ==>
      && FromUtf8(s[..n]).Some? == FromUtf8(Segments(s)[0]).Some?
      && Segments(s)[0] == TrimNewline(s[..n])
      && Segments(s)[1..] == Segments(s[n..]))
    && n == Min(if Oversized(s[..n]) then MAX_LINE + 1 else |Segments(s)[0]| + 1, |s|)
  }

  lemma FirstRead(s: seq<Byte>, n: nat)
    requires s != [] && n == ReadLength(s, MAX_LINE + 1)
    ensures ReadsFirst(s, n)
  {
    hide FromUtf8, Segments, ReadsFirst, NewlineFree;
    var k := LineEnd(s);
    if k == |s| {
      assert s[..k] == s;
      LastRead(s, n);
    } else {
      TerminatedRead(s[..k], s[k + 1..], n);
      assert s == s[..k] + [NEWLINE] + s[k + 1..];
    }
  }

  lemma LastRead(s: seq<Byte>, n: nat)
    requires s != [] && NewlineFree(s) && n == Min(|s|, MAX_LINE + 1)
    ensures ReadsFirst(s, n)
  {
    hide FromUtf8, Segments;
    LastSegment(s);
    LastSegment([]);
    assert n == |s| ==> s[..n] == s && s[n..] == [];
  }

  lemma TerminatedRead(line: seq<Byte>, more: seq<Byte>, n: nat)
    requires NewlineFree(line) && n == Min(|line| + 1, MAX_LINE + 1)
    ensures ReadsFirst(line + [NEWLINE] + more, n)
  {
    hide FromUtf8, Segments;
    var s := line + [NEWLINE] + more;
    FirstSegment(line, more);
    if |line| <= MAX_LINE {
      assert s[..n] == line + [NEWLINE] && s[n..] == more;
      AppendAscii(line, NEWLINE);
    } else {
      assert s[..n] == line[..n];
    }
  }

  /** Where a connection stands: what it has done, followed by what the remaining segments lead to,
      is what all of them lead to. */
  ghost predicate Resumes(stream: seq<Byte>, helloFirst: bool, other: OtherU64,
                          outcomes: seq<Outcome>, helloDone: bool, at: nat)
    requires at <= |stream|
  {
    var all, rest := Segments(stream), Segments(stream[at..]);
    && StopOf(all) == StopOf(rest)
    && Serve(Admitted(all), helloFirst, other) == outcomes + Serve(Admitted(rest), helloDone, other)
    && Min(Extent(all), |stream|) == Min(at + Extent(rest), |stream|)
  }

  lemma StartResumes(stream: seq<Byte>, helloDone: bool, other: OtherU64)
    ensures Resumes(stream, helloDone, other, [], helloDone, 0)
  {
    assert stream[0..] == stream;
  }

  lemma AdmitFirst(segments: seq<seq<Byte>>, helloDone: bool, other: OtherU64)
    requires segments != [] && Readable(segments[0])
    ensures StopOf(segments) == StopOf(segments[1..])
    ensures Extent(segments) == |segments[0]| + 1 + Extent(segments[1..])
    ensures var o := Respond(segments[0], helloDone, other);
      Serve(Admitted(segments), helloDone, other)
      == [o] + Serve(Admitted(segments[1..]), helloDone || Opens(o), other)
  {
    hide Respond;
    assert Admitted(segments)[1..] == Admitted(segments[1..]);
  }

  lemma StepResumes(stream: seq<Byte>, helloFirst: bool, other: OtherU64,
                    outcomes: seq<Outcome>, helloDone: bool, at: nat, n: nat)
    requires at < |stream| && n == ReadLength(stream[at..], MAX_LINE + 1)
    requires Resumes(stream, helloFirst, other, outcomes, helloDone, at)
    requires n > 0
    requires !Oversized(stream[at..][..n]) && FromUtf8(stream[at..][..n]).Some?
    ensures var o := Respond(TrimNewline(stream[at..][..n]), helloDone, other);
      Resumes(stream, helloFirst, other, outcomes + [o], helloDone || Opens(o), at + n)
  {
    hide Respond, FromUtf8, Serve, Admitted, StopOf, Extent, Segments, LineEnd;
    var rest := stream[at..];
    assert rest[n..] == stream[at + n..];
    FirstRead(rest, n);
    var segments := Segments(rest);
    AdmitFirst(segments, helloDone, other);
    var o := Respond(segments[0], helloDone, other);
    var tail := Serve(Admitted(segments[1..]), helloDone || Opens(o), other);
    assert outcomes + ([o] + tail) == outcomes + [o] + tail;
  }

  lemma EndOfRun(stream: seq<Byte>, helloFirst: bool, other: OtherU64, outcomes: seq<Outcome>, helloDone: bool, at: nat)
    requires at <= |stream| && Resumes(stream, helloFirst, other, outcomes, helloDone, at)
    requires at < |stream| ==>
      var n := ReadLength(stream[at..], MAX_LINE + 1);
      var bytes := stream[at..][..n];
      Oversized(bytes) || FromUtf8(bytes).None?
    ensures outcomes == Serve(Admitted(Segments(stream)), helloFirst, other)
    ensures at == |stream| ==> StopOf(Segments(stream)) == EndOfStream
    ensures at < |stream| ==>
      var n := ReadLength(stream[at..], MAX_LINE + 1);
      StopOf(Segments(stream)) == if Oversized(stream[at..][..n]) then TooLong else NotUtf8
    ensures var n := ReadLength(stream[at..], MAX_LINE + 1);
      at + n == Min(Extent(Segments(stream)), |stream|)
  {
    hide Respond, FromUtf8, Segments, LineEnd;
    var rest := stream[at..];
    if at < |stream| {
      FirstRead(rest, ReadLength(rest, MAX_LINE + 1));
    } else {
      NoSegments(rest);
    }
  }

  lemma NoSegments(s: seq<Byte>)
    requires s == []
    ensures Segments(s) == [] && LineEnd(s) == 0
  {
  }

  lemma LineEndStep(s: seq<Byte>, at: nat)
    requires at < |s|
    ensures LineEnd(s[at..]) == if s[at] == NEWLINE then 0 else 1 + LineEnd(s[at + 1..])
  {
    assert s[at..][1..] == s[at + 1..];
  }

  /** An oversized line is refused, without an id, before the connection closes. */
  function Farewell(stop: Stop): seq<Outcome> {
    if stop == TooLong then [Refuse(None, BadRequest)] else []
  }

  class Connection {
    const stream: seq<Byte>
    var at: nat
    var buf: seq<Byte>
    var helloDone: bool

    ghost predicate Valid() reads this {
      at <= |stream| && |buf| <= MAX_LINE + 1
    }

    constructor (stream: seq<Byte>)
      ensures Valid() && this.stream == stream && at == 0 && buf == [] && !helloDone
    {
      this.stream := stream;
      at, buf, helloDone := 0, [], false;
    }

    /** `take(limit).read_until(b'\n', &mut buf)`: appends to the buffer up to and including the next
        newline, the limit, or the end, whichever comes first. */
    method ReadUntil(limit: nat) returns (n: nat)
      requires at <= |stream|
      modifies this`at, this`buf
      ensures n == ReadLength(stream[old(at)..], limit)
      ensures at == old(at) + n && at <= |stream|
      ensures buf == old(buf) + stream[old(at)..at]
    {
      hide LineEnd, NewlineFree;
      n := 0;
      ghost var start := at;
      var ended := false;
      while n < limit && at < |stream| && !ended
        invariant start <= at <= |stream| && at == start + n && n <= limit
        invariant buf == old(buf) + stream[start..at]
        invariant !ended ==> LineEnd(stream[start..]) == n + LineEnd(stream[at..])
        invariant ended ==> LineEnd(stream[start..]) + 1 == n
        decreases |stream| - at
      {
        ended := stream[at] == NEWLINE;
        LineEndStep(stream, at);
        assert stream[start..at + 1] == stream[start..at] + [stream[at]];
        buf := buf + [stream[at]];
        at, n := at + 1, n + 1;
      }
      assert at == |stream| ==> |stream[start..]| == n;
    }

    /** The whole connection. Exactly the readable segments before the first unreadable one are
        served; nothing past the offending segment is consumed, and of an oversized one only the
        limit and one byte; the buffer never holds more than that. */
    method Handle(other: OtherU64) returns (outcomes: seq<Outcome>, stop: Stop)
      requires Valid() && at == 0
      modifies this
      ensures Valid()
      ensures stop == StopOf(Segments(stream))
      ensures outcomes == Serve(Admitted(Segments(stream)), old(helloDone), other)
        + if stop == TooLong then [Refuse(None, BadRequest)] else []
      ensures at == Min(Extent(Segments(stream)), |stream|)
    {
      hide Respond, FromUtf8, Serve, Admitted, StopOf, Extent, Segments, Oversized, Resumes, TrimNewline, Opens,
        ReadLength, Min;
      outcomes, stop := [], EndOfStream;
      StartResumes(stream, helloDone, other);
      while true
        invariant Valid()
        invariant Resumes(stream, old(helloDone), other, outcomes, helloDone, at)
        decreases |stream| - at
      {
        ghost var start := at;
        buf := [];
        var n := ReadUntil(MAX_LINE + 1);
        assert buf == stream[start..][..n];
        if n == 0 {
          EndOfRun(stream, old(helloDone), other, outcomes, helloDone, start);
          return;
        }
        if Oversized(buf) {
          EndOfRun(stream, old(helloDone), other, outcomes, helloDone, start);
          stop, outcomes := TooLong, outcomes + Farewell(TooLong);
          return;
        }
        if FromUtf8(buf).None? {
          EndOfRun(stream, old(helloDone), other, outcomes, helloDone, start);
          stop := NotUtf8;
          return;
        }
        StepResumes(stream, old(helloDone), other, outcomes, helloDone, start, n);
        var o := Respond(TrimNewline(buf), helloDone, other);
        outcomes := outcomes + [o];
        helloDone := helloDone || Opens(o);
      }
    }
  }
}
