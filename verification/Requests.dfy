/** Reading a request line: `Request::from_line`, with the id extracted before anything else is
    validated. Error details are formatted text and are not part of this model; the code is. */
module Requests {
  import opened PowersOfTwo
  import opened Doubles
  import opened Basics
  import opened Utf8
  import opened Json
  import opened JsonGrammar
  import opened JsonRoundTrip
  import opened ReplyLines
  import opened ControlProtocol

  const U64_MAX: nat := 0xFFFF_FFFF_FFFF_FFFF

  /** What `as_u64` makes of a number that is not written as a plain integer; `f64` arithmetic on
      such texts is a parameter, of which only the range is known. */
  type OtherU64 = f: seq<Byte> -> Option<nat> | forall t :: f(t).Some? ==> IsCast(f(t).value)
    witness _ => None

  /** What the conversion of a double to 64 bits can yield: a double, or the largest integer. */
  ghost predicate IsCast(n: nat) {
    n == U64_MAX || (n < U64_MAX && IsDouble(n))
  }

  /** `Json::as_u64`. The guard compares with `u64::MAX as f64`, which is 2^64, so 2^64 itself
      passes it and the saturating cast turns it into `u64::MAX`. */
  function AsU64(j: Json, other: OtherU64): Option<nat> {
    match j
    case Num(Whole(n)) => if n < 0 || n > U64_MAX + 1 then None else Some(if n > U64_MAX then U64_MAX else n)
    case Num(Infinite(_)) => None
    case Num(Other(t)) => other(t)
    case _ => None
  }

  /** The documented promise for a plain integer on the wire is that integer, or a refusal when it does
      not fit. Reading it as a double first, the code keeps the promise exactly for the integers that
      are doubles, for the largest 64-bit one, and for those far enough beyond it. */
  lemma AsU64IsExact(n: nat, other: OtherU64)
    ensures AsU64(Num(WholeNumber(n, false)), other) == (if n <= U64_MAX then Some(n) else None)
      <==> (n <= U64_MAX && IsDouble(n)) || n == U64_MAX || n > U64_MAX + 2049
  {
    hide Rounded, IsDouble, Overflows;
    RoundedKeepsDoubles(n);
    RoundedAtMost64(n);
    LargestWord();
    if Overflows(n) {
      OverflowIsFar(n);
    }
  }

  /** Every integer up to 2^53 is one of them; the first that is not is silently changed. */
  lemma AsU64IsExactUpTo53(n: nat, other: OtherU64)
    requires n <= 0x20_0000_0000_0000
    ensures AsU64(Num(WholeNumber(n, false)), other) == Some(n)
    ensures AsU64(Num(WholeNumber(0x20_0000_0000_0001, false)), other) == Some(0x20_0000_0000_0000)
  {
    hide Rounded, Overflows, IsDouble;
    SmallWholesAreDoubles(n);
    FirstRounded();
    if Overflows(n) {
      OverflowIsFar(n);
    }
    if Overflows(0x20_0000_0000_0001) {
      OverflowIsFar(0x20_0000_0000_0001);
    }
  }

  lemma FirstRounded()
    ensures Rounded(0x20_0000_0000_0001) == 0x20_0000_0000_0000
  {
    assert Exponent(0x10_0000_0000_0000) == 0;
    assert PowerOfTwo(1) == 2;
    assert Exponent(0x20_0000_0000_0001) == 1 + Exponent(0x10_0000_0000_0000);
  }

  /** A negative integer is refused, however it is rounded. */
  lemma NegativeIsRefused(n: nat, other: OtherU64)
    requires n > 0
    ensures AsU64(Num(WholeNumber(n, true)), other) == None
  {
    hide Rounded, IsDouble, Overflows;
    SmallWholesAreDoubles(1);
    RoundedKeepsDoubles(1);
    RoundedStaysBelow(n, 1);
  }

  /** The conversion of any parsed value has that range. */
  lemma AsU64IsCast(j: Json, other: OtherU64)
    requires WellFormed(j) && AsU64(j, other).Some?
    ensures IsCast(AsU64(j, other).value)
  {
    hide IsDouble, WellFormed;
    if j.Num? && j.number.Whole? {
      WholeWellFormed(j.number.n);
    }
  }

  /** Written in decimal and read again, such a number comes back. */
  lemma CastIsReadBack(n: nat, other: OtherU64)
    requires IsCast(n)
    ensures AsU64(Read(n), other) == Some(n)
  {
    hide AsU64, WholeNumber, IsDouble;
    AsU64IsExact(n, other);
  }

  datatype Cmd =
    | Hello(client: Text) | Ping | Version | Status
    | Load(path: Text, assumeIntegrity: bool) | Unload
    | Play | Pause | Stop | Seek(toMs: nat)
    | Subscribe | Shutdown(confirm: Option<Text>)

  datatype Code = BadRequest | UnsupportedVersion | InvalidArgs | UnknownCommand

  datatype Reading =
    | Accepted(v: nat, id: nat, cmd: Cmd)
    | Refused(errorId: Option<nat>, code: Code)

  function GetU64(j: Json, key: Text, other: OtherU64): Option<nat> {
    match Get(j, key)
    case None => None
    case Some(x) => AsU64(x, other)
  }

  function GetStr(j: Json, key: Text): Option<Text> {
    match Get(j, key)
    case Some(Str(s)) => Some(s)
    case _ => None
  }

  function GetBool(j: Json, key: Text): Option<bool> {
    match Get(j, key)
    case Some(Bool(b)) => Some(b)
    case _ => None
  }

  /** `args`, or a value without members when there is none. */
  function Args(j: Json): Json {
    match Get(j, Chars("args"))
    case None => Null
    case Some(a) => a
  }

  /** The commands without arguments. */
  function BareCommand(name: Text): Option<Cmd> {
    if name == Chars("ping") then Some(Ping)
    else if name == Chars("version") then Some(Version)
    else if name == Chars("status") then Some(Status)
    else if name == Chars("unload") then Some(Unload)
    else if name == Chars("play") then Some(Play)
    else if name == Chars("pause") then Some(Pause)
    else if name == Chars("stop") then Some(Stop)
    else if name == Chars("subscribe") then Some(Subscribe)
    else None
  }

  function HelloCommand(id: nat, j: Json): Reading {
    match GetStr(j, Chars("client"))
    case Some(c) => Accepted(PROTOCOL_V, id, Hello(c))
    case None => Accepted(PROTOCOL_V, id, Hello(Chars("desconhecido")))
  }

  function LoadCommand(id: nat, args: Json): Reading {
    match GetStr(args, Chars("path"))
    case None => Refused(Some(id), InvalidArgs)
    case Some(p) => Accepted(PROTOCOL_V, id, Load(p, GetBool(args, Chars("assume_integrity")) == Some(true)))
  }

  function SeekCommand(id: nat, args: Json, other: OtherU64): Reading {
    match GetU64(args, Chars("to_ms"), other)
    case None => Refused(Some(id), InvalidArgs)
    case Some(t) => Accepted(PROTOCOL_V, id, Seek(t))
  }

  function ShutdownCommand(id: nat, j: Json): Reading {
    Accepted(PROTOCOL_V, id, Shutdown(GetStr(j, Chars("confirm"))))
  }

  /** The dispatch on the command name. */
  function Command(id: nat, name: Text, j: Json, other: OtherU64): Reading {
    if BareCommand(name).Some? then Accepted(PROTOCOL_V, id, BareCommand(name).value)
    else if name == Chars("hello") then HelloCommand(id, j)
    else if name == Chars("load") then LoadCommand(id, Args(j))
    else if name == Chars("seek") then SeekCommand(id, Args(j), other)
    else if name == Chars("shutdown") then ShutdownCommand(id, j)
    else Refused(Some(id), UnknownCommand)
  }

  function FromLine(line: seq<Byte>, other: OtherU64): Reading {
    match Parse(line)
    case Err(_, _) => Refused(None, BadRequest)
    case Ok(j, _) =>
      var id := GetU64(j, Chars("id"), other);
      match GetU64(j, Chars("v"), other)
      case None => Refused(id, BadRequest)
      case Some(v) =>
        if v != PROTOCOL_V then Refused(id, UnsupportedVersion)
        else match id
          case None => Refused(None, BadRequest)
          case Some(n) =>
            match GetStr(j, Chars("cmd"))
            case None => Refused(Some(n), BadRequest)
            case Some(name) => Command(n, name, j, other)
  }

  /** The id a line carries, if it parses and has a usable one. */
  function IdOf(line: seq<Byte>, other: OtherU64): Option<nat> {
    match Parse(line)
    case Err(_, _) => None
    case Ok(j, _) => GetU64(j, Chars("id"), other)
  }

  /** Whatever is wrong with a request, its outcome carries exactly the id the line carries; an
      accepted request speaks the supported version. */
  lemma EveryOutcomeIsCorrelated(line: seq<Byte>, other: OtherU64)
    ensures match FromLine(line, other)
            case Accepted(v, id, _) => v == 1 && IdOf(line, other) == Some(id)
            case Refused(errorId, _) => IdOf(line, other) == errorId
  {
    hide Parse, Get, AsU64, Chars;
  }

  // ---- what is accepted and what is refused ----

  /** A member of `args`, if the request has such an object. */
  function Argument(j: Json, key: Text): Option<Json> {
    match Get(j, Chars("args"))
    case None => None
    case Some(a) => Get(a, key)
  }

  predicate IsString(v: Option<Json>) {
    v.Some? && v.value.Str?
  }

  /** The arguments of `cmd` are those the request `j` carries. */
  ghost predicate Carries(j: Json, cmd: Cmd, other: OtherU64) {
    match cmd
    case Hello(c) =>
      var client := Get(j, Chars("client"));
      if IsString(client) then client == Some(Str(c)) else c == Chars("desconhecido")
    case Load(p, assumed) =>
      && Argument(j, Chars("path")) == Some(Str(p))
      && (assumed <==> Argument(j, Chars("assume_integrity")) == Some(Bool(true)))
    case Seek(t) =>
      var toMs := Argument(j, Chars("to_ms"));
      toMs.Some? && AsU64(toMs.value, other) == Some(t)
    case Shutdown(token) =>
      var confirm := Get(j, Chars("confirm"));
      if IsString(confirm) then token.Some? && confirm == Some(Str(token.value)) else token == None
    case _ => true
  }

  lemma BareCarries(name: Text, j: Json, other: OtherU64)
    requires BareCommand(name).Some?
    ensures CmdName(BareCommand(name).value) == name && Carries(j, BareCommand(name).value, other)
  {
    hide Chars;
  }

  lemma HelloCarries(id: nat, j: Json, other: OtherU64)
    ensures var r := HelloCommand(id, j); r.Accepted? && r.v == 1 && r.id == id && r.cmd.Hello? && Carries(j, r.cmd, other)
  {
    hide Chars, Lookup;
  }

  lemma LoadCarries(id: nat, j: Json, other: OtherU64)
    ensures var r := LoadCommand(id, Args(j));
      r.Accepted? ==> r.v == 1 && r.id == id && r.cmd.Load? && Carries(j, r.cmd, other)
  {
    hide Chars, Lookup;
  }

  lemma SeekCarries(id: nat, j: Json, other: OtherU64)
    ensures var r := SeekCommand(id, Args(j), other);
      r.Accepted? ==> r.v == 1 && r.id == id && r.cmd.Seek? && Carries(j, r.cmd, other)
  {
    hide Chars, Lookup, AsU64;
  }

  lemma ShutdownCarries(id: nat, j: Json, other: OtherU64)
    ensures var r := ShutdownCommand(id, j);
      r.Accepted? && r.v == 1 && r.id == id && r.cmd.Shutdown? && Carries(j, r.cmd, other)
  {
    hide Chars, Lookup;
  }

  /** A command that is accepted is the one that is named, with the arguments that are carried. */
  lemma AcceptedIsNamed(id: nat, name: Text, j: Json, other: OtherU64)
    requires Command(id, name, j, other).Accepted?
    ensures var r := Command(id, name, j, other);
      r.v == 1 && r.id == id && CmdName(r.cmd) == name && Carries(j, r.cmd, other)
  {
    hide Chars, Carries, BareCommand, HelloCommand, LoadCommand, SeekCommand, ShutdownCommand, Args;
    if BareCommand(name).Some? {
      BareCarries(name, j, other);
    } else {
      HelloCarries(id, j, other);
      LoadCarries(id, j, other);
      SeekCarries(id, j, other);
      ShutdownCarries(id, j, other);
    }
  }

  lemma NamedIsKnown(id: nat, cmd: Cmd, j: Json, other: OtherU64)
    ensures Command(id, CmdName(cmd), j, other) != Refused(Some(id), UnknownCommand)
  {
    hide Chars, AsU64, Get;
    LongNames();
    ShortNames();
  }

  lemma UnnamedIsUnknown(id: nat, name: Text, j: Json, other: OtherU64)
    requires forall cmd :: CmdName(cmd) != name
    ensures Command(id, name, j, other) == Refused(Some(id), UnknownCommand)
  {
    hide Chars, HelloCommand, LoadCommand, SeekCommand, ShutdownCommand;
    assert CmdName(Hello([])) != name && CmdName(Load([], false)) != name && CmdName(Seek(0)) != name
      && CmdName(Shutdown(None)) != name;
    if BareCommand(name).Some? {
      BareCarries(name, j, other);
    }
  }

  /** A name is refused as unknown exactly when no command has it. */
  lemma UnknownIffUnnamed(id: nat, name: Text, j: Json, other: OtherU64)
    ensures Command(id, name, j, other) == Refused(Some(id), UnknownCommand) <==> forall cmd :: CmdName(cmd) != name
  {
    hide Command, CmdName;
    if cmd :| CmdName(cmd) == name {
      NamedIsKnown(id, cmd, j, other);
    } else {
      UnnamedIsUnknown(id, name, j, other);
    }
  }

  /** Arguments are refused exactly when loading without a path or seeking without a usable position. */
  lemma ArgumentsRefused(id: nat, name: Text, j: Json, other: OtherU64)
    ensures Command(id, name, j, other) == Refused(Some(id), InvalidArgs) <==>
      var toMs := Argument(j, Chars("to_ms"));
      || (name == CmdName(Load([], false)) && !IsString(Argument(j, Chars("path"))))
      || (name == CmdName(Seek(0)) && (toMs.None? || AsU64(toMs.value, other).None?))
  {
    hide Chars, AsU64, Lookup;
    LongNames();
    ShortNames();
  }

  /** The refusals of whole lines. A line is a bad request when it is no JSON, has no version, or has the
      supported version and no id or no command name; another version is refused as such. */
  lemma LineRefused(line: seq<Byte>, other: OtherU64)
    ensures var r, p := FromLine(line, other), Parse(line);
      if p.Err? then r == Refused(None, BadRequest)
      else
        var v, id, cmd := GetU64(p.value, Chars("v"), other), GetU64(p.value, Chars("id"), other), Get(p.value, Chars("cmd"));
        && (v.None? || (v == Some(1) && (id.None? || !IsString(cmd))) ==> r == Refused(id, BadRequest))
        && (v.Some? && v != Some(1) ==> r == Refused(id, UnsupportedVersion))
        && (v == Some(1) && id.Some? && IsString(cmd) ==> r == Command(id.value, cmd.value.s, p.value, other))
  {
    hide Parse, Chars, AsU64, Lookup, Command;
  }

  function CodeName(c: Code): string {
    match c
    case BadRequest => "bad_request"
    case UnsupportedVersion => "unsupported_version"
    case InvalidArgs => "invalid_args"
    case UnknownCommand => "unknown_command"
  }

  /** The reply to a refused request, whatever its detail text, gives the client its own id back: read by
      the same conversion, the reply carries exactly the id the line carries. */
  lemma RefusalReachesItsRequest(line: seq<Byte>, other: OtherU64, detail: Text)
    requires FromLine(line, other).Refused?
    ensures var r := FromLine(line, other);
            && IsAscii(CodeName(r.code))
            && var reply := ErrLine(r.errorId, CodeName(r.code), detail);
            && SaysError(Parse(reply), IdOf(line, other), CodeName(r.code), detail)
            && IdOf(reply, other) == IdOf(line, other)
  {
    hide Parse, FromLine, ErrLine, AsU64, Get, Read, IsCast;
    var r := FromLine(line, other);
    EveryOutcomeIsCorrelated(line, other);
    CodeNamesArePlain(r.code);
    ErrLineIsReadBack(r.errorId, CodeName(r.code), detail);
    if r.errorId.Some? {
      IdIsCast(line, other);
      CastIsReadBack(r.errorId.value, other);
    } else {
      NullIsNoNumber(other);
    }
  }

  lemma NullIsNoNumber(other: OtherU64)
    ensures AsU64(Null, other) == None
  {
  }

  lemma IdIsCast(line: seq<Byte>, other: OtherU64)
    requires IdOf(line, other).Some?
    ensures IsCast(IdOf(line, other).value)
  {
    hide ValueAt, AsU64, Get, IsCast, WellFormed;
    ValueWellFormed(line, SkipSpace(line, 0), 0);
    var j := Parse(line).value;
    GetWellFormed(j, Chars("id"));
    AsU64IsCast(Get(j, Chars("id")).value, other);
  }

  /** The code of the protocol for what is wrong with a line that is refused. */
  ghost function Reason(line: seq<Byte>, other: OtherU64): string {
    match Parse(line)
    case Err(_, _) => "bad_request"
    case Ok(j, _) =>
      var v, cmd := GetU64(j, Chars("v"), other), Get(j, Chars("cmd"));
      if v.Some? && v.value != 1 then "unsupported_version"
      else if v.None? || GetU64(j, Chars("id"), other).None? || !IsString(cmd) then "bad_request"
      else if forall c :: CmdName(c) != cmd.value.s then "unknown_command"
      else "invalid_args"
  }

  lemma CodeIsReason(line: seq<Byte>, other: OtherU64)
    requires FromLine(line, other).Refused?
    ensures CodeName(FromLine(line, other).code) == Reason(line, other)
  {
    hide Parse, AsU64, Lookup, FromLine, Chars, Command, CmdName;
    LineRefused(line, other);
    match Parse(line)
    case Err(_, _) =>
    case Ok(j, _) =>
      var id, cmd := GetU64(j, Chars("id"), other), Get(j, Chars("cmd"));
      if GetU64(j, Chars("v"), other) == Some(1) && id.Some? && IsString(cmd) {
        UnknownIffUnnamed(id.value, cmd.value.s, j, other);
        CommandRefusals(id.value, cmd.value.s, j, other);
      }
  }

  /** Why a line was refused, as the client reads it in the reply. */
  lemma RefusalSaysWhy(line: seq<Byte>, other: OtherU64, detail: Text)
    requires FromLine(line, other).Refused?
    ensures var r := FromLine(line, other);
      && IsAscii(CodeName(r.code))
      && SaysError(Parse(ErrLine(r.errorId, CodeName(r.code), detail)), IdOf(line, other), Reason(line, other), detail)
  {
    hide Parse, ErrLine, FromLine, Reason, SaysError;
    RefusalReachesItsRequest(line, other, detail);
    CodeIsReason(line, other);
  }

  lemma CommandRefusals(id: nat, name: Text, j: Json, other: OtherU64)
    ensures var r := Command(id, name, j, other);
      r.Refused? ==> r.errorId == Some(id) && (r.code == UnknownCommand || r.code == InvalidArgs)
  {
    hide Chars, Get, AsU64, BareCommand;
  }

  lemma CodeNamesArePlain(c: Code)
    ensures IsPlain(CodeName(c))
  {
    hide IsPlain;
    PlainBadRequest();
    PlainUnsupportedVersion();
    PlainInvalidArgs();
    PlainUnknownCommand();
  }

  lemma PlainBadRequest()
    ensures IsPlain("bad_request")
  {
  }

  lemma PlainUnsupportedVersion()
    ensures IsPlain("unsupported_version")
  {
  }

  lemma PlainInvalidArgs()
    ensures IsPlain("invalid_args")
  {
  }

  lemma PlainUnknownCommand()
    ensures IsPlain("unknown_command")
  {
  }

  // ---- the documented request forms are read back ----

  function CmdName(cmd: Cmd): Text {
    match cmd
    case Hello(_) => Chars("hello")
    case Ping => Chars("ping")
    case Version => Chars("version")
    case Status => Chars("status")
    case Load(_, _) => Chars("load")
    case Unload => Chars("unload")
    case Play => Chars("play")
    case Pause => Chars("pause")
    case Stop => Chars("stop")
    case Seek(_) => Chars("seek")
    case Subscribe => Chars("subscribe")
    case Shutdown(_) => Chars("shutdown")
  }

  /** What a request of this kind carries besides version, id and name. */
  function CmdFields(cmd: Cmd): seq<Field> {
    match cmd
    case Hello(client) => [Field(Chars("client"), Str(client))]
    case Load(path, assumed) =>
      [Field(Chars("args"), Obj([Field(Chars("assume_integrity"), Bool(assumed)), Field(Chars("path"), Str(path))]))]
    case Seek(toMs) => [Field(Chars("args"), Obj([Field(Chars("to_ms"), Num(Whole(toMs)))]))]
    case Shutdown(Some(token)) => [Field(Chars("confirm"), Str(token))]
    case _ => []
  }

  function RequestFields(id: nat, cmd: Cmd): seq<Field> {
    [Field(Chars("v"), Num(Whole(PROTOCOL_V))), Field(Chars("id"), Num(Whole(id))),
     Field(Chars("cmd"), Str(CmdName(cmd)))] + CmdFields(cmd)
  }

  predicate Sendable(id: nat, cmd: Cmd) {
    id < 1_000_000_000_000_000 && (cmd.Seek? ==> cmd.toMs < 1_000_000_000_000_000)
  }

  lemma RequestPrintable(id: nat, cmd: Cmd)
    requires Sendable(id, cmd)
    ensures FieldsPrintable(RequestFields(id, cmd)) && FieldsFit(RequestFields(id, cmd), 1)
  {
    hide Chars, CmdName;
    if cmd.Load? {
      LoadArgsPrintable(cmd.path, cmd.assumeIntegrity);
    } else if cmd.Seek? {
      SeekArgsPrintable(cmd.toMs);
    }
  }

  lemma SeekArgsPrintable(toMs: nat)
    requires toMs < 1_000_000_000_000_000
    ensures var args := Obj([Field(Chars("to_ms"), Num(Whole(toMs)))]); Printable(args) && Fits(args, 1)
  {
    hide Chars;
  }

  lemma LoadArgsPrintable(path: Text, assumed: bool)
    ensures var args := Obj([Field(Chars("assume_integrity"), Bool(assumed)), Field(Chars("path"), Str(path))]);
      Printable(args) && Fits(args, 1)
  {
    assert Less(Chars("assume_integrity"), Chars("path"));
  }

  lemma RequestKeys()
    ensures |Chars("v")| == 1 && |Chars("id")| == 2 && |Chars("cmd")| == 3 && |Chars("args")| == 4
    ensures |Chars("client")| == 6 && |Chars("confirm")| == 7
    ensures |Chars("path")| == 4 && |Chars("to_ms")| == 5 && |Chars("assume_integrity")| == 16
  {
  }

  /** The members of the object a request line parses to. */
  lemma RequestMembers(id: nat, cmd: Cmd, j: Json)
    requires j == Obj(InsertAll([], RequestFields(id, cmd)))
    requires forall k :: Lookup(j.fields, k) == LastValue(RequestFields(id, cmd), k, None)
    ensures Get(j, Chars("v")) == Some(Num(Whole(PROTOCOL_V)))
    ensures Get(j, Chars("id")) == Some(Num(Whole(id)))
    ensures Get(j, Chars("cmd")) == Some(Str(CmdName(cmd)))
    ensures forall f :: f in CmdFields(cmd) ==> Get(j, f.key) == Some(f.value)
    ensures cmd == Shutdown(None) ==> Get(j, Chars("confirm")) == None
  {
    hide Chars, LastValue, InsertAll, Lookup;
    RequestKeys();
    var fields := RequestFields(id, cmd);
    var head := fields[..3];
    var v, i, c := head[0], head[1], head[2];
    assert head == [v, i, c] && fields == head + CmdFields(cmd);
    forall k ensures LastValue(fields, k, None)
      == LastValue(CmdFields(cmd), k, if k == c.key then Some(c.value) else if k == i.key then Some(i.value)
                                      else if k == v.key then Some(v.value) else None) {
      LastOfAppended(head, CmdFields(cmd), k, None);
      ThreeFields(v, i, c, k);
    }
    forall k, before ensures LastValue(CmdFields(cmd), k, before)
      == if CmdFields(cmd) != [] && k == CmdFields(cmd)[0].key then Some(CmdFields(cmd)[0].value) else before {
      if CmdFields(cmd) == [] {
        LastUnmentioned([], k, before);
      } else {
        OneField(CmdFields(cmd)[0], k, before);
      }
    }
  }

  lemma LongNames()
    ensures |Chars("version")| == 7 && |Chars("subscribe")| == 9 && |Chars("shutdown")| == 8
    ensures |Chars("status")| == |Chars("unload")| == 6 && Chars("status") != Chars("unload")
    ensures |Chars("pause")| == |Chars("hello")| == 5 && Chars("hello") != Chars("pause")
  {
    assert Chars("status")[0] != Chars("unload")[0] && Chars("hello")[0] != Chars("pause")[0];
  }

  /** The second letters of the four-letter names. */
  lemma ShortNames()
    ensures |Chars("ping")| == |Chars("play")| == |Chars("stop")| == |Chars("load")| == |Chars("seek")| == 4
    ensures Chars("ping")[1] == 105 && Chars("play")[1] == 108 && Chars("stop")[1] == 116
    ensures Chars("load")[1] == 111 && Chars("seek")[1] == 101
  {
  }

  lemma ArgsMembers(cmd: Cmd)
    ensures cmd.Load? ==> var a := CmdFields(cmd)[0].value;
              Get(a, Chars("path")) == Some(Str(cmd.path))
              && Get(a, Chars("assume_integrity")) == Some(Bool(cmd.assumeIntegrity))
    ensures cmd.Seek? ==> Get(CmdFields(cmd)[0].value, Chars("to_ms")) == Some(Num(Whole(cmd.toMs)))
  {
    hide Chars;
    RequestKeys();
    if cmd.Load? {
      var fields := CmdFields(cmd)[0].value.fields;
      assert fields[1..] == [fields[1]];
      assert Lookup([fields[1]], Chars("path")) == Some(fields[1].value);
    }
  }

  /** The command dispatch reads back the command whose members the object has. */
  lemma CommandReadBack(id: nat, cmd: Cmd, j: Json, other: OtherU64)
    requires cmd.Seek? ==> cmd.toMs < 1_000_000_000_000_000
    requires forall f :: f in CmdFields(cmd) ==> Get(j, f.key) == Some(f.value)
    requires cmd == Shutdown(None) ==> Get(j, Chars("confirm")) == None
    ensures Command(id, CmdName(cmd), j, other) == Accepted(PROTOCOL_V, id, cmd)
  {
    hide Chars, Get;
    LongNames();
    ShortNames();
    ArgsMembers(cmd);
    if CmdFields(cmd) != [] {
      assert CmdFields(cmd)[0] in CmdFields(cmd);
    }
  }

  /** Every command, in the documented request form, is read back exactly. */
  lemma RequestRoundTrip(id: nat, cmd: Cmd, other: OtherU64)
    requires Sendable(id, cmd)
    ensures FieldsPrintable(RequestFields(id, cmd))
    ensures FromLine(LineOf(RequestFields(id, cmd)), other) == Accepted(PROTOCOL_V, id, cmd)
  {
    hide Chars, Parse, Get, LastValue, InsertAll, Command, CmdFields, CmdName, LineOf, Printable, Fits, Lookup;
    RequestPrintable(id, cmd);
    var fields := RequestFields(id, cmd);
    LineIsReadBack(fields);
    var j := Obj(InsertAll([], fields));
    RequestMembers(id, cmd, j);
    CommandReadBack(id, cmd, j, other);
  }
}
