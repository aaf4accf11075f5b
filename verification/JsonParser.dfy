/** The parser `P`: a cursor over bytes, advanced in place by the loops of the source. Each method
    is proved to compute what `JsonGrammar` defines at the cursor. */
module JsonParser {
  import opened Basics
  import opened Utf8
  import opened Json
  import opened JsonGrammar

  datatype Result<+T> = Success(value: T) | Failure(at: nat, what: Problem)

  /** The result and the cursor agree with the grammar; after a failure the cursor is not used. */
  ghost predicate Agrees<T>(r: Result<T>, i: nat, spec: Parsed<T>) {
    match spec
    case Ok(v, next) => r == Success(v) && i == next
    case Err(at, what) => r == Failure(at, what)
  }

  class P {
    const b: seq<Byte>
    var i: nat

    constructor (b: seq<Byte>)
      ensures this.b == b && i == 0
    {
      this.b := b;
      i := 0;
    }

    method SkipWs()
      modifies this
      ensures i == SkipSpace(b, old(i))
    {
      while i < |b| && IsSpace(b[i])
        invariant SkipSpace(b, i) == SkipSpace(b, old(i))
        decreases |b| - i
      {
        i := i + 1;
      }
    }

    method Lit(s: seq<Byte>) returns (found: bool)
      modifies this
      ensures found <==> At(b, old(i), s)
      ensures i == if found then old(i) + |s| else old(i)
    {
      found := i + |s| <= |b| && b[i..i + |s|] == s;
      if found {
        i := i + |s|;
      }
    }

    /** The body of the escape branch, after the backslash. */
    method Escape() returns (r: Result<Scalar>)
      modifies this
      ensures Agrees(r, i, EscapeAt(b, old(i)))
    {
      if i >= |b| {
        return Failure(i, TruncatedEscape);
      }
      var e := b[i];
      i := i + 1;
      if e == 117 {
        if i + 4 > |b| {
          return Failure(i, TruncatedUnicode);
        }
        var h := b[i..i + 4];
        if FromUtf8(h).None? {
          return Failure(i, InvalidUnicode);
        }
        match FromHex(h)
        case None => return Failure(i, NotHex);
        case Some(n) =>
          i := i + 4;
          return Success(ScalarOrReplacement(n));
      }
      match Unescaped(e)
      case None => return Failure(i, UnknownEscape);
      case Some(c) => return Success(c);
    }

    /** The branch that reassembles a character from its lead byte, already consumed. */
    method Plain(c: Byte) returns (r: Result<Text>)
      requires 0 < i <= |b| && b[i - 1] == c
      modifies this
      ensures Agrees(r, i, PlainAt(b, old(i) - 1))
    {
      match Extra(c)
      case None => return Failure(i, InvalidUtf8);
      case Some(extra) =>
        var start := i - 1;
        i := i + extra;
        if i > |b| {
          return Failure(i, TruncatedUtf8);
        }
        match FromUtf8(b[start..i])
        case None => return Failure(i, InvalidUtf8);
        case Some(raw) => return Success(raw);
    }

    /** Called with the cursor on the opening quote. */
    method String() returns (r: Result<Text>)
      requires i < |b|
      modifies this
      ensures Agrees(r, i, StringFrom(b, old(i) + 1, []))
    {
      hide EscapeAt, PlainAt;
      i := i + 1;
      var out: Text := [];
      while true
        invariant StringFrom(b, i, out) == StringFrom(b, old(i) + 1, [])
        decreases |b| - i
      {
        if i >= |b| {
          return Failure(i, UnterminatedString);
        }
        var c := b[i];
        i := i + 1;
        if c == QUOTE {
          return Success(out);
        } else if c == BACKSLASH {
          var e := Escape();
          match e
          case Failure(at, what) => return Failure(at, what);
          case Success(x) => out := out + [x];
        } else if c < 0x20 {
          return Failure(i, RawControl);
        } else {
          var p := Plain(c);
          match p
          case Failure(at, what) => return Failure(at, what);
          case Success(raw) => out := out + raw;
        }
      }
    }

    method Number() returns (r: Result<Json>)
      requires i < |b|
      modifies this
      ensures Agrees(r, i, NumberAt(b, old(i)))
    {
      hide ParseFloat;
      var start := i;
      if b[i] == MINUS {
        i := i + 1;
      }
      ghost var from := i;
      while i < |b| && IsNumberByte(b[i])
        invariant start <= i <= |b| && NumberEnd(b, i) == NumberEnd(b, from)
        decreases |b| - i
      {
        i := i + 1;
      }
      match ParseFloat(b[start..i])
      case None => r := Failure(start, InvalidNumber);
      case Some(number) => r := Success(Num(number));
    }

    method Value(depth: nat) returns (r: Result<Json>)
      requires i <= |b|
      modifies this
      ensures Agrees(r, i, ValueAt(b, old(i), depth))
      decreases |b| - i, 3
    {
      if depth > MAX_DEPTH {
        return Failure(i, TooDeep);
      }
      if i >= |b| {
        return Failure(i, UnexpectedEnd);
      }
      var found := Lit(Ascii("null"));
      if found {
        return Success(Null);
      }
      found := Lit(Ascii("true"));
      if found {
        return Success(Bool(true));
      }
      found := Lit(Ascii("false"));
      if found {
        return Success(Bool(false));
      }
      if b[i] == QUOTE {
        var s := String();
        match s
        case Success(t) => r := Success(Str(t));
        case Failure(at, what) => r := Failure(at, what);
      } else if b[i] == OPEN_BRACKET {
        r := Array(depth);
      } else if b[i] == OPEN_BRACE {
        r := Object(depth);
      } else if b[i] == MINUS || IsDigit(b[i]) {
        r := Number();
      } else {
        r := Failure(i, UnexpectedToken);
      }
    }

    method Array(depth: nat) returns (r: Result<Json>)
      requires i < |b|
      modifies this
      ensures Agrees(r, i, ArrayAt(b, old(i), depth))
      decreases |b| - i, 2
    {
      hide ValueAt, SkipSpace, ItemsFrom;
      i := i + 1;
      var out: seq<Json> := [];
      SkipWs();
      if i < |b| && b[i] == CLOSE_BRACKET {
        i := i + 1;
        return Success(Arr(out));
      }
      ghost var spec := ItemsFrom(b, i, out, depth);
      while true
        invariant old(i) < i <= |b| && ItemsFrom(b, i, out, depth) == spec
        decreases |b| - i
      {
        NextItem(b, i, out, depth);
        SkipWs();
        var v := Value(depth + 1);
        if v.Failure? {
          return Failure(v.at, v.what);
        }
        SkipWs();
        if i < |b| && b[i] == COMMA {
          out := out + [v.value];
          i := i + 1;
        } else if i < |b| && b[i] == CLOSE_BRACKET {
          i := i + 1;
          return Success(Arr(out + [v.value]));
        } else {
          return Failure(i, ExpectedCommaOrBracket);
        }
      }
    }

    /** A key, its colon and the spaces around it. */
    method Key() returns (r: Result<Text>)
      requires i <= |b|
      modifies this
      ensures Agrees(r, i, KeyAt(b, old(i)))
    {
      if i >= |b| || b[i] != QUOTE {
        return Failure(i, KeyNotString);
      }
      r := String();
      if r.Failure? {
        return;
      }
      SkipWs();
      if i >= |b| || b[i] != COLON {
        return Failure(i, ExpectedColon);
      }
      i := i + 1;
      SkipWs();
    }

    method Object(depth: nat) returns (r: Result<Json>)
      requires i < |b|
      modifies this
      ensures Agrees(r, i, ObjectAt(b, old(i), depth))
      decreases |b| - i, 2
    {
      hide ValueAt, SkipSpace, KeyAt, FieldsFrom, Insert;
      i := i + 1;
      var m: seq<Field> := [];
      SkipWs();
      if i < |b| && b[i] == CLOSE_BRACE {
        i := i + 1;
        return Success(Obj(m));
      }
      ghost var spec := FieldsFrom(b, i, m, depth);
      while true
        invariant old(i) < i <= |b| && FieldsFrom(b, i, m, depth) == spec
        decreases |b| - i
      {
        NextField(b, i, m, depth);
        SkipWs();
        var k := Key();
        if k.Failure? {
          return Failure(k.at, k.what);
        }
        var v := Value(depth + 1);
        if v.Failure? {
          return Failure(v.at, v.what);
        }
        m := Insert(m, k.value, v.value);
        SkipWs();
        if i < |b| && b[i] == COMMA {
          i := i + 1;
        } else if i < |b| && b[i] == CLOSE_BRACE {
          i := i + 1;
          return Success(Obj(m));
        } else {
          return Failure(i, ExpectedCommaOrBrace);
        }
      }
    }
  }

  /** What one turn of the array loop comes to. */
  lemma NextItem(b: seq<Byte>, i: nat, out: seq<Json>, depth: nat)
    requires i <= |b|
    ensures var r, v := ItemsFrom(b, i, out, depth), ValueAt(b, SkipSpace(b, i), depth + 1);
      && (v.Err? ==> r == Err(v.at, v.what))
      && (v.Ok? ==>
        var j := SkipSpace(b, v.next);
        && (Peeks(b, j, COMMA) ==> r == ItemsFrom(b, j + 1, out + [v.value], depth))
        && (Peeks(b, j, CLOSE_BRACKET) ==> r == Ok(Arr(out + [v.value]), j + 1))
        && (!Peeks(b, j, COMMA) && !Peeks(b, j, CLOSE_BRACKET) ==> r == Err(j, ExpectedCommaOrBracket)))
  {
    hide ValueAt, SkipSpace;
  }

  /** And one of the object loop. */
  lemma NextField(b: seq<Byte>, i: nat, m: seq<Field>, depth: nat)
    requires i <= |b|
    ensures var r, k := FieldsFrom(b, i, m, depth), KeyAt(b, SkipSpace(b, i));
      && (k.Err? ==> r == Err(k.at, k.what))
      && (k.Ok? ==>
        var v := ValueAt(b, k.next, depth + 1);
        && (v.Err? ==> r == Err(v.at, v.what))
        && (v.Ok? ==>
          var j := SkipSpace(b, v.next);
          && (Peeks(b, j, COMMA) ==> r == FieldsFrom(b, j + 1, Insert(m, k.value, v.value), depth))
          && (Peeks(b, j, CLOSE_BRACE) ==> r == Ok(Obj(Insert(m, k.value, v.value)), j + 1))
          && (!Peeks(b, j, COMMA) && !Peeks(b, j, CLOSE_BRACE) ==> r == Err(j, ExpectedCommaOrBrace))))
  {
    hide ValueAt, SkipSpace, KeyAt, Insert;
  }

  /** The entry point: one value, with nothing but white space around it. */
  method ParseBytes(b: seq<Byte>) returns (r: Result<Json>)
    ensures match Parse(b)
            case Ok(v, _) => r == Success(v)
            case Err(at, what) => r == Failure(at, what)
  {
    var p := new P(b);
    p.SkipWs();
    r := p.Value(0);
    if r.Success? {
      p.SkipWs();
      if p.i != |b| {
        r := Failure(p.i, TrailingGarbage);
      }
    }
  }
}
