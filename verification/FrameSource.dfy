/** The one-way cursor over a recorded show. The file is a fixed sequence of records; read errors are
    not modelled. */
module FrameSource {
  import opened Basics
  import opened PixelTypes

  datatype Record = Record(timestamp: nat, pixels: seq<PixelColor>)

  // ---- where the cursor goes ----

  /** Moving forward from record `c` while the next one is not past `position`. */
  function Advance(file: seq<Record>, c: nat, position: nat): (d: nat)
    requires c < |file|
    ensures c <= d < |file|
    decreases |file| - c
  {
    if c + 1 < |file| && file[c + 1].timestamp <= position then Advance(file, c + 1, position) else c
  }

  /** From record `c`, going back to the start of the file first when the position lies before it. */
  function Seek(file: seq<Record>, c: nat, position: nat): (d: nat)
    requires c < |file|
    ensures d < |file|
  {
    Advance(file, if position < file[c].timestamp then 0 else c, position)
  }

  // ---- what it should find ----

  /** The last record with a timestamp not past `position`, or the first one when none qualifies. */
  function Chosen(file: seq<Record>, position: nat): (k: nat)
    requires file != []
    ensures k < |file|
  {
    var n := |file| - 1;
    if n == 0 || file[n].timestamp <= position then n else Chosen(file[..n], position)
  }

  lemma {:induction false} ChosenIsLast(file: seq<Record>, position: nat)
    requires file != []
    ensures var k := Chosen(file, position);
      && (forall j :: k < j < |file| ==> file[j].timestamp > position)
      && (k == 0 || file[k].timestamp <= position)
    decreases |file|
  {
    var n := |file| - 1;
    if n > 0 && file[n].timestamp > position {
      ChosenIsLast(file[..n], position);
      assert forall j :: 0 <= j < n ==> file[..n][j] == file[j];
    }
  }

  predicate NonDecreasing(file: seq<Record>) {
    forall i :: 0 <= i && i + 1 < |file| ==> file[i].timestamp <= file[i + 1].timestamp
  }

  lemma {:induction false} Ordered(file: seq<Record>, i: nat, j: nat)
    requires NonDecreasing(file) && i <= j < |file|
    ensures file[i].timestamp <= file[j].timestamp
    decreases j - i
  {
    if i < j {
      Ordered(file, i, j - 1);
      assert file[j - 1].timestamp <= file[j - 1 + 1].timestamp;
    }
  }

  lemma {:induction false} AdvanceStops(file: seq<Record>, c: nat, position: nat)
    requires c < |file|
    ensures var d := Advance(file, c, position);
      && (forall j :: c < j <= d ==> file[j].timestamp <= position)
      && (d + 1 < |file| ==> file[d + 1].timestamp > position)
    decreases |file| - c
  {
    if c + 1 < |file| && file[c + 1].timestamp <= position {
      AdvanceStops(file, c + 1, position);
    }
  }

  /** With the records after the first in order, it does not matter where the cursor was: every seek
      ends at the same record. */
  lemma SeekFindsChosen(file: seq<Record>, c: nat, position: nat)
    requires c < |file| && NonDecreasing(file[1..])
    ensures Seek(file, c, position) == Chosen(file, position)
  {
    var start := if position < file[c].timestamp then 0 else c;
    var d, k := Advance(file, start, position), Chosen(file, position);
    AdvanceStops(file, start, position);
    ChosenIsLast(file, position);
    assert d == 0 || file[d].timestamp <= position;
    if d < k {
      Ordered(file[1..], d, k - 1);
    }
  }

  /** And that order is needed: already the first seek of a freshly opened file goes wrong for some
      position when two later records are out of order. */
  lemma FreshSeekNeedsOrder(file: seq<Record>, i: nat)
    requires 1 <= i && i + 1 < |file| && file[i].timestamp > file[i + 1].timestamp
    ensures Seek(file, 0, file[i + 1].timestamp) < i < Chosen(file, file[i + 1].timestamp)
  {
    var p := file[i + 1].timestamp;
    AdvanceStops(file, 0, p);
    ChosenIsLast(file, p);
  }

  /** The records in order after the first: exactly the files on which every seek, from wherever the
      cursor is put, finds the record it should. */
  lemma FindsChosenIffOrdered(file: seq<Record>)
    requires file != []
    ensures NonDecreasing(file[1..])
      <==> forall c, p :: 0 <= c < |file| && 0 <= p ==> Seek(file, c, p) == Chosen(file, p)
  {
    if NonDecreasing(file[1..]) {
      forall c, p | 0 <= c < |file| && 0 <= p ensures Seek(file, c, p) == Chosen(file, p) {
        SeekFindsChosen(file, c, p);
      }
    } else {
      var i :| 0 <= i && i + 1 < |file[1..]| && file[1..][i].timestamp > file[1..][i + 1].timestamp;
      FreshSeekNeedsOrder(file, i + 1);
    }
  }

  // ---- when earlier seeks do not matter ----

  /** The record the cursor is on after seeking to `positions`, from a freshly opened file. */
  function Visited(file: seq<Record>, positions: seq<nat>): (c: nat)
    requires file != []
    ensures c < |file|
  {
    if positions == [] then 0
    else Seek(file, Visited(file, positions[..|positions| - 1]), positions[|positions| - 1])
  }

  /** A record on which a first seek can come to rest: the one after it, if any, is later than every
      record passed on the way. */
  predicate Rests(file: seq<Record>, c: nat) {
    c + 1 < |file| ==> forall j :: 1 <= j <= c ==> file[j].timestamp < file[c + 1].timestamp
  }

  /** No record on which a seek can come to rest is earlier than one passed on the way to it. */
  predicate RestsInOrder(file: seq<Record>) {
    forall c, j :: 1 <= j <= c < |file| && Rests(file, c) ==> file[j].timestamp <= file[c].timestamp
  }

  lemma {:induction false} AdvanceReaches(file: seq<Record>, c: nat, position: nat, d: nat)
    requires c <= d < |file| && forall j :: c < j <= d ==> file[j].timestamp <= position
    requires d + 1 < |file| ==> file[d + 1].timestamp > position
    ensures Advance(file, c, position) == d
    decreases d - c
  {
    if c < d {
      AdvanceReaches(file, c + 1, position, d);
    }
  }

  function Latest(file: seq<Record>): (t: nat)
    ensures forall j :: 0 <= j < |file| ==> file[j].timestamp <= t
  {
    if file == [] then 0
    else
      var n := |file| - 1;
      var t := Latest(file[..n]);
      assert forall j :: 0 <= j < n ==> file[..n][j] == file[j];
      if file[n].timestamp > t then file[n].timestamp else t
  }

  /** A first seek does come to rest there, for some position. */
  lemma RestIsVisited(file: seq<Record>, c: nat) returns (positions: seq<nat>)
    requires c < |file| && Rests(file, c)
    ensures Visited(file, positions) == c
  {
    if c == 0 {
      positions := [];
    } else {
      assert c + 1 < |file| ==> file[1].timestamp < file[c + 1].timestamp;
      var p: nat := if c + 1 < |file| then file[c + 1].timestamp - 1 else Latest(file);
      AdvanceReaches(file, 0, p, c);
      positions := [p];
      assert Visited(file, positions[..0]) == 0;
    }
  }

  /** From a resting place, when those are in order, a seek goes where a first seek would, and that is
      a resting place again. */
  lemma SeekFromRest(file: seq<Record>, c: nat, position: nat)
    requires RestsInOrder(file) && c < |file| && Rests(file, c)
    ensures Seek(file, c, position) == Seek(file, 0, position) && Rests(file, Seek(file, 0, position))
  {
    hide RestsInOrder, Rests, Advance;
    var d := Advance(file, 0, position);
    FirstSeekRests(file, position);
    AdvanceStops(file, 0, position);
    if position >= file[c].timestamp {
      PassedByRest(file, c, position);
      AdvanceReaches(file, c, position, d);
    }
  }

  lemma FirstSeekRests(file: seq<Record>, position: nat)
    requires file != []
    ensures Rests(file, Advance(file, 0, position))
  {
    AdvanceStops(file, 0, position);
  }

  lemma PassedByRest(file: seq<Record>, c: nat, position: nat)
    requires RestsInOrder(file) && c < |file| && Rests(file, c) && position >= file[c].timestamp
    ensures forall j {:trigger file[j]} :: 1 <= j <= c ==> file[j].timestamp <= position
  {
    hide Rests;
  }

  lemma {:induction false} VisitsRest(file: seq<Record>, positions: seq<nat>)
    requires file != [] && RestsInOrder(file)
    ensures Rests(file, Visited(file, positions))
    decreases |positions|
  {
    if positions != [] {
      var n := |positions| - 1;
      VisitsRest(file, positions[..n]);
      SeekFromRest(file, Visited(file, positions[..n]), positions[n]);
    }
  }

  /** Which record a seek ends on is independent of every earlier seek exactly when the records on which
      seeks can come to rest are in order. */
  lemma HistoryFreeIffRestsInOrder(file: seq<Record>)
    requires file != []
    ensures RestsInOrder(file)
      <==> forall positions, p: nat :: Seek(file, Visited(file, positions), p) == Seek(file, 0, p)
  {
    if RestsInOrder(file) {
      forall positions, p: nat ensures Seek(file, Visited(file, positions), p) == Seek(file, 0, p) {
        VisitsRest(file, positions);
        SeekFromRest(file, Visited(file, positions), p);
      }
    } else {
      var c, j :| 1 <= j <= c < |file| && Rests(file, c) && file[j].timestamp > file[c].timestamp;
      var positions := RestIsVisited(file, c);
      AdvanceStops(file, 0, file[c].timestamp);
      assert Seek(file, 0, file[c].timestamp) < j <= c <= Seek(file, Visited(file, positions), file[c].timestamp);
    }
  }

  /** The same about the records themselves, for a file that holds none twice. */
  lemma AnswersHistoryFreeIffRestsInOrder(file: seq<Record>)
    requires file != [] && forall i, j :: 0 <= i < j < |file| ==> file[i] != file[j]
    ensures RestsInOrder(file)
      <==> forall positions, p: nat :: file[Seek(file, Visited(file, positions), p)] == file[Seek(file, 0, p)]
  {
    hide Seek, Visited, RestsInOrder;
    HistoryFreeIffRestsInOrder(file);
    if !RestsInOrder(file) {
      var positions, p: nat :| Seek(file, Visited(file, positions), p) != Seek(file, 0, p);
      assert file[Seek(file, Visited(file, positions), p)] != file[Seek(file, 0, p)];
    }
  }

  /** A file out of order whose resting places are in order: independent of history all the same. */
  lemma OutOfOrderCanBeHistoryFree()
    ensures var file := [Record(0, []), Record(30, []), Record(5, []), Record(30, [])];
      !NonDecreasing(file[1..]) && RestsInOrder(file)
  {
    var file := [Record(0, []), Record(30, []), Record(5, []), Record(30, [])];
    assert file[1..][0].timestamp > file[1..][1].timestamp;
    assert file[1].timestamp >= file[2].timestamp && file[1].timestamp >= file[3].timestamp;
  }

  // ---- the documented promise: the greatest timestamp ----

  /** Record `k` has the greatest timestamp not past `position`, or is the first when there is none. */
  predicate IsGreatest(file: seq<Record>, position: nat, k: nat)
    requires k < |file|
  {
    if exists j :: 0 <= j < |file| && file[j].timestamp <= position then
      && file[k].timestamp <= position
      && forall j :: 0 <= j < |file| && file[j].timestamp <= position ==> file[j].timestamp <= file[k].timestamp
    else k == 0
  }

  /** Wherever a seek can come to rest, no record of the whole file lies strictly between that one and
      the one after it; and none but those of its own instant lies before the second record of the file. */
  predicate RestsGreatest(file: seq<Record>) {
    forall c, j :: 0 <= c < |file| && 0 <= j < |file| && Rests(file, c) && Before(file, j, c + 1) ==>
      if c == 0 then |file| > 1 ==> file[j].timestamp == file[0].timestamp
      else file[j].timestamp <= file[c].timestamp
  }

  predicate Before(file: seq<Record>, j: nat, d: nat)
    requires j < |file|
  {
    d < |file| ==> file[j].timestamp < file[d].timestamp
  }

  lemma GreatestRestsAreInOrder(file: seq<Record>)
    requires RestsGreatest(file)
    ensures RestsInOrder(file)
  {
    forall c, j | 1 <= j <= c < |file| && Rests(file, c) ensures file[j].timestamp <= file[c].timestamp {
      assert Before(file, j, c + 1);
    }
  }

  lemma FirstSeekIsGreatest(file: seq<Record>, position: nat)
    requires file != [] && RestsGreatest(file)
    ensures IsGreatest(file, position, Seek(file, 0, position))
  {
    hide Rests;
    var d := Advance(file, 0, position);
    AdvanceStops(file, 0, position);
    FirstSeekRests(file, position);
    forall j | 0 <= j < |file| && file[j].timestamp <= position
      ensures file[d].timestamp <= position && file[j].timestamp <= file[d].timestamp
    {
      assert Before(file, j, d + 1);
    }
  }

  lemma NotGreatest(file: seq<Record>, c: nat, j: nat) returns (p: nat)
    requires c < |file| && j < |file| && Rests(file, c) && Before(file, j, c + 1)
    requires if c == 0 then |file| > 1 && file[j].timestamp != file[0].timestamp
             else file[j].timestamp > file[c].timestamp
    ensures !IsGreatest(file, p, Seek(file, 0, p))
  {
    if c == 0 {
      p := file[j].timestamp;
      AdvanceReaches(file, 0, p, 0);
    } else {
      assert c + 1 < |file| ==> file[1].timestamp < file[c + 1].timestamp;
      p := if c + 1 < |file| then file[c + 1].timestamp - 1 else Latest(file);
      AdvanceReaches(file, 0, p, c);
    }
  }

  /** The promise kept after every history. */
  ghost predicate AlwaysGreatest(file: seq<Record>)
    requires file != []
  {
    forall positions: seq<nat>, p: nat :: GreatestAfter(file, positions, p)
  }

  predicate GreatestAfter(file: seq<Record>, positions: seq<nat>, p: nat)
    requires file != []
  {
    IsGreatest(file, p, Seek(file, Visited(file, positions), p))
  }

  /** The documented promise, after every history, is kept exactly on these files. */
  lemma GreatestIffRestsGreatest(file: seq<Record>)
    requires file != []
    ensures RestsGreatest(file) <==> AlwaysGreatest(file)
  {
    hide IsGreatest, Seek, Rests, Before;
    if RestsGreatest(file) {
      GreatestRestsAreInOrder(file);
      HistoryFreeIffRestsInOrder(file);
      forall positions: seq<nat>, p: nat ensures GreatestAfter(file, positions, p) {
        FirstSeekIsGreatest(file, p);
        assert Seek(file, Visited(file, positions), p) == Seek(file, 0, p);
      }
    } else {
      var c, j :| 0 <= c < |file| && 0 <= j < |file| && Rests(file, c) && Before(file, j, c + 1)
        && !(if c == 0 then |file| > 1 ==> file[j].timestamp == file[0].timestamp
             else file[j].timestamp <= file[c].timestamp);
      var p := NotGreatest(file, c, j);
      assert !GreatestAfter(file, [], p);
    }
  }

  /** Files in order are among them. */
  lemma OrderedIsGreatest(file: seq<Record>)
    requires NonDecreasing(file)
    ensures RestsGreatest(file)
  {
    forall c, j | 0 <= c < |file| && 0 <= j < |file| && Rests(file, c) && Before(file, j, c + 1)
      ensures if c == 0 then |file| > 1 ==> file[j].timestamp == file[0].timestamp
              else file[j].timestamp <= file[c].timestamp
    {
      if j > c {
        Ordered(file, c + 1, j);
      } else {
        Ordered(file, j, c);
      }
    }
  }

  /** A file on which the promise fails: the first record, at the position asked for, is passed over for
      an earlier one behind it. */
  lemma OutOfOrderCanMissGreatest()
    ensures var file := [Record(10, []), Record(5, [])];
      Seek(file, 0, 10) == 1 && !IsGreatest(file, 10, 1) && NonDecreasing(file[1..])
  {
    var file := [Record(10, []), Record(5, [])];
    assert file[0].timestamp == 10 && file[1..] == [file[1]];
  }

  /** On an unordered file the answer does depend on what was asked before. */
  lemma UnorderedRemembers()
    ensures var file := [Record(10, []), Record(30, []), Record(5, []), Record(40, [])];
      && Seek(file, 0, 12) == 0
      && Seek(file, Seek(file, 0, 35), 12) == 2
  {
    var file := [Record(10, []), Record(30, []), Record(5, []), Record(40, [])];
    assert Advance(file, 2, 35) == 2 && Advance(file, 1, 35) == 2;
    assert Advance(file, 2, 12) == 2;
  }

  // ---- the cursor ----

  class Source {
    const file: seq<Record>
    var read: nat
    var current: Option<Record>
    var next: Option<Record>
    ghost var at: nat

    /** What the cursor holds when it stands on record `at`: that record, the one after it, and a
        reader that has delivered both. */
    ghost predicate Valid() reads this {
      && read == (if at + 2 <= |file| then at + 2 else |file|)
      && current == (if at < |file| then Some(file[at]) else None)
      && next == (if at + 1 < |file| then Some(file[at + 1]) else None)
      && (at == 0 || at < |file|)
    }

    constructor (file: seq<Record>)
      ensures Valid() && this.file == file && at == 0
    {
      this.file := file;
      read, current, next, at := 0, None, None, 0;
      new;
      current := NextFrame();
      next := NextFrame();
    }

    /** The reader delivers the records in order, once, and then nothing. */
    method NextFrame() returns (r: Option<Record>)
      requires read <= |file|
      modifies this`read
      ensures r == (if old(read) < |file| then Some(file[old(read)]) else None)
      ensures read == (if old(read) < |file| then old(read) + 1 else |file|)
    {
      r := None;
      if read < |file| {
        r := Some(file[read]);
        read := read + 1;
      }
    }

    method Reopen()
      requires Valid()
      modifies this
      ensures Valid() && at == 0
    {
      read, at := 0, 0;
      current := NextFrame();
      next := NextFrame();
    }

    /** Nothing only for an empty file; otherwise the record the cursor seeks to, whatever the file. */
    method FrameAt(position: nat) returns (r: Option<Record>)
      requires Valid()
      modifies this
      ensures Valid()
      ensures file == [] ==> r == None
      ensures file != [] ==> at == Seek(file, old(at), position) && r == Some(file[at])
      ensures file != [] && NonDecreasing(file[1..]) ==> r == Some(file[Chosen(file, position)])
      ensures file != [] && RestsInOrder(file) && Rests(file, old(at)) ==>
        r == Some(file[Seek(file, 0, position)]) && Rests(file, at)
    {
      hide RestsInOrder, Rests, NonDecreasing, Chosen;
      ghost var target := if file == [] then 0 else Seek(file, at, position);
      if current.Some? && position < current.value.timestamp {
        Reopen();
      }
      while next.Some? && next.value.timestamp <= position
        invariant Valid()
        invariant file != [] ==> Advance(file, at, position) == target
        decreases |file| - at
      {
        current := next;
        next := NextFrame();
        at := at + 1;
      }
      if file != [] && NonDecreasing(file[1..]) {
        SeekFindsChosen(file, old(at), position);
      }
      if file != [] && RestsInOrder(file) && Rests(file, old(at)) {
        SeekFromRest(file, old(at), position);
      }
      r := current;
    }
  }
}
