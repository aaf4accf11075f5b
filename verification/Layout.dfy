/** The compiled mapping as the object the output path holds: compiled once, applied in place to
    preallocated scratch for every frame. */
module Layout {
  import opened Basics
  import opened PixelTypes
  import opened LayoutTables
  import opened Scatter

  /** The content of scratch. */
  ghost function RowsOf(scratch: array2<Byte>): (r: Rows)
    requires scratch.Length1 == UNIVERSE_SIZE
    reads scratch
    ensures IsScratch(r, scratch.Length0)
    ensures forall i, b :: 0 <= i < scratch.Length0 && 0 <= b < UNIVERSE_SIZE ==> r[i][b] == scratch[i, b]
  {
    seq(scratch.Length0, i requires 0 <= i < scratch.Length0 reads scratch =>
      seq(UNIVERSE_SIZE, b requires 0 <= b < UNIVERSE_SIZE reads scratch => scratch[i, b]))
  }

  /** `ColorFormat::write` into the bytes of row `i` from `at`. */
  method WritePixel(format: ColorFormat, c: PixelColor, scratch: array2<Byte>, i: nat, at: nat)
    requires scratch.Length1 == UNIVERSE_SIZE && i < scratch.Length0
    requires at + format.Channels() <= UNIVERSE_SIZE
    modifies scratch
    ensures RowsOf(scratch) == PutPixel(Target(i, at, format), c, old(RowsOf(scratch)), scratch.Length0)
  {
    hide PutPixel;
    match format {
      case Three(order) =>
        var b := order.Bytes(c);
        scratch[i, at], scratch[i, at + 1], scratch[i, at + 2] := b[0], b[1], b[2];
      case Four(order, mode) =>
        var w := mode.White(c);
        var b := order.Bytes(mode.Residual(c));
        scratch[i, at], scratch[i, at + 1], scratch[i, at + 2], scratch[i, at + 3] := b[0], b[1], b[2], w;
    }
    ghost var w := format.Wire(c);
    assert forall k, b :: 0 <= k < scratch.Length0 && 0 <= b < UNIVERSE_SIZE ==>
      scratch[k, b] == if k == i && at <= b < at + |w| then w[b - at] else old(scratch[k, b]);
    PutIs(old(RowsOf(scratch)), RowsOf(scratch), Target(i, at, format), c, scratch.Length0);
  }

  /** Putting a pixel is to change its bytes and no others. */
  lemma PutIs(was: Rows, now: Rows, t: Target, c: PixelColor, n: nat)
    requires IsScratch(was, n) && IsScratch(now, n) && InRange(t, n)
    requires var w := t.format.Wire(c);
             forall k, b :: 0 <= k < n && 0 <= b < UNIVERSE_SIZE ==>
               now[k][b] == if k == t.uniIndex && t.byte <= b < t.byte + |w| then w[b - t.byte] else was[k][b]
    ensures now == PutPixel(t, c, was, n)
  {
    SameRows(now, PutPixel(t, c, was, n), n);
  }

  lemma SameRows(x: Rows, y: Rows, n: nat)
    requires IsScratch(x, n) && IsScratch(y, n)
    requires forall k, b :: 0 <= k < n && 0 <= b < UNIVERSE_SIZE ==> x[k][b] == y[k][b]
    ensures x == y
  {
    forall k | 0 <= k < n ensures x[k] == y[k] {
    }
  }

  class CompiledLayout {
    const targets: seq<Target>
    const universes: seq<Word16>
    const blocks: seq<Block>
    ghost const slots: seq<(Word16, Word16)>
    var applyCount: nat

    constructor (targets: seq<Target>, universes: seq<Word16>, blocks: seq<Block>, ghost slots: seq<(Word16, Word16)>)
      ensures this.targets == targets && this.universes == universes && this.blocks == blocks && this.slots == slots
      ensures applyCount == 0
    {
      this.targets, this.universes, this.blocks, this.slots := targets, universes, blocks, slots;
      applyCount := 0;
    }

    /** `make_scratch`: one dark row per universe. */
    method MakeScratch() returns (scratch: array2<Byte>)
      ensures fresh(scratch) && scratch.Length0 == |universes| && scratch.Length1 == UNIVERSE_SIZE
      ensures forall i, b :: 0 <= i < |universes| && 0 <= b < UNIVERSE_SIZE ==> RowsOf(scratch)[i][b] == 0
    {
      scratch := new Byte[|universes|, UNIVERSE_SIZE]((i, b) => 0);
    }

    /** Scatters one frame into scratch, in place. A target outside its universe would panic, so the
        caller owes `AllInRange`. */
    method Apply(pixels: seq<PixelColor>, scratch: array2<Byte>)
      requires scratch.Length0 == |universes| && scratch.Length1 == UNIVERSE_SIZE
      requires AllInRange(targets, |universes|)
      modifies this`applyCount, scratch
      ensures RowsOf(scratch) == Applied(targets, pixels, old(RowsOf(scratch)), |universes|)
      ensures applyCount == old(applyCount) + 1
    {
      hide PutPixel, RowsOf;
      applyCount := applyCount + 1;
      for id := 0 to |pixels|
        invariant applyCount == old(applyCount) + 1
        invariant RowsOf(scratch) == PutPixels(targets, pixels, Min(|targets|, id), old(RowsOf(scratch)), |universes|)
      {
        if id < |targets| {
          var t := targets[id];
          WritePixel(t.format, pixels[id], scratch, t.uniIndex, t.byte);
          assert Target(t.uniIndex, t.byte, t.format) == t;
        }
      }
    }
  }

  method Compile(a: seq<PixelPhysical>) returns (l: CompiledLayout)
    ensures fresh(l) && l.applyCount == 0
    ensures Compiled(a, l.targets, l.universes, l.blocks, l.slots)
  {
    hide FirstSeen, UniversesOf, Numbers, GroupsOf, Tiled, Compiled;
    var groups := GroupByDevice(a);
    GroupsAreDistinct(a, groups);
    var universes, blocks, indexOf, slots := LayOut(groups);
    var targets: seq<Target> := [];
    for p := 0 to |a|
      invariant Targeted(a[..p], targets, slots)
    {
      PairHasSlot(a, groups, blocks, slots, p);
      targets := targets + [Target(indexOf[(a[p].device, a[p].universe)], a[p].channel, a[p].format)];
    }
    assert a[..|a|] == a;
    TablesAreCompiled(a, groups, blocks, indexOf, slots, targets);
    l := new CompiledLayout(targets, universes, blocks, slots);
  }
}
