/** The tables `compile` builds from one destination per pixel: devices in first-seen order, each
    owning a contiguous block of scratch rows, and one target per pixel. */
module LayoutTables {
  import opened PixelTypes

  const UNIVERSE_SIZE: nat := 512

  type Word16 = n: nat | n < 0x1_0000

  /** Where one logical pixel goes. */
  datatype PixelPhysical = PixelPhysical(device: Word16, universe: Word16, channel: Word16, format: ColorFormat)

  datatype Target = Target(uniIndex: nat, byte: nat, format: ColorFormat)

  /** A device and the block `lo..hi` of scratch it owns. */
  datatype Block = Block(device: Word16, lo: nat, hi: nat)

  // ---- first-seen order ----

  /** The distinct elements of `s`, each at its first occurrence. */
  function FirstSeen(s: seq<Word16>): seq<Word16> {
    if s == [] then []
    else
      var before := FirstSeen(s[..|s| - 1]);
      if s[|s| - 1] in before then before else before + [s[|s| - 1]]
  }

  predicate Distinct<T(==)>(s: seq<T>) {
    forall i, j :: 0 <= i < j < |s| ==> s[i] != s[j]
  }

  lemma {:induction false} FirstSeenIsDistinct(s: seq<Word16>)
    ensures Distinct(FirstSeen(s))
    ensures forall x :: x in FirstSeen(s) <==> x in s
    decreases |s|
  {
    if s != [] {
      FirstSeenIsDistinct(s[..|s| - 1]);
      assert s == s[..|s| - 1] + [s[|s| - 1]];
    }
  }

  /** And they are in the order in which they first occur. */
  lemma {:induction false} FirstSeenInOrder(s: seq<Word16>, i: nat, j: nat)
    requires i < j < |FirstSeen(s)|
    ensures exists p :: 0 <= p < |s| && s[p] == FirstSeen(s)[i] && FirstSeen(s)[j] !in s[..p + 1]
    decreases |s|
  {
    var n := |s| - 1;
    var before := FirstSeen(s[..n]);
    FirstSeenIsDistinct(s[..n]);
    if j < |before| {
      FirstSeenInOrder(s[..n], i, j);
      var p :| 0 <= p < n && s[..n][p] == before[i] && before[j] !in s[..n][..p + 1];
      assert s[..n][..p + 1] == s[..p + 1];
    } else {
      assert before[i] in s[..n];
      var p :| 0 <= p < n && s[..n][p] == before[i];
      assert forall q :: 0 <= q < p + 1 ==> s[..p + 1][q] == s[..n][q];
    }
  }

  function Devices(a: seq<PixelPhysical>): seq<Word16> {
    seq(|a|, k requires 0 <= k < |a| => a[k].device)
  }

  function UniversesOf(a: seq<PixelPhysical>, device: Word16): seq<Word16> {
    if a == [] then []
    else
      var before := UniversesOf(a[..|a| - 1], device);
      if a[|a| - 1].device == device then before + [a[|a| - 1].universe] else before
  }

  lemma {:induction false} UniversesOfMembers(a: seq<PixelPhysical>, device: Word16, u: Word16)
    ensures u in UniversesOf(a, device) <==> exists k :: 0 <= k < |a| && a[k].device == device && a[k].universe == u
    decreases |a|
  {
    if a != [] {
      var n := |a| - 1;
      UniversesOfMembers(a[..n], device, u);
      if u in UniversesOf(a[..n], device) {
        var k :| 0 <= k < n && a[..n][k].device == device && a[..n][k].universe == u;
        assert a[k] == a[..n][k];
      }
      if k :| 0 <= k < |a| && a[k].device == device && a[k].universe == u {
        assert k < n ==> a[..n][k] == a[k];
      }
    }
  }

  // ---- grouping by device ----

  datatype Group = Group(device: Word16, universes: seq<Word16>)

  /** Devices in first-seen order, each with its universes in first-seen order. */
  ghost predicate GroupsOf(a: seq<PixelPhysical>, groups: seq<Group>) {
    && |groups| == |FirstSeen(Devices(a))|
    && forall g :: 0 <= g < |groups| ==>
      && groups[g].device == FirstSeen(Devices(a))[g]
      && groups[g].universes == FirstSeen(UniversesOf(a, groups[g].device))
  }

  lemma FirstSeenSnoc(s: seq<Word16>, x: Word16)
    ensures FirstSeen(s + [x]) == if x in FirstSeen(s) then FirstSeen(s) else FirstSeen(s) + [x]
  {
    assert (s + [x])[..|s|] == s;
  }

  lemma UniversesSnoc(a: seq<PixelPhysical>, x: PixelPhysical, d: Word16)
    ensures UniversesOf(a + [x], d) == if x.device == d then UniversesOf(a, d) + [x.universe] else UniversesOf(a, d)
  {
    assert (a + [x])[..|a|] == a;
  }

  lemma DevicesSnoc(a: seq<PixelPhysical>, x: PixelPhysical)
    ensures Devices(a + [x]) == Devices(a) + [x.device]
  {
  }

  lemma {:induction false} UnseenHasNoUniverses(a: seq<PixelPhysical>, d: Word16)
    requires forall k :: 0 <= k < |a| ==> a[k].device != d
    ensures UniversesOf(a, d) == []
    decreases |a|
  {
    if a != [] {
      UnseenHasNoUniverses(a[..|a| - 1], d);
    }
  }

  /** The position of a device's group, or the number of groups when it has none. */
  function Position(groups: seq<Group>, d: Word16): (i: nat)
    ensures i <= |groups|
    ensures i < |groups| ==> groups[i].device == d
    ensures forall j :: 0 <= j < i ==> groups[j].device != d
  {
    if groups == [] || groups[0].device == d then 0 else 1 + Position(groups[1..], d)
  }

  function WithUniverse(g: Group, u: Word16): Group {
    if u in g.universes then g else Group(g.device, g.universes + [u])
  }

  lemma GroupNewDevice(a: seq<PixelPhysical>, x: PixelPhysical, groups: seq<Group>)
    requires GroupsOf(a, groups) && Position(groups, x.device) == |groups|
    ensures GroupsOf(a + [x], groups + [Group(x.device, [x.universe])])
  {
    hide FirstSeen, UniversesOf, Position;
    FirstSeenIsDistinct(Devices(a));
    DevicesSnoc(a, x);
    FirstSeenSnoc(Devices(a), x.device);
    assert x.device !in FirstSeen(Devices(a));
    assert forall k :: 0 <= k < |a| ==> Devices(a)[k] == a[k].device;
    UnseenHasNoUniverses(a, x.device);
    SingleUniverse(x.universe);
    forall d ensures UniversesOf(a + [x], d) == if x.device == d then UniversesOf(a, d) + [x.universe] else UniversesOf(a, d) {
      UniversesSnoc(a, x, d);
    }
  }

  lemma SingleUniverse(u: Word16)
    ensures FirstSeen([] + [u]) == [u]
  {
    FirstSeenSnoc([], u);
  }

  lemma GroupKnownDevice(a: seq<PixelPhysical>, x: PixelPhysical, groups: seq<Group>, i: nat)
    requires GroupsOf(a, groups) && i < |groups| && groups[i].device == x.device
    ensures GroupsOf(a + [x], groups[i := WithUniverse(groups[i], x.universe)])
  {
    hide FirstSeen, UniversesOf;
    FirstSeenIsDistinct(Devices(a));
    DevicesSnoc(a, x);
    FirstSeenSnoc(Devices(a), x.device);
    assert FirstSeen(Devices(a))[i] == x.device;
    FirstSeenSnoc(UniversesOf(a, x.device), x.universe);
    forall d ensures UniversesOf(a + [x], d) == if x.device == d then UniversesOf(a, d) + [x.universe] else UniversesOf(a, d) {
      UniversesSnoc(a, x, d);
    }
  }

  /** The first loop of `compile`. */
  method GroupByDevice(a: seq<PixelPhysical>) returns (groups: seq<Group>)
    ensures GroupsOf(a, groups)
  {
    hide FirstSeen, UniversesOf;
    groups := [];
    NoGroups();
    for n := 0 to |a|
      invariant GroupsOf(a[..n], groups)
    {
      assert a[..n + 1] == a[..n] + [a[n]];
      var di := Position(groups, a[n].device);
      ghost var before := groups;
      if di == |groups| {
        GroupNewDevice(a[..n], a[n], groups);
        groups := groups + [Group(a[n].device, [])];
      } else {
        GroupKnownDevice(a[..n], a[n], groups, di);
      }
      if a[n].universe !in groups[di].universes {
        groups := groups[di := Group(groups[di].device, groups[di].universes + [a[n].universe])];
      }
      if di == |before| {
        assert [] + [a[n].universe] == [a[n].universe];
        assert groups == before + [Group(a[n].device, [a[n].universe])];
      } else {
        assert groups == before[di := WithUniverse(before[di], a[n].universe)];
      }
    }
    assert a[..|a|] == a;
  }

  lemma NoGroups()
    ensures GroupsOf([], [])
  {
  }

  // ---- the flat table ----

  function Pairs(d: Word16, us: seq<Word16>): (s: seq<(Word16, Word16)>)
    ensures |s| == |us|
  {
    seq(|us|, k requires 0 <= k < |us| => (d, us[k]))
  }

  /** The blocks tile `0..|slots|` in order, one per group; `slots[i]` is the device and universe that
      row `i` of scratch belongs to. */
  ghost predicate Tiled(groups: seq<Group>, blocks: seq<Block>, slots: seq<(Word16, Word16)>) {
    && |blocks| == |groups|
    && (forall g :: 0 <= g < |groups| ==> Tile(groups[g], blocks, slots, g))
    && |slots| == EndOf(blocks, |blocks|)
  }

  /** Where the first `n` blocks end. */
  function EndOf(blocks: seq<Block>, n: nat): nat
    requires n <= |blocks|
  {
    if n == 0 then 0 else blocks[n - 1].hi
  }

  /** Block `g` starts where the one before ends and holds the universes of `x`. */
  ghost predicate Tile(x: Group, blocks: seq<Block>, slots: seq<(Word16, Word16)>, g: nat)
    requires g < |blocks|
  {
    var b := blocks[g];
    && b.device == x.device && b.lo == EndOf(blocks, g) && b.lo <= b.hi <= |slots|
    && slots[b.lo..b.hi] == Pairs(x.device, x.universes)
  }

  /** Every row is found under its own device and universe, and nothing else is. */
  ghost predicate Indexed(indexOf: map<(Word16, Word16), nat>, slots: seq<(Word16, Word16)>) {
    && (forall i :: 0 <= i < |slots| ==> slots[i] in indexOf && indexOf[slots[i]] == i)
    && forall s :: s in indexOf ==> s in slots
  }

  function Numbers(slots: seq<(Word16, Word16)>): (u: seq<Word16>)
    ensures |u| == |slots|
  {
    seq(|slots|, i requires 0 <= i < |slots| => slots[i].1)
  }

  lemma TiledSnoc(groups: seq<Group>, blocks: seq<Block>, slots: seq<(Word16, Word16)>, x: Group)
    requires Tiled(groups, blocks, slots)
    ensures Tiled(groups + [x], blocks + [Block(x.device, |slots|, |slots| + |x.universes|)],
                  slots + Pairs(x.device, x.universes))
  {
    var more := slots + Pairs(x.device, x.universes);
    var bs, gs := blocks + [Block(x.device, |slots|, |slots| + |x.universes|)], groups + [x];
    forall g | 0 <= g < |gs| ensures Tile(gs[g], bs, more, g) {
      assert EndOf(bs, g) == EndOf(blocks, g);
      if g < |groups| {
        assert Tile(groups[g], blocks, slots, g);
        assert more[bs[g].lo..bs[g].hi] == slots[bs[g].lo..bs[g].hi];
      } else {
        assert more[|slots|..|slots| + |x.universes|] == Pairs(x.device, x.universes);
      }
    }
  }

  lemma IndexSnoc(indexOf: map<(Word16, Word16), nat>, slots: seq<(Word16, Word16)>, s: (Word16, Word16))
    requires Indexed(indexOf, slots) && s !in slots
    ensures Indexed(indexOf[s := |slots|], slots + [s])
  {
    var more := slots + [s];
    forall t | t in indexOf[s := |slots|] ensures t in more {
      if t in slots {
        var i :| 0 <= i < |slots| && slots[i] == t;
        assert more[i] == t;
      } else {
        assert more[|slots|] == s;
      }
    }
  }

  lemma NoRows()
    ensures Tiled([], [], []) && Indexed(map[], []) && Numbers([]) == []
  {
  }

  /** The second loop of `compile`. */
  method LayOut(groups: seq<Group>)
    returns (universes: seq<Word16>, blocks: seq<Block>, indexOf: map<(Word16, Word16), nat>, ghost slots: seq<(Word16, Word16)>)
    requires forall g, h :: 0 <= g < h < |groups| ==> groups[g].device != groups[h].device
    requires forall g :: 0 <= g < |groups| ==> Distinct(groups[g].universes)
    ensures Tiled(groups, blocks, slots) && Indexed(indexOf, slots) && universes == Numbers(slots)
  {
    hide Tiled, Indexed, Numbers;
    universes, blocks, indexOf, slots := [], [], map[], [];
    ghost var seen: set<Word16> := {};
    NoRows();
    for g := 0 to |groups|
      invariant Tiled(groups[..g], blocks, slots) && Indexed(indexOf, slots) && universes == Numbers(slots)
      invariant forall i :: 0 <= i < |slots| ==> slots[i].0 in seen
      invariant forall h :: g <= h < |groups| ==> groups[h].device !in seen
    {
      ghost var rows := slots;
      assert groups[..g + 1] == groups[..g] + [groups[g]];
      TiledSnoc(groups[..g], blocks, slots, groups[g]);
      blocks, universes, indexOf, slots := LayOutGroup(groups[g], blocks, universes, indexOf, slots);
      seen := seen + {groups[g].device};
      assert forall i :: |rows| <= i < |slots| ==> slots[i] == (groups[g].device, groups[g].universes[i - |rows|]);
    }
    assert groups[..|groups|] == groups;
  }

  /** One round of it: a device's universes are appended, and its block recorded. */
  method LayOutGroup(x: Group, blocks0: seq<Block>, universes0: seq<Word16>,
                     indexOf0: map<(Word16, Word16), nat>, ghost slots0: seq<(Word16, Word16)>)
    returns (blocks: seq<Block>, universes: seq<Word16>, indexOf: map<(Word16, Word16), nat>, ghost slots: seq<(Word16, Word16)>)
    requires Distinct(x.universes) && forall i :: 0 <= i < |slots0| ==> slots0[i].0 != x.device
    requires Indexed(indexOf0, slots0) && universes0 == Numbers(slots0)
    ensures blocks == blocks0 + [Block(x.device, |slots0|, |slots0| + |x.universes|)]
    ensures slots == slots0 + Pairs(x.device, x.universes)
    ensures Indexed(indexOf, slots) && universes == Numbers(slots)
  {
    hide Indexed;
    universes, indexOf, slots := universes0, indexOf0, slots0;
    var start := |universes|;
    for k := 0 to |x.universes|
      invariant Indexed(indexOf, slots) && universes == Numbers(slots)
      invariant slots == slots0 + Pairs(x.device, x.universes[..k])
    {
      var s := (x.device, x.universes[k]);
      assert s !in slots by {
        assert forall i :: 0 <= i < |slots| ==>
          slots[i] == if i < |slots0| then slots0[i] else (x.device, x.universes[i - |slots0|]);
      }
      IndexSnoc(indexOf, slots, s);
      indexOf := indexOf[s := |universes|];
      universes := universes + [x.universes[k]];
      slots := slots + [s];
    }
    assert x.universes[..|x.universes|] == x.universes;
    blocks := blocks0 + [Block(x.device, start, |universes|)];
  }

  /** Every pixel's target is the row of its device and universe, at its channel. */
  ghost predicate Targeted(a: seq<PixelPhysical>, targets: seq<Target>, slots: seq<(Word16, Word16)>) {
    && |targets| == |a|
    && forall p :: 0 <= p < |a| ==>
      && targets[p].uniIndex < |slots| && slots[targets[p].uniIndex] == (a[p].device, a[p].universe)
      && targets[p].byte == a[p].channel && targets[p].format == a[p].format
  }

  /** What compilation promises: one target per assignment, into the row of its device and universe;
      no two rows share a pair; the rows of a device form one block; blocks tile scratch in
      first-seen device order, and a block holds its device's universes in first-seen order. */
  ghost predicate Compiled(a: seq<PixelPhysical>, targets: seq<Target>, universes: seq<Word16>,
                           blocks: seq<Block>, slots: seq<(Word16, Word16)>)
  {
    && Distinct(slots) && universes == Numbers(slots)
    && Targeted(a, targets, slots)
    && |blocks| == |FirstSeen(Devices(a))|
    && (forall g :: 0 <= g < |blocks| ==>
      Tile(Group(FirstSeen(Devices(a))[g], FirstSeen(UniversesOf(a, FirstSeen(Devices(a))[g]))), blocks, slots, g))
    && |slots| == EndOf(blocks, |blocks|)
  }

  lemma IndexedIsDistinct(indexOf: map<(Word16, Word16), nat>, slots: seq<(Word16, Word16)>)
    requires Indexed(indexOf, slots)
    ensures Distinct(slots)
  {
    forall i, j | 0 <= i < j < |slots| ensures slots[i] != slots[j] {
      assert indexOf[slots[i]] == i && indexOf[slots[j]] == j;
    }
  }

  lemma GroupsAreDistinct(a: seq<PixelPhysical>, groups: seq<Group>)
    requires GroupsOf(a, groups)
    ensures forall g, h :: 0 <= g < h < |groups| ==> groups[g].device != groups[h].device
    ensures forall g :: 0 <= g < |groups| ==> Distinct(groups[g].universes)
  {
    hide FirstSeen;
    FirstSeenIsDistinct(Devices(a));
    forall g | 0 <= g < |groups| ensures Distinct(groups[g].universes) {
      FirstSeenIsDistinct(UniversesOf(a, groups[g].device));
    }
  }

  lemma PairHasSlot(a: seq<PixelPhysical>, groups: seq<Group>, blocks: seq<Block>, slots: seq<(Word16, Word16)>, p: nat)
    requires GroupsOf(a, groups) && Tiled(groups, blocks, slots) && p < |a|
    ensures (a[p].device, a[p].universe) in slots
  {
    hide FirstSeen, UniversesOf;
    var d, u := a[p].device, a[p].universe;
    assert Devices(a)[p] == d;
    FirstSeenIsDistinct(Devices(a));
    assert d in FirstSeen(Devices(a));
    var g :| 0 <= g < |FirstSeen(Devices(a))| && FirstSeen(Devices(a))[g] == d;
    UniversesOfMembers(a, d, u);
    FirstSeenIsDistinct(UniversesOf(a, d));
    var k :| 0 <= k < |groups[g].universes| && groups[g].universes[k] == u;
    assert slots[blocks[g].lo..blocks[g].hi][k] == (d, u);
  }

  lemma TablesAreCompiled(a: seq<PixelPhysical>, groups: seq<Group>, blocks: seq<Block>,
                          indexOf: map<(Word16, Word16), nat>, slots: seq<(Word16, Word16)>, targets: seq<Target>)
    requires GroupsOf(a, groups) && Tiled(groups, blocks, slots) && Indexed(indexOf, slots)
    requires Targeted(a, targets, slots)
    ensures Compiled(a, targets, Numbers(slots), blocks, slots)
  {
    hide FirstSeen, UniversesOf, Numbers, Tile;
    IndexedIsDistinct(indexOf, slots);
  }

  // ---- the blocks ----

  /** Every row lies in the block of its own device. */
  lemma {:induction false} RowHasBlock(blocks: seq<Block>, groups: seq<Group>, slots: seq<(Word16, Word16)>, n: nat, i: nat)
    returns (g: nat)
    requires |groups| == |blocks| && n <= |blocks|
    requires forall h :: 0 <= h < |blocks| ==> Tile(groups[h], blocks, slots, h)
    requires i < EndOf(blocks, n)
    ensures g < n && blocks[g].lo <= i < blocks[g].hi <= |slots| && slots[i].0 == blocks[g].device
    decreases n
  {
    assert Tile(groups[n - 1], blocks, slots, n - 1);
    var b := blocks[n - 1];
    if i < b.lo {
      g := RowHasBlock(blocks, groups, slots, n - 1, i);
    } else {
      g := n - 1;
      assert slots[i] == slots[b.lo..b.hi][i - b.lo];
    }
  }

  /** `device_range`: the first block of that device. */
  function DeviceRange(blocks: seq<Block>, d: Word16): (r: Range)
    ensures r.Rows? ==> exists g :: 0 <= g < |blocks| && blocks[g] == Block(d, r.lo, r.hi)
    ensures r.NoDevice? ==> forall g :: 0 <= g < |blocks| ==> blocks[g].device != d
  {
    if blocks == [] then NoDevice
    else if blocks[0].device == d then
      assert blocks[0] == Block(d, blocks[0].lo, blocks[0].hi);
      Rows(blocks[0].lo, blocks[0].hi)
    else
      var r := DeviceRange(blocks[1..], d);
      assert r.Rows? ==> exists g :: 0 <= g < |blocks[1..]| && blocks[1..][g] == Block(d, r.lo, r.hi) && blocks[g + 1] == Block(d, r.lo, r.hi);
      assert forall g :: 1 <= g < |blocks| ==> blocks[g] == blocks[1..][g - 1];
      r
  }

  datatype Range = NoDevice | Rows(lo: nat, hi: nat)

  /** The range of a device is found exactly when some pixel is assigned to it, and it is exactly the
      rows of scratch that belong to the device: slicing loses none and takes no other's. */
  lemma RangeIsExactlyTheDevice(a: seq<PixelPhysical>, targets: seq<Target>, universes: seq<Word16>,
                                blocks: seq<Block>, slots: seq<(Word16, Word16)>, d: Word16)
    requires Compiled(a, targets, universes, blocks, slots)
    ensures DeviceRange(blocks, d).Rows? <==> exists p :: 0 <= p < |a| && a[p].device == d
    ensures DeviceRange(blocks, d).Rows? ==>
      var r := DeviceRange(blocks, d);
      r.lo <= r.hi <= |slots| && forall i :: 0 <= i < |slots| ==> (r.lo <= i < r.hi <==> slots[i].0 == d)
  {
    hide FirstSeen, UniversesOf, DeviceRange;
    var devices := FirstSeen(Devices(a));
    FirstSeenIsDistinct(Devices(a));
    var groups := seq(|devices|, g requires 0 <= g < |devices| => Group(devices[g], FirstSeen(UniversesOf(a, devices[g]))));
    assert forall g :: 0 <= g < |blocks| ==> Tile(groups[g], blocks, slots, g);
    var r := DeviceRange(blocks, d);
    DeviceUsed(a, blocks, groups, slots, d);
    if r.Rows? {
      var g :| 0 <= g < |blocks| && blocks[g] == Block(d, r.lo, r.hi);
      assert Tile(groups[g], blocks, slots, g);
      forall i | 0 <= i < |slots| ensures r.lo <= i < r.hi <==> slots[i].0 == d {
        var h := RowHasBlock(blocks, groups, slots, |blocks|, i);
        assert Tile(groups[h], blocks, slots, h);
        assert r.lo <= i < r.hi ==> slots[i] == slots[r.lo..r.hi][i - r.lo];
        assert blocks[h].device == blocks[g].device ==> h == g;
      }
    }
  }

  lemma DeviceUsed(a: seq<PixelPhysical>, blocks: seq<Block>, groups: seq<Group>, slots: seq<(Word16, Word16)>, d: Word16)
    requires |groups| == |blocks| == |FirstSeen(Devices(a))|
    requires forall g :: 0 <= g < |groups| ==> groups[g].device == FirstSeen(Devices(a))[g]
    requires forall g :: 0 <= g < |blocks| ==> Tile(groups[g], blocks, slots, g)
    ensures DeviceRange(blocks, d).Rows? <==> exists p :: 0 <= p < |a| && a[p].device == d
  {
    hide FirstSeen;
    FirstSeenIsDistinct(Devices(a));
    if p :| 0 <= p < |a| && a[p].device == d {
      assert Devices(a)[p] == d;
      assert d in FirstSeen(Devices(a));
      var g :| 0 <= g < |FirstSeen(Devices(a))| && FirstSeen(Devices(a))[g] == d;
      assert blocks[g].device == d;
    }
    if DeviceRange(blocks, d).Rows? {
      var g :| 0 <= g < |blocks| && blocks[g].device == d;
      assert FirstSeen(Devices(a))[g] == d;
      assert d in Devices(a);
      var p :| 0 <= p < |Devices(a)| && Devices(a)[p] == d;
      assert a[p].device == d;
    }
  }
}
