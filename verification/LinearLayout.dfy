/** `linear_format`: a strip of one format laid end to end over the universes of the given devices,
    with the 16-bit universe counter and its wrap. */
module LinearLayout {
  import opened Basics
  import opened PixelTypes
  import opened LayoutTables
  import opened Scatter
  import Layout

  datatype DeviceSpec = DeviceSpec(id: Word16, universes: Word16)

  // ---- the closed form ----

  function Total(devices: seq<DeviceSpec>): nat {
    if devices == [] then 0 else Total(devices[..|devices| - 1]) + devices[|devices| - 1].universes
  }

  /** The device that owns slot `k`. */
  function Owner(devices: seq<DeviceSpec>, k: nat): Word16
    requires k < Total(devices)
  {
    var n := |devices| - 1;
    if k < Total(devices[..n]) then Owner(devices[..n], k) else devices[n].id
  }

  /** Slots are dealt out device by device, in order, as many to each as it has universes. */
  lemma {:induction false} OwnerIs(devices: seq<DeviceSpec>, d: nat, k: nat)
    requires d < |devices| && Total(devices[..d]) <= k < Total(devices[..d]) + devices[d].universes
    ensures k < Total(devices) && Owner(devices, k) == devices[d].id
    decreases |devices|
  {
    var n := |devices| - 1;
    if d < n {
      assert devices[..n][..d] == devices[..d];
      OwnerIs(devices[..n], d, k);
    }
  }

  /** Whole pixels of a format in one universe. */
  function PerUniverse(format: ColorFormat): (n: nat)
    ensures n == UNIVERSE_SIZE / format.Channels()
  {
    if format.Three? then 170 else 128
  }

  /** The pixels that fit in `slots` universes. */
  function Capacity(slots: nat, format: ColorFormat): (n: nat)
    ensures n == slots * PerUniverse(format)
  {
    if format.Three? then slots * 170 else slots * 128
  }

  function SlotOf(format: ColorFormat, p: nat): (k: nat)
    ensures k == p / PerUniverse(format)
  {
    if format.Three? then p / 170 else p / 128
  }

  function ChannelOf(format: ColorFormat, p: nat): (c: Word16)
    ensures c == p % PerUniverse(format) * format.Channels()
    ensures c + format.Channels() <= UNIVERSE_SIZE
  {
    if format.Three? then p % 170 * 3 else p % 128 * 4
  }

  function PlaceOf(devices: seq<DeviceSpec>, format: ColorFormat, p: nat): PixelPhysical
    requires p < Capacity(Total(devices), format)
  {
    var k := SlotOf(format, p);
    PixelPhysical(Owner(devices, k), k % 0x1_0000, ChannelOf(format, p), format)
  }

  // ---- the loops ----

  /** The universes of one device, numbered on from those before. */
  method AppendSlots(before: seq<(Word16, Word16)>, from: Word16, d: DeviceSpec)
    returns (slots: seq<(Word16, Word16)>, uniNo: Word16)
    requires from == |before| % 0x1_0000
    ensures |slots| == |before| + d.universes && uniNo == |slots| % 0x1_0000 && slots[..|before|] == before
    ensures forall k :: |before| <= k < |slots| ==> slots[k] == (d.id, k % 0x1_0000)
  {
    slots, uniNo := before, from;
    for i := 0 to d.universes
      invariant |slots| == |before| + i && uniNo == |slots| % 0x1_0000 && slots[..|before|] == before
      invariant forall k :: |before| <= k < |slots| ==> slots[k] == (d.id, k % 0x1_0000)
    {
      NextNumber(|slots|);
      slots := slots + [(d.id, uniNo)];
      uniNo := (uniNo + 1) % 0x1_0000;
    }
  }

  lemma NextNumber(n: nat)
    ensures (n % 0x1_0000 + 1) % 0x1_0000 == (n + 1) % 0x1_0000
  {
  }

  /** The universes of the devices, numbered globally by a wrapping 16-bit counter. */
  method Slots(devices: seq<DeviceSpec>) returns (slots: seq<(Word16, Word16)>)
    ensures |slots| == Total(devices)
    ensures forall k :: 0 <= k < |slots| ==> slots[k] == (Owner(devices, k), k % 0x1_0000)
  {
    hide Owner, Total;
    slots := [];
    NoSlots();
    var uniNo: Word16 := 0;
    for d := 0 to |devices|
      invariant |slots| == Total(devices[..d]) && uniNo == |slots| % 0x1_0000
      invariant forall k :: 0 <= k < |slots| ==> slots[k] == (Owner(devices[..d], k), k % 0x1_0000)
    {
      SlotsOf(devices[..d], devices[d]);
      assert devices[..d + 1] == devices[..d] + [devices[d]];
      ghost var before := slots;
      slots, uniNo := AppendSlots(slots, uniNo, devices[d]);
      assert forall k :: 0 <= k < |before| ==> slots[k] == slots[..|before|][k];
    }
    assert devices[..|devices|] == devices;
  }

  lemma NoSlots()
    ensures Total([]) == 0
  {
  }

  /** One more device owns the slots after those of the others. */
  lemma SlotsOf(devices: seq<DeviceSpec>, x: DeviceSpec)
    ensures Total(devices + [x]) == Total(devices) + x.universes
    ensures forall k :: 0 <= k < Total(devices) ==> Owner(devices + [x], k) == Owner(devices, k)
    ensures forall k :: Total(devices) <= k < Total(devices) + x.universes ==> Owner(devices + [x], k) == x.id
  {
    assert (devices + [x])[..|devices|] == devices;
  }

  lemma FirstPlace(slots: nat, format: ColorFormat)
    ensures Capacity(slots, format) >= 0 && SlotOf(format, 0) == 0 && ChannelOf(format, 0) == 0
  {
  }

  /** From one pixel to the next: on by one pixel, or to the start of the next universe. */
  lemma NextPlace(format: ColorFormat, p: nat)
    requires p > 0
    ensures var byte := ChannelOf(format, p - 1) + format.Channels();
            if byte + format.Channels() > UNIVERSE_SIZE
            then SlotOf(format, p) == SlotOf(format, p - 1) + 1 && ChannelOf(format, p) == 0
            else SlotOf(format, p) == SlotOf(format, p - 1) && ChannelOf(format, p) == byte
  {
  }

  lemma SlotWithin(format: ColorFormat, p: nat, slots: nat)
    ensures SlotOf(format, p) < slots <==> p < Capacity(slots, format)
  {
  }

  lemma PlaceIs(devices: seq<DeviceSpec>, format: ColorFormat, p: nat)
    requires p < Capacity(Total(devices), format)
    ensures SlotOf(format, p) < Total(devices)
    ensures PlaceOf(devices, format, p)
         == PixelPhysical(Owner(devices, SlotOf(format, p)), SlotOf(format, p) % 0x1_0000, ChannelOf(format, p), format)
  {
  }

  /** The destinations, or nothing when the pixels do not fit, which is where the source panics. */
  method Assign(pixelCount: nat, devices: seq<DeviceSpec>, format: ColorFormat)
    returns (r: Option<seq<PixelPhysical>>)
    ensures r.Some? <==> pixelCount <= Capacity(Total(devices), format)
    ensures r.Some? ==> |r.value| == pixelCount
    ensures r.Some? ==> forall p :: 0 <= p < pixelCount ==> r.value[p] == PlaceOf(devices, format, p)
  {
    hide Owner, Total, Capacity, SlotOf, ChannelOf, PlaceOf;
    var stride := format.Channels();
    var slots := Slots(devices);
    FirstPlace(|slots|, format);
    var assignments: seq<PixelPhysical> := [];
    var slot, byte := 0, 0;
    for p := 0 to pixelCount
      invariant |assignments| == p <= Capacity(|slots|, format)
      invariant p == 0 ==> slot == 0 && byte == 0
      invariant p > 0 ==> slot == SlotOf(format, p - 1) && byte == ChannelOf(format, p - 1) + stride
      invariant forall q :: 0 <= q < p ==> assignments[q] == PlaceOf(devices, format, q)
    {
      if p > 0 {
        NextPlace(format, p);
      }
      if byte + stride > UNIVERSE_SIZE {
        slot, byte := slot + 1, 0;
      }
      SlotWithin(format, p, |slots|);
      if slot >= |slots| {
        return None;
      }
      PlaceIs(devices, format, p);
      assignments := assignments + [PixelPhysical(slots[slot].0, slots[slot].1, byte, format)];
      byte := byte + stride;
    }
    r := Some(assignments);
  }

  method LinearFormat(pixelCount: nat, devices: seq<DeviceSpec>, format: ColorFormat)
    returns (r: Option<Layout.CompiledLayout>, ghost assignments: seq<PixelPhysical>)
    ensures r.Some? <==> pixelCount <= Capacity(Total(devices), format)
    ensures r.Some? ==> |assignments| == pixelCount
    ensures r.Some? ==> forall p :: 0 <= p < pixelCount ==> assignments[p] == PlaceOf(devices, format, p)
    ensures r.Some? ==> Compiled(assignments, r.value.targets, r.value.universes, r.value.blocks, r.value.slots)
  {
    hide Compiled, PlaceOf;
    var a := Assign(pixelCount, devices, format);
    match a {
      case None => r, assignments := None, [];
      case Some(places) =>
        var l := Layout.Compile(places);
        r, assignments := Some(l), places;
    }
  }

  // ---- what the closed form guarantees ----

  lemma SameNumber(a: nat, b: nat)
    ensures a % 0x1_0000 == b % 0x1_0000 <==> (b - a) % 0x1_0000 == 0
  {
  }

  /** `e` slots and a change of position from `i` to `j`, as a number of pixels. */
  function Distance(format: ColorFormat, e: int, i: nat, j: nat): int {
    if format.Three? then 170 * e + (j - i) else 128 * e + (j - i)
  }

  lemma TurnsAreMultiples(format: ColorFormat, e: int, i: nat, u: int)
    requires e == 0x1_0000 * u
    ensures Distance(format, e, i, i) == if format.Three? then 0xAA_0000 * u else 0x80_0000 * u
  {
  }

  lemma MultiplesAreTurns(format: ColorFormat, e: int, i: nat, j: nat, t: int)
    requires i < PerUniverse(format) && j < PerUniverse(format)
    requires Distance(format, e, i, j) == if format.Three? then 0xAA_0000 * t else 0x80_0000 * t
    ensures i == j && e == 0x1_0000 * t
  {
    if format.Three? {
      assert 170 * (e - 0x1_0000 * t) == i - j;
    } else {
      assert 128 * (e - 0x1_0000 * t) == i - j;
    }
  }

  lemma WholeTurns(format: ColorFormat, e: int, i: nat, j: nat)
    requires i < PerUniverse(format) && j < PerUniverse(format)
    ensures Distance(format, e, i, j) % Turn(format) == 0 <==> i == j && e % 0x1_0000 == 0
  {
    hide Distance;
    var d := Distance(format, e, i, j);
    if i == j && e % 0x1_0000 == 0 {
      TurnsAreMultiples(format, e, i, e / 0x1_0000);
    }
    if d % Turn(format) == 0 {
      MultiplesAreTurns(format, e, i, j, d / Turn(format));
    }
  }

  /** The pixels a strip holds before the universe counter repeats. */
  function Turn(format: ColorFormat): (n: nat)
    ensures n == Capacity(0x1_0000, format)
    ensures n > 0
  {
    if format.Three? then 0xAA_0000 else 0x80_0000
  }

  /** Two pixels overlap exactly when one device owns both and they are whole turns of the universe
      counter apart. */
  lemma OverlapExactly(devices: seq<DeviceSpec>, format: ColorFormat, p: nat, q: nat)
    requires p < q < Capacity(Total(devices), format)
    ensures !Apart(PlaceOf(devices, format, p), PlaceOf(devices, format, q))
      <==> Owner(devices, SlotOf(format, p)) == Owner(devices, SlotOf(format, q)) && (q - p) % Turn(format) == 0
  {
    hide Owner, Total;
    var a, b := SlotOf(format, p), SlotOf(format, q);
    SameNumber(a, b);
    var i, j := p % PerUniverse(format), q % PerUniverse(format);
    WholeTurns(format, b - a, i, j);
    assert Distance(format, b - a, i, j) == q - p;
  }

  predicate DistinctIds(devices: seq<DeviceSpec>) {
    forall g, h :: 0 <= g < h < |devices| ==> devices[g].id != devices[h].id
  }

  lemma {:induction false} OwnerIsDevice(devices: seq<DeviceSpec>, k: nat) returns (g: nat)
    requires k < Total(devices)
    ensures g < |devices| && devices[g].id == Owner(devices, k)
    decreases |devices|
  {
    var n := |devices| - 1;
    if k < Total(devices[..n]) {
      g := OwnerIsDevice(devices[..n], k);
    } else {
      g := n;
    }
  }

  lemma {:induction false} OwnersClose(devices: seq<DeviceSpec>, s: nat, t: nat)
    requires DistinctIds(devices) && s < t < Total(devices)
    requires Owner(devices, s) == Owner(devices, t)
    ensures t - s < 0x1_0000
    decreases |devices|
  {
    var n := |devices| - 1;
    if t < Total(devices[..n]) {
      OwnersClose(devices[..n], s, t);
    } else if s < Total(devices[..n]) {
      var g := OwnerIsDevice(devices[..n], s);
    }
  }

  /** With distinct device ids, or no more universes than the counter can number, no two pixels share
      a byte and none leaves its universe. */
  lemma SpansApart(devices: seq<DeviceSpec>, format: ColorFormat, p: nat, q: nat)
    requires DistinctIds(devices) || Total(devices) <= 0x1_0000
    requires p < Capacity(Total(devices), format) && q < Capacity(Total(devices), format) && p != q
    ensures Apart(PlaceOf(devices, format, p), PlaceOf(devices, format, q))
  {
    hide Owner, Total, PlaceOf, Apart, SlotOf, Turn, Capacity, PerUniverse;
    if q < p {
      SpansApart(devices, format, q, p);
      ApartBothWays(PlaceOf(devices, format, p), PlaceOf(devices, format, q));
    } else {
      OverlapExactly(devices, format, p, q);
      var s, t := SlotOf(format, p), SlotOf(format, q);
      SlotInside(format, q, Total(devices));
      if (q - p) % Turn(format) == 0 {
        TurnsOfSlots(format, p, q);
        if DistinctIds(devices) && Owner(devices, s) == Owner(devices, t) {
          OwnersClose(devices, s, t);
        }
      }
    }
  }

  lemma ApartBothWays(x: PixelPhysical, y: PixelPhysical)
    ensures Apart(x, y) == Apart(y, x)
  {
  }

  lemma SlotInside(format: ColorFormat, p: nat, slots: nat)
    requires p < Capacity(slots, format)
    ensures SlotOf(format, p) < slots
  {
  }

  /** A whole turn of pixels is a whole turn of slots. */
  lemma TurnsOfSlots(format: ColorFormat, p: nat, q: nat)
    requires p < q && (q - p) % Turn(format) == 0
    ensures SlotOf(format, q) >= SlotOf(format, p) + 0x1_0000
  {
    var turns := (q - p) / Turn(format);
    assert turns >= 1 && q >= p + Turn(format);
  }

  /** Without either, the wrap does make two pixels collide. */
  lemma WrapCanCollide()
    ensures var devices := [DeviceSpec(7, 65535), DeviceSpec(7, 2)];
      var p, q := 0, 0x1_0000 * 170;
      && q < Capacity(Total(devices), Three(Grb))
      && !Apart(PlaceOf(devices, Three(Grb), p), PlaceOf(devices, Three(Grb), q))
  {
    var devices := [DeviceSpec(7, 65535), DeviceSpec(7, 2)];
    assert devices[..1] == [DeviceSpec(7, 65535)] && devices[..1][..0] == [];
    assert Total(devices[..1]) == 65535 && Total(devices) == 65537;
  }

  /** A frame on a linear layout shows every pixel it covers, each at its own place. */
  lemma StripShowsFrame(devices: seq<DeviceSpec>, format: ColorFormat, a: seq<PixelPhysical>,
                        pixels: seq<PixelColor>, image: Image, p: nat, j: nat)
    requires DistinctIds(devices) || Total(devices) <= 0x1_0000
    requires |a| <= Capacity(Total(devices), format)
    requires forall k :: 0 <= k < |a| ==> a[k] == PlaceOf(devices, format, k)
    requires p < |a| && p < |pixels| && j < format.Channels()
    ensures At(Drawn(a, pixels, image), a[p].device, a[p].universe, a[p].channel + j) == format.Wire(pixels[p])[j]
  {
    hide Owner, Total, Apart, DrawPixels, At;
    var k := Min(|a|, |pixels|);
    forall q | 0 <= q < k && q != p ensures Apart(a[p], a[q]) {
      SpansApart(devices, format, p, q);
    }
    EveryPixelShows(a, pixels, image, k, p, j);
  }
}
