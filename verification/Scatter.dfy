/** What applying a compiled table to a frame means. The rows of scratch are compared with an image:
    a map keyed by device, universe and byte into which every pixel is written directly. */
module Scatter {
  import opened Basics
  import opened PixelTypes
  import opened LayoutTables

  type Rows = seq<seq<Byte>>

  predicate IsScratch(rows: Rows, n: nat) {
    |rows| == n && forall i :: 0 <= i < n ==> |rows[i]| == UNIVERSE_SIZE
  }

  /** The bytes of a pixel stay inside their universe, and its row exists. */
  predicate InRange(t: Target, n: nat) {
    t.uniIndex < n && t.byte + t.format.Channels() <= UNIVERSE_SIZE
  }

  predicate AllInRange(targets: seq<Target>, n: nat) {
    forall p :: 0 <= p < |targets| ==> InRange(targets[p], n)
  }

  // ---- the compiled form ----

  function Overwrite(row: seq<Byte>, at: nat, bytes: seq<Byte>): (r: seq<Byte>)
    requires at + |bytes| <= |row|
    ensures |r| == |row|
    ensures forall b :: 0 <= b < |row| ==> r[b] == if at <= b < at + |bytes| then bytes[b - at] else row[b]
  {
    row[..at] + bytes + row[at + |bytes|..]
  }

  function PutPixel(t: Target, c: PixelColor, rows: Rows, n: nat): (r: Rows)
    requires IsScratch(rows, n) && InRange(t, n)
    ensures IsScratch(r, n)
  {
    rows[t.uniIndex := Overwrite(rows[t.uniIndex], t.byte, t.format.Wire(c))]
  }

  /** The first `k` pixels of a frame, put in pixel order. */
  function PutPixels(targets: seq<Target>, pixels: seq<PixelColor>, k: nat, rows: Rows, n: nat): (r: Rows)
    requires IsScratch(rows, n) && AllInRange(targets, n) && k <= |targets| && k <= |pixels|
    ensures IsScratch(r, n)
  {
    if k == 0 then rows else PutPixel(targets[k - 1], pixels[k - 1], PutPixels(targets, pixels, k - 1, rows, n), n)
  }

  /** One frame; pixels past the layout are ignored, and a short frame leaves the rest alone. */
  function Applied(targets: seq<Target>, pixels: seq<PixelColor>, rows: Rows, n: nat): (r: Rows)
    requires IsScratch(rows, n) && AllInRange(targets, n)
    ensures IsScratch(r, n)
  {
    PutPixels(targets, pixels, Min(|targets|, |pixels|), rows, n)
  }

  function AppliedAll(targets: seq<Target>, frames: seq<seq<PixelColor>>, rows: Rows, n: nat): (r: Rows)
    requires IsScratch(rows, n) && AllInRange(targets, n)
    ensures IsScratch(r, n)
  {
    if frames == [] then rows
    else Applied(targets, frames[|frames| - 1], AppliedAll(targets, frames[..|frames| - 1], rows, n), n)
  }

  // ---- the reference ----

  type Image = map<(Word16, Word16, nat), Byte>

  /** A byte nobody has written is dark. */
  function At(image: Image, d: Word16, u: Word16, b: nat): Byte {
    if (d, u, b) in image then image[(d, u, b)] else 0
  }

  function WriteBytes(image: Image, d: Word16, u: Word16, at: nat, bytes: seq<Byte>): Image
    decreases |bytes|
  {
    if bytes == [] then image else WriteBytes(image[(d, u, at) := bytes[0]], d, u, at + 1, bytes[1..])
  }

  function DrawPixel(image: Image, a: PixelPhysical, c: PixelColor): Image {
    WriteBytes(image, a.device, a.universe, a.channel, a.format.Wire(c))
  }

  function DrawPixels(a: seq<PixelPhysical>, pixels: seq<PixelColor>, k: nat, image: Image): Image
    requires k <= |a| && k <= |pixels|
  {
    if k == 0 then image else DrawPixel(DrawPixels(a, pixels, k - 1, image), a[k - 1], pixels[k - 1])
  }

  function Drawn(a: seq<PixelPhysical>, pixels: seq<PixelColor>, image: Image): Image {
    DrawPixels(a, pixels, Min(|a|, |pixels|), image)
  }

  function DrawnAll(a: seq<PixelPhysical>, frames: seq<seq<PixelColor>>, image: Image): Image {
    if frames == [] then image
    else Drawn(a, frames[|frames| - 1], DrawnAll(a, frames[..|frames| - 1], image))
  }

  // ---- the refinement ----

  /** The rows hold exactly the image: every byte of every row is the image's, and the image has no
      byte outside the rows. */
  ghost predicate Shows(slots: seq<(Word16, Word16)>, rows: Rows, image: Image) {
    && IsScratch(rows, |slots|)
    && (forall i, b :: 0 <= i < |slots| && 0 <= b < UNIVERSE_SIZE ==> rows[i][b] == At(image, slots[i].0, slots[i].1, b))
    && forall d, u, b :: (d, u, b) in image ==> (d, u) in slots && b < UNIVERSE_SIZE
  }

  lemma {:induction false} WrittenAt(image: Image, d: Word16, u: Word16, at: nat, bytes: seq<Byte>, d': Word16, u': Word16, b: nat)
    ensures At(WriteBytes(image, d, u, at, bytes), d', u', b)
      == if d' == d && u' == u && at <= b < at + |bytes| then bytes[b - at] else At(image, d', u', b)
    ensures (d', u', b) in WriteBytes(image, d, u, at, bytes)
      <==> (d', u', b) in image || (d' == d && u' == u && at <= b < at + |bytes|)
    decreases |bytes|
  {
    if bytes != [] {
      WrittenAt(image[(d, u, at) := bytes[0]], d, u, at + 1, bytes[1..], d', u', b);
    }
  }

  /** One pixel: distinct rows are what keeps it from showing anywhere else. */
  lemma PixelShows(slots: seq<(Word16, Word16)>, rows: Rows, image: Image, t: Target, a: PixelPhysical, c: PixelColor)
    requires Distinct(slots) && Shows(slots, rows, image) && InRange(t, |slots|)
    requires slots[t.uniIndex] == (a.device, a.universe) && t.byte == a.channel && t.format == a.format
    ensures Shows(slots, PutPixel(t, c, rows, |slots|), DrawPixel(image, a, c))
  {
    hide WriteBytes;
    var after, w := PutPixel(t, c, rows, |slots|), t.format.Wire(c);
    forall i, b | 0 <= i < |slots| && 0 <= b < UNIVERSE_SIZE
      ensures after[i][b] == At(DrawPixel(image, a, c), slots[i].0, slots[i].1, b)
    {
      WrittenAt(image, a.device, a.universe, a.channel, w, slots[i].0, slots[i].1, b);
      assert slots[i] == slots[t.uniIndex] <==> i == t.uniIndex;
    }
    forall d, u, b | (d, u, b) in DrawPixel(image, a, c) ensures (d, u) in slots && b < UNIVERSE_SIZE {
      WrittenAt(image, a.device, a.universe, a.channel, w, d, u, b);
      assert slots[t.uniIndex] in slots;
    }
  }

  lemma {:induction false} PixelsShow(slots: seq<(Word16, Word16)>, rows: Rows, image: Image,
                                     targets: seq<Target>, a: seq<PixelPhysical>, pixels: seq<PixelColor>, k: nat)
    requires Distinct(slots) && Shows(slots, rows, image) && Targeted(a, targets, slots)
    requires AllInRange(targets, |slots|) && k <= |targets| && k <= |pixels|
    ensures Shows(slots, PutPixels(targets, pixels, k, rows, |slots|), DrawPixels(a, pixels, k, image))
    decreases k
  {
    hide PutPixel, DrawPixel, Shows, Distinct;
    if k > 0 {
      ShowsIsScratch(slots, rows, image);
      PixelsShow(slots, rows, image, targets, a, pixels, k - 1);
      var r, m := PutPixels(targets, pixels, k - 1, rows, |slots|), DrawPixels(a, pixels, k - 1, image);
      PixelShows(slots, r, m, targets[k - 1], a[k - 1], pixels[k - 1]);
    }
  }

  /** Compiling and then applying any sequence of frames leaves every byte of every universe of every
      device exactly as writing each pixel straight to its destination would, in pixel order. */
  lemma {:induction false} CompiledShowsFrames(a: seq<PixelPhysical>, targets: seq<Target>, universes: seq<Word16>,
                                              blocks: seq<Block>, slots: seq<(Word16, Word16)>,
                                              rows: Rows, image: Image, frames: seq<seq<PixelColor>>)
    requires Compiled(a, targets, universes, blocks, slots)
    requires forall p :: 0 <= p < |a| ==> a[p].channel + a[p].format.Channels() <= UNIVERSE_SIZE
    requires Shows(slots, rows, image)
    ensures AllInRange(targets, |slots|)
    ensures Shows(slots, AppliedAll(targets, frames, rows, |slots|), DrawnAll(a, frames, image))
    decreases |frames|
  {
    hide PutPixels, DrawPixels, Shows, Distinct, Tile, FirstSeen, UniversesOf;
    assert IsScratch(rows, |slots|) by { ShowsIsScratch(slots, rows, image); }
    if frames != [] {
      var n := |frames| - 1;
      CompiledShowsFrames(a, targets, universes, blocks, slots, rows, image, frames[..n]);
      PixelsShow(slots, AppliedAll(targets, frames[..n], rows, |slots|), DrawnAll(a, frames[..n], image),
                 targets, a, frames[n], Min(|a|, |frames[n]|));
    }
  }

  lemma ShowsIsScratch(slots: seq<(Word16, Word16)>, rows: Rows, image: Image)
    requires Shows(slots, rows, image)
    ensures IsScratch(rows, |slots|)
  {
  }

  /** Scratch as allocated shows the image in which nothing has been written. */
  lemma DarkScratchShowsNothing(slots: seq<(Word16, Word16)>, rows: Rows)
    requires IsScratch(rows, |slots|)
    requires forall i, b :: 0 <= i < |slots| && 0 <= b < UNIVERSE_SIZE ==> rows[i][b] == 0
    ensures Shows(slots, rows, map[])
  {
    forall i, b | 0 <= i < |slots| && 0 <= b < UNIVERSE_SIZE ensures rows[i][b] == At(map[], slots[i].0, slots[i].1, b) {
    }
  }

  /** Two assignments that touch no common byte. */
  predicate Apart(x: PixelPhysical, y: PixelPhysical) {
    || x.device != y.device || x.universe != y.universe
    || x.channel + x.format.Channels() <= y.channel || y.channel + y.format.Channels() <= x.channel
  }

  /** When no two pixels overlap, every pixel of a frame shows its own colour, whatever the order. */
  lemma {:induction false} EveryPixelShows(a: seq<PixelPhysical>, pixels: seq<PixelColor>, image: Image, k: nat, p: nat, j: nat)
    requires p < k <= |a| && k <= |pixels|
    requires forall q :: 0 <= q < k && q != p ==> Apart(a[p], a[q])
    requires j < a[p].format.Channels()
    ensures At(DrawPixels(a, pixels, k, image), a[p].device, a[p].universe, a[p].channel + j) == a[p].format.Wire(pixels[p])[j]
    decreases k
  {
    hide WriteBytes, At;
    var q := k - 1;
    WrittenAt(DrawPixels(a, pixels, q, image), a[q].device, a[q].universe, a[q].channel, a[q].format.Wire(pixels[q]),
              a[p].device, a[p].universe, a[p].channel + j);
    if p < q {
      assert Apart(a[p], a[q]);
      EveryPixelShows(a, pixels, image, q, p, j);
    }
  }
}
