/** Logical colours and how a strip's format puts them on the wire. */
module PixelTypes {
  import opened Basics

  datatype PixelColor = PixelColor(r: Byte, g: Byte, b: Byte)

  const BLACK := PixelColor(0, 0, 0)

  datatype RgbOrder = Rgb | Grb | Bgr {
    function Bytes(c: PixelColor): (w: seq<Byte>)
      ensures |w| == 3
    {
      match this
      case Rgb => [c.r, c.g, c.b]
      case Grb => [c.g, c.r, c.b]
      case Bgr => [c.b, c.g, c.r]
    }
  }

  function SaturatingSub(a: Byte, b: Byte): Byte {
    if a >= b then a - b else 0
  }

  datatype WhiteMode = Unused | Added | Subtracted {
    function White(c: PixelColor): Byte {
      match this
      case Unused => 0
      case _ => Min(Min(c.r, c.g), c.b)
    }

    function Residual(c: PixelColor): PixelColor {
      match this
      case Subtracted =>
        var w := White(c);
        PixelColor(SaturatingSub(c.r, w), SaturatingSub(c.g, w), SaturatingSub(c.b, w))
      case _ => c
    }
  }

  datatype ColorFormat = Three(order: RgbOrder) | Four(order: RgbOrder, white: WhiteMode) {
    function Channels(): nat {
      match this
      case Three(_) => 3
      case Four(_, _) => 4
    }

    /** What `write` puts into the first `Channels()` bytes of its output. */
    function Wire(c: PixelColor): (w: seq<Byte>)
      ensures |w| == Channels()
    {
      match this
      case Three(order) => order.Bytes(c)
      case Four(order, mode) => order.Bytes(mode.Residual(c)) + [mode.White(c)]
    }

    /** The colour a fixture of this format is given by `w`, its white counted back where the format
        took it out of the coloured channels. */
    function Unwire(w: seq<int>): (int, int, int)
      requires |w| == Channels()
    {
      var back := if this.Four? && white.Subtracted? then w[3] else 0;
      match order
      case Rgb => (w[0] + back, w[1] + back, w[2] + back)
      case Grb => (w[1] + back, w[0] + back, w[2] + back)
      case Bgr => (w[2] + back, w[1] + back, w[0] + back)
    }
  }

  /** No format loses colour: extracting white never saturates, so every logical channel can be
      recovered from the wire. */
  lemma WireKeepsColor(f: ColorFormat, c: PixelColor)
    ensures f.Unwire(f.Wire(c)) == (c.r, c.g, c.b)
  {
    match f {
      case Three(_) =>
      case Four(_, mode) => assert mode.White(c) <= c.r && mode.White(c) <= c.g && mode.White(c) <= c.b;
    }
  }

  /** The coloured channels that `w` carries, whatever their order on the wire. */
  function Coloured(order: RgbOrder, w: seq<Byte>): (nat, nat, nat)
    requires |w| >= 3
  {
    match order
    case Rgb => (w[0], w[1], w[2])
    case Grb => (w[1], w[0], w[2])
    case Bgr => (w[2], w[1], w[0])
  }

  /** What each format puts on the wire. Three channels are the colour itself. An unused white die is
      dark. An added one shows the part the channels have in common, on top of the whole colour; a
      subtracted one shows that part instead of it, and then some coloured channel is dark. */
  lemma WireCarries(order: RgbOrder, mode: WhiteMode, c: PixelColor)
    ensures var w := Three(order).Wire(c); |w| == 3 && Coloured(order, w) == (c.r, c.g, c.b)
    ensures var w := Four(order, mode).Wire(c); var (r, g, b) := Coloured(order, w);
      && |w| == 4
      && (mode.Unused? ==> w[3] == 0 && (r, g, b) == (c.r, c.g, c.b))
      && (mode.Added? ==> (r, g, b) == (c.r, c.g, c.b))
      && (mode.Subtracted? ==> r + w[3] == c.r && g + w[3] == c.g && b + w[3] == c.b && (r == 0 || g == 0 || b == 0))
      && (!mode.Unused? ==> w[3] <= c.r && w[3] <= c.g && w[3] <= c.b && (w[3] == c.r || w[3] == c.g || w[3] == c.b))
  {
  }

  /** Black is dark on every wire. */
  lemma BlackIsDark(f: ColorFormat)
    ensures forall i :: 0 <= i < |f.Wire(BLACK)| ==> f.Wire(BLACK)[i] == 0
  {
  }

  /** The sum of the wire bytes, to which the current is proportional. */
  function Current(w: seq<Byte>): nat {
    if w == [] then 0 else w[0] as int + Current(w[1..])
  }

  /** Subtracting saves exactly three dies' worth of the common part, so it never draws more. */
  lemma SubtractionSavesCurrent(order: RgbOrder, c: PixelColor)
    ensures var added, subtracted := Four(order, Added).Wire(c), Four(order, Subtracted).Wire(c);
      Current(added) == Current(subtracted) + 3 * (added[3] as int) && added[3] == subtracted[3]
  {
    hide ColorFormat.Wire, Current;
    WireCarries(order, Added, c);
    WireCarries(order, Subtracted, c);
    CurrentOfFour(Four(order, Added).Wire(c));
    CurrentOfFour(Four(order, Subtracted).Wire(c));
  }

  lemma CurrentOfFour(w: seq<Byte>)
    requires |w| == 4
    ensures Current(w) == w[0] as int + w[1] as int + w[2] as int + w[3] as int
  {
    assert w[1..][1..] == w[2..] && w[2..][1..] == w[3..] && w[3..][1..] == [];
    assert Current(w[2..]) == w[2] as int + Current(w[3..]);
  }

  /** With the white die in use by subtraction, the coloured channels carry no common part: at least
      one of them is dark. */
  lemma SubtractedLeavesOneDark(c: PixelColor)
    ensures var d := Subtracted.Residual(c); d.r == 0 || d.g == 0 || d.b == 0
  {
  }
}
