/** The ring buffer as one thread sees it: the two calls run to completion, over an array and two
    wrapping counters. `SpscRing` shows what interleaving their steps may do. */
module RingBuffer {
  import opened PowersOfTwo
  import opened Bits
  import opened WrappingIndex
  import opened BoundedFifo
  import opened SpscRing

  ghost function CellsFrom(buf: array<Sample>, from: nat, n: nat): (s: seq<Sample>)
    reads buf
    requires buf.Length > 0
    ensures |s| == n && forall i :: 0 <= i < n ==> s[i] == buf[Wrap(from + i, buf.Length)]
  {
    seq(n, i requires 0 <= i < n reads buf => buf[Wrap(from + i, buf.Length)])
  }

  class Ring {
    const buf: array<Sample>
    const mask: nat
    const word: nat
    var write: nat
    var read: nat
    ghost var written: nat    // the counters without wrap-around
    ghost var consumed: nat
    ghost var offers: seq<seq<Sample>>    // what every push so far was called with

    ghost predicate Valid()
      reads this, buf
    {
      && Sizes(word, buf.Length) && mask == buf.Length - 1
      && consumed <= written <= consumed + buf.Length
      && write == Wrap(written, word) && read == Wrap(consumed, word)
    }

    /** The samples a consumer would get, oldest first. */
    ghost function Contents(): (s: seq<Sample>)
      reads this, buf
      requires Valid()
      ensures |s| == written - consumed
    {
      Cells(written - consumed)
    }

    /** The `n` cells from the read position on. */
    ghost function Cells(n: nat): (s: seq<Sample>)
      reads this`consumed, buf
      requires buf.Length > 0
      ensures |s| == n && forall i :: 0 <= i < n ==> s[i] == buf[Wrap(consumed + i, buf.Length)]
    {
      CellsFrom(buf, consumed, n)
    }

    constructor (capacity: nat, word: nat)
      requires Sizes(word, capacity)
      ensures Valid() && fresh(buf) && buf.Length == capacity && this.word == word && Contents() == [] && offers == []
    {
      buf := new Sample[capacity](_ => 0.0);
      this.word, mask := word, capacity - 1;
      write, read := 0, 0;
      written, consumed, offers := 0, 0, [];
    }

    method Available() returns (n: nat)
      requires Valid()
      ensures n == |Contents()|
    {
      DifferenceWraps(written, consumed, word);
      n := WrappingSub(write, read, word);
    }

    /** Stores one sample at the `i`-th free cell. */
    method StoreCell(w: nat, i: nat, sample: Sample)
      requires Valid() && w == write && written + i < consumed + buf.Length
      modifies buf
      ensures Valid()
      ensures Cells(written + i + 1 - consumed) == old(Cells(written + i - consumed)) + [sample]
    {
      hide And, Wrap, IsPowerOfTwo;
      CellOfWrapped(written, i, word, buf.Length);
      forall k | consumed <= k < written + i ensures Wrap(k, buf.Length) != Wrap(written + i, buf.Length) {
        CellsDistinct(k, written + i, buf.Length);
      }
      MaskIsRemainder(WrappingAdd(w, i, word), buf.Length);
      buf[And(WrappingAdd(w, i, word), mask)] := sample;
    }

    /** Stores samples at the free cells, in order. */
    method StoreCells(w: nat, data: seq<Sample>)
      requires Valid() && w == write && written + |data| <= consumed + buf.Length
      modifies buf
      ensures Valid()
      ensures Cells(written + |data| - consumed) == old(Contents()) + data
    {
      hide And, Wrap, IsPowerOfTwo, Cells;
      for i := 0 to |data|
        invariant Valid()
        invariant Cells(written + i - consumed) == old(Contents()) + data[..i]
        modifies buf
      {
        StoreCell(w, i, data[i]);
        assert data[..i + 1] == data[..i] + [data[i]];
      }
      assert data[..|data|] == data;
    }

    /** Takes the longest prefix of `data` that fits. */
    method PushSlice(data: seq<Sample>) returns (n: nat)
      requires Valid()
      modifies this`write, this`written, this`offers, buf
      ensures Valid() && offers == old(offers) + [data]
      ensures n == if |data| < buf.Length - |old(Contents())| then |data| else buf.Length - |old(Contents())|
      ensures Contents() == old(Contents()) + data[..n]
    {
      hide And, Wrap, IsPowerOfTwo, WrappingSub, CellsFrom;
      var r, w := read, write;
      DifferenceWraps(written, consumed, word);
      var free := buf.Length - WrappingSub(w, r, word);
      n := if |data| < free then |data| else free;
      StoreCells(w, data[..n]);
      WrapOfSum(written, n, word);
      write := WrappingAdd(w, n, word);
      written := written + n;
      offers := offers + [data];
    }

    /** Copies the oldest samples. */
    method LoadCells(r: nat, out: array<Sample>)
      requires Valid() && out != buf && r == read && out.Length <= |Contents()|
      modifies out
      ensures out[..] == old(Contents())[..out.Length]
    {
      hide And, Wrap, IsPowerOfTwo;
      for i := 0 to out.Length
        invariant forall k :: 0 <= k < i ==> out[k] == buf[Wrap(consumed + k, buf.Length)]
      {
        CellOfWrapped(consumed, i, word, buf.Length);
        MaskIsRemainder(WrappingAdd(r, i, word), buf.Length);
        out[i] := buf[And(WrappingAdd(r, i, word), mask)];
      }
    }

    /** Fills `out` from the front, or changes nothing when too few samples are queued. */
    method PopExact(out: array<Sample>) returns (ok: bool)
      requires Valid() && out != buf
      modifies this`read, this`consumed, out
      ensures Valid()
      ensures ok <==> out.Length <= |old(Contents())|
      ensures ok ==> out[..] == old(Contents())[..out.Length] && Contents() == old(Contents())[out.Length..]
      ensures !ok ==> out[..] == old(out[..]) && Contents() == old(Contents())
    {
      hide And, Wrap, IsPowerOfTwo, WrappingSub;
      var w, r := write, read;
      DifferenceWraps(written, consumed, word);
      if WrappingSub(w, r, word) < out.Length {
        return false;
      }
      LoadCells(r, out);
      WrapOfSum(consumed, out.Length, word);
      read := WrappingAdd(r, out.Length, word);
      consumed := consumed + out.Length;
      ok := true;
      CellsFurther(old(consumed), out.Length, written - consumed);
    }

    lemma CellsFurther(from: nat, n: nat, rest: nat)
      requires buf.Length > 0
      ensures CellsFrom(buf, from + n, rest) == CellsFrom(buf, from, n + rest)[n..]
    {
      hide Wrap;
      var a, b := CellsFrom(buf, from + n, rest), CellsFrom(buf, from, n + rest)[n..];
      forall k | 0 <= k < rest ensures a[k] == b[k] {
        assert from + n + k == from + (n + k);
      }
    }
  }
}
