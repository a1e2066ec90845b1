/** The preprocessing controller with context rows (jcprepct.c): a ring of three row groups behind an array
    of row pointers that wraps around at both ends, which must look like an image whose first and last row
    extend beyond its edges. */
module ContextRows {

  /** Row k of the image, extended upwards and downwards by its edge rows. */
  function Clamped<T>(image: seq<T>, k: int): T
    requires image != []
  {
    if k < 0 then image[0] else if k < |image| then image[k] else image[|image| - 1]
  }

  /** The first row of row group g. */
  function FirstRow(v: nat, g: nat): nat { g * v }

  lemma FirstRowNext(v: nat, g: nat)
    ensures FirstRow(v, g + 1) == FirstRow(v, g) + v
    ensures FirstRow(v, 0) == 0
  {
  }

  /** The rows that the downsampler is to see for row group g: one group above, the group, one below. */
  function Window<T>(image: seq<T>, v: nat, g: nat): (w: seq<T>)
    requires image != []
    ensures |w| == 3 * v
  {
    seq(3 * v, i => Clamped(image, FirstRow(v, g) - v + i))
  }

  /** Row i of the window is the row of the image v rows further up, or the edge row nearest to it. */
  lemma WindowAt<T>(image: seq<T>, v: nat, g: nat, i: nat)
    requires image != [] && i < 3 * v
    ensures var k := g * v + i - v;
      Window(image, v, g)[i] == image[if k < 0 then 0 else if k >= |image| then |image| - 1 else k]
  {
    var k := FirstRow(v, g) - v + i;
    assert Window(image, v, g)[i] == Clamped(image, k);
  }

  /** From one row group to the next the window moves down by one group. */
  lemma WindowMovesDown<T>(image: seq<T>, v: nat, g: nat)
    requires image != []
    ensures Window(image, v, g)[v..] == Window(image, v, g + 1)[..2 * v]
  {
    FirstRowNext(v, g);
  }

  /** The downsampler has been given the windows of the row groups in order. */
  ghost predicate Windows<T>(image: seq<T>, v: nat, windows: seq<seq<T>>)
    requires image != []
  {
    forall g :: 0 <= g < |windows| ==> windows[g] == Window(image, v, g)
  }

  /** A position in a ring of 3 * v rows. */
  function Ring(v: nat, q: int): int {
    if q < 0 then q + 3 * v else if q < 3 * v then q else q - 3 * v
  }

  /** The row pointers for five row groups, of which the first and the last are aliases. */
  method WrappedPointers(v: nat) returns (fake: array<nat>)
    ensures fresh(fake) && fake.Length == 5 * v
    ensures forall i :: 0 <= i < 5 * v ==> fake[i] == Ring(v, i - v)
  {
    fake := new nat[5 * v];
    for i := 0 to 3 * v
      invariant forall p :: v <= p < v + i ==> fake[p] == p - v
    {
      fake[v + i] := i;
    }
    for i := 0 to v
      invariant forall p :: v <= p < 4 * v ==> fake[p] == p - v
      invariant forall p :: 0 <= p < i ==> fake[p] == 2 * v + p
      invariant forall p :: 4 * v <= p < 4 * v + i ==> fake[p] == p - 4 * v
    {
      fake[i] := 2 * v + i;
      fake[4 * v + i] := i;
    }
  }

  class ContextPreprocessor<T(0)> {
    const v: nat                  // rows in a row group: max_v_samp_factor
    const trueBuffer: array<T>    // three row groups
    const fakeBuffer: array<nat>  // row pointers for five row groups
    const imageHeight: nat
    ghost const image: seq<T>
    var rowsToGo: nat
    var nextBufRow: nat
    var thisRowGroup: nat
    var nextBufStop: nat
    var windows: seq<seq<T>>      // what the downsampler was given
    ghost var stored: nat         // rows stored so far, those added at the bottom included
    ghost var above: nat          // copies of the first row above it

    /** Row r of the buffer as addressed through the row pointers. */
    function RowAt(r: int): (p: nat)
      requires 0 <= r + v < 5 * v && fakeBuffer.Length == 5 * v
      reads fakeBuffer
    {
      fakeBuffer[r + v]
    }

    /** The row pointers wrap around at both ends. */
    ghost predicate WrapsAround()
      reads fakeBuffer
    {
      && v > 0 && trueBuffer.Length == 3 * v && fakeBuffer.Length == 5 * v
      && forall i :: 0 <= i < 5 * v ==> fakeBuffer[i] == Ring(v, i - v)
    }

    /** How many rows ago position p of the ring was stored. */
    ghost function Back(p: int): int
      reads this
    {
      if p < nextBufRow then nextBufRow - p else nextBufRow + 3 * v - p
    }

    /** The last three row groups stored, or as many as there are, are in the buffer, and at first a copy
        of the first row above them. */
    ghost predicate Holds()
      reads this, trueBuffer, fakeBuffer
    {
      && WrapsAround() && |image| == imageHeight > 0 && nextBufRow <= 3 * v
      && forall p :: 0 <= p < 3 * v && Back(p) <= stored + above ==>
           trueBuffer[p] == Clamped(image, stored - Back(p))
    }

    /** The group to be processed is one and a half turns of the ring away from where storing stops. */
    ghost predicate InStep()
      reads this
    {
      || (nextBufStop == 2 * v && thisRowGroup == 0)
      || (nextBufStop == 3 * v && thisRowGroup == v)
      || (nextBufStop == v && thisRowGroup == 2 * v)
    }

    /** The state between two calls. */
    ghost predicate Valid()
      reads this, trueBuffer, fakeBuffer
    {
      && Holds() && rowsToGo <= imageHeight && above == (if rowsToGo == imageHeight then 0 else v)
      && (rowsToGo == imageHeight ==> nextBufRow == 0 && nextBufStop == 2 * v)
      && (rowsToGo > 0 ==> stored + rowsToGo == imageHeight)
      && (rowsToGo == 0 ==> stored >= imageHeight)
      && InStep()
      && nextBufRow < nextBufStop && stored + (nextBufStop - nextBufRow) == FirstRow(v, |windows|) + 2 * v
      && Windows(image, v, windows)
    }

    /** Allocate three row groups, and pointers for five that wrap around. */
    constructor (v: nat, imageHeight: nat, ghost image: seq<T>)
      requires v > 0 && |image| == imageHeight > 0
      ensures Valid() && fresh(trueBuffer) && fresh(fakeBuffer)
      ensures this.v == v && this.image == image && rowsToGo == |image| && windows == []
    {
      var fake := WrappedPointers(v);
      this.v := v;
      this.image := image;
      trueBuffer := new T[3 * v];
      fakeBuffer := fake;
      rowsToGo := imageHeight;
      this.imageHeight := imageHeight;
      nextBufRow := 0;
      thisRowGroup := 0;
      nextBufStop := 2 * v;
      windows := [];
      stored := 0;
      above := 0;
    }

    /** Store one more row. */
    method StoreRow(row: T)
      requires Holds() && nextBufRow < 3 * v && row == Clamped(image, stored)
      modifies `nextBufRow, `stored, trueBuffer
      ensures Holds() && nextBufRow == old(nextBufRow) + 1 && stored == old(stored) + 1
      ensures trueBuffer[old(nextBufRow)] == row
      ensures forall p :: 0 <= p < 3 * v && p != old(nextBufRow) ==> trueBuffer[p] == old(trueBuffer[p])
    {
      trueBuffer[RowAt(nextBufRow)] := row;
      nextBufRow := nextBufRow + 1;
      stored := stored + 1;
    }

    /** Pad at the top of the image: copies of the first row above it. */
    method PadTop()
      requires Holds() && above == 0 && 1 <= nextBufRow == stored <= 2 * v
      modifies `above, trueBuffer
      ensures Holds() && above == v
    {
      assert Back(0) == stored;
      for r := 1 to v + 1
        invariant forall p :: 0 <= p < nextBufRow ==> trueBuffer[p] == old(trueBuffer[p])
        invariant forall p :: 3 * v - r < p < 3 * v ==> trueBuffer[p] == image[0]
      {
        trueBuffer[RowAt(-r)] := trueBuffer[RowAt(0)];
      }
      above := v;
    }

    /** expand_bottom_edge: copies of the last row below it, up to where storing stops. */
    method PadBottom()
      requires Holds() && above == v && stored >= imageHeight && nextBufRow < nextBufStop <= 3 * v
      modifies `nextBufRow, `stored, trueBuffer
      ensures Holds() && nextBufRow == nextBufStop
      ensures stored == old(stored) + (nextBufStop - old(nextBufRow))
    {
      var last: int := nextBufRow - 1;
      assert Back(Ring(v, last)) == 1;
      while nextBufRow < nextBufStop
        invariant Holds() && last < nextBufRow <= nextBufStop && stored - nextBufRow == old(stored - nextBufRow)
        invariant trueBuffer[Ring(v, last)] == image[imageHeight - 1]
      {
        StoreRow(trueBuffer[RowAt(last)]);
      }
    }

    /** The row pointers around the group to be processed lead to the rows of its window. */
    ghost predicate Ready()
      reads this, trueBuffer, fakeBuffer
    {
      && Holds() && InStep() && above == v
      && nextBufRow == nextBufStop && stored == FirstRow(v, |windows|) + 2 * v
    }

    /** Row i of the window is where the pointers lead to. */
    lemma WindowRow(i: nat)
      requires Ready() && i < 3 * v
      ensures var r := thisRowGroup - v + i;
        0 <= r + v < 5 * v && RowAt(r) < 3 * v && trueBuffer[RowAt(r)] == Clamped(image, FirstRow(v, |windows|) - v + i)
    {
      hide FirstRow, Clamped;
      var p := RowAt(thisRowGroup - v + i);
      assert Back(p) == 3 * v - i;
    }

    /** The rows that the downsampler finds around the group. */
    method RowsOfWindow() returns (w: seq<T>)
      requires Ready()
      ensures w == Window(image, v, |windows|)
    {
      hide FirstRow, Clamped;
      w := [];
      for i := 0 to 3 * v
        invariant |w| == i && forall k :: 0 <= k < i ==> w[k] == Clamped(image, FirstRow(v, |windows|) - v + k)
      {
        WindowRow(i);
        w := w + [trueBuffer[RowAt(thisRowGroup - v + i)]];
      }
      assert w == Window(image, v, |windows|);
    }

    /** Give the downsampler a row group with its context, and advance with wraparound. */
    method Downsample()
      requires Ready()
      modifies `windows, `thisRowGroup, `nextBufRow, `nextBufStop
      ensures Holds() && InStep()
      ensures windows == old(windows) + [Window(image, v, |old(windows)|)]
      ensures nextBufRow < nextBufStop && nextBufStop - nextBufRow == v
      ensures stored == FirstRow(v, |windows|) + v
    {
      hide FirstRow, Window;
      FirstRowNext(v, |windows|);
      var w := RowsOfWindow();
      windows := windows + [w];
      thisRowGroup := thisRowGroup + v;
      if thisRowGroup >= 3 * v {
        thisRowGroup := 0;
      }
      if nextBufRow >= 3 * v {
        nextBufRow := 0;
      }
      nextBufStop := nextBufRow + v;
    }

    /** Convert rows from the input: as many as there are, or as are still needed. */
    method Convert(input: seq<T>, numrows: nat)
      requires Valid() && 1 <= numrows <= |input| && numrows <= rowsToGo && nextBufRow + numrows <= nextBufStop
      requires forall i :: 0 <= i < numrows ==> input[i] == Clamped(image, imageHeight - rowsToGo + i)
      modifies `nextBufRow, `stored, `above, `rowsToGo, trueBuffer
      ensures Holds() && above == v && rowsToGo == old(rowsToGo) - numrows
      ensures stored == old(stored) + numrows && nextBufRow == old(nextBufRow) + numrows
    {
      hide Clamped, FirstRow, Windows;
      var start := nextBufRow;
      for i := 0 to numrows
        invariant Holds() && nextBufRow == start + i && stored == old(stored) + i
        invariant rowsToGo == old(rowsToGo) && above == old(above)
      {
        StoreRow(input[i]);
      }
      if rowsToGo == imageHeight {
        PadTop();
      }
      rowsToGo := rowsToGo - numrows;
    }

    /** Fill the buffer as far as the input, or the padding at the bottom, allows, and give the downsampler a
        row group if one is complete.  Stops if there is neither input nor padding. */
    method Step(input: seq<T>) returns (numrows: nat, done: nat, more: bool)
      requires Valid() && |input| <= rowsToGo
      requires forall i :: 0 <= i < |input| ==> input[i] == Clamped(image, imageHeight - rowsToGo + i)
      modifies this, trueBuffer
      ensures Valid() && numrows <= |input| && rowsToGo == old(rowsToGo) - numrows && done <= 1
      ensures old(windows) <= windows && |windows| == |old(windows)| + done
      ensures more <==> input != [] || old(rowsToGo) == 0
      ensures if more then done == 1 || numrows > 0 else done == numrows == 0
    {
      hide FirstRow, Window, Clamped;
      numrows, done := 0, 0;
      if input != [] {
        numrows := nextBufStop - nextBufRow;
        if |input| < numrows {
          numrows := |input|;
        }
        Convert(input, numrows);
      } else {
        if rowsToGo != 0 {
          return 0, 0, false;
        }
        PadBottom();
      }
      FirstRowNext(v, |windows|);
      if nextBufRow == nextBufStop {
        Downsample();
        done := 1;
      }
      return numrows, done, true;
    }

    /** Process some data.  Whatever portions the rows of the image come in, the downsampler is given the
        windows of the row groups in order; it stops when the output is full, or when it needs more input. */
    method Process(input: seq<T>, outRowGroupCtr: nat, outRowGroupsAvail: nat) returns (inRowCtr: nat, outCtr: nat)
      requires Valid() && outRowGroupCtr <= outRowGroupsAvail && |input| <= rowsToGo
      requires forall i :: 0 <= i < |input| ==> input[i] == Clamped(image, imageHeight - rowsToGo + i)
      modifies this, trueBuffer
      ensures Valid() && outRowGroupCtr <= outCtr <= outRowGroupsAvail && inRowCtr <= |input|
      ensures rowsToGo == old(rowsToGo) - inRowCtr
      ensures old(windows) <= windows && |windows| == |old(windows)| + (outCtr - outRowGroupCtr)
      ensures outCtr == outRowGroupsAvail || (inRowCtr == |input| && rowsToGo > 0)
    {
      hide FirstRow, Window, Clamped, Windows, Holds, InStep;
      inRowCtr, outCtr := 0, outRowGroupCtr;
      while outCtr < outRowGroupsAvail
        invariant Valid() && outRowGroupCtr <= outCtr <= outRowGroupsAvail && inRowCtr <= |input|
        invariant rowsToGo == old(rowsToGo) - inRowCtr
        invariant old(windows) <= windows && |windows| == |old(windows)| + (outCtr - outRowGroupCtr)
        decreases outRowGroupsAvail - outCtr, |input| - inRowCtr
      {
        var numrows, done, more := Step(input[inRowCtr..]);
        if !more {
          break;
        }
        inRowCtr, outCtr := inRowCtr + numrows, outCtr + done;
      }
    }
  }
}
