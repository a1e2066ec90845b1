/** The main buffer controller (jcmainct.c) behind jpeg_write_scanlines (jcapistd.c): counting scanlines around
    suspensions of the compressor, so that none is skipped or taken twice and the image does not seem
    finished before its last row of MCUs is. */
module MainController {

  /** 0, 1, ..., n - 1. */
  function Upto(n: nat): (r: seq<nat>)
    ensures |r| == n && forall i :: 0 <= i < n ==> r[i] == i
  {
    seq(n, i requires 0 <= i < n => i)
  }

  /** How many rows of MCUs, from row `cur` on, are full with the scanlines taken so far. */
  function FullRows(needed: seq<nat>, cur: nat, taken: nat): nat
    decreases |needed| - cur
  {
    if cur < |needed| && needed[cur] <= taken then 1 + FullRows(needed, cur + 1, taken) else 0
  }

  lemma UptoNext(n: nat)
    ensures Upto(0) == [] && Upto(n + 1) == Upto(n) + [n]
  {
  }

  lemma FullRowsAt(needed: seq<nat>, cur: nat, taken: nat)
    ensures FullRows(needed, cur, taken)
         == if cur < |needed| && needed[cur] <= taken then 1 + FullRows(needed, cur + 1, taken) else 0
  {
  }

  class Compressor {
    const imageHeight: nat
    const totalIMcuRows: nat
    const needed: seq<nat>        // scanlines that must have come in before a row of interleaved MCUs is full
    var nextScanline: nat         // as the application sees it
    var curIMcuRow: nat
    var full: bool                // the strip buffer holds a whole row of interleaved MCUs
    var suspended: bool
    var taken: seq<nat>           // the scanlines that went into preprocessing
    var room: nat                 // rows of MCUs that are accepted before one is refused
    var accepted: seq<nat>        // the rows of MCUs that the coefficient controller has completed

    /** The last row is full exactly when the image is complete. */
    ghost predicate Wired() {
      && 0 < totalIMcuRows == |needed| && needed[totalIMcuRows - 1] == imageHeight > 0
      && (forall i :: 0 <= i < totalIMcuRows ==> 0 < needed[i] <= imageHeight)
    }

    /** Every scanline was taken once and in order; every row of MCUs was accepted once and in order; and one
        scanline is withheld from the count while the compressor is suspended. */
    ghost predicate Valid()
      reads this
    {
      && Wired() && taken == Upto(|taken|) && |taken| <= imageHeight
      && nextScanline == |taken| - (if suspended then 1 else 0)
      && curIMcuRow <= totalIMcuRows && accepted == Upto(curIMcuRow)
      && (curIMcuRow == totalIMcuRows ==> |taken| == imageHeight && !suspended)
      && full == suspended && (curIMcuRow < totalIMcuRows ==> (full <==> |taken| >= needed[curIMcuRow]))
    }

    constructor (imageHeight: nat, needed: seq<nat>)
      requires needed != [] && needed[|needed| - 1] == imageHeight
      requires forall i :: 0 <= i < |needed| ==> 0 < needed[i] <= imageHeight
      ensures Valid() && nextScanline == 0 && this.imageHeight == imageHeight && totalIMcuRows == |needed|
    {
      this.imageHeight := imageHeight;
      this.needed := needed;
      totalIMcuRows := |needed|;
      nextScanline := 0;
      curIMcuRow := 0;
      full := false;
      suspended := false;
      taken := [];
      room := 0;
      accepted := [];
    }

    /** Preprocessing: it takes the scanlines that the current row still needs, as far as there are any.  The
        i-th line offered is scanline number `first + i`. */
    method PreProcessData(first: nat, inRowCtr: nat, inRowsAvail: nat) returns (next: nat)
      requires Wired() && curIMcuRow < totalIMcuRows
      modifies `taken, `full
      ensures inRowCtr <= next && (next == inRowCtr || next <= inRowsAvail)
      ensures full <==> |taken| >= needed[curIMcuRow]
      ensures !full ==> inRowsAvail <= next
      ensures |taken| == |old(taken)| + (next - inRowCtr)
      ensures old(taken) == Upto(|old(taken)|) && first + inRowCtr == |old(taken)| ==> taken == Upto(|taken|)
      ensures |old(taken)| <= needed[curIMcuRow] ==> |taken| <= needed[curIMcuRow]
    {
      hide Upto;
      next := inRowCtr;
      while |taken| < needed[curIMcuRow] && next < inRowsAvail
        invariant inRowCtr <= next && (next == inRowCtr || next <= inRowsAvail)
        invariant |taken| == |old(taken)| + (next - inRowCtr)
        invariant old(taken) == Upto(|old(taken)|) && first + inRowCtr == |old(taken)| ==> taken == Upto(|taken|)
        invariant |old(taken)| <= needed[curIMcuRow] ==> |taken| <= needed[curIMcuRow]
      {
        UptoNext(|taken|);
        taken := taken + [first + next];
        next := next + 1;
      }
      full := |taken| >= needed[curIMcuRow];
    }

    /** The coefficient controller: it completes the row, or refuses for the time being. */
    method CompressData() returns (ok: bool)
      modifies `room, `accepted
      ensures ok == (old(room) > 0) && room == old(room) - (if ok then 1 else 0)
      ensures accepted == if ok then old(accepted) + [curIMcuRow] else old(accepted)
    {
      ok := room > 0;
      if ok {
        room := room - 1;
        accepted := accepted + [curIMcuRow];
      }
    }

    /** Process some data.  After a refusal the last line is not counted, until its row is accepted.  It is a
        refusal alone that suspends.  More lines than there are can be reported only if there are none: the
        withheld line, exactly if all rows that are full already are accepted at once. */
    method ProcessData(inRowsAvail: nat) returns (inRowCtr: nat)
      requires Valid() && inRowsAvail <= imageHeight - nextScanline
      modifies `curIMcuRow, `full, `suspended, `taken, `room, `accepted
      ensures Wired() && inRowCtr <= inRowsAvail + 1
      ensures inRowCtr > inRowsAvail <==>
        old(suspended) && inRowsAvail == 0 && FullRows(needed, old(curIMcuRow), |old(taken)|) <= old(room)
      ensures old(curIMcuRow) <= curIMcuRow && curIMcuRow + room == old(curIMcuRow + room)
      ensures suspended ==> room == 0
      ensures taken == Upto(|taken|) && |taken| <= imageHeight
      ensures nextScanline + inRowCtr == |taken| - (if suspended then 1 else 0)
      ensures curIMcuRow <= totalIMcuRows && accepted == Upto(curIMcuRow)
      ensures curIMcuRow == totalIMcuRows ==> |taken| == imageHeight && !suspended
      ensures full == suspended && (curIMcuRow < totalIMcuRows ==> (full <==> |taken| >= needed[curIMcuRow]))
      ensures curIMcuRow == totalIMcuRows || suspended || inRowsAvail <= inRowCtr
    {
      hide Upto, FullRows;
      inRowCtr := 0;
      while curIMcuRow < totalIMcuRows
        invariant Wired() && old(curIMcuRow) <= curIMcuRow && curIMcuRow + room == old(curIMcuRow + room)
        invariant inRowCtr <= inRowsAvail || (inRowCtr == 1 && inRowsAvail == 0 && old(suspended))
        invariant old(suspended) && inRowsAvail == 0 ==>
          && taken == old(taken) && (curIMcuRow > old(curIMcuRow) ==> inRowCtr == 1 && !suspended)
          && FullRows(needed, old(curIMcuRow), |taken|)
             == curIMcuRow - old(curIMcuRow) + FullRows(needed, curIMcuRow, |taken|)
        invariant taken == Upto(|taken|) && |taken| <= imageHeight
        invariant nextScanline + inRowCtr == |taken| - (if suspended then 1 else 0)
        invariant curIMcuRow <= totalIMcuRows && accepted == Upto(curIMcuRow)
        invariant full == suspended && (suspended ==> old(suspended) && inRowCtr == 0)
        invariant curIMcuRow < totalIMcuRows && suspended ==> |taken| >= needed[curIMcuRow]
        invariant curIMcuRow < totalIMcuRows && inRowCtr == 0 && !suspended ==> |taken| < needed[curIMcuRow]
        invariant curIMcuRow == totalIMcuRows ==> |taken| == imageHeight && !suspended
        decreases totalIMcuRows - curIMcuRow
      {
        FullRowsAt(needed, curIMcuRow, |taken|);
        UptoNext(curIMcuRow);
        if !full {
          inRowCtr := PreProcessData(nextScanline, inRowCtr, inRowsAvail);
        }
        if !full {
          return;
        }
        var ok := CompressData();
        if !ok {
          if !suspended {
            inRowCtr := inRowCtr - 1;
            suspended := true;
          }
          return;
        }
        if suspended {
          inRowCtr := inRowCtr + 1;
          suspended := false;
        }
        full := false;
        curIMcuRow := curIMcuRow + 1;
      }
      FullRowsAt(needed, curIMcuRow, |taken|);
    }

    /** Write some scanlines.  The count that the application sees reaches the image height exactly when the
        last row of MCUs has been accepted.  More scanlines are reported than were passed exactly if none are
        passed after a suspension and there is room for all rows that are full. */
    method WriteScanlines(numLines: nat) returns (rowCtr: nat)
      requires Valid()
      modifies this
      ensures Valid() && rowCtr <= numLines + 1
      ensures rowCtr > numLines <==>
        old(suspended) && numLines == 0 && FullRows(needed, old(curIMcuRow), |old(taken)|) <= old(room)
      ensures suspended ==> room == 0
      ensures old(curIMcuRow) <= curIMcuRow && curIMcuRow + room == old(curIMcuRow + room)
      ensures nextScanline == old(nextScanline) + rowCtr <= imageHeight
      ensures nextScanline == imageHeight <==> curIMcuRow == totalIMcuRows
      ensures numLines <= rowCtr || nextScanline == imageHeight || suspended
    {
      var rowsLeft := imageHeight - nextScanline;
      var lines := if numLines > rowsLeft then rowsLeft else numLines;
      rowCtr := ProcessData(lines);
      nextScanline := nextScanline + rowCtr;
    }
  }

  /** An image of one scanline.  It is taken, but its row is refused and no line is reported; then there is
      room, and one line is reported although none is passed. */
  method WithheldLine() returns (first: nat, second: nat)
    ensures first == 0 && second == 1
  {
    var c := new Compressor(1, [1]);
    c.room := 0;
    first := c.WriteScanlines(1);
    assert c.suspended;
    assert c.nextScanline == 0 && c.curIMcuRow == 0;
    c.room := 1;
    assert FullRows(c.needed, 1, 1) == 0 && FullRows(c.needed, 0, 1) == 1;
    second := c.WriteScanlines(0);
  }
}
