/** The bit packer of the progressive Huffman encoder (jcphuff.c): at most seven bits are retained,
    left-justified in the low 24 bits of the word; whatever stands above them is ignored. */
module ProgressivePacking {
  import opened Shifts
  import opened BitStrings
  import opened ByteStreams
  import opened WordArithmetic
  import opened BitPacking
  import opened MacroPacking

  class ProgressivePacker {
    const gatherStatistics: bool
    var putBuffer: nat
    var putBits: nat
    var out: seq<Byte>
    ghost var trace: Trace

    /** The written bytes followed by the retained bits are the bits handed in. */
    ghost predicate Holds()
      reads this
    {
      && out == trace.before + Stuff(trace.written)
      && putBits <= 24
      && 8 * |trace.written| + putBits == |trace.sent|
      && trace.sent[..8 * |trace.written|] == Unpack(trace.written)
      && ToBits(putBuffer, 24) == trace.sent[8 * |trace.written|..] + Zeros(24 - putBits)
    }

    /** The state between two emissions. */
    ghost predicate Valid()
      reads this
    {
      Holds() && putBits <= 7
    }

    constructor (gatherStatistics: bool)
      ensures Valid() && this.gatherStatistics == gatherStatistics
      ensures putBits == 0 && out == [] && trace == Trace([], [], [])
    {
      this.gatherStatistics := gatherStatistics;
      putBuffer := 0;
      putBits := 0;
      out := [];
      trace := Trace([], [], []);
      ToBitsZero(24);
    }

    /** One round of the byte loop. */
    method EmitByte()
      requires Holds() && putBits >= 8
      modifies `putBuffer, `putBits, `out, `trace
      ensures Holds() && putBits == old(putBits) - 8
      ensures trace == old(trace).(written := trace.written)
    {
      hide ToBits, FromBits, Wrap, Shr, Shl, Pow2, Unpack, Stuff;
      ghost var n, sent := 8 * |trace.written|, trace.sent;
      var c := Wrap(Shr(putBuffer, 16), 8);
      WrapBits(Shr(putBuffer, 16), 8, 8);
      TopByte(putBuffer, sent[n..]);
      Pow2Byte();
      var b := c as Byte;
      UnpackSnoc(trace.written, b);
      StuffSnoc(trace.written, b);
      assert sent[n..n + 8] == sent[n..][..8] == ToBits(c, 8);
      out := out + [b];
      if b == 255 {
        out := out + [0];
      }
      putBuffer := Shl(putBuffer, 8);
      putBits := putBits - 8;
      trace := trace.(written := trace.written + [b]);
      assert sent[..n + 8] == sent[..n] + sent[n..n + 8];
      assert sent[n + 8..] == sent[n..][8..];
    }

    /** Append the low `size` bits of `code`, unless only statistics are gathered.  A size of zero means
        that the symbol has no code word; the original then gives up, even while gathering. */
    method EmitBits(code: nat, size: nat) returns (ok: bool)
      requires Valid() && size <= 16
      modifies this
      ensures Valid() && ok == (size > 0)
      ensures trace.before == old(trace.before)
      ensures trace.sent == old(trace.sent) + if ok && !gatherStatistics then ToBits(code, size) else []
    {
      hide ToBits, FromBits, Wrap, Or, Shl, Unpack, Stuff;
      if size == 0 {
        return false;
      }
      if gatherStatistics {
        return true;
      }
      ghost var n, sent := 8 * |trace.written|, trace.sent;
      ShiftInLeft(putBuffer, sent[n..], code, size, 24);
      putBits := putBits + size;
      putBuffer := Or(Shl(Wrap(code, size), 24 - putBits), putBuffer);
      trace := trace.(sent := sent + ToBits(code, size));
      assert trace.sent[n..] == sent[n..] + ToBits(code, size);
      while putBits >= 8
        invariant Holds() && trace == Trace(old(trace.before), sent + ToBits(code, size), trace.written)
      {
        EmitByte();
      }
      return true;
    }

    /** Fill the last byte with ones and empty the word. */
    method FlushBits()
      requires Valid()
      requires gatherStatistics ==> trace.sent == []
      modifies this
      ensures Valid() && putBits == 0 && trace == Trace(out, [], [])
      ensures out == old(trace.before) + Stuff(Pack(old(trace.sent)))
    {
      hide ToBits, Unpack, Stuff, Pow2, Pack;
      ghost var sent := trace.sent;
      var ok := EmitBits(0x7F, 7);
      EmptyTrace(0);
      ToBitsZero(24);
      if gatherStatistics {
        assert trace.written == [];
        PacksUniquely([], []);
      } else {
        SevenOnes(sent, Unpack(trace.written), trace.sent[8 * |trace.written|..]);
        PacksUniquely(trace.written, sent);
      }
      putBuffer := 0;
      putBits := 0;
      trace := Trace(out, [], []);
      assert out == out + Stuff([]);
    }

    /** A marker goes to the output directly, once the word is empty. */
    method EmitMarker(m: Byte)
      requires Valid() && putBits == 0 && trace == Trace(out, [], [])
      modifies `out, `trace
      ensures Valid() && trace == Trace(out, [], []) && out == old(out) + [255, m]
    {
      hide ToBits, Unpack, Stuff;
      EmptyTrace(putBuffer);
      out := out + [255, m];
      trace := Trace(out, [], []);
      assert out == out + Stuff([]);
    }
  }

  /** The top eight of 24 bits, and the others moved up. */
  lemma TopByte(v: nat, pending: Bits)
    requires 8 <= |pending| <= 24
    requires ToBits(v, 24) == pending + Zeros(24 - |pending|)
    ensures ToBits(Shr(v, 16), 8) == pending[..8]
    ensures ToBits(Shl(v, 8), 24) == pending[8..] + Zeros(32 - |pending|)
  {
    hide ToBits, Shr, Shl;
    ToBitsSplit(v, 8, 16);
    ToBitsShl(v, 16, 8);
    var all := ToBits(v, 24);
    assert all[..8] == pending[..8];
    assert all[8..] + Zeros(8) == pending[8..] + Zeros(32 - |pending|);
  }

  /** A whole run of the routine: the fields' bits, filled up with ones and stuffed. */
  method PackWithRoutine(fields: seq<Field>) returns (out: seq<Byte>)
    requires forall f <- fields :: f.Fits()
    ensures out == Stuff(Pack(FieldBits(fields)))
  {
    hide ToBits, Stuff, Pack, Pow2;
    var p := new ProgressivePacker(false);
    var i := 0;
    while i < |fields|
      invariant i <= |fields| && fresh(p) && p.Valid() && !p.gatherStatistics
      invariant p.trace.before == [] && p.trace.sent == FieldBits(fields[..i])
    {
      var f := fields[i];
      assert f in fields;
      var ok := p.EmitBits(f.code, f.size);
      assert fields[..i + 1][..i] == fields[..i];
      i := i + 1;
    }
    assert fields[..i] == fields;
    p.FlushBits();
    out := p.out;
    assert [] + Stuff(Pack(FieldBits(fields))) == Stuff(Pack(FieldBits(fields)));
  }

  /** Both packers, fed the same fields and flushed, write the same bytes, exactly if the pending bits that
      the macros' final flush shifts out are zeros.  What the routine writes is right in any case. */
  method PackersAgree(fields: seq<Field>, word: nat) returns (fromMacros: seq<Byte>, fromRoutine: seq<Byte>)
    requires forall f <- fields :: f.Fits()
    requires word == 32 || word == 64
    ensures fromRoutine == Stuff(Pack(FieldBits(fields)))
    ensures fromMacros == Stuff(Pack(Kept(FieldBits(fields), PendingBits(fields, word), word - 7)))
    ensures fromMacros == fromRoutine <==> Lossless(FieldBits(fields), PendingBits(fields, word), word - 7)
  {
    hide *;
    fromMacros := PackWithMacros(fields, word);
    fromRoutine := PackWithRoutine(fields);
  }
}
