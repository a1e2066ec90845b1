/** The bit-packing macros of the sequential Huffman encoder (jchuff.c), for 32-bit and 64-bit words.
    Bytes leave the word only when it is nearly full. */
module MacroPacking {
  import opened Shifts
  import opened BitStrings
  import opened ByteStreams
  import opened WordArithmetic
  import opened BitPacking

  /** What has been packed since the packer was last aligned to a byte:
      the bits handed in, and the whole bytes already written. */
  datatype Trace = Trace(before: seq<Byte>, sent: Bits, written: seq<Byte>)

  /** What is left of `sent`, its last n bits pending in a word, once the word has room for only
      `room` of them: the oldest pending bits have fallen out and read as zeros. */
  function Kept(sent: Bits, n: nat, room: nat): (r: Bits)
    ensures |r| == |sent|
  {
    if n <= room || |sent| < n then sent else sent[..|sent| - n] + Zeros(n - room) + sent[|sent| - room..]
  }

  /** Shifting a field into the word, behind the whole bytes already written. */
  lemma ShiftedIn(whole: Bits, v: nat, n: nat, code: nat, size: nat, word: nat)
    requires n <= word && size <= word && code < Pow2(size)
    ensures whole + ToBits(Or(Wrap(Shl(v, size), word), code), n + size)
         == Kept(whole + ToBits(v, n), n, word - size) + ToBits(code, size)
  {
    hide ToBits, Wrap, Or, Shl, Pow2, Kept;
    var sent := whole + ToBits(v, n);
    if n + size <= word {
      ShiftIn(v, n, code, size, word);
      NothingLost(sent, n, word - size);
    } else {
      ShiftInOver(v, n, code, size, word);
      ToBitsTail(v, n, word - size);
      OldestLost(whole, ToBits(v, n), word - size);
    }
  }

  lemma NothingLost(sent: Bits, n: nat, room: nat)
    requires n <= room
    ensures Kept(sent, n, room) == sent
  {
  }

  lemma OldestLost(whole: Bits, pending: Bits, room: nat)
    requires room < |pending|
    ensures Kept(whole + pending, |pending|, room)
         == whole + (Zeros(|pending| - room) + pending[|pending| - room..])
  {
    var sent := whole + pending;
    assert sent[..|sent| - |pending|] == whole;
    assert sent[|sent| - room..] == pending[|pending| - room..];
  }

  /** How many bits are pending once a field of `size` bits has been appended to `pending` ones. */
  function AfterField(word: nat, pending: nat, size: nat): nat {
    if word == 64 then (if pending > 47 then pending - 48 else pending) + size
    else if pending + size > 15 then pending + size - 16
    else pending + size
  }

  /** The same for a code word and its additional bits. */
  function AfterCode(word: nat, pending: nat, size: nat, nbits: nat): nat {
    if word == 64 then (if pending > 31 then pending - 32 else pending) + size + nbits
    else AfterField(word, AfterField(word, pending, size), nbits)
  }

  class MacroPacker {
    const word: nat
    var putBuffer: nat
    var putBits: nat
    var out: seq<Byte>
    ghost var trace: Trace

    /** The written bytes followed by the pending bits are the bits handed in. */
    ghost predicate Holds()
      reads this
    {
      && out == trace.before + Stuff(trace.written)
      && Unpack(trace.written) + ToBits(putBuffer, putBits) == trace.sent
    }

    /** The state between two emissions. */
    ghost predicate Valid()
      reads this
    {
      Holds()
      && (word == 32 || word == 64)
      && putBits <= if word == 32 then 15 else 63
    }

    constructor (word: nat)
      requires word == 32 || word == 64
      ensures Valid() && this.word == word && putBits == 0 && out == [] && trace == Trace([], [], [])
    {
      this.word := word;
      putBuffer := 0;
      putBits := 0;
      out := [];
      trace := Trace([], [], []);
    }

    method EmitByte()
      requires Holds() && putBits >= 8
      modifies `putBits, `out, `trace
      ensures Holds() && putBits == old(putBits) - 8
      ensures trace == old(trace).(written := trace.written)
    {
      hide ToBits, FromBits, Wrap, Shr, Shl, Pow2, Unpack, Stuff;
      putBits := putBits - 8;
      var c := Wrap(Shr(putBuffer, putBits), 8);
      WrapBits(Shr(putBuffer, putBits), 8, 8);
      ToBitsSplit(putBuffer, 8, putBits);
      Pow2Byte();
      var b := c as Byte;
      UnpackSnoc(trace.written, b);
      StuffSnoc(trace.written, b);
      out := out + [b];
      if b == 255 {
        out := out + [0];
      }
      trace := trace.(written := trace.written + [b]);
    }

    /** Shift in a field.  Bits that no longer fit into the word are lost. */
    method PutBits(code: nat, size: nat)
      requires Holds() && putBits <= word && size <= word && code < Pow2(size)
      modifies `putBuffer, `putBits, `trace
      ensures Holds() && putBits == old(putBits) + size <= |trace.sent|
      ensures trace == old(trace).(sent := Kept(old(trace.sent), old(putBits), word - size) + ToBits(code, size))
    {
      hide ToBits, Wrap, Or, Shl, Unpack, Stuff, Pow2, Kept;
      ghost var sent, n := trace.sent, putBits;
      ShiftedIn(Unpack(trace.written), putBuffer, n, code, size, word);
      putBits := putBits + size;
      putBuffer := Or(Wrap(Shl(putBuffer, size), word), code);
      trace := trace.(sent := Kept(sent, n, word - size) + ToBits(code, size));
    }

    method CheckBuf(limit: nat, count: nat)
      requires Holds() && limit + 1 == 8 * count
      modifies `putBits, `out, `trace
      ensures Holds() && putBits == if old(putBits) > limit then old(putBits) - 8 * count else old(putBits)
      ensures trace == old(trace).(written := trace.written)
    {
      if putBits > limit {
        var k := 0;
        while k < count
          invariant k <= count && Holds() && putBits == old(putBits) - 8 * k
          invariant trace == old(trace).(written := trace.written)
        {
          EmitByte();
          k := k + 1;
        }
      }
    }

    /** EMIT_BITS: append one field of at most 16 bits. */
    method EmitBits(code: nat, size: nat)
      requires Valid() && size <= 16 && code < Pow2(size)
      modifies `putBuffer, `putBits, `out, `trace
      ensures Valid()
      ensures trace.before == old(trace.before) && trace.sent == old(trace.sent) + ToBits(code, size)
      ensures putBits == AfterField(word, old(putBits), size)
    {
      hide ToBits, Unpack, Stuff, Pow2;
      if word == 64 {
        CheckBuf(47, 6);
        PutBits(code, size);
      } else {
        PutBits(code, size);
        CheckBuf(15, 2);
      }
    }

    /** EMIT_CODE: append a code word and the masked additional bits. */
    method EmitCode(code: nat, size: nat, temp2: int, nbits: nat)
      requires Valid() && size <= 16 && code < Pow2(size) && nbits <= 16
      modifies `putBuffer, `putBits, `out, `trace
      ensures Valid()
      ensures trace.before == old(trace.before)
      ensures trace.sent == old(trace.sent) + ToBits(code, size) + ToBits(Masked(temp2, nbits), nbits)
      ensures putBits == AfterCode(word, old(putBits), size, nbits)
    {
      hide ToBits, Unpack, Stuff, Pow2, Masked;
      var field := Masked(temp2, nbits);
      if word == 64 {
        CheckBuf(31, 4);
        PutBits(code, size);
        PutBits(field, nbits);
      } else {
        PutBits(code, size);
        CheckBuf(15, 2);
        PutBits(field, nbits);
        CheckBuf(15, 2);
      }
    }

    /** Fill the last byte with ones and empty the word. */
    method FlushBits()
      requires Valid()
      modifies this
      ensures Valid() && putBits == 0 && trace == Trace(out, [], [])
      ensures old(putBits) <= |old(trace.sent)|
      ensures out == old(trace.before) + Stuff(Pack(Kept(old(trace.sent), old(putBits), word - 7)))
    {
      hide ToBits, Unpack, Stuff, Pow2, Pack, Kept;
      ghost var sent, n := trace.sent, putBits;
      assert putBits <= |trace.sent|;
      Pow2Byte();
      PutBits(0x7F, 7);
      while putBits >= 8
        invariant Holds() && trace == Trace(old(trace.before), Kept(sent, n, word - 7) + ToBits(0x7F, 7), trace.written)
      {
        EmitByte();
      }
      ghost var kept := Kept(sent, n, word - 7);
      SevenOnes(kept, Unpack(trace.written), ToBits(putBuffer, putBits));
      PacksUniquely(trace.written, kept);
      putBuffer := 0;
      putBits := 0;
      trace := Trace(out, [], []);
      EmptyTrace(0);
      assert out == out + Stuff([]);
    }

    /** A marker goes to the output directly, once the word is empty. */
    method EmitMarker(m: Byte)
      requires Valid() && putBits == 0 && trace == Trace(out, [], [])
      modifies `out, `trace
      ensures Valid() && trace == Trace(out, [], []) && out == old(out) + [255, m]
    {
      hide ToBits, Unpack, Stuff;
      EmptyTrace(putBuffer);
      out := out + [255, m];
      trace := Trace(out, [], []);
      assert out == out + Stuff([]);
    }
  }

  lemma EmptyTrace(v: nat)
    ensures Stuff([]) == [] && Unpack([]) + ToBits(v, 0) == []
  {
  }

  /** Seven ones fill the last byte; whatever is left over is thrown away. */
  lemma SevenOnes(bits: Bits, whole: Bits, left: Bits)
    requires whole + left == bits + ToBits(0x7F, 7) && |whole| % 8 == 0 && |left| < 8
    ensures |bits| <= |whole| < |bits| + 8 && whole == bits + Ones(|whole| - |bits|)
  {
    assert ToBits(0x7F, 7) == Ones(7) by { FromOnes(7); ToFromBits(Ones(7)); Pow2Byte(); }
    assert |whole| + |left| == |bits| + 7;
    forall i | 0 <= i < |whole| ensures whole[i] == (bits + Ones(7))[i] {
      assert whole[i] == (whole + left)[i];
    }
  }

  /** Shifting in the last seven bits pushes out no bit that matters. */
  ghost predicate Lossless(sent: Bits, n: nat, room: nat) {
    n <= room || |sent| < n || sent[|sent| - n..|sent| - room] == Zeros(n - room)
  }

  lemma KeptIsAll(sent: Bits, n: nat, room: nat)
    ensures Kept(sent, n, room) == sent <==> Lossless(sent, n, room)
  {
    if room < n <= |sent| {
      var a, b := |sent| - n, |sent| - room;
      var kept := Kept(sent, n, room);
      assert sent == sent[..a] + sent[a..b] + sent[b..];
      assert kept[a..b] == Zeros(n - room);
    }
  }

  /** Flushing a 64-bit word is lossless exactly when at most 57 bits are pending, or the pending bits
      beyond the last 57 happen to be zeros; flushing a 32-bit word always is. */
  lemma FlushIsLossless(before: seq<Byte>, sent: Bits, n: nat, word: nat)
    requires n <= |sent| && word >= 7
    ensures before + Stuff(Pack(Kept(sent, n, word - 7))) == before + Stuff(Pack(sent)) <==> Lossless(sent, n, word - 7)
  {
    hide Stuff, Pack, Lossless;
    var kept := Kept(sent, n, word - 7);
    KeptIsAll(sent, n, word - 7);
    if before + Stuff(Pack(kept)) == before + Stuff(Pack(sent)) {
      assert Stuff(Pack(kept)) == (before + Stuff(Pack(kept)))[|before|..];
      assert Stuff(Pack(sent)) == (before + Stuff(Pack(sent)))[|before|..];
      StuffInjective(Pack(kept), Pack(sent));
      PackInjective(kept, sent);
    }
  }

  /** A field handed to a bit packer: the low `size` bits of `code`. */
  datatype Field = Field(code: nat, size: nat) {
    ghost predicate Fits() {
      0 < size <= 16 && code < Pow2(size)
    }
  }

  function FieldBits(fields: seq<Field>): Bits {
    if fields == [] then []
    else FieldBits(fields[..|fields| - 1]) + ToBits(fields[|fields| - 1].code, fields[|fields| - 1].size)
  }

  /** How many bits are pending after the fields. */
  function PendingBits(fields: seq<Field>, word: nat): (n: nat)
    ensures n <= |FieldBits(fields)|
  {
    if fields == [] then 0
    else AfterField(word, PendingBits(fields[..|fields| - 1], word), fields[|fields| - 1].size)
  }

  /** Never too many for a 32-bit word; never too many for a 64-bit word after a field of at most ten bits. */
  lemma {:induction false} PendingIsShort(fields: seq<Field>, word: nat)
    requires forall f <- fields :: f.Fits()
    ensures word == 32 ==> PendingBits(fields, word) <= 15
    ensures word == 64 ==> PendingBits(fields, word) <= 63
    ensures word == 64 && (fields != [] ==> fields[|fields| - 1].size <= 10) ==> PendingBits(fields, word) <= 57
  {
    hide Field.Fits;
    if fields != [] {
      var f := fields[|fields| - 1];
      assert f in fields && f.size <= 16 by {
        FitsSize(f, fields);
      }
      PendingIsShort(fields[..|fields| - 1], word);
    }
  }

  lemma FitsSize(f: Field, fields: seq<Field>)
    requires fields != [] && f == fields[|fields| - 1] && forall g <- fields :: g.Fits()
    ensures f in fields && f.size <= 16
  {
  }

  /** A whole run of the macros.  The bytes are the fields' bits, filled up with ones and stuffed, exactly
      if the pending bits that the final flush shifts out are zeros. */
  method PackWithMacros(fields: seq<Field>, word: nat) returns (out: seq<Byte>)
    requires forall f <- fields :: f.Fits()
    requires word == 32 || word == 64
    ensures out == Stuff(Pack(Kept(FieldBits(fields), PendingBits(fields, word), word - 7)))
    ensures out == Stuff(Pack(FieldBits(fields))) <==>
      Lossless(FieldBits(fields), PendingBits(fields, word), word - 7)
  {
    hide ToBits, Stuff, Pack, Pow2, Kept, Lossless, AfterField;
    var p := new MacroPacker(word);
    var i := 0;
    while i < |fields|
      invariant i <= |fields| && fresh(p) && p.Valid() && p.word == word
      invariant p.trace.before == [] && p.trace.sent == FieldBits(fields[..i])
      invariant p.putBits == PendingBits(fields[..i], word)
    {
      var f := fields[i];
      assert f in fields;
      p.EmitBits(f.code, f.size);
      assert fields[..i + 1][..i] == fields[..i];
      i := i + 1;
    }
    assert fields[..i] == fields;
    p.FlushBits();
    out := p.out;
    var sent, n := FieldBits(fields), PendingBits(fields, word);
    FlushIsLossless([], sent, n, word);
    assert [] + Stuff(Pack(sent)) == Stuff(Pack(sent));
    assert [] + Stuff(Pack(Kept(sent, n, word - 7))) == Stuff(Pack(Kept(sent, n, word - 7)));
  }
}
