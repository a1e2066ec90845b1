/** Entropy-coded bits grouped into bytes: the specification that both bit packers meet. */
module BitPacking {
  import opened Shifts
  import opened BitStrings
  import opened ByteStreams

  function ByteOf(b: Bits): (r: Byte)
    requires |b| == 8
    ensures ToBits(r as int, 8) == b
  {
    FromBitsBelow(b);
    ShlByte(1);
    ToFromBits(b);
    FromBits(b) as Byte
  }

  /** The bits that the given bytes spell. */
  function Unpack(s: seq<Byte>): (b: Bits)
    ensures |b| == 8 * |s|
  {
    if s == [] then [] else Unpack(s[..|s| - 1]) + ToBits(s[|s| - 1] as int, 8)
  }

  /** `s` spells `bits`, and its last byte is filled up with ones. */
  ghost predicate Packs(s: seq<Byte>, bits: Bits) {
    |bits| <= 8 * |s| < |bits| + 8 && Unpack(s) == bits + Ones(8 * |s| - |bits|)
  }

  /** The number of bits in front of the last, possibly partial, byte. */
  function Whole(n: nat): (k: nat)
    requires n > 0
    ensures k % 8 == 0 && k < n <= k + 8
  {
    (n - 1) / 8 * 8
  }

  /** The bits grouped into bytes, the last byte filled up with ones. */
  function Pack(bits: Bits): seq<Byte> {
    if bits == [] then []
    else
      var k := Whole(|bits|);
      Pack(bits[..k]) + [ByteOf(bits[k..] + Ones(8 - (|bits| - k)))]
  }

  lemma {:induction false} PackPacks(bits: Bits)
    ensures Packs(Pack(bits), bits)
  {
    hide ToBits, FromBits, Unpack;
    if bits == [] {
      assert Unpack([]) == [] + Ones(0);
    } else {
      var k := Whole(|bits|);
      PackPacks(bits[..k]);
      PacksSnoc(Pack(bits[..k]), bits[..k], bits[k..]);
      assert bits == bits[..k] + bits[k..];
    }
  }

  lemma PacksSnoc(s: seq<Byte>, whole: Bits, tail: Bits)
    requires Packs(s, whole) && |whole| % 8 == 0 && 0 < |tail| <= 8
    ensures Packs(s + [ByteOf(tail + Ones(8 - |tail|))], whole + tail)
  {
    hide ToBits, FromBits, Unpack;
    UnpackSnoc(s, ByteOf(tail + Ones(8 - |tail|)));
  }

  lemma UnpackSnoc(s: seq<Byte>, b: Byte)
    ensures Unpack(s + [b]) == Unpack(s) + ToBits(b as int, 8)
  {
    assert (s + [b])[..|s|] == s;
  }

  lemma ByteSpelling(b: Byte)
    ensures FromBits(ToBits(b as int, 8)) == b as int
  {
    ShlByte(1);
    FromToBits(b as int, 8);
  }

  lemma {:induction false} UnpackInjective(s: seq<Byte>, t: seq<Byte>)
    requires Unpack(s) == Unpack(t)
    ensures s == t
  {
    hide ToBits, FromBits, Pow2, Shl;
    assert |s| == |t|;
    if s != [] {
      var n := |s| - 1;
      assert Unpack(s[..n]) == Unpack(s)[..8 * n] && Unpack(t[..n]) == Unpack(t)[..8 * n];
      assert ToBits(s[n] as int, 8) == Unpack(s)[8 * n..] && ToBits(t[n] as int, 8) == Unpack(t)[8 * n..];
      UnpackInjective(s[..n], t[..n]);
      ByteSpelling(s[n]);
      ByteSpelling(t[n]);
    }
  }

  /** There is one way to pack a bit string. */
  lemma PacksUniquely(s: seq<Byte>, bits: Bits)
    requires Packs(s, bits)
    ensures s == Pack(bits)
  {
    var t := Pack(bits);
    PackPacks(bits);
    assert |s| == |t|;
    UnpackInjective(s, t);
  }

  lemma {:induction false} UnpackPrefix(s: seq<Byte>, n: nat)
    requires n <= |s|
    ensures Unpack(s[..n]) == Unpack(s)[..8 * n]
    decreases |s|
  {
    hide ToBits;
    if n < |s| {
      UnpackPrefix(s[..|s| - 1], n);
      assert s[..|s| - 1][..n] == s[..n];
    } else {
      assert s[..n] == s;
    }
  }

  lemma {:induction false} StuffGrows(s: seq<Byte>, n: nat)
    requires n <= |s|
    ensures |Stuff(s[..n])| <= |Stuff(s)|
    decreases |s|
  {
    if n < |s| {
      StuffGrows(s[..|s| - 1], n);
      assert s[..|s| - 1][..n] == s[..n];
    } else {
      assert s[..n] == s;
    }
  }

  /** Bytes already written, with bits pending behind them, are the first of the packed bytes. */
  lemma WrittenIsPacked(written: seq<Byte>, pending: Bits, sent: Bits)
    requires Unpack(written) + pending == sent
    ensures |Stuff(written)| <= |Stuff(Pack(sent))|
  {
    hide Pack, Stuff, Unpack;
    var s, n := Pack(sent), |written|;
    PackPacks(sent);
    UnpackPrefix(s, n);
    assert Unpack(s)[..8 * n] == sent[..8 * n] == Unpack(written);
    UnpackInjective(s[..n], written);
    StuffGrows(s, n);
  }

  /** Bit strings of the same length are packed alike only if they are the same. */
  lemma PackInjective(x: Bits, y: Bits)
    requires |x| == |y| && Pack(x) == Pack(y)
    ensures x == y
  {
    hide Pack;
    PackPacks(x);
    PackPacks(y);
    assert x == Unpack(Pack(x))[..|x|] && y == Unpack(Pack(y))[..|y|];
  }

  /** A stuffed stream never ends in 0xFF. */
  lemma StuffEnds(s: seq<Byte>)
    ensures s != [] ==> Stuff(s) != [] && Stuff(s)[|Stuff(s)| - 1] != 255
  {
  }

  /** The last byte shows at the end of the stuffed stream. */
  lemma StuffLast(s: seq<Byte>)
    requires s != []
    ensures var u, b := Stuff(s), s[|s| - 1];
      if b == 255 then |u| >= 2 && u[|u| - 2] == 255 && u[..|u| - 2] == Stuff(s[..|s| - 1])
      else |u| >= 1 && u[|u| - 1] == b && (|u| >= 2 ==> u[|u| - 2] != 255) && u[..|u| - 1] == Stuff(s[..|s| - 1])
  {
    hide Stuff;
    var t, b := s[..|s| - 1], s[|s| - 1];
    assert s == t + [b];
    StuffSnoc(t, b);
    StuffEnds(t);
    NothingStuffed();
  }

  /** Stuffing can be undone: the stuffed bytes determine the packed ones. */
  lemma {:induction false} StuffInjective(s: seq<Byte>, t: seq<Byte>)
    requires Stuff(s) == Stuff(t)
    ensures s == t
  {
    hide Stuff;
    NothingStuffed();
    StuffEnds(s);
    StuffEnds(t);
    if s != [] && t != [] {
      StuffLast(s);
      StuffLast(t);
      StuffInjective(s[..|s| - 1], t[..|t| - 1]);
      assert s == s[..|s| - 1] + [s[|s| - 1]] && t == t[..|t| - 1] + [t[|t| - 1]];
    }
  }

  /** After every 0xFF comes a zero, so that no marker appears inside the entropy-coded data. */
  lemma {:induction false} StuffHidesMarkers(s: seq<Byte>, i: nat)
    requires i < |Stuff(s)| && Stuff(s)[i] == 255
    ensures i + 1 < |Stuff(s)| && Stuff(s)[i + 1] == 0
  {
    var n := |s| - 1;
    StuffEnds(s);
    StuffEnds(s[..n]);
    if i < |Stuff(s[..n])| {
      StuffHidesMarkers(s[..n], i);
    }
  }
}
