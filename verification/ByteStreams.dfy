/** Byte sequences read as base-256 numbers, zero extension, and the zero stuffing of
    entropy-coded segments (section B.1.1.5 of ITU-T T.81). */
module ByteStreams {
  import opened Shifts

  newtype Byte = b: int | 0 <= b < 256

  function Val(s: seq<Byte>): nat {
    if s == [] then 0 else Val(s[..|s| - 1]) * 256 + s[|s| - 1] as int
  }

  function Rep(b: Byte, k: nat): (r: seq<Byte>)
    ensures |r| == k
  {
    if k == 0 then [] else Rep(b, k - 1) + [b]
  }

  lemma RepNext(b: Byte, k: nat)
    ensures Rep(b, k + 1) == Rep(b, k) + [b]
  {
  }

  lemma NoBytes(b: Byte)
    ensures Rep(b, 0) == [] && Val([]) == 0
  {
  }

  lemma {:induction false} RepAt(b: Byte, k: nat, i: nat)
    requires i < k
    ensures Rep(b, k)[i] == b
  {
    if i < k - 1 {
      RepAt(b, k - 1, i);
    }
  }

  lemma {:induction false} RepSum(b: Byte, j: nat, k: nat)
    ensures Rep(b, j) + Rep(b, k) == Rep(b, j + k)
  {
    if k != 0 {
      RepSum(b, j, k - 1);
    }
  }

  lemma ValSnoc(s: seq<Byte>, b: Byte)
    ensures Val(s + [b]) == Val(s) * 256 + b as int
  {
    assert (s + [b])[..|s|] == s;
  }

  /** A carry into a byte below 0xFF ripples over the stacked 0xFF bytes behind it. */
  lemma {:induction false} CarryRipples(s: seq<Byte>, b: Byte, k: nat)
    requires b < 255
    ensures Val(s + [b] + Rep(255, k)) + 1 == Val(s + [b + 1] + Rep(0, k))
  {
    hide Val, Rep;
    if k == 0 {
      NoBytes(255);
      NoBytes(0);
      assert s + [b] + Rep(255, k) == s + [b] && s + [b + 1] + Rep(0, k) == s + [b + 1];
      ValSnoc(s, b);
      ValSnoc(s, b + 1);
    } else {
      CarryRipples(s, b, k - 1);
      RepNext(255, k - 1);
      RepNext(0, k - 1);
      var x, y := s + [b] + Rep(255, k - 1), s + [b + 1] + Rep(0, k - 1);
      ValSnoc(x, 255);
      ValSnoc(y, 0);
      assert s + [b] + Rep(255, k) == x + [255];
      assert s + [b + 1] + Rep(0, k) == y + [0];
    }
  }

  /** A sequence of k bytes 0xFF is one below the next power: a carry has nowhere to go. */
  lemma {:induction false} ValAllOnes(k: nat)
    ensures Val(Rep(255, k)) + 1 == Pow2(8 * k)
  {
    hide Val, Rep, Shl;
    if k == 0 {
      NoBytes(255);
      ShlNone(1);
    } else {
      var ones := Rep(255, k - 1);
      ValAllOnes(k - 1);
      RepNext(255, k - 1);
      ValSnoc(ones, 255);
      ShlShl(1, 8 * (k - 1), 8);
      ShlByte(Pow2(8 * (k - 1)));
    }
  }

  /** The first r bytes of `s` followed by endless zeros. */
  function Ext(s: seq<Byte>, r: nat): (e: seq<Byte>)
    ensures |e| == r
  {
    if r <= |s| then s[..r] else s + Rep(0, r - |s|)
  }

  function At(s: seq<Byte>, i: nat): Byte {
    if i < |s| then s[i] else 0
  }

  lemma ExtSnoc(s: seq<Byte>, r: nat)
    ensures Ext(s, r + 1) == Ext(s, r) + [At(s, r)]
    ensures Val(Ext(s, r + 1)) == Val(Ext(s, r)) * 256 + At(s, r) as int
  {
    if |s| <= r {
      assert Rep(0, r + 1 - |s|) == Rep(0, r - |s|) + [0];
    }
    assert Ext(s, r + 1) == Ext(s, r) + [At(s, r)];
    ValSnoc(Ext(s, r), At(s, r));
  }

  lemma {:induction false} ValZeros(s: seq<Byte>, k: nat)
    ensures Val(s + Rep(0, k)) == Shl(Val(s), 8 * k)
  {
    hide Val, Rep, Shl;
    if k == 0 {
      NoBytes(0);
      ShlNone(Val(s));
      assert s + Rep(0, k) == s;
    } else {
      var before := s + Rep(0, k - 1);
      ValZeros(s, k - 1);
      RepNext(0, k - 1);
      assert s + Rep(0, k) == before + [0];
      ValSnoc(before, 0);
      ShlShl(Val(s), 8 * (k - 1), 8);
      ShlByte(Shl(Val(s), 8 * (k - 1)));
    }
  }

  /** Trailing zero bytes do not change the zero-extended stream. */
  lemma ExtTrailingZeros(s: seq<Byte>, k: nat, r: nat)
    ensures Ext(s + Rep(0, k), r) == Ext(s, r)
  {
    hide Rep;
    if r <= |s| {
    } else if r <= |s| + k {
      RepSum(0, r - |s|, k - (r - |s|));
    } else {
      RepSum(0, k, r - |s| - k);
    }
  }

  ghost predicate NoTrailingZero(s: seq<Byte>) {
    s == [] || s[|s| - 1] != 0
  }

  /** The bytes as written to the file: a zero follows every 0xFF. */
  function Stuff(s: seq<Byte>): seq<Byte> {
    if s == [] then []
    else
      var b := s[|s| - 1];
      Stuff(s[..|s| - 1]) + (if b == 255 then [255, 0] else [b])
  }

  lemma StuffSnoc(s: seq<Byte>, b: Byte)
    ensures Stuff(s + [b]) == Stuff(s) + if b == 255 then [255, 0] else [b]
  {
    assert (s + [b])[..|s|] == s;
  }

  lemma {:induction false} StuffCons(s: seq<Byte>)
    requires s != []
    ensures Stuff(s) == (if s[0] == 255 then [255, 0] else [s[0]]) + Stuff(s[1..])
  {
    var n := |s| - 1;
    if n > 0 {
      StuffCons(s[..n]);
      assert s[..n][1..] == s[1..][..n - 1];
    }
  }

  /** The entropy-coded bytes up to the next marker, with the stuffed zeros removed, and what follows. */
  function ReadEntropy(s: seq<Byte>): (seq<Byte>, seq<Byte>) {
    if s == [] then ([], [])
    else if s[0] != 255 then
      var (p, rest) := ReadEntropy(s[1..]);
      ([s[0]] + p, rest)
    else if |s| >= 2 && s[1] == 0 then
      var (p, rest) := ReadEntropy(s[2..]);
      ([255] + p, rest)
    else ([], s)
  }

  /** The end of the data, or a marker. */
  ghost predicate AtMarker(s: seq<Byte>) {
    s != [] ==> s[0] == 255 && |s| >= 2 && s[1] != 0
  }

  lemma {:induction false} EntropyIsRead(s: seq<Byte>, rest: seq<Byte>)
    requires AtMarker(rest)
    ensures ReadEntropy(Stuff(s) + rest) == (s, rest)
  {
    hide Stuff;
    if s == [] {
      assert Stuff([]) == [] && [] + rest == rest by {
        NothingStuffed();
      }
    } else {
      var b, t := s[0], s[1..];
      assert s == [b] + t;
      StuffCons(s);
      EntropyIsRead(t, rest);
      var head := if b == 255 then [255, 0] else [b];
      var tail := Stuff(t) + rest;
      assert head + Stuff(t) + rest == head + tail;
      assert (head + tail)[|head|..] == tail;
    }
  }

  lemma NothingStuffed()
    ensures Stuff([]) == []
  {
  }

  /** What is read was stuffed there. */
  lemma {:induction false} EntropyWasStuffed(s: seq<Byte>)
    ensures var (data, rest) := ReadEntropy(s); s == Stuff(data) + rest
  {
    hide Stuff;
    NothingStuffed();
    if s != [] {
      var n := if s[0] != 255 then 1 else if |s| >= 2 && s[1] == 0 then 2 else 0;
      if n > 0 {
        var (data, rest) := ReadEntropy(s[n..]);
        EntropyWasStuffed(s[n..]);
        assert Stuff([s[0]] + data) == s[..n] + Stuff(data) by {
          StuffCons([s[0]] + data);
          assert ([s[0]] + data)[1..] == data;
        }
        assert s == s[..n] + (Stuff(data) + rest) by {
          hide *;
        }
      }
    }
  }
}
