/** Little-endian byte sequences: what `memcpy` of an integer leaves in memory on a little-endian host. */
module Bytes {
  import opened Bits

  type byte = u8

  function FromLE(bs: seq<byte>): nat {
    if bs == [] then 0 else bs[0] + 256 * FromLE(bs[1..])
  }

  /** The low n bytes of x, least significant first. */
  function ToLE(x: nat, n: nat): (bs: seq<byte>)
    ensures |bs| == n
  {
    if n == 0 then [] else [x % 256] + ToLE(x / 256, n - 1)
  }

  lemma EightStep(k: nat)
    ensures Pow2(8 * (k + 1)) == 256 * Pow2(8 * k)
  {
    Pow2Values();
    Pow2Add(8 * k, 8);
  }

  lemma {:induction false} FromLEBound(bs: seq<byte>)
    ensures FromLE(bs) < Pow2(8 * |bs|)
  {
    if bs != [] {
      FromLEBound(bs[1..]);
      EightStep(|bs| - 1);
      hide Pow2;
    }
  }

  lemma {:induction false} ToFromLE(bs: seq<byte>)
    ensures ToLE(FromLE(bs), |bs|) == bs
  {
    if bs != [] {
      ToFromLE(bs[1..]);
      var x := FromLE(bs);
      assert x % 256 == bs[0] && x / 256 == FromLE(bs[1..]);
      assert bs == [bs[0]] + bs[1..];
    }
  }

  /** Reading n bytes back gives the number modulo 256^n. */
  lemma {:induction false} FromToLE(x: nat, n: nat)
    ensures FromLE(ToLE(x, n)) == Low(x, 8 * n)
  {
    if n == 0 {
      ShiftZero(x);
    } else {
      FromToLE(x / 256, n - 1);
      assert ToLE(x, n)[1..] == ToLE(x / 256, n - 1);
      LowEight(x, 8 * (n - 1));
      hide Low;
    }
  }

  lemma LowEight(x: nat, k: nat)
    ensures Low(x, k + 8) == x % 256 + 256 * Low(x / 256, k)
  {
    hide Up, Shr, Low, Pow2;
    Pow2Values();
    var h := x / 256;
    Split(h, k);
    UpUp(Shr(h, k), k, 8);
    UpEight(Shr(h, k), k);
    EightShift(k);
    SplitUnique(x, k + 8, Shr(h, k), x % 256 + 256 * Low(h, k));
  }

  lemma UpEight(x: nat, k: nat)
    ensures Up(x, k + 8) == 256 * Up(x, k)
  {
    Pow2Add(k, 8);
    Pow2Values();
  }

  lemma EightShift(k: nat)
    ensures Pow2(k + 8) == 256 * Pow2(k)
  {
    Pow2Add(k, 8);
    Pow2Values();
  }

  lemma {:induction false} ToLEByte(x: nat, n: nat, i: nat)
    requires i < n
    ensures ToLE(x, n)[i] == Shr(x, 8 * i) % 256
  {
    if i == 0 {
      ShiftZero(x);
    } else {
      ToLEByte(x / 256, n - 1, i - 1);
      Pow2Values();
      ShrShr(x, 8, 8 * (i - 1));
    }
  }

  /** Appending a byte adds it at its place. */
  lemma {:induction false} FromLEAppend(bs: seq<byte>, b: byte)
    ensures FromLE(bs + [b]) == FromLE(bs) + Up(b, 8 * |bs|)
  {
    if bs == [] {
      ShiftZero(b);
      assert bs + [b] == [b];
    } else {
      FromLEAppend(bs[1..], b);
      assert (bs + [b])[1..] == bs[1..] + [b];
      UpEight(b, 8 * (|bs| - 1));
      hide Up;
    }
  }
}
