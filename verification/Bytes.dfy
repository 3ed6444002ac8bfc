/** Bytes, and unsigned integers written in them most significant first. */
module Bytes {

  type Byte = n: nat | n < 256

  function Pow256(w: nat): nat { if w == 0 then 1 else 256 * Pow256(w - 1) }

  function BigEndian(n: nat, w: nat): (bs: seq<Byte>)
    ensures |bs| == w
  {
    if w == 0 then [] else BigEndian(n / 256, w - 1) + [n % 256]
  }

  function Unsigned(bs: seq<Byte>): nat {
    if bs == [] then 0 else Unsigned(bs[..|bs| - 1]) * 256 + bs[|bs| - 1]
  }

  lemma {:induction false} UnsignedBound(bs: seq<Byte>)
    ensures Unsigned(bs) < Pow256(|bs|)
  {
    if bs != [] { UnsignedBound(bs[..|bs| - 1]); }
  }

  lemma {:induction false} UnsignedOfBigEndian(n: nat, w: nat)
    requires n < Pow256(w)
    ensures Unsigned(BigEndian(n, w)) == n
  {
    if w > 0 {
      UnsignedOfBigEndian(n / 256, w - 1);
      var bs := BigEndian(n, w);
      assert bs[..w - 1] == BigEndian(n / 256, w - 1);
    }
  }

  /** The first byte counts for the most. */
  lemma {:induction false} FirstCountsMost(b: Byte, rest: seq<Byte>)
    ensures Unsigned([b] + rest) == b * Pow256(|rest|) + Unsigned(rest)
  {
    var bs := [b] + rest;
    if rest == [] {
      assert bs[..0] == [];
    } else {
      var init := rest[..|rest| - 1];
      assert bs[..|bs| - 1] == [b] + init;
      FirstCountsMost(b, init);
      assert b * Pow256(|init|) * 256 == b * (256 * Pow256(|init|));
    }
  }

  /** Every string of bytes is the number it reads as, written in as many. */
  lemma {:induction false} BigEndianOfUnsigned(bs: seq<Byte>)
    ensures BigEndian(Unsigned(bs), |bs|) == bs
  {
    if bs != [] { BigEndianOfUnsigned(bs[..|bs| - 1]); }
  }

  lemma Powers()
    ensures Pow256(1) == 0x100 && Pow256(2) == 0x1_0000
    ensures Pow256(4) == 0x1_0000_0000 && Pow256(8) == 0x1_0000_0000_0000_0000
  {
    assert Pow256(4) == 256 * (256 * Pow256(2));
    assert Pow256(8) == 256 * (256 * (256 * (256 * Pow256(4))));
  }
}
