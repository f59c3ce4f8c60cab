/** The 64-bit hash that puts rooms and virtual nodes on the ring. */
module RingHash {
  import opened Basics
  import opened ByteOrder

  /** A 64-bit word. */
  type Word = n: nat | n < TWO_64

  const VIRTUAL_NODES: nat := 128

  /** FNV-1a offset basis and prime, and the two splitmix64 multipliers. */
  const FNV_OFFSET: Word := 0xCBF2_9CE4_8422_2325
  const FNV_PRIME: Word := 0x0000_0100_0000_01B3
  const MIX_30: Word := 0xBF58_476D_1CE4_E5B9
  const MIX_27: Word := 0x94D0_49BB_1331_11EB

  // ---------------------------------------------------------------- word operations

  /** Bitwise exclusive or. */
  function Xor(a: nat, b: nat): nat
    decreases a + b
  {
    if a == 0 && b == 0 then 0
    else (if a % 2 != b % 2 then 1 else 0) + 2 * Xor(a / 2, b / 2)
  }

  /** Logical shift right. */
  function Shr(a: nat, k: nat): nat
    decreases k
  {
    if k == 0 then a else Shr(a / 2, k - 1)
  }

  /** Multiplication modulo 2^64. */
  function WrappingMul(a: nat, b: nat): Word {
    (a * b) % TWO_64
  }

  lemma {:induction false} XorCancel(a: nat, b: nat)
    ensures Xor(a, Xor(a, b)) == b
    decreases a + b
  {
    if a != 0 || b != 0 {
      XorCancel(a / 2, b / 2);
      assert Xor(a, b) / 2 == Xor(a / 2, b / 2);
      assert Xor(a, b) % 2 == if a % 2 != b % 2 then 1 else 0;
    }
  }

  lemma {:induction false} XorCommutes(a: nat, b: nat)
    ensures Xor(a, b) == Xor(b, a)
    decreases a + b
  {
    if a != 0 || b != 0 {
      XorCommutes(a / 2, b / 2);
    }
  }

  lemma XorInjective(a: nat, x: nat, y: nat)
    requires Xor(a, x) == Xor(a, y) || Xor(x, a) == Xor(y, a)
    ensures x == y
  {
    XorCancel(a, x);
    XorCancel(a, y);
    XorCommutes(a, x);
    XorCommutes(a, y);
  }

  lemma {:induction false} XorBounded(a: nat, b: nat, w: nat)
    requires a < Power2(w) && b < Power2(w)
    ensures Xor(a, b) < Power2(w)
    decreases w
  {
    if w > 0 {
      XorBounded(a / 2, b / 2, w - 1);
    }
  }

  lemma {:induction false} ShrXor(a: nat, b: nat, k: nat)
    ensures Shr(Xor(a, b), k) == Xor(Shr(a, k), Shr(b, k))
    decreases k
  {
    if k > 0 {
      ShrXor(a / 2, b / 2, k - 1);
      assert Xor(a, b) / 2 == Xor(a / 2, b / 2);
    }
  }

  lemma {:induction false} ShrShr(a: nat, j: nat, k: nat)
    ensures Shr(Shr(a, j), k) == Shr(a, j + k)
    decreases j
  {
    if j > 0 {
      ShrShr(a / 2, j - 1, k);
    }
  }

  lemma {:induction false} ShrOut(a: nat, w: nat, k: nat)
    requires a < Power2(w) && w <= k
    ensures Shr(a, k) == 0
    decreases k
  {
    if k > 0 {
      ShrOut(a / 2, if w > 0 then w - 1 else 0, k - 1);
    }
  }

  lemma {:induction false} ShrSmaller(a: nat, k: nat)
    ensures Shr(a, k) <= a
    decreases k
  {
    if k > 0 {
      ShrSmaller(a / 2, k - 1);
    }
  }

  lemma Power64()
    ensures Power2(64) == TWO_64
  {
    assert Power2(8) == 0x100;
    PowerAdds(8, 8);
    PowerAdds(16, 16);
    PowerAdds(32, 32);
  }

  lemma {:induction false} PowerAdds(a: nat, b: nat)
    ensures Power2(a + b) == Power2(a) * Power2(b)
    decreases a
  {
    if a > 0 {
      PowerAdds(a - 1, b);
    }
  }

  // ---------------------------------------------------------------- the hash

  /** A word xored with its own shift. */
  function Fold(z: Word, k: nat): (r: Word) {
    ShrSmaller(z, k);
    Power64();
    XorBounded(z, Shr(z, k), 64);
    Xor(z, Shr(z, k))
  }

  /** The splitmix64 finalizing mix. */
  function Finalize(z: Word): Word {
    Fold(WrappingMul(Fold(WrappingMul(Fold(z, 30), MIX_30), 27), MIX_27), 31)
  }

  function FnvStep(state: Word, byte: Byte): Word {
    WrappingMul(Xor(state, byte), FNV_PRIME)
  }

  function Fnv(data: Bytes): Word {
    if data == [] then FNV_OFFSET else FnvStep(Fnv(data[..|data| - 1]), data[|data| - 1])
  }

  function Hash(data: Bytes): Word {
    Finalize(Fnv(data))
  }

  method ComputeHash(data: Bytes) returns (h: Word)
    ensures h == Hash(data)
  {
    var state := FNV_OFFSET;
    for i := 0 to |data|
      invariant state == Fnv(data[..i])
    {
      assert data[..i + 1][..i] == data[..i];
      state := FnvStep(state, data[i]);
    }
    assert data[..|data|] == data;
    h := Finalize(state);
  }

  lemma {:induction false} XorZero(a: nat)
    ensures Xor(a, 0) == a
  {
    if a > 0 {
      XorZero(a / 2);
    }
  }

  /** A zero byte multiplies by the prime; from the offset basis that gives a known FNV-1a value. */
  lemma ZeroStep(state: Word, byte: Byte)
    requires byte == 0
    ensures FnvStep(state, byte) == WrappingMul(state, FNV_PRIME)
  {
    XorZero(state);
  }

  lemma OffsetTimesPrime(state: Word)
    requires state == FNV_OFFSET
    ensures WrappingMul(state, FNV_PRIME) == 0xAF63_BD4C_8601_B7DF
  {
    assert state * FNV_PRIME == 0xcbf29ce5de * TWO_64 + 0xAF63_BD4C_8601_B7DF;
  }

  // ---------------------------------------------------------------- injectivity

  /** A multiplier with an inverse modulo 2^64 loses nothing. */
  lemma WrappingMulUndone(a: Word, c: nat, inverse: nat, k: nat)
    requires c * inverse == k * TWO_64 + 1
    ensures WrappingMul(WrappingMul(a, c), inverse) == a
  {
    var q, r := (a * c) / TWO_64, WrappingMul(a, c);
    assert r * inverse == a + (a * k - q * inverse) * TWO_64 by {
      assert a * c == q * TWO_64 + r;
      assert a * (c * inverse) == (q * TWO_64 + r) * inverse;
      assert a * (k * TWO_64 + 1) == q * TWO_64 * inverse + r * inverse;
    }
    ModOffset(r * inverse, a, a * k - q * inverse);
  }

  lemma ModOffset(n: nat, a: Word, m: int)
    requires n == a + m * TWO_64
    ensures n % TWO_64 == a
  {
  }

  lemma WrappingMulInjective(x: Word, y: Word, c: nat, inverse: nat, k: nat)
    requires c * inverse == k * TWO_64 + 1
    requires WrappingMul(x, c) == WrappingMul(y, c)
    ensures x == y
  {
    WrappingMulUndone(x, c, inverse, k);
    WrappingMulUndone(y, c, inverse, k);
  }

  /** The high bits of a folded word give back the word from the top down. */
  lemma {:induction false} FoldRecovers(x: Word, y: Word, k: nat, j: nat)
    requires 0 < k && j <= 64
    requires Fold(x, k) == Fold(y, k)
    ensures Shr(x, j) == Shr(y, j)
    decreases 64 - j
  {
    Power64();
    if j == 64 {
      ShrOut(x, 64, j);
      ShrOut(y, 64, j);
    } else {
      if j + k <= 64 {
        FoldRecovers(x, y, k, j + k);
      } else {
        ShrOut(x, 64, j + k);
        ShrOut(y, 64, j + k);
      }
      ShrXor(x, Shr(x, k), j);
      ShrXor(y, Shr(y, k), j);
      ShrShr(x, k, j);
      ShrShr(y, k, j);
      XorInjective(Shr(x, j + k), Shr(x, j), Shr(y, j));
    }
  }

  lemma FoldInjective(x: Word, y: Word, k: nat)
    requires 0 < k
    requires Fold(x, k) == Fold(y, k)
    ensures x == y
  {
    FoldRecovers(x, y, k, 0);
  }

  /** Different words stay different, so the finalizer permutes the 64-bit words. */
  lemma FinalizeDistinct(x: Word, y: Word)
    requires x != y
    ensures Finalize(x) != Finalize(y)
  {
    if Finalize(x) == Finalize(y) {
      FinalizeInjective(x, y);
    }
  }

  lemma FinalizeInjective(x: Word, y: Word)
    requires Finalize(x) == Finalize(y)
    ensures x == y
  {
    var x1, y1 := WrappingMul(Fold(x, 30), MIX_30), WrappingMul(Fold(y, 30), MIX_30);
    var x2, y2 := WrappingMul(Fold(x1, 27), MIX_27), WrappingMul(Fold(y1, 27), MIX_27);
    FoldInjective(x2, y2, 31);
    WrappingMulInjective(Fold(x1, 27), Fold(y1, 27), MIX_27, 0x3196_42B2_D24D_8EC3, 0x1CD3_36ED_A85F_1453);
    FoldInjective(x1, y1, 27);
    WrappingMulInjective(Fold(x, 30), Fold(y, 30), MIX_30, 0x96DE_1B17_3F11_9089, 0x70C3_BCA7_8F27_F46C);
    FoldInjective(x, y, 30);
  }

  /** From one state, different bytes lead to different states. */
  lemma FnvStepDistinct(state: Word, a: Byte, b: Byte)
    requires a != b
    ensures FnvStep(state, a) != FnvStep(state, b)
  {
    if FnvStep(state, a) == FnvStep(state, b) {
      FnvStepInjective(state, a, b);
    }
  }

  lemma FnvStepInjective(state: Word, a: Byte, b: Byte)
    requires FnvStep(state, a) == FnvStep(state, b)
    ensures a == b
  {
    Power64();
    XorBounded(state, a, 64);
    XorBounded(state, b, 64);
    WrappingMulInjective(Xor(state, a), Xor(state, b), FNV_PRIME, 0xCE96_5057_AFF6_957B, 0xCE_9650_590F);
    XorInjective(state, a, b);
  }

  // ---------------------------------------------------------------- virtual nodes

  function BigEndian32(n: nat): Bytes {
    [(n / 0x100_0000) % 256, (n / 0x1_0000) % 256, (n / 0x100) % 256, n % 256]
  }

  /** The ring point of a shard's virtual node; 0x23 is '#'. */
  function VirtualNodeHash(shard: Bytes, vnode: nat): Word {
    Hash(shard + [0x23] + BigEndian32(vnode))
  }

  lemma FnvSnoc(stem: Bytes, byte: Byte)
    ensures Fnv(stem + [byte]) == FnvStep(Fnv(stem), byte)
  {
    assert (stem + [byte])[..|stem|] == stem;
  }

  lemma SmallBigEndian(n: nat)
    requires n < VIRTUAL_NODES
    ensures BigEndian32(n) == [0, 0, 0] + [n]
  {
  }

  /** The key of a virtual node ends in a byte that is its number. */
  lemma VirtualNodeKey(shard: Bytes, vnode: nat) returns (stem: Bytes)
    requires vnode < VIRTUAL_NODES
    ensures stem == shard + [0x23] + [0, 0, 0]
    ensures VirtualNodeHash(shard, vnode) == Finalize(FnvStep(Fnv(stem), vnode))
  {
    stem := shard + [0x23] + [0, 0, 0];
    SmallBigEndian(vnode);
    assert shard + [0x23] + ([0, 0, 0] + [vnode]) == stem + [vnode];
    FnvSnoc(stem, vnode);
  }

  /** The virtual nodes of one shard land on distinct points. */
  lemma VirtualNodesDistinct(shard: Bytes, a: nat, b: nat)
    requires a < b < VIRTUAL_NODES
    ensures VirtualNodeHash(shard, a) != VirtualNodeHash(shard, b)
  {
    var stem := VirtualNodeKey(shard, a);
    var _ := VirtualNodeKey(shard, b);
    FnvStepDistinct(Fnv(stem), a, b);
    FinalizeDistinct(FnvStep(Fnv(stem), a), FnvStep(Fnv(stem), b));
  }
}
