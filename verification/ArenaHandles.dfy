module ArenaHandles {
  // The arithmetic of 32-bit arena handles (base/arena.cc).
  //
  // A handle is ((block_index << block_size_bits) + offset) >> handle_alignment_bits.

  const INVALID_HANDLE := 0xFFFF_FFFF

  /** 1 << n. */
  function Pow2(n: nat): (p: nat)
    ensures p >= 1
  {
    if n == 0 then 1 else 2 * Pow2(n - 1)
  }

  predicate IsPowerOfTwo(n: nat) {
    n == 1 || (n > 1 && n % 2 == 0 && IsPowerOfTwo(n / 2))
  }

  lemma {:induction false} Pow2Splits(a: nat, b: nat)
    ensures Pow2(a + b) == Mul(Pow2(a), Pow2(b))
  {
    if a > 0 {
      Pow2Splits(a - 1, b);
      assert Pow2(a + b) == 2 * Pow2((a - 1) + b);
      MulDistributes(Pow2(a - 1), Pow2(a - 1), Pow2(b));
    }
  }

  lemma {:induction false} Pow2Monotonic(a: nat, b: nat)
    requires a <= b
    ensures Pow2(a) <= Pow2(b)
  {
    if a < b {
      Pow2Monotonic(a, b - 1);
    }
  }

  lemma {:induction false} PowerOfTwoHasLog(n: nat, bits: nat)
    requires IsPowerOfTwo(n) && Pow2(bits) < n
    ensures Pow2(bits + 1) <= n
  {
    if n > 1 && bits > 0 {
      PowerOfTwoHasLog(n / 2, bits - 1);
    }
  }

  function Mul(a: nat, b: nat): nat {
    a * b
  }

  function Div(x: nat, m: nat): nat
    requires m > 0
  {
    x / m
  }

  function Mod(x: nat, m: nat): nat
    requires m > 0
  {
    x % m
  }

  lemma MulMonotonic(a: nat, b: nat, m: nat)
    requires a <= b
    ensures Mul(a, m) <= Mul(b, m)
  {
    assert Mul(b, m) == Mul(a, m) + (b - a) * m;
  }

  lemma DivModIdentity(x: nat, m: nat)
    requires m > 0
    ensures x == Mul(Div(x, m), m) + Mod(x, m) && Mod(x, m) < m
  {
  }

  lemma DivModUnique(x: nat, m: nat, q: nat, r: nat)
    requires r < m && x == Mul(q, m) + r
    ensures Div(x, m) == q && Mod(x, m) == r
  {
    var d := Div(x, m);
    DivModIdentity(x, m);
    if d < q {
      MulMonotonic(d + 1, q, m);
    } else if q < d {
      MulMonotonic(q + 1, d, m);
    }
  }

  function Encode(blockIndex: nat, offset: nat, blockBits: nat, alignBits: nat): nat {
    Div(Mul(blockIndex, Pow2(blockBits)) + offset, Pow2(alignBits))
  }

  function DecodeBlock(handle: nat, blockBits: nat, alignBits: nat): nat {
    Div(Mul(handle, Pow2(alignBits)), Pow2(blockBits))
  }

  function DecodeOffset(handle: nat, blockBits: nat, alignBits: nat): nat {
    Mod(Mul(handle, Pow2(alignBits)), Pow2(blockBits))
  }

  lemma MulAssociates(k: nat, a: nat, c: nat)
    ensures Mul(k, Mul(a, c)) == Mul(Mul(k, c), a)
  {
    assert k * (a * c) == (k * c) * a;
  }

  lemma MulDistributes(x: nat, y: nat, m: nat)
    ensures Mul(x + y, m) == Mul(x, m) + Mul(y, m)
  {
  }

  /** Decoding gives back the block, and the offset rounded down to the alignment. */
  lemma DecodeUndoesEncode(k: nat, off: nat, blockBits: nat, alignBits: nat)
    requires alignBits <= blockBits && off < Pow2(blockBits)
    ensures var h := Encode(k, off, blockBits, alignBits);
      && DecodeBlock(h, blockBits, alignBits) == k
      && DecodeOffset(h, blockBits, alignBits) == off - Mod(off, Pow2(alignBits))
  {
    var unit, block, ratio := Pow2(alignBits), Pow2(blockBits), Pow2(blockBits - alignBits);
    Pow2Splits(alignBits, blockBits - alignBits);
    var scaled, q, r := Mul(k, ratio), Div(off, unit), Mod(off, unit);
    DivModIdentity(off, unit);
    assert Mul(k, block) == Mul(scaled, unit) by {
      MulAssociates(k, unit, ratio);
    }
    MulDistributes(scaled, q, unit);
    DivModUnique(Mul(k, block) + off, unit, scaled + q, r);
    DivModUnique(Mul(k, block) + (off - r), block, k, off - r);
  }

  /** The block index of a valid handle fits in an int, as HandleToPointer's cast assumes. */
  lemma BlockIndexFitsInt(h: nat, blockBits: nat, alignBits: nat)
    requires h < INVALID_HANDLE && blockBits >= 4 && alignBits <= 3
    ensures DecodeBlock(h, blockBits, alignBits) < 0x8000_0000
  {
    Pow2Monotonic(4, blockBits);
    Pow2Monotonic(alignBits, 3);
    assert Pow2(4) == 16 && Pow2(3) == 8 by {
      assert Pow2(1) == 2 && Pow2(2) == 4;
    }
    var unit, block, k := Pow2(alignBits), Pow2(blockBits), DecodeBlock(h, blockBits, alignBits);
    DivModIdentity(Mul(h, unit), block);
    MulMonotonic(unit, 8, h);
    MulMonotonic(16, block, k);
    assert Mul(16, k) <= Mul(8, h);
  }

  /** Two places that are aligned in their blocks never share a handle. */
  lemma EncodeIsInjective(k: nat, off: nat, k': nat, off': nat, blockBits: nat, alignBits: nat)
    requires alignBits <= blockBits && off < Pow2(blockBits) && off' < Pow2(blockBits)
    requires Mod(off, Pow2(alignBits)) == 0 && Mod(off', Pow2(alignBits)) == 0
    requires Encode(k, off, blockBits, alignBits) == Encode(k', off', blockBits, alignBits)
    ensures k == k' && off == off'
  {
    DecodeUndoesEncode(k, off, blockBits, alignBits);
    DecodeUndoesEncode(k', off', blockBits, alignBits);
  }
}
