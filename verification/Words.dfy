/** Single-bit operations on 64-bit words, on the word's value: `w & (1 << i)`, `w | (1 << i)` and `w & ~(1 << i)`. */
module Words {
  import opened Bytes

  function Pow2(n: nat): (r: nat)
    ensures r > 0
  {
    if n == 0 then 1 else 2 * Pow2(n - 1)
  }

  predicate HasBit(w: nat, i: nat) {
    if i == 0 then w % 2 == 1 else HasBit(w / 2, i - 1)
  }

  function WithBit(w: nat, i: nat): nat {
    if i == 0 then w - w % 2 + 1 else w % 2 + 2 * WithBit(w / 2, i - 1)
  }

  function WithoutBit(w: nat, i: nat): nat {
    if i == 0 then w - w % 2 else w % 2 + 2 * WithoutBit(w / 2, i - 1)
  }

  /** Setting a bit adds its weight unless it was set; clearing it takes the weight away if it was. */
  lemma {:induction false} BitWeight(w: nat, i: nat)
    ensures WithBit(w, i) == w + (if HasBit(w, i) then 0 else Pow2(i))
    ensures WithoutBit(w, i) == w - (if HasBit(w, i) then Pow2(i) else 0)
  {
    if i > 0 {
      BitWeight(w / 2, i - 1);
    }
  }

  lemma Halves(x: nat, b: nat)
    requires b < 2
    ensures (b + 2 * x) / 2 == x && (b + 2 * x) % 2 == b
  {
  }

  lemma {:induction false} SetOne(w: nat, i: nat, j: nat)
    ensures HasBit(WithBit(w, i), j) <==> i == j || HasBit(w, j)
  {
    if i > 0 {
      Halves(WithBit(w / 2, i - 1), w % 2);
      if j > 0 {
        SetOne(w / 2, i - 1, j - 1);
      }
    } else {
      Halves(w / 2, 1);
    }
  }

  lemma {:induction false} ClearOne(w: nat, i: nat, j: nat)
    ensures HasBit(WithoutBit(w, i), j) <==> i != j && HasBit(w, j)
  {
    if i > 0 {
      Halves(WithoutBit(w / 2, i - 1), w % 2);
      if j > 0 {
        ClearOne(w / 2, i - 1, j - 1);
      }
    } else {
      Halves(w / 2, 0);
    }
  }

  lemma {:induction false} NoBits(i: nat)
    ensures !HasBit(0, i)
  {
    if i > 0 {
      NoBits(i - 1);
    }
  }

  /** An operation on a low bit stays within the word. */
  lemma {:induction false} Fits(w: nat, i: nat, n: nat)
    requires i < n && w < Pow2(n)
    ensures WithBit(w, i) < Pow2(n) && WithoutBit(w, i) < Pow2(n)
  {
    if i > 0 {
      Fits(w / 2, i - 1, n - 1);
    } else {
      assert Pow2(n) == 2 * Pow2(n - 1);
    }
  }

  lemma Pow2More(n: nat)
    ensures Pow2(n + 4) == 16 * Pow2(n)
  {
    assert Pow2(n + 2) == 4 * Pow2(n);
    assert Pow2(n + 4) == 4 * Pow2(n + 2);
  }

  lemma Pow2More16(n: nat)
    ensures Pow2(n + 16) == 0x1_0000 * Pow2(n)
  {
    hide Pow2;
    Pow2More(n);
    Pow2More(n + 4);
    Pow2More(n + 8);
    Pow2More(n + 12);
  }

  lemma Pow64()
    ensures Pow2(64) == 0x1_0000_0000_0000_0000
  {
    assert Pow2(0) == 1;
    Pow2More16(0);
    Pow2More16(16);
    Pow2More16(32);
    Pow2More16(48);
  }

  /** `w | (1UL << i)`. */
  function SetIn(w: u64, i: nat): u64
    requires i < 64
  {
    FitsWord(w, i);
    WithBit(w, i)
  }

  /** `w & ~(1UL << i)`. */
  function ClearIn(w: u64, i: nat): u64
    requires i < 64
  {
    FitsWord(w, i);
    WithoutBit(w, i)
  }

  lemma FitsWord(w: u64, i: nat)
    requires i < 64
    ensures WithBit(w, i) < 0x1_0000_0000_0000_0000 && WithoutBit(w, i) < 0x1_0000_0000_0000_0000
  {
    hide WithBit, WithoutBit, Pow2;
    Pow64();
    Fits(w, i, 64);
  }
}
