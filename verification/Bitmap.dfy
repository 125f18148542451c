/** A bitmap of 64-bit words, as nxe_cedar_value_equals keeps one on its stack. */
module Bitmap {
  const WORD_BITS: nat := 64

  type Word = w: nat | w < 0x1_0000_0000_0000_0000

  /** w & (1 << j) */
  predicate HasBit(w: nat, j: nat) {
    if j == 0 then w % 2 == 1 else HasBit(w / 2, j - 1)
  }

  /** w | (1 << j) */
  function WithBit(w: nat, j: nat): nat {
    if j == 0 then (if w % 2 == 1 then w else w + 1) else 2 * WithBit(w / 2, j - 1) + w % 2
  }

  function Pow2(n: nat): nat {
    if n == 0 then 1 else 2 * Pow2(n - 1)
  }

  lemma {:induction false} WithBitHas(w: nat, j: nat, i: nat)
    ensures HasBit(WithBit(w, j), i) <==> i == j || HasBit(w, i)
    decreases j
  {
    if j > 0 && i > 0 {
      WithBitHas(w / 2, j - 1, i - 1);
    }
  }

  lemma {:induction false} WithBitFits(w: nat, j: nat, n: nat)
    requires w < Pow2(n) && j < n
    ensures WithBit(w, j) < Pow2(n)
    decreases n
  {
    hide *;
    Pow2Double(n - 1);
    WithBitUnfold(w, j);
    if j > 0 {
      Halved(w, Pow2(n - 1));
      WithBitFits(w / 2, j - 1, n - 1);
    }
  }

  lemma Pow2Double(n: nat)
    ensures Pow2(n + 1) == 2 * Pow2(n)
  {
  }

  lemma Halved(w: nat, p: nat)
    requires w < 2 * p
    ensures w / 2 < p
  {
  }

  lemma WithBitUnfold(w: nat, j: nat)
    ensures WithBit(w, j) == if j == 0 then w - w % 2 + 1 else 2 * WithBit(w / 2, j - 1) + w % 2
  {
  }

  lemma {:induction false} NoBits(j: nat)
    ensures !HasBit(0, j)
    decreases j
  {
    if j > 0 {
      NoBits(j - 1);
    }
  }

  lemma Pow2Of64()
    ensures Pow2(64) == 0x1_0000_0000_0000_0000
  {
    assert Pow2(8) == 256;
    assert Pow2(16) == 65536;
    assert Pow2(24) == 0x100_0000;
    assert Pow2(32) == 0x1_0000_0000;
    assert Pow2(40) == 0x100_0000_0000;
    assert Pow2(48) == 0x1_0000_0000_0000;
    assert Pow2(56) == 0x100_0000_0000_0000;
  }

  /** Whether bit j of the map is set. */
  predicate IsMarked(words: seq<Word>, j: nat)
    requires j < WORD_BITS * |words|
  {
    HasBit(words[j / WORD_BITS], j % WORD_BITS)
  }

  /** The marked positions. */
  ghost function Marks(words: seq<Word>): set<nat> {
    set j: nat | j < WORD_BITS * |words| && IsMarked(words, j)
  }

  lemma NoMarks(words: seq<Word>)
    requires forall i :: 0 <= i < |words| ==> words[i] == 0
    ensures Marks(words) == {}
  {
    forall j: nat | j < WORD_BITS * |words| ensures !IsMarked(words, j) {
      NoBits(j % WORD_BITS);
    }
  }

  /** matched[j >> 6] |= 1 << (j & 63) */
  method Mark(matched: array<Word>, j: nat)
    requires j < WORD_BITS * matched.Length
    modifies matched
    ensures Marks(matched[..]) == old(Marks(matched[..])) + {j}
  {
    ghost var was := matched[..];
    Pow2Of64();
    WithBitFits(matched[j / WORD_BITS], j % WORD_BITS, WORD_BITS);
    matched[j / WORD_BITS] := WithBit(matched[j / WORD_BITS], j % WORD_BITS);
    MarkAdds(was, j, matched[..]);
  }

  lemma MarkAdds(was: seq<Word>, j: nat, now: seq<Word>)
    requires j < WORD_BITS * |was| && |now| == |was| && now[j / WORD_BITS] == WithBit(was[j / WORD_BITS], j % WORD_BITS)
    requires forall i :: 0 <= i < |was| && i != j / WORD_BITS ==> now[i] == was[i]
    ensures Marks(now) == Marks(was) + {j}
  {
    hide HasBit, WithBit;
    forall i: nat | i < WORD_BITS * |was| ensures IsMarked(now, i) <==> i == j || IsMarked(was, i) {
      if i / WORD_BITS == j / WORD_BITS {
        WithBitHas(was[j / WORD_BITS], j % WORD_BITS, i % WORD_BITS);
      }
    }
  }
}
