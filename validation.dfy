/** The dictionary check of `ValidationProgram.ts`: `validateWord` hashes the
    five word fields into a leaf, folds it up through MERKLE_HEIGHT witness
    siblings, bit i of the index (least significant first) deciding at level
    i whether the running hash is the left or the right child, and asserts
    that the result is the root the caller supplied. A failed assertion makes
    proof generation fail; the model returns whether it holds. */
module Validation {
  import opened Common
  import WordEncoding

  /** The dictionary root the source exports. `validateWord` does not use
      it: it checks against the caller's `expectedRoot`. */
  const MERKLE_ROOT: Field := 11393797897944516075956890799181412499514568812700348680637030886791521329896

  /** Number of witness siblings, one per level. */
  const MERKLE_HEIGHT: nat := 15

  function Pow2(k: nat): (p: nat)
    ensures p >= 1
  {
    if k == 0 then 1 else 2 * Pow2(k - 1)
  }

  /** Bit i of n, least significant first, as `toBits()[i]` gives it. */
  predicate Bit(n: nat, i: nat)
  {
    if i == 0 then n % 2 == 1 else Bit(n / 2, i - 1)
  }

  /** One level of the fold: bit set means the sibling is the left child. */
  function Level(hash: seq<Field> -> Field, current: Field, sibling: Field, bit: bool): Field
  {
    if bit then hash([sibling, current]) else hash([current, sibling])
  }

  /** The running hash after the first k levels, starting from the leaf. */
  function Fold(hash: seq<Field> -> Field, leaf: Field, siblings: seq<Field>, index: nat, k: nat): Field
    requires k <= |siblings|
  {
    if k == 0 then leaf
    else Level(hash, Fold(hash, leaf, siblings, index, k - 1), siblings[k - 1], Bit(index, k - 1))
  }

  /** `validateWord`: true exactly when the leaf hash of the word, folded
      through the siblings along the index's bits, is the expected root. */
  method ValidateWord(hash: seq<Field> -> Field, word: seq<Field>, expectedRoot: Field,
                      index: Field, siblings: seq<Field>) returns (ok: bool)
    requires |word| == WordEncoding.WORD_LENGTH && |siblings| == MERKLE_HEIGHT
    ensures ok <==> Fold(hash, hash(word), siblings, index, MERKLE_HEIGHT) == expectedRoot
  {
    var wordHash := hash(word);
    var currentHash := wordHash;
    for i := 0 to MERKLE_HEIGHT
      invariant currentHash == Fold(hash, wordHash, siblings, index, i)
    {
      var sibling := siblings[i];
      var bit := Bit(index, i);
      currentHash := if bit then hash([sibling, currentHash]) else hash([currentHash, sibling]);
    }
    ok := currentHash == expectedRoot;
  }

  // ---------------------------------------------------------------------
  // Which bits of the index matter

  /** Adding a multiple of 2^k leaves the k lowest bits unchanged. */
  lemma {:induction false} BitShift(n: nat, m: nat, t: nat, k: nat, i: nat)
    requires i < k && m == n + Pow2(k) * t
    ensures Bit(m, i) == Bit(n, i)
  {
    var y := Pow2(k - 1) * t;
    assert Pow2(k) * t == 2 * y;
    assert m % 2 == n % 2 && m / 2 == n / 2 + Pow2(k - 1) * t;
    if i > 0 {
      BitShift(n / 2, m / 2, t, k - 1, i - 1);
    }
  }

  /** n and n + 2^k agree on the k lowest bits. */
  lemma SameLowBits(n: nat, m: nat, k: nat)
    requires m == n + Pow2(k)
    ensures forall i :: 0 <= i < k ==> Bit(m, i) == Bit(n, i)
  {
    forall i | 0 <= i < k
      ensures Bit(m, i) == Bit(n, i)
    {
      BitShift(n, m, 1, k, i);
    }
  }

  /** Folds over k levels with indices that agree on the k lowest bits agree. */
  lemma {:induction false} FoldSameBits(hash: seq<Field> -> Field, leaf: Field, siblings: seq<Field>,
                                        i1: nat, i2: nat, k: nat)
    requires k <= |siblings|
    requires forall i :: 0 <= i < k ==> Bit(i1, i) == Bit(i2, i)
    ensures Fold(hash, leaf, siblings, i1, k) == Fold(hash, leaf, siblings, i2, k)
  {
    if k > 0 {
      FoldSameBits(hash, leaf, siblings, i1, i2, k - 1);
    }
  }

  /** Two numbers with the same remainder modulo p, written as that
      remainder plus multiples of p. */
  lemma SplitCongruent(n1: nat, n2: nat, p: nat) returns (r: nat, q1: nat, q2: nat)
    requires p > 0 && n1 % p == n2 % p
    ensures n1 == r + p * q1 && n2 == r + p * q2
  {
    r, q1, q2 := n1 % p, n1 / p, n2 / p;
  }

  /** Indices congruent modulo 2^k give the same fold over k levels. */
  lemma {:induction false} FoldCongruent(hash: seq<Field> -> Field, leaf: Field, siblings: seq<Field>, i1: nat, i2: nat, k: nat)
    requires k <= |siblings| && i1 % Pow2(k) == i2 % Pow2(k)
    ensures Fold(hash, leaf, siblings, i1, k) == Fold(hash, leaf, siblings, i2, k)
  {
    var r, q1, q2 := SplitCongruent(i1, i2, Pow2(k));
    forall i | 0 <= i < k
      ensures Bit(i1, i) == Bit(i2, i)
    {
      BitShift(r, i1, q1, k, i);
      BitShift(r, i2, q2, k, i);
    }
    FoldSameBits(hash, leaf, siblings, i1, i2, k);
  }

  /** Only the 15 low bits of the index affect the fold: indices congruent
      modulo 2^15 give the same hash. */
  lemma FoldLowBits(hash: seq<Field> -> Field, leaf: Field, siblings: seq<Field>, i1: nat, i2: nat)
    requires |siblings| == MERKLE_HEIGHT && i1 % 0x8000 == i2 % 0x8000
    ensures Fold(hash, leaf, siblings, i1, MERKLE_HEIGHT) == Fold(hash, leaf, siblings, i2, MERKLE_HEIGHT)
  {
    assert Pow2(MERKLE_HEIGHT) == 0x8000;
    FoldCongruent(hash, leaf, siblings, i1, i2, MERKLE_HEIGHT);
  }

  // ---------------------------------------------------------------------
  // Soundness: a collision-free hash pins down the leaf and the siblings

  lemma LevelInjective(hash: seq<Field> -> Field, c1: Field, s1: Field, c2: Field, s2: Field, bit: bool)
    requires Injective(hash) && Level(hash, c1, s1, bit) == Level(hash, c2, s2, bit)
    ensures c1 == c2 && s1 == s2
  {
    if bit {
      assert [s1, c1] == [s2, c2];
      assert [s1, c1][0] == s1 && [s1, c1][1] == c1;
    } else {
      assert [c1, s1] == [c2, s2];
      assert [c1, s1][0] == c1 && [c1, s1][1] == s1;
    }
  }

  /** Equal folds along the same index come from the same leaf and the same
      siblings: corrupting any sibling changes the result. */
  lemma {:induction false} FoldBinding(hash: seq<Field> -> Field, l1: Field, w1: seq<Field>,
                                       l2: Field, w2: seq<Field>, index: nat, k: nat)
    requires Injective(hash) && k <= |w1| && k <= |w2|
    requires Fold(hash, l1, w1, index, k) == Fold(hash, l2, w2, index, k)
    ensures l1 == l2 && w1[..k] == w2[..k]
  {
    if k > 0 {
      LevelInjective(hash, Fold(hash, l1, w1, index, k - 1), w1[k - 1],
                     Fold(hash, l2, w2, index, k - 1), w2[k - 1], Bit(index, k - 1));
      FoldBinding(hash, l1, w1, l2, w2, index, k - 1);
      assert w1[..k] == w1[..k - 1] + [w1[k - 1]];
      assert w2[..k] == w2[..k - 1] + [w2[k - 1]];
    }
  }

  /** With a collision-free hash, one index, siblings and root accept at most
      one word. */
  lemma OneWordPerWitness(hash: seq<Field> -> Field, word1: seq<Field>, word2: seq<Field>,
                          expectedRoot: Field, index: nat, siblings: seq<Field>)
    requires Injective(hash) && |siblings| == MERKLE_HEIGHT
    requires Fold(hash, hash(word1), siblings, index, MERKLE_HEIGHT) == expectedRoot
    requires Fold(hash, hash(word2), siblings, index, MERKLE_HEIGHT) == expectedRoot
    ensures word1 == word2
  {
    FoldBinding(hash, hash(word1), siblings, hash(word2), siblings, index, MERKLE_HEIGHT);
  }

  // ---------------------------------------------------------------------
  // Completeness against a reference tree

  /** Root of the complete binary tree over 2^h leaves, each inner node the
      hash of its left and right children. */
  function TreeRoot(hash: seq<Field> -> Field, leaves: seq<Field>, h: nat): Field
    requires |leaves| == Pow2(h)
  {
    if h == 0 then leaves[0]
    else
      var half := Pow2(h - 1);
      hash([TreeRoot(hash, leaves[..half], h - 1), TreeRoot(hash, leaves[half..], h - 1)])
  }

  /** Siblings of leaf `index` from the bottom level up. */
  function TreeWitness(hash: seq<Field> -> Field, leaves: seq<Field>, h: nat, index: nat): (w: seq<Field>)
    requires |leaves| == Pow2(h) && index < Pow2(h)
    ensures |w| == h
  {
    if h == 0 then []
    else
      var half := Pow2(h - 1);
      if index < half then TreeWitness(hash, leaves[..half], h - 1, index) + [TreeRoot(hash, leaves[half..], h - 1)]
      else TreeWitness(hash, leaves[half..], h - 1, index - half) + [TreeRoot(hash, leaves[..half], h - 1)]
  }

  /** The fold reads only the first k siblings. */
  lemma {:induction false} FoldPrefix(hash: seq<Field> -> Field, leaf: Field, w: seq<Field>, extra: seq<Field>,
                                      index: nat, k: nat)
    requires k <= |w|
    ensures Fold(hash, leaf, w + extra, index, k) == Fold(hash, leaf, w, index, k)
  {
    if k > 0 {
      FoldPrefix(hash, leaf, w, extra, index, k - 1);
      assert (w + extra)[k - 1] == w[k - 1];
    }
  }

  /** The top bit of an index below 2^h tells which half it lies in. */
  lemma {:induction false} TopBit(index: nat, h: nat)
    requires 0 < h && index < Pow2(h)
    ensures Bit(index, h - 1) <==> index >= Pow2(h - 1)
  {
    if h > 1 {
      TopBit(index / 2, h - 1);
    }
  }

  /** Completeness: the leaf at `index`, folded through that leaf's siblings,
      reproduces the tree root. */
  lemma {:induction false} FoldTreeWitness(hash: seq<Field> -> Field, leaves: seq<Field>, h: nat, index: nat)
    requires |leaves| == Pow2(h) && index < Pow2(h)
    ensures Fold(hash, leaves[index], TreeWitness(hash, leaves, h, index), index, h) == TreeRoot(hash, leaves, h)
    decreases h, 1
  {
    if h > 0 {
      var half := Pow2(h - 1);
      TopBit(index, h);
      if index < half {
        FoldTreeWitnessLeft(hash, leaves, h, index);
      } else {
        FoldTreeWitnessRight(hash, leaves, h, index);
      }
    }
  }

  /** Inductive step for a leaf in the left half. */
  lemma {:induction false} FoldTreeWitnessLeft(hash: seq<Field> -> Field, leaves: seq<Field>, h: nat, index: nat)
    requires 0 < h && |leaves| == Pow2(h) && index < Pow2(h - 1)
    requires !Bit(index, h - 1)
    ensures Fold(hash, leaves[index], TreeWitness(hash, leaves, h, index), index, h) == TreeRoot(hash, leaves, h)
    decreases h, 0
  {
    var half := Pow2(h - 1);
    var left, right := leaves[..half], leaves[half..];
    var leaf := leaves[index];
    var sub := TreeWitness(hash, left, h - 1, index);
    var top := TreeRoot(hash, right, h - 1);
    var w := TreeWitness(hash, leaves, h, index);
    assert w == sub + [top];
    assert left[index] == leaf;
    FoldTreeWitness(hash, left, h - 1, index);
    FoldPrefix(hash, leaf, sub, [top], index, h - 1);
    assert Fold(hash, leaf, w, index, h) == hash([Fold(hash, leaf, sub, index, h - 1), top]);
  }

  /** Inductive step for a leaf in the right half. */
  lemma {:induction false} FoldTreeWitnessRight(hash: seq<Field> -> Field, leaves: seq<Field>, h: nat, index: nat)
    requires 0 < h && |leaves| == Pow2(h) && Pow2(h - 1) <= index < Pow2(h)
    requires Bit(index, h - 1)
    ensures Fold(hash, leaves[index], TreeWitness(hash, leaves, h, index), index, h) == TreeRoot(hash, leaves, h)
    decreases h, 0
  {
    var half := Pow2(h - 1);
    var left, right := leaves[..half], leaves[half..];
    var j := index - half;
    var leaf := leaves[index];
    var sub := TreeWitness(hash, right, h - 1, j);
    var top := TreeRoot(hash, left, h - 1);
    var w := TreeWitness(hash, leaves, h, index);
    assert w == sub + [top];
    assert right[j] == leaf;
    FoldTreeWitness(hash, right, h - 1, j);
    FoldPrefix(hash, leaf, sub, [top], index, h - 1);
    SameLowBits(j, index, h - 1);
    FoldSameBits(hash, leaf, sub, index, j, h - 1);
    assert Fold(hash, leaf, w, index, h) == hash([top, Fold(hash, leaf, sub, index, h - 1)]);
  }

  /** A dictionary word, hashed into the leaf at its position of a tree of
      height MERKLE_HEIGHT, is accepted with its own siblings against that
      tree's root. */
  lemma DictionaryWordAccepted(hash: seq<Field> -> Field, words: seq<seq<Field>>, index: nat)
    requires |words| == Pow2(MERKLE_HEIGHT) && index < |words|
    ensures var leaves := seq(|words|, i requires 0 <= i < |words| => hash(words[i]));
            Fold(hash, hash(words[index]), TreeWitness(hash, leaves, MERKLE_HEIGHT, index), index, MERKLE_HEIGHT)
            == TreeRoot(hash, leaves, MERKLE_HEIGHT)
  {
    var leaves := seq(|words|, i requires 0 <= i < |words| => hash(words[i]));
    FoldTreeWitness(hash, leaves, MERKLE_HEIGHT, index);
  }
}
