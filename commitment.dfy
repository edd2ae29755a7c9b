/** The commitment scheme of `commitment.ts`: the host's word, as character
    codes, followed by a salt, hashed with Poseidon. The salt, which the
    source draws with `Field.random()`, is a parameter here. */
module Commitment {
  import opened Common
  import WordEncoding

  /** What `createCommitment` hands back to the host. */
  datatype Commitment = Commitment(commitment: Field, salt: Field)

  /** `computeCommitment`: the hash of the letters followed by the salt. */
  function ComputeCommitment(hash: seq<Field> -> Field, letters: seq<Field>, salt: Field): Field
  {
    hash(letters + [salt])
  }

  /** This file's own `wordToFields`: one character code per code unit, in
      order, with no length check (unlike `WordEncoding.WordToFields`). */
  function WordToFields(word: seq<CodeUnit>): (r: seq<Field>)
    ensures |r| == |word|
    ensures forall i :: 0 <= i < |word| ==> r[i] == word[i] as Field
  {
    seq(|word|, i requires 0 <= i < |word| => WordEncoding.CharCode(word[i]))
  }

  /** `verifyCommitment`: recompute and compare. The source compares the two
      field objects with `===`, which in JavaScript is reference identity and
      would be false for two separately computed equal values; the model
      compares the values, which is what the comparison evidently means. */
  function VerifyCommitment(hash: seq<Field> -> Field, letters: seq<Field>, salt: Field, commitment: Field): bool
  {
    ComputeCommitment(hash, letters, salt) == commitment
  }

  /** `createCommitment`, given the salt: returns the salt it hashed and a
      commitment that this word and salt open. */
  function CreateCommitment(hash: seq<Field> -> Field, word: seq<CodeUnit>, salt: Field): (c: Commitment)
    ensures c.salt == salt
    ensures VerifyCommitment(hash, WordToFields(word), salt, c.commitment)
  {
    Commitment(ComputeCommitment(hash, WordToFields(word), salt), salt)
  }

  /** For a five-letter word the hashed list has six elements: the five
      character codes, then the salt. */
  lemma CommitmentInput(hash: seq<Field> -> Field, word: seq<CodeUnit>, salt: Field)
    requires |word| == WordEncoding.WORD_LENGTH
    ensures var input := WordToFields(word) + [salt];
            && CreateCommitment(hash, word, salt).commitment == hash(input)
            && |input| == 6
            && input[5] == salt
            && forall i :: 0 <= i < 5 ==> input[i] == word[i] as Field
  {
  }

  /** On a five-letter word the two encoders agree, so commitments and the
      zk programs see the same field elements. */
  lemma {:induction false} EncodersAgree(word: seq<CodeUnit>)
    requires |word| == WordEncoding.WORD_LENGTH
    ensures WordEncoding.WordToFields(word) == Success(WordToFields(word))
  {
    assert WordEncoding.WordToFields(word).value == WordToFields(word);
  }

  /** A hashed list determines its letters and its salt. */
  lemma {:induction false} AppendSaltInjective(l1: seq<Field>, s1: Field, l2: seq<Field>, s2: Field)
    requires l1 + [s1] == l2 + [s2]
    ensures l1 == l2 && s1 == s2
  {
    var n := |l1|;
    assert |l2| == n;
    assert s1 == (l1 + [s1])[n] == (l2 + [s2])[n] == s2;
    assert l1 == (l1 + [s1])[..n] == (l2 + [s2])[..n] == l2;
  }

  /** Binding: if the hash is collision-free, a commitment opens with exactly
      the letters and salt it was computed from. */
  lemma Binding(hash: seq<Field> -> Field, l1: seq<Field>, s1: Field, l2: seq<Field>, s2: Field)
    requires Injective(hash)
    ensures VerifyCommitment(hash, l2, s2, ComputeCommitment(hash, l1, s1)) <==> l1 == l2 && s1 == s2
  {
    if VerifyCommitment(hash, l2, s2, ComputeCommitment(hash, l1, s1)) {
      assert hash(l1 + [s1]) == hash(l2 + [s2]);
      AppendSaltInjective(l1, s1, l2, s2);
    }
  }

  /** The same word committed with two different salts gives two different
      commitments (for a collision-free hash). */
  lemma DifferentSaltsDiffer(hash: seq<Field> -> Field, word: seq<CodeUnit>, s1: Field, s2: Field)
    requires Injective(hash) && s1 != s2
    ensures CreateCommitment(hash, word, s1).commitment != CreateCommitment(hash, word, s2).commitment
  {
    Binding(hash, WordToFields(word), s1, WordToFields(word), s2);
  }

  /** Two different five-letter words never share a commitment, whatever the
      salts (for a collision-free hash): the host cannot open a commitment
      with another word. */
  lemma DifferentWordsDiffer(hash: seq<Field> -> Field, w1: seq<CodeUnit>, s1: Field, w2: seq<CodeUnit>, s2: Field)
    requires Injective(hash) && |w1| == |w2| == WordEncoding.WORD_LENGTH && w1 != w2
    ensures CreateCommitment(hash, w1, s1).commitment != CreateCommitment(hash, w2, s2).commitment
  {
    Binding(hash, WordToFields(w1), s1, WordToFields(w2), s2);
    if WordToFields(w1) == WordToFields(w2) {
      EncodersAgree(w1);
      EncodersAgree(w2);
      WordEncoding.WordToFieldsInjective(w1, w2);
    }
  }
}
