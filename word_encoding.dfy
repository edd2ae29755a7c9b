/** `wordToFields` of the zk utilities: a word of exactly five characters
    becomes the five field elements holding its character codes. */
module WordEncoding {
  import opened Common

  /** Every word handled by the game has this many characters. */
  const WORD_LENGTH: nat := 5

  /** The field element holding a character code. */
  function CharCode(c: CodeUnit): Field
  {
    c as Field
  }

  /** Rejects a word whose length is not five; otherwise maps each code unit,
      in order, to its character code. */
  function WordToFields(word: seq<CodeUnit>): (r: Result<seq<Field>>)
    ensures r.Failure? <==> |word| != WORD_LENGTH
    ensures r.Failure? ==> r.error == InvalidLength
    ensures r.Success? ==> |r.value| == WORD_LENGTH
    ensures r.Success? ==> forall i :: 0 <= i < |word| ==> r.value[i] == word[i] as Field
  {
    if |word| != WORD_LENGTH then Failure(InvalidLength)
    else Success(seq(WORD_LENGTH, i requires 0 <= i < WORD_LENGTH => CharCode(word[i])))
  }

  /** Every field element produced is a code unit, below 2^16. */
  lemma WordToFieldsBounded(word: seq<CodeUnit>)
    requires |word| == WORD_LENGTH
    ensures WordToFields(word).Success?
    ensures forall i :: 0 <= i < WORD_LENGTH ==> WordToFields(word).value[i] < 0x1_0000
  {
  }

  /** Distinct five-character words yield distinct field sequences, so the
      encoding loses nothing the commitment or the dictionary check needs. */
  lemma WordToFieldsInjective(a: seq<CodeUnit>, b: seq<CodeUnit>)
    requires WordToFields(a).Success? && WordToFields(a) == WordToFields(b)
    ensures a == b
  {
    var fa := WordToFields(a).value;
    assert |b| == |a|;
    forall i | 0 <= i < |a|
      ensures a[i] == b[i]
    {
      assert fa[i] == a[i] as Field && fa[i] == b[i] as Field;
    }
  }
}
