# zk-wordle: the algorithm layer, in Dafny

This project models the algorithm layer of a zero-knowledge Wordle game. A
host commits to a secret five-letter word. The guesser gets per-letter
feedback on each guess, and a word can be shown to belong to a dictionary
through a Merkle inclusion proof. Four pieces are modelled, one module each,
with shared definitions in `Common`:

- `WordEncoding` (`word_encoding.dfy`): `wordToFields` of the zk utilities.
  A word must have exactly five characters and becomes their five character
  codes. A word is a sequence of UTF-16 code units, which is what a
  JavaScript string is made of.
- `FeedbackScore` (`feedback_score.dfy`): `computeFeedbackFields` and
  `computeFeedback`, the two-pass scorer with its `used` marks. The scorer
  is a method over two arrays with the source's three loops. It is proved
  equal to `Score`, a function built from the same steps (`GreenPass`,
  `YellowStep`, `YellowRow`, `YellowPass`). The properties are proved about
  `Score` from an invariant, `Inv`, that both passes keep.
- `FeedbackCodec` (`feedback_codec.dfy`): `encodeFeedback` and
  `decodeFeedback`, the five-digit base-3 packing (the first entry is the
  least significant digit). Both are loop methods, proved equal to the
  functions `Encode` and `Decode`.
- `Commitment` (`commitment.dfy`): `computeCommitment`, the file's own
  `wordToFields`, `verifyCommitment` and `createCommitment`.
- `Validation` (`validation.dfy`): `validateWord` and `MERKLE_HEIGHT`. The
  method hashes the word into a leaf, folds it through 15 witness siblings
  with bit i of the index choosing the order, and compares the result with
  the caller's `expectedRoot`. It is proved against the recursive `Fold`.
  `TreeRoot` and `TreeWitness` define a complete binary tree over hashed
  words. They serve as a reference for checking that the fold is both
  complete and sound.

Poseidon is an uninterpreted function. Every operation that hashes takes it
as a parameter `hash: seq<Field> -> Field`. A pair is hashed as
`hash([left, right])`, just as the source calls `Poseidon.hash` on a
two-element list. Where a property needs collision resistance, the lemma
states it as the hypothesis `Injective(hash)`. A field element is a `nat`.

`FeedbackType`'s enumeration is not part of this model. The encoder treats
its values as base-3 digits, so the model assumes that GRAY, YELLOW and
GREEN are 0, 1 and 2. The proofs use only the fact that these are three
distinct values below 3.

## Scoring as written

The game's design describes the classic scoring rule: exact matches first,
then each remaining guess letter takes at most one unused occurrence, with
exact positions skipped. The code differs from that rule in two ways, and
the model follows the code:

- The second pass does not skip GREEN positions. When the word holds a
  second, unused copy of an exactly matched letter, the GREEN entry is
  overwritten with YELLOW. `GreenCanBecomeYellow` proves this for guess
  "axxxx" against "aabcd": position 0 ends YELLOW.
- The inner loop has no `break`. One guess position consumes every unused
  matching slot. `OnePositionConsumesSeveral` proves this for guess "bxxxb"
  against "abbcd": position 0 takes both b's and position 4 ends GRAY.

So the model proves "GREEN implies an exact match", and "an exact match
implies not GRAY", but not "an exact match implies GREEN". The repository's
own test vectors hold for the code as written (`HelloHills`, `HelloCello`,
`ScoreSameWordAllGreen`). So does the repeated-letter example "ohlle" /
"hello" (`OhlleHello`).

## Model

| member | source | states |
|---|---|---|
| WordEncoding.WordToFields | packages/core/zk/src/utils/utils.js:5-9 | fails with InvalidLength exactly when the length is not 5; otherwise returns 5 fields, field i being the code of character i |
| WordEncoding.WordToFieldsBounded | packages/core/zk/src/utils/utils.js:8 | every field of a 5-character word is a UTF-16 code unit, below 2^16 |
| WordEncoding.WordToFieldsInjective | packages/core/zk/src/utils/utils.js:8 | distinct 5-character words give distinct field sequences |
| FeedbackScore.ComputeFeedbackFields | packages/core/zk/src/utils/feedback.ts:5-38 | the two arrays and three loops compute exactly `Score`, the green pass then the nested yellow pass |
| FeedbackScore.ComputeFeedback | packages/core/zk/src/utils/feedback.ts:40-44 | fails with InvalidLength iff either word is not 5 characters; otherwise scores the two encoded words |
| FeedbackScore.GreenPassInv | packages/core/zk/src/utils/feedback.ts:9-19 | after the first pass, exact matches are GREEN and used, all else GRAY, and the invariant holds |
| FeedbackScore.YellowStepInv | packages/core/zk/src/utils/feedback.ts:24-33 | one (i, j) step, which writes YELLOW and consumes only an unused slot holding guess letter i, keeps the invariant |
| FeedbackScore.YellowPassInv | packages/core/zk/src/utils/feedback.ts:22-35 | the whole nested second pass keeps the invariant |
| FeedbackScore.ScoreShape | packages/core/zk/src/utils/feedback.ts:9-37 | the result has 5 entries, each GRAY, YELLOW or GREEN |
| FeedbackScore.ScoreGreenOnlyIfExact | packages/core/zk/src/utils/feedback.ts:15-33 | an entry is GREEN only if the guess letter equals the actual letter at that position |
| FeedbackScore.ScoreYellowOnlyIfPresent | packages/core/zk/src/utils/feedback.ts:22-33 | an entry is YELLOW only if the actual word holds that letter at a slot that is not an exact match, so the first pass left it unused |
| FeedbackScore.ScoreAbsentIsGray | packages/core/zk/src/utils/feedback.ts:9-35 | a guess letter that occurs nowhere in the actual word stays GRAY |
| FeedbackScore.ScoreExactNotGray | packages/core/zk/src/utils/feedback.ts:15-33 | an exact match is never GRAY |
| FeedbackScore.ScoreRespectsMultiplicity | packages/core/zk/src/utils/feedback.ts:12-33 | the guess letters at non-GRAY positions form a sub-multiset of the actual letters, so no slot is credited twice |
| FeedbackScore.ScoreSameWordAllGreen | packages/core/zk/src/FeedbackProgram.test.ts:44-56 | a guess equal to the actual word scores all GREEN |
| FeedbackScore.HelloHills | packages/core/zk/src/FeedbackProgram.test.ts:64-82 | "hills" against "hello" gives GREEN, GRAY, GREEN, GREEN, GRAY |
| FeedbackScore.HelloCello | packages/core/zk/src/FeedbackProgram.test.ts:84-103 | "cello" against "hello" gives GRAY, GREEN, GREEN, GREEN, GREEN |
| FeedbackScore.OhlleHello | packages/core/zk/src/utils/feedback.ts:14-35 | "hello" against "ohlle" gives YELLOW, YELLOW, GREEN, GREEN, YELLOW (repeated letters) |
| FeedbackScore.GreenCanBecomeYellow | packages/core/zk/src/utils/feedback.ts:22-33 | the second pass overwrites an exact match with YELLOW for "axxxx" against "aabcd" |
| FeedbackScore.OnePositionConsumesSeveral | packages/core/zk/src/utils/feedback.ts:23-33 | with no break, guess position 0 of "bxxxb" consumes both b slots of "abbcd" and position 4 ends GRAY |
| FeedbackCodec.Encode | packages/core/zk/src/utils/feedback.ts:46-52 | a digit sequence of length k denotes a number below 3^k |
| FeedbackCodec.Decode | packages/core/zk/src/utils/feedback.ts:54-62 | decoding yields exactly k digits, each in {0,1,2} |
| FeedbackCodec.EncodeFeedback | packages/core/zk/src/utils/feedback.ts:46-52 | the accumulation loop computes `Encode` of the first 5 entries, which lies in 0..242 for digit entries |
| FeedbackCodec.DecodeFeedback | packages/core/zk/src/utils/feedback.ts:54-62 | the push and divide loop computes `Decode` of the number, 5 digits |
| FeedbackCodec.DecodeEncode | packages/core/zk/src/utils/feedback.ts:46-61 | decoding an encoded digit sequence returns it |
| FeedbackCodec.EncodeDecode | packages/core/zk/src/utils/feedback.ts:46-61 | encoding the k digits of a number below 3^k returns the number |
| FeedbackCodec.DecodeModulo | packages/core/zk/src/utils/feedback.ts:54-61 | the k decoded digits depend only on the number modulo 3^k |
| FeedbackCodec.FeedbackRoundTrip | packages/core/zk/src/utils/feedback.ts:46-61 | a 5-digit feedback vector encodes into 0..242 and decodes back to itself |
| FeedbackCodec.DecodedFeedback | packages/core/zk/src/utils/feedback.ts:54-61 | any number decodes to 5 digits in {0,1,2}, read modulo 243; a number below 243 re-encodes to itself |
| FeedbackCodec.ScoreRoundTrip | packages/core/zk/src/utils/feedback.ts:5-61 | every feedback vector the scorer produces survives encode then decode |
| Commitment.WordToFields | packages/core/commitment/commitment.ts:14-16 | keeps the length (no length check) and maps character i to its code |
| Commitment.CreateCommitment | packages/core/commitment/commitment.ts:4-8 | returns the salt it was given and a commitment that the word's fields and that salt verify against |
| Commitment.CommitmentInput | packages/core/commitment/commitment.ts:4-12 | for a 5-letter word, the hashed list has 6 elements: the 5 character codes, then the salt |
| Commitment.EncodersAgree | packages/core/commitment/commitment.ts:14-16 | on a 5-letter word this file's encoder and the length-checked encoder give the same fields |
| Commitment.Binding | packages/core/commitment/commitment.ts:18-24 | with a collision-free hash, verifying against computeCommitment(l1, s1) succeeds iff the opening is exactly (l1, s1) |
| Commitment.DifferentSaltsDiffer | packages/core/zk/src/CommitmentProgram.test.ts:37-60 | with a collision-free hash, the same word with different salts gives different commitments |
| Commitment.DifferentWordsDiffer | packages/core/commitment/commitment.ts:10-12 | with a collision-free hash, two different 5-letter words never share a commitment, whatever the salts |
| Validation.ValidateWord | packages/core/zk/src/ValidationProgram.ts:25-40 | succeeds iff the word's leaf hash, folded through the 15 siblings along the index bits, equals the caller's expectedRoot (not MERKLE_ROOT) |
| Validation.FoldCongruent | packages/core/zk/src/ValidationProgram.ts:29-36 | over k levels, indices congruent modulo 2^k give the same fold |
| Validation.FoldLowBits | packages/core/zk/src/ValidationProgram.ts:29-31 | only the 15 low bits of the index matter: indices congruent modulo 2^15 give the same folded hash |
| Validation.FoldBinding | packages/core/zk/src/ValidationProgram.ts:26-37 | with a collision-free hash, equal folds along one index have the same leaf and the same siblings, so a corrupted sibling changes the result |
| Validation.OneWordPerWitness | packages/core/zk/src/ValidationProgram.ts:26-39 | with a collision-free hash, one index, witness and root accept at most one word |
| Validation.FoldTreeWitness | packages/core/zk/src/ValidationProgram.ts:28-37 | folding a leaf of a complete tree through its own siblings reproduces the tree root |
| Validation.DictionaryWordAccepted | packages/core/zk/src/ValidationProgram.ts:26-39 | a dictionary word, hashed into its leaf of a height-15 tree, is accepted with its own witness against that tree's root |

## Left out

- The proof chain and its step counter (`computeFirstFeedback`, `computeFeedback` of the feedback program) are not modelled. FeedbackProgram.ts is not part of this model; only its tests are visible.
- The commitment zk program (packages/core/zk/src/CommitmentProgram.ts) is not modelled. It is a proof-engine wrapper around a helper that is not part of this model, and it reads and returns fields its declared inputs and outputs lack.
- `createSalt` (`Field.random()`) is randomness, so the salt is a parameter of `CreateCommitment`.
- `verifyCommitment` compares with JavaScript `===`, which is object identity on `Field` objects. The model compares values.
- Poseidon's internals are not modelled. Field modulus arithmetic is not modelled either, because no value here approaches the modulus. Collision resistance appears only as the `Injective` hypothesis.
- `Provable.if` and `Bool` circuit semantics become ordinary conditionals. A failed `assertEquals` (proof generation fails) becomes `ValidateWord` returning false.
- `Field.toBits()` is modelled on the index as a natural number, least significant bit first. The 255-bit limit of a field element is not modelled.
- Building the dictionary tree (createMerkleTree.ts) and the word list (createWordsJson.ts) involves file I/O and an external Merkle-tree library, so neither is modelled. `TreeRoot` / `TreeWitness` are a reference complete tree for the fold, not a model of that library.
- ZkProgram compile, prove and verify, and the test harness, are not modelled.
- FeedbackCodec.EncodeFeedback: requires at least 5 entries. With fewer, the source throws on `BigInt(undefined)`; that error path is not modelled.
- FeedbackScore.ComputeFeedbackFields: requires both arrays to have at least 5 entries. With fewer, the source fails on `undefined.equals`; that error path is not modelled.
