/** The feedback scorer of `feedback.ts`: `computeFeedbackFields` marks the
    exact matches in a first pass and then, in a nested pass over guess
    position i and actual position j, marks i YELLOW and consumes slot j
    whenever slot j is still unused and holds guess letter i.

    The code is modelled as written. Two of its features differ from the
    usual scoring rule and are kept:
    - the second pass does not skip GREEN positions, so a GREEN entry can be
      overwritten by YELLOW (see `GreenCanBecomeYellow`);
    - the inner loop does not stop at the first match, so one guess position
      can consume several actual slots (see `OnePositionConsumesSeveral`).
    Hence an exact match does not imply GREEN; only the converse holds. */
module FeedbackScore {
  import opened Common
  import opened WordEncoding

  /** Numeric values of `FeedbackType`. The enumeration itself is not part of
      this model; the code packs these values as base-3 digits, so the model
      assumes three distinct values in {0, 1, 2}, in enumeration order. Only
      distinctness and the range are used by the proofs. */
  const GRAY: Field := 0
  const YELLOW: Field := 1
  const GREEN: Field := 2

  predicate IsFeedbackValue(x: Field)
  {
    x == GRAY || x == YELLOW || x == GREEN
  }

  /** The two arrays of the scorer: the feedback entries and the `used` marks
      over the slots of the actual word. */
  datatype Marks = Marks(feedback: seq<Field>, used: seq<bool>)

  predicate WellFormed(m: Marks)
  {
    |m.feedback| == WORD_LENGTH && |m.used| == WORD_LENGTH
  }

  /** State after the first pass: exact matches GREEN and used, all else GRAY
      and unused. */
  function GreenPass(actual: seq<Field>, guess: seq<Field>): (m: Marks)
    requires |actual| >= WORD_LENGTH && |guess| >= WORD_LENGTH
    ensures WellFormed(m)
  {
    Marks(seq(WORD_LENGTH, i requires 0 <= i < WORD_LENGTH =>
                if guess[i] == actual[i] then GREEN else GRAY),
          seq(WORD_LENGTH, i requires 0 <= i < WORD_LENGTH => guess[i] == actual[i]))
  }

  /** One iteration (i, j) of the second pass. */
  function YellowStep(actual: seq<Field>, guess: seq<Field>, i: nat, j: nat, m: Marks): Marks
    requires |actual| >= WORD_LENGTH && |guess| >= WORD_LENGTH && WellFormed(m)
    requires i < WORD_LENGTH && j < WORD_LENGTH
  {
    var isValid := !m.used[j] && guess[i] == actual[j];
    Marks(if isValid then m.feedback[i := YELLOW] else m.feedback,
          if isValid then m.used[j := true] else m.used)
  }

  /** State after the inner loop for guess position i has run for j in [0, k). */
  function YellowRow(actual: seq<Field>, guess: seq<Field>, i: nat, m: Marks, k: nat): (r: Marks)
    requires |actual| >= WORD_LENGTH && |guess| >= WORD_LENGTH && WellFormed(m)
    requires i < WORD_LENGTH && k <= WORD_LENGTH
    ensures WellFormed(r)
  {
    if k == 0 then m
    else YellowStep(actual, guess, i, k - 1, YellowRow(actual, guess, i, m, k - 1))
  }

  /** State after the outer loop of the second pass has run for i in [0, k). */
  function YellowPass(actual: seq<Field>, guess: seq<Field>, m: Marks, k: nat): (r: Marks)
    requires |actual| >= WORD_LENGTH && |guess| >= WORD_LENGTH && WellFormed(m)
    requires k <= WORD_LENGTH
    ensures WellFormed(r)
  {
    if k == 0 then m
    else YellowRow(actual, guess, k - 1, YellowPass(actual, guess, m, k - 1), WORD_LENGTH)
  }

  /** The feedback vector `computeFeedbackFields(actual, guess)` returns. */
  function Score(actual: seq<Field>, guess: seq<Field>): (r: seq<Field>)
    requires |actual| >= WORD_LENGTH && |guess| >= WORD_LENGTH
  {
    YellowPass(actual, guess, GreenPass(actual, guess), WORD_LENGTH).feedback
  }

  /** `computeFeedbackFields`, with its two arrays and its loops. Only the
      first five entries of each argument are read, as in the source. */
  method ComputeFeedbackFields(actual: seq<Field>, guess: seq<Field>) returns (r: seq<Field>)
    requires |actual| >= WORD_LENGTH && |guess| >= WORD_LENGTH
    ensures r == Score(actual, guess)
  {
    var feedback := new Field[WORD_LENGTH](_ => GRAY);
    var used := new bool[WORD_LENGTH](_ => false);

    // Green pass
    for i := 0 to WORD_LENGTH
      invariant forall k :: 0 <= k < WORD_LENGTH ==>
                  feedback[k] == (if k < i && guess[k] == actual[k] then GREEN else GRAY)
      invariant forall k :: 0 <= k < WORD_LENGTH ==> used[k] == (k < i && guess[k] == actual[k])
    {
      var isGreen := guess[i] == actual[i];
      feedback[i] := if isGreen then GREEN else feedback[i];
      used[i] := if isGreen then true else used[i];
    }
    ghost var green := GreenPass(actual, guess);
    assert Marks(feedback[..], used[..]) == green;

    // Yellow pass
    for i := 0 to WORD_LENGTH
      invariant Marks(feedback[..], used[..]) == YellowPass(actual, guess, green, i)
    {
      ghost var before := YellowPass(actual, guess, green, i);
      for j := 0 to WORD_LENGTH
        invariant Marks(feedback[..], used[..]) == YellowRow(actual, guess, i, before, j)
      {
        var notUsed := !used[j];
        var matches := guess[i] == actual[j];
        var isValid := notUsed && matches;
        feedback[i] := if isValid then YELLOW else feedback[i];
        used[j] := if isValid then true else used[j];
      }
    }
    r := feedback[..];
  }

  /** `computeFeedback`: encode both words (either may be rejected for its
      length, the actual word first) and score them. */
  function ComputeFeedback(actualWord: seq<CodeUnit>, guessWord: seq<CodeUnit>): (r: Result<seq<Field>>)
    ensures r.Failure? <==> |actualWord| != WORD_LENGTH || |guessWord| != WORD_LENGTH
    ensures r.Failure? ==> r.error == InvalidLength
    ensures r.Success? ==> r.value == Score(WordToFields(actualWord).value, WordToFields(guessWord).value)
  {
    var actualFields := WordToFields(actualWord);
    if actualFields.Failure? then Failure(actualFields.error)
    else
      var guessFields := WordToFields(guessWord);
      if guessFields.Failure? then Failure(guessFields.error)
      else Success(Score(actualFields.value, guessFields.value))
  }

  // ---------------------------------------------------------------------
  // What the scorer guarantees

  /** The multiset of the elements xs[k], k < n, whose flag is set. */
  function Flagged(flags: seq<bool>, xs: seq<Field>, n: nat): multiset<Field>
    requires n <= |flags| && n <= |xs|
  {
    if n == 0 then multiset{}
    else Flagged(flags, xs, n - 1) + (if flags[n - 1] then multiset{xs[n - 1]} else multiset{})
  }

  /** Which feedback entries are not GRAY. */
  function Scored(feedback: seq<Field>): (flags: seq<bool>)
    ensures |flags| == |feedback|
    ensures forall k :: 0 <= k < |feedback| ==> (flags[k] <==> feedback[k] != GRAY)
  {
    seq(|feedback|, k requires 0 <= k < |feedback| => feedback[k] != GRAY)
  }

  /** The invariant both passes keep:
      - every entry is GRAY, YELLOW or GREEN;
      - GREEN only at an exact match;
      - YELLOW only for a letter the actual word holds at a slot that is not
        an exact match (such a slot is never consumed by the first pass);
      - an exact match is used and not GRAY;
      - for every letter, the non-GRAY guess positions holding it are no more
        than the used actual slots holding it. */
  ghost predicate Inv(actual: seq<Field>, guess: seq<Field>, m: Marks)
    requires |actual| >= WORD_LENGTH && |guess| >= WORD_LENGTH
  {
    && WellFormed(m)
    && (forall i :: 0 <= i < WORD_LENGTH ==> IsFeedbackValue(m.feedback[i]))
    && (forall i :: 0 <= i < WORD_LENGTH && m.feedback[i] == GREEN ==> guess[i] == actual[i])
    && (forall i :: 0 <= i < WORD_LENGTH && m.feedback[i] == YELLOW ==>
          exists j :: 0 <= j < WORD_LENGTH && actual[j] == guess[i] && guess[j] != actual[j])
    && (forall i :: 0 <= i < WORD_LENGTH && guess[i] == actual[i] ==> m.used[i] && m.feedback[i] != GRAY)
    && Flagged(Scored(m.feedback), guess, WORD_LENGTH) <= Flagged(m.used, actual, WORD_LENGTH)
  }

  /** Setting one more flag adds exactly that element. */
  lemma {:induction false} FlaggedSet(flags: seq<bool>, xs: seq<Field>, k: nat, n: nat)
    requires k < |flags| && n <= |flags| && n <= |xs| && k < |xs|
    ensures Flagged(flags[k := true], xs, n)
         == Flagged(flags, xs, n) + (if k < n && !flags[k] then multiset{xs[k]} else multiset{})
  {
    if n > 0 {
      FlaggedSet(flags, xs, k, n - 1);
    }
  }

  /** Two element sequences that agree wherever the flag is set give the same
      multiset. */
  lemma {:induction false} FlaggedAgree(flags: seq<bool>, xs: seq<Field>, ys: seq<Field>, n: nat)
    requires n <= |flags| && n <= |xs| && n <= |ys|
    requires forall k :: 0 <= k < n && flags[k] ==> xs[k] == ys[k]
    ensures Flagged(flags, xs, n) == Flagged(flags, ys, n)
  {
    if n > 0 {
      FlaggedAgree(flags, xs, ys, n - 1);
    }
  }

  /** The flagged elements are a sub-multiset of the first n elements. */
  lemma {:induction false} FlaggedWithin(flags: seq<bool>, xs: seq<Field>, n: nat)
    requires n <= |flags| && n <= |xs|
    ensures Flagged(flags, xs, n) <= multiset(xs[..n])
  {
    if n > 0 {
      FlaggedWithin(flags, xs, n - 1);
      assert xs[..n] == xs[..n - 1] + [xs[n - 1]];
    }
  }

  /** The first pass establishes the invariant. */
  lemma GreenPassInv(actual: seq<Field>, guess: seq<Field>)
    requires |actual| >= WORD_LENGTH && |guess| >= WORD_LENGTH
    ensures Inv(actual, guess, GreenPass(actual, guess))
  {
    var m := GreenPass(actual, guess);
    assert Scored(m.feedback) == m.used;
    FlaggedAgree(m.used, guess, actual, WORD_LENGTH);
  }

  /** One iteration of the second pass keeps the invariant. */
  lemma YellowStepInv(actual: seq<Field>, guess: seq<Field>, i: nat, j: nat, m: Marks)
    requires |actual| >= WORD_LENGTH && |guess| >= WORD_LENGTH
    requires i < WORD_LENGTH && j < WORD_LENGTH && Inv(actual, guess, m)
    ensures Inv(actual, guess, YellowStep(actual, guess, i, j, m))
  {
    if !m.used[j] && guess[i] == actual[j] {
      var fb, used := m.feedback[i := YELLOW], m.used[j := true];
      assert YellowStep(actual, guess, i, j, m) == Marks(fb, used);
      // slot j is unused, so it is not an exact match
      assert guess[j] != actual[j];
      forall k | 0 <= k < WORD_LENGTH && fb[k] == YELLOW
        ensures exists j' :: 0 <= j' < WORD_LENGTH && actual[j'] == guess[k] && guess[j'] != actual[j']
      {
        if k == i {
          assert actual[j] == guess[k];
        }
      }
      assert Scored(fb) == Scored(m.feedback)[i := true];
      FlaggedSet(Scored(m.feedback), guess, i, WORD_LENGTH);
      FlaggedSet(m.used, actual, j, WORD_LENGTH);
      assert Flagged(Scored(fb), guess, WORD_LENGTH) <= Flagged(used, actual, WORD_LENGTH);
    }
  }

  lemma {:induction false} YellowRowInv(actual: seq<Field>, guess: seq<Field>, i: nat, m: Marks, k: nat)
    requires |actual| >= WORD_LENGTH && |guess| >= WORD_LENGTH
    requires i < WORD_LENGTH && k <= WORD_LENGTH && Inv(actual, guess, m)
    ensures Inv(actual, guess, YellowRow(actual, guess, i, m, k))
  {
    if k > 0 {
      YellowRowInv(actual, guess, i, m, k - 1);
      YellowStepInv(actual, guess, i, k - 1, YellowRow(actual, guess, i, m, k - 1));
    }
  }

  lemma {:induction false} YellowPassInv(actual: seq<Field>, guess: seq<Field>, m: Marks, k: nat)
    requires |actual| >= WORD_LENGTH && |guess| >= WORD_LENGTH
    requires k <= WORD_LENGTH && Inv(actual, guess, m)
    ensures Inv(actual, guess, YellowPass(actual, guess, m, k))
  {
    if k > 0 {
      YellowPassInv(actual, guess, m, k - 1);
      YellowRowInv(actual, guess, k - 1, YellowPass(actual, guess, m, k - 1), WORD_LENGTH);
    }
  }

  /** The scorer returns five entries, each GRAY, YELLOW or GREEN. */
  lemma ScoreShape(actual: seq<Field>, guess: seq<Field>)
    requires |actual| >= WORD_LENGTH && |guess| >= WORD_LENGTH
    ensures |Score(actual, guess)| == WORD_LENGTH
    ensures forall i :: 0 <= i < WORD_LENGTH ==> IsFeedbackValue(Score(actual, guess)[i])
  {
    GreenPassInv(actual, guess);
    YellowPassInv(actual, guess, GreenPass(actual, guess), WORD_LENGTH);
  }

  /** GREEN only at an exact match. */
  lemma ScoreGreenOnlyIfExact(actual: seq<Field>, guess: seq<Field>, i: nat)
    requires |actual| >= WORD_LENGTH && |guess| >= WORD_LENGTH && i < WORD_LENGTH
    requires Score(actual, guess)[i] == GREEN
    ensures guess[i] == actual[i]
  {
    GreenPassInv(actual, guess);
    YellowPassInv(actual, guess, GreenPass(actual, guess), WORD_LENGTH);
  }

  /** YELLOW only when the actual word holds guess letter i at a slot j that
      the first pass left unused, i.e. one that is not an exact match. */
  lemma ScoreYellowOnlyIfPresent(actual: seq<Field>, guess: seq<Field>, i: nat)
    requires |actual| >= WORD_LENGTH && |guess| >= WORD_LENGTH && i < WORD_LENGTH
    requires Score(actual, guess)[i] == YELLOW
    ensures exists j :: 0 <= j < WORD_LENGTH && actual[j] == guess[i] && guess[j] != actual[j]
  {
    GreenPassInv(actual, guess);
    YellowPassInv(actual, guess, GreenPass(actual, guess), WORD_LENGTH);
  }

  /** A guess letter the actual word does not contain stays GRAY. */
  lemma ScoreAbsentIsGray(actual: seq<Field>, guess: seq<Field>, i: nat)
    requires |actual| >= WORD_LENGTH && |guess| >= WORD_LENGTH && i < WORD_LENGTH
    requires forall j :: 0 <= j < WORD_LENGTH ==> guess[i] != actual[j]
    ensures Score(actual, guess)[i] == GRAY
  {
    GreenPassInv(actual, guess);
    YellowPassInv(actual, guess, GreenPass(actual, guess), WORD_LENGTH);
  }

  /** An exact match is never GRAY (it ends GREEN or, overwritten by the
      second pass, YELLOW). */
  lemma ScoreExactNotGray(actual: seq<Field>, guess: seq<Field>, i: nat)
    requires |actual| >= WORD_LENGTH && |guess| >= WORD_LENGTH && i < WORD_LENGTH
    requires guess[i] == actual[i]
    ensures Score(actual, guess)[i] != GRAY
  {
    GreenPassInv(actual, guess);
    YellowPassInv(actual, guess, GreenPass(actual, guess), WORD_LENGTH);
  }

  /** No letter is credited more often than the actual word holds it: the
      guess letters at non-GRAY positions form a sub-multiset of the actual
      word's letters. */
  lemma ScoreRespectsMultiplicity(actual: seq<Field>, guess: seq<Field>)
    requires |actual| >= WORD_LENGTH && |guess| >= WORD_LENGTH
    ensures Flagged(Scored(Score(actual, guess)), guess, WORD_LENGTH) <= multiset(actual[..WORD_LENGTH])
  {
    GreenPassInv(actual, guess);
    var m := YellowPass(actual, guess, GreenPass(actual, guess), WORD_LENGTH);
    YellowPassInv(actual, guess, GreenPass(actual, guess), WORD_LENGTH);
    FlaggedWithin(m.used, actual, WORD_LENGTH);
  }

  /** Once every slot is used, the second pass changes nothing. */
  lemma {:induction false} YellowPassAllUsed(actual: seq<Field>, guess: seq<Field>, m: Marks, k: nat)
    requires |actual| >= WORD_LENGTH && |guess| >= WORD_LENGTH && WellFormed(m)
    requires k <= WORD_LENGTH && forall j :: 0 <= j < WORD_LENGTH ==> m.used[j]
    ensures YellowPass(actual, guess, m, k) == m
  {
    if k > 0 {
      YellowPassAllUsed(actual, guess, m, k - 1);
      var row := k - 1;
      forall n | 0 <= n <= WORD_LENGTH
        ensures YellowRow(actual, guess, row, m, n) == m
      {
        YellowRowAllUsed(actual, guess, row, m, n);
      }
    }
  }

  lemma {:induction false} YellowRowAllUsed(actual: seq<Field>, guess: seq<Field>, i: nat, m: Marks, k: nat)
    requires |actual| >= WORD_LENGTH && |guess| >= WORD_LENGTH && WellFormed(m)
    requires i < WORD_LENGTH && k <= WORD_LENGTH && forall j :: 0 <= j < WORD_LENGTH ==> m.used[j]
    ensures YellowRow(actual, guess, i, m, k) == m
  {
    if k > 0 {
      YellowRowAllUsed(actual, guess, i, m, k - 1);
    }
  }

  /** A guess equal to the actual word scores all GREEN. */
  lemma ScoreSameWordAllGreen(word: seq<Field>)
    requires |word| >= WORD_LENGTH
    ensures Score(word, word) == [GREEN, GREEN, GREEN, GREEN, GREEN]
  {
    var g := GreenPass(word, word);
    YellowPassAllUsed(word, word, g, WORD_LENGTH);
  }

  // Character codes of the letters in the examples below.
  const A: CodeUnit := 97
  const B: CodeUnit := 98
  const C: CodeUnit := 99
  const D: CodeUnit := 100
  const E: CodeUnit := 101
  const H: CodeUnit := 104
  const I: CodeUnit := 105
  const L: CodeUnit := 108
  const O: CodeUnit := 111
  const S: CodeUnit := 115
  const X: CodeUnit := 120

  /** The inner loop written out: five steps, j = 0 to 4. */
  lemma YellowRowUnrolled(actual: seq<Field>, guess: seq<Field>, i: nat, m: Marks)
    requires |actual| >= WORD_LENGTH && |guess| >= WORD_LENGTH && WellFormed(m) && i < WORD_LENGTH
    ensures YellowRow(actual, guess, i, m, WORD_LENGTH)
         == var m1 := YellowStep(actual, guess, i, 0, m);
            var m2 := YellowStep(actual, guess, i, 1, m1);
            var m3 := YellowStep(actual, guess, i, 2, m2);
            var m4 := YellowStep(actual, guess, i, 3, m3);
            YellowStep(actual, guess, i, 4, m4)
  {
    assert YellowRow(actual, guess, i, m, 1) == YellowStep(actual, guess, i, 0, m);
    assert YellowRow(actual, guess, i, m, 2) == YellowStep(actual, guess, i, 1, YellowRow(actual, guess, i, m, 1));
    assert YellowRow(actual, guess, i, m, 3) == YellowStep(actual, guess, i, 2, YellowRow(actual, guess, i, m, 2));
    assert YellowRow(actual, guess, i, m, 4) == YellowStep(actual, guess, i, 3, YellowRow(actual, guess, i, m, 3));
  }

  /** The whole score written out, row by row. */
  lemma ScoreUnrolled(actual: seq<Field>, guess: seq<Field>)
    requires |actual| >= WORD_LENGTH && |guess| >= WORD_LENGTH
    ensures Score(actual, guess)
         == var m0 := GreenPass(actual, guess);
            var m1 := YellowRow(actual, guess, 0, m0, WORD_LENGTH);
            var m2 := YellowRow(actual, guess, 1, m1, WORD_LENGTH);
            var m3 := YellowRow(actual, guess, 2, m2, WORD_LENGTH);
            var m4 := YellowRow(actual, guess, 3, m3, WORD_LENGTH);
            YellowRow(actual, guess, 4, m4, WORD_LENGTH).feedback
  {
    var m0 := GreenPass(actual, guess);
    assert YellowPass(actual, guess, m0, 1) == YellowRow(actual, guess, 0, m0, WORD_LENGTH);
    assert YellowPass(actual, guess, m0, 2) == YellowRow(actual, guess, 1, YellowPass(actual, guess, m0, 1), WORD_LENGTH);
    assert YellowPass(actual, guess, m0, 3) == YellowRow(actual, guess, 2, YellowPass(actual, guess, m0, 2), WORD_LENGTH);
    assert YellowPass(actual, guess, m0, 4) == YellowRow(actual, guess, 3, YellowPass(actual, guess, m0, 3), WORD_LENGTH);
  }

  /** Both unrollings at once, for the examples below. */
  lemma ScoreEvaluated(actual: seq<Field>, guess: seq<Field>)
    requires |actual| >= WORD_LENGTH && |guess| >= WORD_LENGTH
    ensures Score(actual, guess)
         == var m0 := GreenPass(actual, guess);
            var m1 := YellowRow(actual, guess, 0, m0, WORD_LENGTH);
            var m2 := YellowRow(actual, guess, 1, m1, WORD_LENGTH);
            var m3 := YellowRow(actual, guess, 2, m2, WORD_LENGTH);
            var m4 := YellowRow(actual, guess, 3, m3, WORD_LENGTH);
            YellowRow(actual, guess, 4, m4, WORD_LENGTH).feedback
    ensures forall i: nat, m | i < WORD_LENGTH && WellFormed(m) ::
              (YellowRow(actual, guess, i, m, WORD_LENGTH)
               == YellowStep(actual, guess, i, 4, YellowStep(actual, guess, i, 3,
                    YellowStep(actual, guess, i, 2, YellowStep(actual, guess, i, 1,
                    YellowStep(actual, guess, i, 0, m))))))
  {
    ScoreUnrolled(actual, guess);
    forall i: nat, m | i < WORD_LENGTH && WellFormed(m)
      ensures YellowRow(actual, guess, i, m, WORD_LENGTH)
           == YellowStep(actual, guess, i, 4, YellowStep(actual, guess, i, 3,
                YellowStep(actual, guess, i, 2, YellowStep(actual, guess, i, 1,
                YellowStep(actual, guess, i, 0, m)))))
    {
      YellowRowUnrolled(actual, guess, i, m);
    }
  }

  /** "hills" against "hello": GREEN, GRAY, GREEN, GREEN, GRAY. */
  lemma HelloHills()
    ensures ComputeFeedback([H, E, L, L, O], [H, I, L, L, S]) == Success([GREEN, GRAY, GREEN, GREEN, GRAY])
  {
    var actual: seq<Field>, guess: seq<Field> := [H, E, L, L, O], [H, I, L, L, S];
    assert WordToFields([H, E, L, L, O]).value == actual;
    assert WordToFields([H, I, L, L, S]).value == guess;
    assert ComputeFeedback([H, E, L, L, O], [H, I, L, L, S]) == Success(Score(actual, guess));
    ScoreEvaluated(actual, guess);
    assert Score(actual, guess) == [GREEN, GRAY, GREEN, GREEN, GRAY];
  }

  /** "cello" against "hello": GRAY, GREEN, GREEN, GREEN, GREEN. */
  lemma HelloCello()
    ensures ComputeFeedback([H, E, L, L, O], [C, E, L, L, O]) == Success([GRAY, GREEN, GREEN, GREEN, GREEN])
  {
    var actual: seq<Field>, guess: seq<Field> := [H, E, L, L, O], [C, E, L, L, O];
    assert WordToFields([H, E, L, L, O]).value == actual;
    assert WordToFields([C, E, L, L, O]).value == guess;
    assert ComputeFeedback([H, E, L, L, O], [C, E, L, L, O]) == Success(Score(actual, guess));
    ScoreEvaluated(actual, guess);
    assert Score(actual, guess) == [GRAY, GREEN, GREEN, GREEN, GREEN];
  }

  /** Repeated letters: "hello" against "ohlle" scores YELLOW, YELLOW, GREEN,
      GREEN, YELLOW; the two exact l's do not also count as misplaced. */
  lemma OhlleHello()
    ensures ComputeFeedback([O, H, L, L, E], [H, E, L, L, O]) == Success([YELLOW, YELLOW, GREEN, GREEN, YELLOW])
  {
    var actual: seq<Field>, guess: seq<Field> := [O, H, L, L, E], [H, E, L, L, O];
    assert WordToFields([O, H, L, L, E]).value == actual;
    assert WordToFields([H, E, L, L, O]).value == guess;
    assert ComputeFeedback([O, H, L, L, E], [H, E, L, L, O]) == Success(Score(actual, guess));
    ScoreEvaluated(actual, guess);
    assert Score(actual, guess) == [YELLOW, YELLOW, GREEN, GREEN, YELLOW];
  }

  /** The second pass does not skip GREEN entries: "axxxx" against "aabcd"
      matches exactly at position 0, yet position 0 ends YELLOW because the
      second a of "aabcd" is still unused. An exact match therefore does not
      imply GREEN. */
  lemma GreenCanBecomeYellow()
    ensures var actual: seq<Field>, guess: seq<Field> := [A, A, B, C, D], [A, X, X, X, X];
            && GreenPass(actual, guess).feedback[0] == GREEN
            && guess[0] == actual[0]
            && Score(actual, guess) == [YELLOW, GRAY, GRAY, GRAY, GRAY]
  {
    var actual: seq<Field>, guess: seq<Field> := [A, A, B, C, D], [A, X, X, X, X];
    ScoreEvaluated(actual, guess);
  }

  /** The inner loop does not stop at the first match: against "abbcd", guess
      position 0 of "bxxxb" consumes both b's, so position 4, also a b, ends
      GRAY although "abbcd" holds two b's. */
  lemma OnePositionConsumesSeveral()
    ensures var actual: seq<Field>, guess: seq<Field> := [A, B, B, C, D], [B, X, X, X, B];
            && YellowRow(actual, guess, 0, GreenPass(actual, guess), WORD_LENGTH).used
               == [false, true, true, false, false]
            && Score(actual, guess) == [YELLOW, GRAY, GRAY, GRAY, GRAY]
  {
    var actual: seq<Field>, guess: seq<Field> := [A, B, B, C, D], [B, X, X, X, B];
    ScoreEvaluated(actual, guess);
  }
}
