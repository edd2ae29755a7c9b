/** `encodeFeedback` and `decodeFeedback` of `feedback.ts`: a feedback vector
    of five entries is packed as a five-digit base-3 number, entry i being
    the digit of weight 3^i (the first letter is the least significant). */
module FeedbackCodec {
  import opened Common
  import opened WordEncoding
  import FeedbackScore

  /** 3^k, the `3n ** BigInt(k)` of the encoder. */
  function Pow3(k: nat): (p: nat)
    ensures p >= 1
  {
    if k == 0 then 1 else 3 * Pow3(k - 1)
  }

  /** Number of distinct encoded vectors: 3^5. */
  const CODES: nat := 243

  predicate IsDigits(f: seq<Field>)
  {
    forall i :: 0 <= i < |f| ==> f[i] < 3
  }

  /** The number a digit sequence denotes, least significant digit first. */
  function Encode(f: seq<Field>): (n: nat)
    ensures IsDigits(f) ==> n < Pow3(|f|)
  {
    if f == [] then 0
    else
      assert IsDigits(f) ==> IsDigits(f[1..]);
      f[0] + 3 * Encode(f[1..])
  }

  /** The k lowest base-3 digits of n, least significant first. */
  function Decode(n: nat, k: nat): (f: seq<Field>)
    ensures |f| == k && IsDigits(f)
  {
    if k == 0 then [] else [n % 3] + Decode(n / 3, k - 1)
  }

  /** `encodeFeedback`: the loop accumulating feedback[i] * 3^i. Only the
      first five entries are read, as in the source. */
  method EncodeFeedback(feedback: seq<Field>) returns (r: Field)
    requires |feedback| >= WORD_LENGTH
    ensures r == Encode(feedback[..WORD_LENGTH])
    ensures IsDigits(feedback[..WORD_LENGTH]) ==> r < CODES
  {
    var f := feedback[..WORD_LENGTH];
    var result := 0;
    for i := 0 to WORD_LENGTH
      invariant result + Pow3(i) * Encode(f[i..]) == Encode(f)
    {
      assert f[i..][1..] == f[i + 1..];
      Horner(Pow3(i), f[i], Encode(f[i + 1..]));
      result := result + feedback[i] * Pow3(i);
    }
    r := result;
    assert f[WORD_LENGTH..] == [];
  }

  /** One step of Horner's rule, scaled by p. */
  lemma Horner(p: nat, d: nat, rest: nat)
    ensures p * (d + 3 * rest) == d * p + (3 * p) * rest
  {
  }

  /** `decodeFeedback`: five times, push n mod 3 and divide n by 3. */
  method DecodeFeedback(encoded: Field) returns (feedback: seq<Field>)
    ensures feedback == Decode(encoded, WORD_LENGTH)
  {
    var n := encoded;
    feedback := [];
    for i := 0 to WORD_LENGTH
      invariant feedback + Decode(n, WORD_LENGTH - i) == Decode(encoded, WORD_LENGTH)
    {
      feedback := feedback + [n % 3];
      n := n / 3;
    }
  }

  /** Decoding an encoded digit vector gives it back. */
  lemma {:induction false} DecodeEncode(f: seq<Field>)
    requires IsDigits(f)
    ensures Decode(Encode(f), |f|) == f
  {
    if f != [] {
      assert IsDigits(f[1..]);
      DecodeEncode(f[1..]);
      var n := Encode(f);
      assert n % 3 == f[0] && n / 3 == Encode(f[1..]);
    }
  }

  /** Encoding the k digits of a number below 3^k gives it back. */
  lemma {:induction false} EncodeDecode(n: nat, k: nat)
    requires n < Pow3(k)
    ensures Encode(Decode(n, k)) == n
  {
    if k > 0 {
      EncodeDecode(n / 3, k - 1);
      assert Decode(n, k)[1..] == Decode(n / 3, k - 1);
    }
  }

  /** Adding a multiple of 3^k does not change the k lowest digits. */
  lemma {:induction false} DecodeShift(n: nat, t: nat, k: nat)
    ensures Decode(n + Pow3(k) * t, k) == Decode(n, k)
  {
    if k > 0 {
      var y := Pow3(k - 1) * t;
      assert Pow3(k) * t == 3 * y;
      assert (n + 3 * y) % 3 == n % 3 && (n + 3 * y) / 3 == n / 3 + y;
      DecodeShift(n / 3, t, k - 1);
    }
  }

  /** The k decoded digits depend only on n mod 3^k. */
  lemma DecodeModulo(n: nat, k: nat)
    ensures Decode(n, k) == Decode(n % Pow3(k), k)
  {
    var p := Pow3(k);
    var r, q := n % p, n / p;
    assert n == r + p * q;
    DecodeShift(r, q, k);
  }

  /** A five-entry digit vector encodes into 0..242 and decodes back. */
  lemma FeedbackRoundTrip(f: seq<Field>)
    requires |f| == WORD_LENGTH && IsDigits(f)
    ensures Encode(f) < CODES && Decode(Encode(f), WORD_LENGTH) == f
  {
    assert Pow3(WORD_LENGTH) == CODES;
    DecodeEncode(f);
  }

  /** Any number decodes to five digits read modulo 243, and a number below
      243 is encoded back to itself; with `FeedbackRoundTrip` the codec is a
      bijection between digit vectors and 0..242. */
  lemma DecodedFeedback(n: nat)
    ensures |Decode(n, WORD_LENGTH)| == WORD_LENGTH && IsDigits(Decode(n, WORD_LENGTH))
    ensures Decode(n, WORD_LENGTH) == Decode(n % CODES, WORD_LENGTH)
    ensures n < CODES ==> Encode(Decode(n, WORD_LENGTH)) == n
  {
    assert Pow3(WORD_LENGTH) == CODES;
    if n < CODES {
      EncodeDecode(n, WORD_LENGTH);
    }
    DecodeModulo(n, WORD_LENGTH);
  }

  /** Every feedback vector the scorer returns survives the codec. */
  lemma ScoreRoundTrip(actual: seq<Field>, guess: seq<Field>)
    requires |actual| >= WORD_LENGTH && |guess| >= WORD_LENGTH
    ensures var f := FeedbackScore.Score(actual, guess);
            Encode(f) < CODES && Decode(Encode(f), WORD_LENGTH) == f
  {
    var f := FeedbackScore.Score(actual, guess);
    FeedbackScore.ScoreShape(actual, guess);
    assert IsDigits(f);
    FeedbackRoundTrip(f);
  }
}
