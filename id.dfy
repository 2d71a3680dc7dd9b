/**
 * `generate_id`: a 21-character identifier drawn from a 64-character
 * alphabet. Random bytes are drawn in rounds of `Step`; `draw(r, j)` is
 * byte `j` of round `r`.
 */
module Id {

  const IdLength: nat := 21

  const Alphabet: string := "_-0123456789abcdefghijklmnopqrstuvwxyzABCDEFGHIJKLMNOPQRSTUVWXYZ"

  /** How many bytes one round draws: `8 * IdLength / 5`. */
  const Step: nat := 33

  /** `q` is 1 doubled some number of times. */
  predicate IsPowerOfTwo(q: nat)
    decreases q
  {
    q == 1 || (q >= 2 && q % 2 == 0 && IsPowerOfTwo(q / 2))
  }

  /** Smallest power of two at least `n`, searching upwards from `p`. */
  function PowerAtLeast(n: nat, p: nat): (q: nat)
    requires p >= 1
    ensures q >= n && q >= p
    ensures IsPowerOfTwo(p) ==> IsPowerOfTwo(q)
    ensures q == p || q / 2 < n
    decreases n - p
  {
    if p >= n then p
    else
      assert (2 * p) / 2 == p && (2 * p) % 2 == 0;
      PowerAtLeast(n, 2 * p)
  }

  /** `usize::next_power_of_two`: the least power of two that is at least `n`. */
  function NextPowerOfTwo(n: nat): (q: nat)
    ensures IsPowerOfTwo(q) && q >= n
    ensures q == 1 || q / 2 < n
  {
    PowerAtLeast(n, 1)
  }

  /** The mask applied to each byte, `next_power_of_two(len) - 1`. */
  function Mask(): (m: nat)
    ensures m == 63
  {
    assert NextPowerOfTwo(64) == 64;
    NextPowerOfTwo(|Alphabet|) - 1
  }

  /** A character of the alphabet. */
  predicate InAlphabet(c: char) {
    c in Alphabet
  }

  /** The character a byte selects, or nothing when the masked byte is past the alphabet. */
  function CharOf(b: bv8): (r: seq<char>)
    ensures r == [Alphabet[(b & 63) as int]]
  {
    var index := (b & Mask() as bv8) as int;
    if index < |Alphabet| then [Alphabet[index]] else []
  }

  /** The characters a sequence of bytes selects, in order. */
  function Encode(bytes: seq<bv8>): (id: string)
    ensures forall c :: c in id ==> InAlphabet(c)
    decreases |bytes|
  {
    if bytes == [] then [] else CharOf(bytes[0]) + Encode(bytes[1..])
  }

  lemma EncodeAppend(bytes: seq<bv8>, b: bv8)
    ensures Encode(bytes + [b]) == Encode(bytes) + CharOf(b)
    decreases |bytes|
  {
    if bytes != [] {
      assert (bytes + [b])[1..] == bytes[1..] + [b];
      EncodeAppend(bytes[1..], b);
    }
  }

  /** No byte is rejected: every byte gives exactly the character at its low six bits. */
  lemma {:induction false} EncodeEveryByte(bytes: seq<bv8>)
    ensures |Encode(bytes)| == |bytes|
    ensures forall i :: 0 <= i < |bytes| ==> Encode(bytes)[i] == Alphabet[(bytes[i] & 63) as int]
    decreases |bytes|
  {
    if bytes != [] {
      var rest := Encode(bytes[1..]);
      EncodeEveryByte(bytes[1..]);
      assert Encode(bytes) == CharOf(bytes[0]) + rest;
      forall i | 0 <= i < |bytes|
        ensures Encode(bytes)[i] == Alphabet[(bytes[i] & 63) as int]
      {
        if i > 0 {
          assert Encode(bytes)[i] == rest[i - 1];
          assert bytes[1..][i - 1] == bytes[i];
        }
      }
    }
  }

  /** The first `n` bytes drawn, round after round. */
  function Drawn(draw: (nat, nat) -> bv8, n: nat): (bytes: seq<bv8>)
    ensures |bytes| == n
  {
    seq(n, i requires 0 <= i => draw(i / Step, i % Step))
  }

  /** Byte `j` of round `round`, the `n`-th drawn, comes right after the bytes before it. */
  lemma DrawnNext(draw: (nat, nat) -> bv8, n: nat, round: nat, j: nat)
    requires j < Step && n == round * Step + j
    ensures Drawn(draw, n + 1) == Drawn(draw, n) + [draw(round, j)]
  {
    assert n / Step == round && n % Step == j;
  }

  /** Drawing one more byte appends the character it selects. */
  lemma EncodeNext(draw: (nat, nat) -> bv8, n: nat, round: nat, j: nat)
    requires j < Step && n == round * Step + j
    ensures Encode(Drawn(draw, n + 1)) == Encode(Drawn(draw, n)) + [Alphabet[(draw(round, j) & 63) as int]]
  {
    DrawnNext(draw, n, round, j);
    EncodeAppend(Drawn(draw, n), draw(round, j));
  }

  /** Masking a byte with 63 keeps its low six bits, an index into the alphabet. */
  lemma MaskedIndex(b: bv8, mask: nat)
    requires mask == 63
    ensures (b & mask as bv8) as int == (b & 63) as int < |Alphabet|
  {
  }

  /** The byte drawn next is accepted and appends the character its masked value selects. */
  lemma PushNext(draw: (nat, nat) -> bv8, n: nat, round: nat, j: nat, mask: nat)
    requires j < Step && n == round * Step + j && mask == 63
    ensures var index := (draw(round, j) & mask as bv8) as int;
      index < |Alphabet| && Encode(Drawn(draw, n)) + [Alphabet[index]] == Encode(Drawn(draw, n + 1))
  {
    EncodeNext(draw, n, round, j);
    MaskedIndex(draw(round, j), mask);
  }

  /** The checks `generate_id` asserts: the alphabet fits a byte and the mask covers it. */
  lemma AlphabetFitsMask()
    ensures |Alphabet| == 64
    ensures |Alphabet| <= 255
    ensures |Alphabet| <= Mask() + 1
    ensures Step == 8 * IdLength / 5 && Step >= IdLength
  {
  }

  /**
   * `generate_id`: draws rounds of `Step` bytes and appends the character of
   * each masked byte until the id has `IdLength` characters. Since no byte is
   * rejected and a round has at least `IdLength` bytes, the id is made from
   * the first `IdLength` bytes of the first round.
   */
  method GenerateId(draw: (nat, nat) -> bv8) returns (id: string)
    ensures |id| == IdLength
    ensures forall c :: c in id ==> InAlphabet(c)
    ensures forall i :: 0 <= i < IdLength ==> id[i] == Alphabet[(draw(0, i) & 63) as int]
  {
    assert |Alphabet| <= 255;
    var mask := Mask();
    assert |Alphabet| <= mask + 1;
    id := [];
    var round := 0;
    while true
      invariant |id| < IdLength
      invariant id == Encode(Drawn(draw, round * Step))
      decreases IdLength - |id|
    {
      var complete;
      id, complete := PushRound(draw, round, mask, id);
      if complete {
        FirstRoundSuffices(draw, IdLength);
        return;
      }
      assert (round + 1) * Step == round * Step + Step;
      round := round + 1;
    }
  }

  /**
   * The `for` loop over one round's bytes: each masked byte inside the
   * alphabet appends its character, and the round stops as soon as the id is
   * complete, which is after the first `IdLength` bytes drawn.
   */
  method PushRound(draw: (nat, nat) -> bv8, round: nat, mask: nat, id: string) returns (next: string, complete: bool)
    requires mask == 63 && |id| < IdLength && id == Encode(Drawn(draw, round * Step))
    ensures complete ==> |next| == IdLength && next == Encode(Drawn(draw, IdLength))
    ensures !complete ==> |id| < |next| < IdLength && next == Encode(Drawn(draw, round * Step + Step))
  {
    assert mask as bv8 == 63;
    ghost var n := round * Step;
    next := id;
    for j := 0 to Step
      invariant n == round * Step + j && |next| < IdLength
      invariant j > 0 ==> |next| > |id|
      invariant next == Encode(Drawn(draw, n))
    {
      var b := draw(round, j);
      PushNext(draw, n, round, j, mask);
      var index := (b & mask as bv8) as int;
      if index < |Alphabet| {
        next := next + [Alphabet[index]];
      }
      n := n + 1;
      if |next| == IdLength {
        EncodeLength(Drawn(draw, n));
        return next, true;
      }
    }
    complete := false;
  }

  /** One character per byte. */
  lemma EncodeLength(bytes: seq<bv8>)
    ensures |Encode(bytes)| == |bytes|
  {
    EncodeEveryByte(bytes);
  }

  /** When `n` drawn bytes complete the id, they are the first `IdLength` bytes of the first round. */
  lemma FirstRoundSuffices(draw: (nat, nat) -> bv8, n: nat)
    requires |Encode(Drawn(draw, n))| == IdLength
    ensures n == IdLength
    ensures forall i :: 0 <= i < IdLength ==> Encode(Drawn(draw, n))[i] == Alphabet[(draw(0, i) & 63) as int]
  {
    var bytes := Drawn(draw, n);
    EncodeEveryByte(bytes);
    forall i | 0 <= i < IdLength
      ensures bytes[i] == draw(0, i)
    {
      assert i / Step == 0 && i % Step == i;
    }
  }
}
