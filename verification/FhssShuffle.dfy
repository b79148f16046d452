/** What the shuffle really does: each block is shuffled by itself, one draw for each of its
    positions but the first, and the generator can draw every position. */
module FhssShuffle {
  import opened FhssSequence
  import opened Widths

  // ----- the generator ------------------------------------------------------------

  const RNG_MODULUS := 0x8000_0000
  const RNG_FACTOR := 214013
  const RNG_INCREMENT := 2531011
  /** The inverse of the factor: their product is one more than `RNG_TURNS` moduli. */
  const RNG_INVERSE := 968044885
  const RNG_TURNS := 96473

  lemma WrapThenModulus(x: nat)
    ensures Wrap32(x) % RNG_MODULUS == x % RNG_MODULUS
  {
    var q := x / 0x1_0000_0000;
    assert x == q * 0x1_0000_0000 + Wrap32(x);
    AddModuli(Wrap32(x), 2 * q);
  }

  lemma AddModuli(x: int, k: int)
    ensures (x + k * RNG_MODULUS) % RNG_MODULUS == x % RNG_MODULUS
  {
  }

  /** The seed before a given one. */
  function PreviousSeed(next: uint32): (seed: uint32)
    requires next < RNG_MODULUS
  {
    (RNG_INVERSE * (next - RNG_INCREMENT)) % RNG_MODULUS
  }

  /** The generator is a permutation of its seeds: every seed has one before it. */
  lemma SeedsHavePredecessors(next: uint32)
    requires next < RNG_MODULUS
    ensures NextSeed(PreviousSeed(next)) == next
  {
    var d: int := next - RNG_INCREMENT;
    var seed := PreviousSeed(next);
    var k := (RNG_INVERSE * d) / RNG_MODULUS;
    assert RNG_INVERSE * d == k * RNG_MODULUS + seed;
    assert RNG_FACTOR * RNG_INVERSE == RNG_TURNS * RNG_MODULUS + 1;
    assert RNG_FACTOR * seed + RNG_INCREMENT == next + (RNG_TURNS * d - RNG_FACTOR * k) * RNG_MODULUS;
    AddModuli(next, RNG_TURNS * d - RNG_FACTOR * k);
    WrapThenModulus(RNG_FACTOR * seed + RNG_INCREMENT);
  }

  /** Every later position of a block can be drawn. */
  lemma EveryPositionIsDrawn(n: nat, p: nat)
    requires 2 <= n <= SEQUENCE_LEN && 1 <= p < n
    ensures Pick(PreviousSeed((p - 1) * 0x1_0000), n) == p
  {
    SeedsHavePredecessors((p - 1) * 0x1_0000);
    PickOf(PreviousSeed((p - 1) * 0x1_0000), n, p);
  }

  lemma PickOf(seed: uint32, n: nat, p: nat)
    requires 2 <= n <= SEQUENCE_LEN && 1 <= p < n && NextSeed(seed) as int == (p - 1) * 0x1_0000
    ensures Pick(seed, n) == p
  {
    assert RngValue(NextSeed(seed)) as int == p - 1;
    SmallRemainder(p - 1, n - 1);
  }

  lemma SmallRemainder(x: nat, m: nat)
    requires x < m
    ensures x % m == x
  {
  }

  // ----- the blocks ---------------------------------------------------------------

  /** The seed after so many draws. */
  function SeedAfter(seed: uint32, draws: nat): uint32 {
    if draws == 0 then seed else NextSeed(SeedAfter(seed, draws - 1))
  }

  /** A block of its own, its positions below `p` done: each has changed places with the one
      drawn for it. */
  function BlockAfter(n: nat, sync: uint8, seed: uint32, p: nat): (b: seq<uint8>)
    requires 2 <= n <= SEQUENCE_LEN && sync < n && p <= n
    ensures |b| == n
    decreases p
  {
    if p <= 1 then InitialBlock(n, sync)
    else Swap(BlockAfter(n, sync, seed, p - 1), p - 1, Pick(SeedAfter(seed, p - 2), n))
  }

  function Block(s: seq<uint8>, o: nat, n: nat): seq<uint8>
    requires o + n <= |s|
  {
    s[o..o + n]
  }

  lemma TurnElsewhere(n: nat, s: seq<uint8>, seed: uint32, i: nat, o: nat)
    requires 2 <= n <= SEQUENCE_LEN && i < |s| && |s| % n == 0 && o % n == 0 && o + n <= |s|
    requires i < o || o + n <= i
    ensures Block(ShuffleTurn(n, s, seed, i).0, o, n) == Block(s, o, n)
  {
    var start := i - i % n;
    BlockStart(i, n);
    InsideBlock(i, n, |s|);
    if i < o {
      StartsApart(start, o, n);
    } else if start < o + n {
      OnlyStart(start, o, n);
    }
    if i % n != 0 {
      SwapElsewhere(s, n, start, i % n, Pick(seed, n), o);
    }
  }

  /** Two block starts less than a block apart are one. */
  lemma OnlyStart(a: nat, b: nat, n: nat)
    requires n > 0 && a % n == 0 && b % n == 0 && b <= a + n && a < b + n && a + n > b
    ensures a == b
  {
    if a < b {
      StartsApart(a, b, n);
    } else if b < a {
      StartsApart(b, a, n);
    }
  }

  lemma {:induction false} NotYetShuffled(n: nat, sync: uint8, seed: uint32, t: nat, i: nat, o: nat)
    requires 2 <= n <= SEQUENCE_LEN && sync < n && t % n == 0 && i <= o && o % n == 0 && o + n <= t
    ensures Block(Shuffle(n, sync, seed, t, i).0, o, n) == InitialBlock(n, sync)
    decreases i
  {
    if i == 0 {
      forall p | 0 <= p < n ensures InitialSequence(n, sync, t)[o + p] == InitialBlock(n, sync)[p] {
        PositionInBlock(o, p, n);
      }
    } else {
      NotYetShuffled(n, sync, seed, t, i - 1, o);
      var (s, sd) := Shuffle(n, sync, seed, t, i - 1);
      TurnElsewhere(n, s, sd, i - 1, o);
    }
  }

  /** The turn for position `p` of the block at `o`. */
  lemma TurnInBlock(n: nat, s: seq<uint8>, seed: uint32, o: nat, p: nat)
    requires 2 <= n <= SEQUENCE_LEN && |s| % n == 0 && o % n == 0 && o + n <= |s| && p < n
    ensures var (r, sd) := ShuffleTurn(n, s, seed, o + p);
            && Block(r, o, n) == (if p == 0 then Block(s, o, n) else Swap(Block(s, o, n), p, Pick(seed, n)))
            && sd == (if p == 0 then seed else NextSeed(seed))
  {
    PositionInBlock(o, p, n);
    if p != 0 {
      SwapInside(s, n, o, p, Pick(seed, n));
    }
  }

  lemma SwapInside(s: seq<uint8>, n: nat, o: nat, p: nat, q: nat)
    requires o + n <= |s| && p < n && q < n
    ensures Block(Swap(s, o + p, o + q), o, n) == Swap(Block(s, o, n), p, q)
  {
  }

  /** The loop before position `p` of the block at `o`, which it entered with the seed `found`. */
  predicate AtPosition(n: nat, sync: uint8, found: uint32, x: (seq<uint8>, uint32), o: nat, p: nat)
    requires 2 <= n <= SEQUENCE_LEN && sync < n && p <= n && o + n <= |x.0|
  {
    Block(x.0, o, n) == BlockAfter(n, sync, found, p) && x.1 == SeedAfter(found, if p == 0 then 0 else p - 1)
  }

  lemma NextPosition(n: nat, sync: uint8, found: uint32, x: (seq<uint8>, uint32), o: nat, p: nat)
    requires 2 <= n <= SEQUENCE_LEN && sync < n && p < n && |x.0| % n == 0 && o % n == 0 && o + n <= |x.0|
    requires AtPosition(n, sync, found, x, o, p)
    ensures AtPosition(n, sync, found, ShuffleTurn(n, x.0, x.1, o + p), o, p + 1)
  {
    TurnInBlock(n, x.0, x.1, o, p);
    var y := ShuffleTurn(n, x.0, x.1, o + p);
    PositionDone(n, sync, found, Block(x.0, o, n), x.1, Block(y.0, o, n), y.1, p);
  }

  lemma PositionDone(n: nat, sync: uint8, found: uint32, b: seq<uint8>, sd: uint32, b': seq<uint8>, sd': uint32, p: nat)
    requires 2 <= n <= SEQUENCE_LEN && sync < n && p < n
    requires b == BlockAfter(n, sync, found, p) && sd == SeedAfter(found, if p == 0 then 0 else p - 1)
    requires b' == (if p == 0 then b else Swap(b, p, Pick(sd, n))) && sd' == (if p == 0 then sd else NextSeed(sd))
    ensures b' == BlockAfter(n, sync, found, p + 1) && sd' == SeedAfter(found, p)
  {
    BlockGrows(n, sync, found, p + 1);
  }

  /** While the loop is in a block it shuffles that one alone, from the seed it found. */
  lemma {:induction false} BlockIsShuffled(n: nat, sync: uint8, seed: uint32, t: nat, o: nat, p: nat)
    requires 2 <= n <= SEQUENCE_LEN && sync < n && t % n == 0 && o % n == 0 && o + n <= t && p <= n
    ensures AtPosition(n, sync, Shuffle(n, sync, seed, t, o).1, Shuffle(n, sync, seed, t, o + p), o, p)
    decreases p
  {
    if p == 0 {
      EntersBlock(n, sync, seed, t, o);
    } else {
      BlockIsShuffled(n, sync, seed, t, o, p - 1);
      StepsOn(n, sync, Shuffle(n, sync, seed, t, o).1, seed, t, o, p);
    }
  }

  lemma EntersBlock(n: nat, sync: uint8, seed: uint32, t: nat, o: nat)
    requires 2 <= n <= SEQUENCE_LEN && sync < n && t % n == 0 && o % n == 0 && o + n <= t
    ensures AtPosition(n, sync, Shuffle(n, sync, seed, t, o).1, Shuffle(n, sync, seed, t, o), o, 0)
  {
    NotYetShuffled(n, sync, seed, t, o, o);
  }

  lemma StepsOn(n: nat, sync: uint8, found: uint32, seed: uint32, t: nat, o: nat, p: nat)
    requires 2 <= n <= SEQUENCE_LEN && sync < n && t % n == 0 && o % n == 0 && o + n <= t && 1 <= p <= n
    requires AtPosition(n, sync, found, Shuffle(n, sync, seed, t, o + p - 1), o, p - 1)
    ensures AtPosition(n, sync, found, Shuffle(n, sync, seed, t, o + p), o, p)
  {
    NextPosition(n, sync, found, Shuffle(n, sync, seed, t, o + p - 1), o, p - 1);
    ShuffleGrows(n, sync, seed, t, o + p);
  }

  lemma ShuffleGrows(n: nat, sync: uint8, seed: uint32, t: nat, i: nat)
    requires 2 <= n <= SEQUENCE_LEN && sync < n && t % n == 0 && 0 < i <= t
    ensures var (s, sd) := Shuffle(n, sync, seed, t, i - 1);
            Shuffle(n, sync, seed, t, i) == ShuffleTurn(n, s, sd, i - 1)
  {
  }

  lemma BlockGrows(n: nat, sync: uint8, found: uint32, p: nat)
    requires 2 <= n <= SEQUENCE_LEN && sync < n && 1 <= p <= n
    ensures var b := BlockAfter(n, sync, found, p - 1);
            if p == 1 then BlockAfter(n, sync, found, 1) == b
            else
              && BlockAfter(n, sync, found, p) == Swap(b, p - 1, Pick(SeedAfter(found, p - 2), n))
              && SeedAfter(found, p - 1) == NextSeed(SeedAfter(found, p - 2))
  {
  }

  lemma {:induction false} ShuffledStays(n: nat, sync: uint8, seed: uint32, t: nat, i: nat, o: nat)
    requires 2 <= n <= SEQUENCE_LEN && sync < n && t % n == 0 && o % n == 0 && o + n <= i <= t
    ensures Block(Shuffle(n, sync, seed, t, i).0, o, n) == Block(Shuffle(n, sync, seed, t, o + n).0, o, n)
    decreases i
  {
    if i == o + n {
    } else {
      ShuffledStays(n, sync, seed, t, i - 1, o);
      var (s, sd) := Shuffle(n, sync, seed, t, i - 1);
      TurnElsewhere(n, s, sd, i - 1, o);
    }
  }

  /** The finished sequence, block by block: the block at `o` is the initial block in which
      position 1, then 2, and so on has changed places with the position drawn for it,
      `n - 1` draws from the seed that the block before left; the first starts from the
      given seed. */
  lemma SequenceIsShuffledBlocks(n: nat, sync: uint8, seed: uint32, o: nat)
    requires 2 <= n <= SEQUENCE_LEN && sync < n && o % n == 0 && o + n <= SequenceCount(n)
    ensures SequenceCount(n) % n == 0 && |Sequence(n, sync, seed)| == SequenceCount(n)
    ensures var found := Shuffle(n, sync, seed, SequenceCount(n), o).1;
            && Block(Sequence(n, sync, seed), o, n) == BlockAfter(n, sync, found, n)
            && (o == 0 ==> found == seed)
            && (o + n < SequenceCount(n) ==>
                  Shuffle(n, sync, seed, SequenceCount(n), o + n).1 == SeedAfter(found, n - 1))
  {
    WholeBlocks(n);
    var t := SequenceCount(n);
    BlockIsShuffled(n, sync, seed, t, o, n);
    ShuffledStays(n, sync, seed, t, t, o);
  }
}
