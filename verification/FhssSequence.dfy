/** The frequency hopping sequence (FHSS.c, random.c): blocks of channel numbers, each
    starting with the sync channel, shuffled by a linear congruential generator. */
module FhssSequence {
  import opened Widths

  const FREQ_START := 905300000
  const FREQ_STOP := 925300000
  const FREQ_COUNT := 40
  const SEQUENCE_LEN := 256
  const TEMPLATE_LEN := 128
  const RNG_MAX := 0x7FFF

  // ----- The generator ------------------------------------------------------------

  /** `rng`, as the next seed: the product wraps at 32 bits before the modulus. */
  function NextSeed(seed: uint32): (next: uint32)
    ensures next < 0x8000_0000
  {
    Wrap32(214013 * seed + 2531011) % 0x8000_0000
  }

  function RngValue(seed: uint32): (v: uint16)
    requires seed < 0x8000_0000
    ensures v <= RNG_MAX
  {
    seed / 0x1_0000
  }

  /** `rngN(n - 1) + 1`: a position of a block other than its first. */
  function Pick(seed: uint32, n: nat): (p: nat)
    requires 2 <= n <= SEQUENCE_LEN
    ensures 1 <= p < n
  {
    RngValue(NextSeed(seed)) % (n - 1) + 1
  }

  // ----- Blocks -------------------------------------------------------------------

  /** Each of the channels 0 to n - 1, once. */
  ghost predicate Permutation(b: seq<uint8>, n: nat) {
    && |b| == n
    && (forall p :: 0 <= p < n ==> b[p] < n)
    && (forall p, q :: 0 <= p < q < n ==> b[p] != b[q])
    && (forall c :: 0 <= c < n ==> Holds(b, c))
  }

  ghost predicate Holds(b: seq<uint8>, c: int) {
    exists p :: 0 <= p < |b| && b[p] as int == c
  }

  function Swap<T>(s: seq<T>, i: nat, j: nat): (r: seq<T>)
    requires i < |s| && j < |s|
    ensures |r| == |s| && r[i] == s[j] && r[j] == s[i]
    ensures forall k :: 0 <= k < |s| && k != i && k != j ==> r[k] == s[k]
  {
    s[i := s[j]][j := s[i]]
  }

  lemma SwapPermutes(b: seq<uint8>, n: nat, i: nat, j: nat)
    requires Permutation(b, n) && i < n && j < n
    ensures Permutation(Swap(b, i, j), n)
  {
    var r := Swap(b, i, j);
    forall c | 0 <= c < n ensures Holds(r, c) {
      assert Holds(b, c);
      var p :| 0 <= p < n && b[p] as int == c;
      assert r[if p == i then j else if p == j then i else p] as int == c;
    }
  }

  /** What the first loop writes at position p of each block. */
  function InitialAt(n: nat, sync: uint8, p: nat): uint8
    requires p < n <= SEQUENCE_LEN && sync < n
  {
    if p == 0 then sync else if p == sync then 0 else p
  }

  function InitialBlock(n: nat, sync: uint8): (b: seq<uint8>)
    requires n <= SEQUENCE_LEN && sync < n
  {
    seq(n, p requires 0 <= p < n => InitialAt(n, sync, p))
  }

  lemma InitialBlockPermutes(n: nat, sync: uint8)
    requires n <= SEQUENCE_LEN && sync < n
    ensures Permutation(InitialBlock(n, sync), n)
  {
    var b := InitialBlock(n, sync);
    forall c | 0 <= c < n ensures Holds(b, c) {
      assert b[if c == 0 then sync as int else if c == sync then 0 else c] as int == c;
    }
  }

  // ----- Block arithmetic ---------------------------------------------------------

  lemma BlockStart(i: nat, n: nat)
    requires n > 0
    ensures (i / n) * n == i - i % n && 0 <= i - i % n && (i - i % n) % n == 0
  {
    assert i == n * (i / n) + i % n;
    MultipleOf(i / n, n);
  }

  lemma MultipleOf(q: nat, n: nat)
    requires n > 0
    ensures (n * q) % n == 0 && (q * n) % n == 0
  {
    InBlock(q, 0, n);
    assert n * q + 0 == n * q == q * n;
  }

  lemma InBlock(q: nat, p: nat, n: nat)
    requires p < n
    ensures (n * q + p) % n == p && (n * q + p) / n == q
  {
    var x := n * q + p;
    assert x == n * (x / n) + x % n;
    assert n * (q - x / n) == x % n - p;
    Between(n, q - x / n);
  }

  lemma Between(n: int, k: int)
    requires n > 0 && -n < n * k < n
    ensures k == 0
  {
    if k >= 1 {
      AtLeast(n, k);
    } else if k <= -1 {
      AtLeast(n, -k);
    }
  }

  lemma AtLeast(n: int, k: int)
    requires n > 0 && k >= 1
    ensures n * k >= n
  {
  }

  /** Block starts are at least a block apart. */
  lemma StartsApart(o: nat, t: nat, n: nat)
    requires n > 0 && o % n == 0 && t % n == 0 && o < t
    ensures o + n <= t
  {
    assert o == n * (o / n) && t == n * (t / n);
    assert n * (t / n - o / n) == t - o;
    Positive(n, t / n - o / n);
    AtLeast(n, t / n - o / n);
  }

  lemma Positive(n: int, k: int)
    requires n > 0 && n * k > 0
    ensures k >= 1
  {
  }

  /** Adding a position to a block start. */
  lemma PositionInBlock(o: nat, p: nat, n: nat)
    requires p < n && o % n == 0
    ensures (o + p) % n == p && (o + p) - (o + p) % n == o
  {
    assert o == n * (o / n);
    InBlock(o / n, p, n);
  }

  // ----- The sequence -------------------------------------------------------------

  /** `primaryBandCount`: as many whole blocks as fit. */
  function SequenceCount(n: nat): (t: nat)
    requires 1 <= n <= SEQUENCE_LEN
    ensures t <= SEQUENCE_LEN
  {
    var t := (SEQUENCE_LEN / n) * n;
    assert SEQUENCE_LEN == n * (SEQUENCE_LEN / n) + SEQUENCE_LEN % n;
    t
  }

  function InitialSequence(n: nat, sync: uint8, t: nat): (s: seq<uint8>)
    requires 0 < n <= SEQUENCE_LEN && sync < n
    ensures |s| == t
  {
    seq(t, i requires 0 <= i < t => InitialAt(n, sync, i % n))
  }

  /** One turn of the second loop: a later position of a block changes places with a
      random one of the same block. */
  function ShuffleTurn(n: nat, s: seq<uint8>, seed: uint32, i: nat): (r: (seq<uint8>, uint32))
    requires 2 <= n <= SEQUENCE_LEN && i < |s| && |s| % n == 0
    ensures |r.0| == |s|
  {
    if i % n == 0 then (s, seed)
    else
      InsideBlock(i, n, |s|);
      (Swap(s, i, i - i % n + Pick(seed, n)), NextSeed(seed))
  }

  /** The second loop up to index `i`: the sequence and the generator's seed. */
  function Shuffle(n: nat, sync: uint8, seed: uint32, t: nat, i: nat): (r: (seq<uint8>, uint32))
    requires 2 <= n <= SEQUENCE_LEN && sync < n && i <= t && t % n == 0
    ensures |r.0| == t
  {
    if i == 0 then (InitialSequence(n, sync, t), seed)
    else
      var (s, sd) := Shuffle(n, sync, seed, t, i - 1);
      ShuffleTurn(n, s, sd, i - 1)
  }

  lemma InsideBlock(i: nat, n: nat, t: nat)
    requires n > 0 && i < t && t % n == 0
    ensures 0 <= i - i % n && i - i % n + n <= t
  {
    BlockStart(i, n);
    StartsApart(i - i % n, t, n);
  }

  ghost predicate BlockIsRight(s: seq<uint8>, n: nat, sync: uint8, o: nat)
    requires n > 0 && o + n <= |s|
  {
    s[o] == sync && Permutation(s[o..o + n], n)
  }

  /** Every block is a permutation of all channels that starts with the sync channel. */
  ghost predicate BlocksAreRight(s: seq<uint8>, n: nat, sync: uint8)
    requires n > 0
  {
    forall o :: 0 <= o && o + n <= |s| && o % n == 0 ==> BlockIsRight(s, n, sync, o)
  }

  lemma InitialIsRight(n: nat, sync: uint8, t: nat)
    requires 2 <= n <= SEQUENCE_LEN && sync < n
    ensures BlocksAreRight(InitialSequence(n, sync, t), n, sync)
  {
    var s := InitialSequence(n, sync, t);
    InitialBlockPermutes(n, sync);
    forall o | 0 <= o && o + n <= |s| && o % n == 0 ensures BlockIsRight(s, n, sync, o) {
      forall p | 0 <= p < n ensures s[o + p] == InitialBlock(n, sync)[p] {
        PositionInBlock(o, p, n);
      }
      assert s[o..o + n] == InitialBlock(n, sync);
      assert s[o] == s[o..o + n][0];
    }
  }

  /** A swap of two later positions of one block keeps every block right. */
  lemma SwapKeepsBlocks(s: seq<uint8>, n: nat, sync: uint8, start: nat, p: nat, q: nat)
    requires n > 0 && BlocksAreRight(s, n, sync) && start % n == 0 && start + n <= |s|
    requires 1 <= p < n && 1 <= q < n
    ensures BlocksAreRight(Swap(s, start + p, start + q), n, sync)
  {
    var r := Swap(s, start + p, start + q);
    forall o | 0 <= o && o + n <= |r| && o % n == 0 ensures BlockIsRight(r, n, sync, o) {
      assert BlockIsRight(s, n, sync, o);
      if o == start {
        SwapInBlock(s, n, sync, start, p, q);
      } else {
        if o < start { StartsApart(o, start, n); } else { StartsApart(start, o, n); }
        SwapElsewhere(s, n, start, p, q, o);
      }
    }
  }

  lemma SwapInBlock(s: seq<uint8>, n: nat, sync: uint8, start: nat, p: nat, q: nat)
    requires n > 0 && start + n <= |s| && BlockIsRight(s, n, sync, start) && 1 <= p < n && 1 <= q < n
    ensures BlockIsRight(Swap(s, start + p, start + q), n, sync, start)
  {
    SwapPermutes(s[start..start + n], n, p, q);
    assert Swap(s, start + p, start + q)[start..start + n] == Swap(s[start..start + n], p, q);
  }

  lemma SwapElsewhere(s: seq<uint8>, n: nat, start: nat, p: nat, q: nat, o: nat)
    requires n > 0 && start + n <= |s| && o + n <= |s| && p < n && q < n && (o + n <= start || start + n <= o)
    ensures Swap(s, start + p, start + q)[o..o + n] == s[o..o + n]
  {
  }

  lemma {:induction false} ShuffleIsRight(n: nat, sync: uint8, seed: uint32, t: nat, i: nat)
    requires 2 <= n <= SEQUENCE_LEN && sync < n && i <= t && t % n == 0
    ensures BlocksAreRight(Shuffle(n, sync, seed, t, i).0, n, sync)
    decreases i
  {
    if i == 0 {
      InitialIsRight(n, sync, t);
    } else {
      ShuffleIsRight(n, sync, seed, t, i - 1);
      var (s, sd) := Shuffle(n, sync, seed, t, i - 1);
      TurnIsRight(n, sync, s, sd, i - 1);
    }
  }

  lemma TurnIsRight(n: nat, sync: uint8, s: seq<uint8>, seed: uint32, i: nat)
    requires 2 <= n <= SEQUENCE_LEN && i < |s| && |s| % n == 0 && BlocksAreRight(s, n, sync)
    ensures BlocksAreRight(ShuffleTurn(n, s, seed, i).0, n, sync)
  {
    var p := i % n;
    if p != 0 {
      InsideBlock(i, n, |s|);
      BlockStart(i, n);
      SwapKeepsBlocks(s, n, sync, i - p, p, Pick(seed, n));
    }
  }

  /** The hop sequence for a seed. */
  function Sequence(n: nat, sync: uint8, seed: uint32): (s: seq<uint8>)
    requires 2 <= n <= SEQUENCE_LEN && sync < n
  {
    WholeBlocks(n);
    Shuffle(n, sync, seed, SequenceCount(n), SequenceCount(n)).0
  }

  lemma WholeBlocks(n: nat)
    requires 1 <= n <= SEQUENCE_LEN
    ensures SequenceCount(n) % n == 0 && SequenceCount(n) == n * (SEQUENCE_LEN / n) && SequenceCount(n) >= n
  {
    MultipleOf(SEQUENCE_LEN / n, n);
    AtLeast(n, SEQUENCE_LEN / n);
  }

  /** No channel follows itself, the wrap from the end to the start included. */
  lemma NoRepeats(s: seq<uint8>, n: nat, sync: uint8, i: nat)
    requires n >= 2 && BlocksAreRight(s, n, sync) && |s| % n == 0 && i < |s|
    ensures s[i] != s[if i + 1 == |s| then 0 else i + 1]
  {
    var next := if i + 1 == |s| then 0 else i + 1;
    var o := i - i % n;
    BlockStart(i, n);
    InsideBlock(i, n, |s|);
    assert BlockIsRight(s, n, sync, o);
    var b := s[o..o + n];
    assert b[i - o] == s[i];
    if i + 1 < o + n {
      assert b[i + 1 - o] == s[i + 1];
    } else {
      NextStart(s, n, sync, o);
      assert s[next] == sync == b[0];
    }
  }

  lemma NextStart(s: seq<uint8>, n: nat, sync: uint8, o: nat)
    requires n >= 1 && BlocksAreRight(s, n, sync) && |s| % n == 0 && o % n == 0 && o + n <= |s|
    ensures s[if o + n == |s| then 0 else o + n] == sync
  {
    if o + n == |s| {
      assert BlockIsRight(s, n, sync, 0);
    } else {
      assert o == n * (o / n) && n * (o / n + 1) == o + n;
      MultipleOf(o / n + 1, n);
      StartsApart(o + n, |s|, n);
      assert BlockIsRight(s, n, sync, o + n);
    }
  }

  function Count(s: seq<uint8>, c: uint8): nat {
    if s == [] then 0 else Count(s[..|s| - 1], c) + (if s[|s| - 1] == c then 1 else 0)
  }

  lemma {:induction false} CountConcat(a: seq<uint8>, b: seq<uint8>, c: uint8)
    ensures Count(a + b, c) == Count(a, c) + Count(b, c)
    decreases |b|
  {
    if b == [] {
      assert a + b == a;
    } else {
      assert (a + b)[..|a + b| - 1] == a + b[..|b| - 1];
      CountConcat(a, b[..|b| - 1], c);
    }
  }

  lemma {:induction false} CountDistinct(b: seq<uint8>, c: uint8)
    requires forall p, q :: 0 <= p < q < |b| ==> b[p] != b[q]
    ensures Count(b, c) == if Holds(b, c) then 1 else 0
    decreases |b|
  {
    if b == [] {
    } else {
      var n := |b| - 1;
      CountDistinct(b[..n], c);
      if Holds(b, c) {
        var p :| 0 <= p < |b| && b[p] as int == c;
        if p < n {
          assert b[..n][p] as int == c;
        }
      }
      if Holds(b[..n], c) {
        var p :| 0 <= p < n && b[..n][p] as int == c;
        assert b[p] as int == c;
      }
    }
  }

  lemma {:induction false} CountBlocks(s: seq<uint8>, n: nat, sync: uint8, k: nat, c: uint8)
    requires n > 0 && BlocksAreRight(s, n, sync) && c < n && n * k <= |s|
    ensures Count(s[..n * k], c) == k
    decreases k
  {
    if k > 0 {
      var o := n * (k - 1);
      assert n * k == o + n;
      CountBlocks(s, n, sync, k - 1, c);
      MultipleOf(k - 1, n);
      assert BlockIsRight(s, n, sync, o);
      assert s[..o + n] == s[..o] + s[o..o + n];
      CountConcat(s[..o], s[o..o + n], c);
      assert Holds(s[o..o + n], c);
      CountDistinct(s[o..o + n], c);
    } else {
      assert s[..0] == [];
    }
  }

  /** For every seed: each block is a permutation starting with the sync channel, no two
      neighbours are equal (cyclically), and every channel occurs equally often. */
  lemma EverySequenceIsGood(n: nat, sync: uint8, seed: uint32)
    requires 2 <= n <= SEQUENCE_LEN && sync < n
    ensures var s := Sequence(n, sync, seed);
            && BlocksAreRight(s, n, sync)
            && (forall i :: 0 <= i < |s| ==> s[i] != s[if i + 1 == |s| then 0 else i + 1])
            && (forall c: uint8 :: c < n ==> Count(s, c) == SEQUENCE_LEN / n)
  {
    WholeBlocks(n);
    var s := Sequence(n, sync, seed);
    ShuffleIsRight(n, sync, seed, SequenceCount(n), SequenceCount(n));
    forall i | 0 <= i < |s| ensures s[i] != s[if i + 1 == |s| then 0 else i + 1] {
      NoRepeats(s, n, sync, i);
    }
    forall c: uint8 | c < n ensures Count(s, c) == SEQUENCE_LEN / n {
      CountBlocks(s, n, sync, SEQUENCE_LEN / n, c);
      assert s[..|s|] == s;
    }
  }
}
