/** FHSS.c, FHSS.h and random.c as they run: the sequence is filled and shuffled in place,
    and every draw moves the generator's static seed. */
module Fhss {
  import opened FhssSequence
  import opened Widths

  const SYNC_CHANNEL: uint8 := FREQ_COUNT / 2 + 1
  const FREQ_SPREAD := (FREQ_STOP - FREQ_START) / (FREQ_COUNT - 1)

  /** The frequency of a channel, in whole kHz. */
  function Frequency(channel: uint8): (f: nat) {
    (FREQ_START + FREQ_SPREAD * channel) / 1000 * 1000
  }

  lemma Spread()
    ensures FREQ_SPREAD == 512820
  {
  }

  /** Every channel lies in the band, on a whole kHz. */
  lemma FrequencyInBand(channel: uint8)
    requires channel < FREQ_COUNT
    ensures FREQ_START <= Frequency(channel) <= FREQ_STOP && Frequency(channel) % 1000 == 0
    ensures FREQ_START + FREQ_SPREAD * channel < 0x1_0000_0000
  {
    Spread();
  }

  /** Different channels are at least half a MHz apart. */
  lemma ChannelsAreApart(a: uint8, b: uint8)
    requires a < b < FREQ_COUNT
    ensures Frequency(a) + 500_000 <= Frequency(b)
  {
    Spread();
  }

  class Hopper {
    const sequence: array<uint8>
    var ptr: uint8
    var seed: uint32
    var primaryBandCount: uint16

    ghost predicate Valid()
      reads this, sequence
    {
      && sequence.Length == SEQUENCE_LEN && primaryBandCount == SequenceCount(FREQ_COUNT) && ptr < primaryBandCount
      && exists s0: uint32 :: sequence[..primaryBandCount] == Sequence(FREQ_COUNT, SYNC_CHANNEL, s0)
    }

    /** `FHSSrandomiseFHSSsequence` */
    constructor (newSeed: uint32)
      ensures Valid() && fresh(sequence)
      ensures sequence[..primaryBandCount] == Sequence(FREQ_COUNT, SYNC_CHANNEL, newSeed)
    {
      sequence := new uint8[SEQUENCE_LEN](_ => 0);
      primaryBandCount := SequenceCount(FREQ_COUNT);
      ptr, seed := 0, newSeed;
      new;
      Build(newSeed, FREQ_COUNT, SYNC_CHANNEL);
    }

    /** `rngN(max)` */
    method RngN(max: uint8) returns (r: uint8)
      requires max > 0
      modifies this`seed
      ensures seed == NextSeed(old(seed)) && r as int == RngValue(seed) % max
    {
      seed := NextSeed(seed);
      r := RngValue(seed) % max;
    }

    /** `FHSSrandomiseFHSSsequenceBuild` */
    method Build(newSeed: uint32, freqCount: nat, syncChannel: uint8)
      requires sequence.Length == SEQUENCE_LEN && 2 <= freqCount <= SEQUENCE_LEN && syncChannel < freqCount
      requires primaryBandCount == SequenceCount(freqCount)
      modifies this`ptr, this`seed, sequence
      ensures ptr == 0 && sequence[..primaryBandCount] == Sequence(freqCount, syncChannel, newSeed)
    {
      ptr := 0;
      seed := newSeed;
      FillBlocks(freqCount, syncChannel);
      var t := primaryBandCount;
      WholeBlocks(freqCount);
      var i := 0;
      while i < t
        invariant 0 <= i <= t && ptr == 0
        invariant (sequence[..t], seed) == Shuffle(freqCount, syncChannel, newSeed, t, i)
      {
        Turn(freqCount, i);
        i := i + 1;
      }
    }

    /** One turn of the second loop. */
    method Turn(freqCount: nat, i: nat)
      requires sequence.Length == SEQUENCE_LEN && 2 <= freqCount <= SEQUENCE_LEN
      requires i < primaryBandCount <= SEQUENCE_LEN && primaryBandCount as int % freqCount == 0
      modifies this`seed, sequence
      ensures (sequence[..primaryBandCount], seed)
           == ShuffleTurn(freqCount, old(sequence[..primaryBandCount]), old(seed), i)
    {
      if i % freqCount != 0 {
        BlockStart(i, freqCount);
        InsideBlock(i, freqCount, primaryBandCount);
        var offset: uint8 := i / freqCount * freqCount;
        var r := RngN(freqCount - 1);
        var rand: uint8 := r + 1;
        var temp := sequence[i];
        sequence[i] := sequence[offset as int + rand];
        sequence[offset as int + rand] := temp;
      }
    }

    method FillBlocks(freqCount: nat, syncChannel: uint8)
      requires sequence.Length == SEQUENCE_LEN && 2 <= freqCount <= SEQUENCE_LEN && syncChannel < freqCount
      requires primaryBandCount <= SEQUENCE_LEN
      modifies sequence
      ensures sequence[..primaryBandCount] == InitialSequence(freqCount, syncChannel, primaryBandCount)
    {
      var i := 0;
      while i < primaryBandCount
        invariant 0 <= i <= primaryBandCount
        invariant forall k :: 0 <= k < i ==> sequence[k] == InitialAt(freqCount, syncChannel, k % freqCount)
      {
        var p := i % freqCount;
        if p == 0 {
          sequence[i] := syncChannel;
        } else if p == syncChannel {
          sequence[i] := 0;
        } else {
          sequence[i] := p;
        }
        i := i + 1;
      }
    }

    /** `FHSSsetCurrIndex` */
    method SetCurrIndex(value: uint8)
      requires Valid()
      modifies this`ptr
      ensures Valid() && ptr as int == value % SequenceCount(FREQ_COUNT)
    {
      WholeBlocks(FREQ_COUNT);
      ptr := value % primaryBandCount;
    }

    /** `FHSSgetFreq`: for every slot number the frequency of some channel of the band. */
    method GetFreq(slotIdx: uint8) returns (f: uint32)
      requires Valid()
      ensures FREQ_START <= f <= FREQ_STOP && f as int == Frequency(sequence[slotIdx % TEMPLATE_LEN])
    {
      var slot := slotIdx % TEMPLATE_LEN;
      ChannelInRange(slot);
      FrequencyInBand(sequence[slot]);
      f := Frequency(sequence[slot]);
    }

    lemma ChannelInRange(i: nat)
      requires Valid() && i < primaryBandCount
      ensures sequence[i] < FREQ_COUNT
    {
      var s0: uint32 :| sequence[..primaryBandCount] == Sequence(FREQ_COUNT, SYNC_CHANNEL, s0);
      var s := Sequence(FREQ_COUNT, SYNC_CHANNEL, s0);
      EverySequenceIsGood(FREQ_COUNT, SYNC_CHANNEL, s0);
      WholeBlocks(FREQ_COUNT);
      InsideBlock(i, FREQ_COUNT, |s|);
      BlockStart(i, FREQ_COUNT);
      var o := i - i % FREQ_COUNT;
      assert BlockIsRight(s, FREQ_COUNT, SYNC_CHANNEL, o);
      assert s[o..o + FREQ_COUNT][i - o] == s[i];
    }
  }
}
