/** The host tool's parser for management frames (parse_frames in tk8620_configurator.py):
    it is called again and again on a growing buffer from which it deletes what it used. */
module ConfigParser {
  import opened ConfigFrames
  import opened ReflectedCrc
  import opened Widths

  /** `buffer.find(MAGIC)` */
  function Find(s: seq<uint8>): (r: int)
    ensures r < 0 ==> forall i :: !OccursAt(s, i)
    ensures r >= 0 ==> OccursAt(s, r) && forall i :: 0 <= i < r ==> !OccursAt(s, i)
  {
    if |s| < |MAGIC| then -1
    else if s[..|MAGIC|] == MAGIC then 0
    else
      var r := Find(s[1..]);
      assert forall i :: i > 0 ==> (OccursAt(s, i) <==> OccursAt(s[1..], i - 1)) by { OccursInTail(s); }
      if r < 0 then -1 else r + 1
  }

  lemma SliceOfTail<T>(s: seq<T>, i: nat, j: nat)
    requires 0 < i <= j <= |s|
    ensures s[1..][i - 1..j - 1] == s[i..j]
  {
  }

  lemma OccursInTail(s: seq<uint8>)
    requires s != []
    ensures forall i :: i > 0 ==> (OccursAt(s, i) <==> OccursAt(s[1..], i - 1))
  {
    forall i | i > 0 ensures OccursAt(s, i) <==> OccursAt(s[1..], i - 1) {
      if i + |MAGIC| <= |s| {
        SliceOfTail(s, i, i + |MAGIC|);
      }
    }
  }

  /** `buffer[-n:]` */
  function Tail(s: seq<uint8>, n: nat): (t: seq<uint8>) {
    if |s| > n then s[|s| - n..] else s
  }

  /** The frames that one call yields, and the buffer it leaves. */
  function Parse(crc: Checksum, buffer: seq<uint8>): (r: (seq<Frame>, seq<uint8>))
    decreases |buffer|, 1
  {
    var start := Find(buffer);
    if start < 0 then ([], Tail(buffer, |MAGIC| - 1))
    else ParseAt(crc, buffer[start..])
  }

  /** The rest of the loop body, with the magic at the front. */
  function ParseAt(crc: Checksum, b: seq<uint8>): (r: (seq<Frame>, seq<uint8>))
    requires OccursAt(b, 0)
    decreases |b|, 0
  {
    if |b| < 12 then ([], b)
    else if b[11] > MAX_PAYLOAD then Parse(crc, b[1..])
    else if |b| < 20 + b[11] then ([], b)
    else
      var raw := b[..20 + b[11]];
      var (frames, rest) := Parse(crc, b[20 + b[11]..]);
      (Checked(crc, raw) + frames, rest)
  }

  function Checked(crc: Checksum, raw: seq<uint8>): (frames: seq<Frame>)
    requires |raw| >= 20
  {
    if !FrameIsValid(crc, raw) then [] else [FrameOf(crc, raw)]
  }

  /** What is left to do after some frames have been yielded. */
  ghost predicate Continues(crc: Checksum, buffer: seq<uint8>, frames: seq<Frame>, rest: seq<uint8>) {
    Parse(crc, buffer) == (frames + Parse(crc, rest).0, Parse(crc, rest).1)
  }

  lemma Finishes(crc: Checksum, buffer: seq<uint8>, frames: seq<Frame>, rest: seq<uint8>)
    requires Continues(crc, buffer, frames, rest) && Parse(crc, rest).0 == []
    ensures Parse(crc, buffer) == (frames, Parse(crc, rest).1)
  {
    assert frames + [] == frames;
  }

  lemma Skips(crc: Checksum, buffer: seq<uint8>, frames: seq<Frame>, b: seq<uint8>)
    requires OccursAt(b, 0) && |b| >= 12 && b[11] > MAX_PAYLOAD
    requires Parse(crc, buffer) == (frames + ParseAt(crc, b).0, ParseAt(crc, b).1)
    ensures Continues(crc, buffer, frames, b[1..])
  {
  }

  lemma Yields(crc: Checksum, buffer: seq<uint8>, frames: seq<Frame>, b: seq<uint8>)
    requires OccursAt(b, 0) && |b| >= 12 && b[11] <= MAX_PAYLOAD && |b| >= 20 + b[11]
    requires Parse(crc, buffer) == (frames + ParseAt(crc, b).0, ParseAt(crc, b).1)
    ensures Continues(crc, buffer, frames + Checked(crc, b[..20 + b[11]]), b[20 + b[11]..])
  {
    FramesAssociate(frames, Checked(crc, b[..20 + b[11]]), Parse(crc, b[20 + b[11]..]).0);
  }

  /** `parse_frames` as it runs. */
  method ParseFrames(crc: Checksum, buffer: seq<uint8>) returns (frames: seq<Frame>, rest: seq<uint8>)
    ensures (frames, rest) == Parse(crc, buffer)
  {
    frames := [];
    rest := buffer;
    assert [] + Parse(crc, buffer).0 == Parse(crc, buffer).0;
    while true
      invariant Continues(crc, buffer, frames, rest)
      decreases |rest|
    {
      var start := Find(rest);
      if start < 0 {
        Finishes(crc, buffer, frames, rest);
        if |rest| > |MAGIC| - 1 {
          rest := rest[|rest| - (|MAGIC| - 1)..];
        }
        return;
      }
      ghost var found := rest;
      rest := rest[start..];
      if |rest| < 12 {
        Finishes(crc, buffer, frames, found);
        return;
      }
      if rest[11] > MAX_PAYLOAD {
        Skips(crc, buffer, frames, rest);
        rest := rest[1..];
        continue;
      }
      var length := 20 + rest[11];
      if |rest| < length {
        Finishes(crc, buffer, frames, found);
        return;
      }
      var raw := rest[..length];
      Yields(crc, buffer, frames, rest);
      rest := rest[length..];
      frames := frames + Checked(crc, raw);
    }
  }

  lemma FramesAssociate(a: seq<Frame>, b: seq<Frame>, c: seq<Frame>)
    ensures (a + b) + c == a + (b + c)
  {
  }

  // ----- Streaming ----------------------------------------------------------------

  lemma OccursInPrefix(a: seq<uint8>, b: seq<uint8>, i: int)
    requires 0 <= i && i + |MAGIC| <= |a|
    ensures OccursAt(a + b, i) <==> OccursAt(a, i)
  {
    assert (a + b)[i..i + |MAGIC|] == a[i..i + |MAGIC|];
  }

  lemma OccursInSuffix(a: seq<uint8>, b: seq<uint8>, i: int)
    requires 0 <= i
    ensures OccursAt(a + b, |a| + i) <==> OccursAt(b, i)
  {
    if i + |MAGIC| <= |b| {
      assert (a + b)[|a| + i..|a| + i + |MAGIC|] == b[i..i + |MAGIC|];
    }
  }

  lemma FirstIsFound(s: seq<uint8>, i: int)
    requires OccursAt(s, i) && forall k :: 0 <= k < i ==> !OccursAt(s, k)
    ensures Find(s) == i
  {
  }

  lemma FindInPrefix(a: seq<uint8>, b: seq<uint8>)
    requires Find(a) >= 0
    ensures Find(a + b) == Find(a)
  {
    var r := Find(a);
    forall i | 0 <= i <= r ensures OccursAt(a + b, i) <==> OccursAt(a, i) {
      OccursInPrefix(a, b, i);
    }
    FirstIsFound(a + b, r);
  }

  /** An occurrence in `s == p + u` is one in `u`, when none starts in `p`. */
  lemma FindShifted(p: seq<uint8>, u: seq<uint8>)
    requires forall i :: 0 <= i < |p| ==> !OccursAt(p + u, i)
    ensures Find(u) < 0 <==> Find(p + u) < 0
    ensures Find(u) >= 0 ==> Find(p + u) == |p| + Find(u)
  {
    var q, r := Find(p + u), Find(u);
    if q >= 0 {
      OccursInSuffix(p, u, q - |p|);
    }
    if r >= 0 {
      OccursInSuffix(p, u, r);
      forall k | 0 <= k < |p| + r ensures !OccursAt(p + u, k) {
        if k >= |p| {
          OccursInSuffix(p, u, k - |p|);
        }
      }
      FirstIsFound(p + u, |p| + r);
    }
  }

  /** Bytes before the last seven, when they hold no magic, do not matter to the search. */
  lemma FindSkips(p: seq<uint8>, t: seq<uint8>, b: seq<uint8>)
    requires Find(p + t) < 0 && (p == [] || |t| == |MAGIC| - 1)
    ensures Find(t + b) < 0 <==> Find(p + t + b) < 0
    ensures Find(t + b) >= 0 ==> Find(p + t + b) == |p| + Find(t + b)
  {
    forall i | 0 <= i < |p| ensures !OccursAt(p + t + b, i) {
      OccursInPrefix(p + t, b, i);
    }
    assert p + t + b == p + (t + b);
    FindShifted(p, t + b);
  }

  lemma TailSplits(a: seq<uint8>)
    ensures var n := if |a| > 7 then |a| - 7 else 0;
            a == a[..n] + Tail(a, 7) && Tail(a, 7) == a[n..]
  {
  }

  lemma TailOfSum(p: seq<uint8>, t: seq<uint8>, b: seq<uint8>)
    requires p == [] || |t| == 7
    ensures Tail(p + t + b, 7) == Tail(t + b, 7)
  {
    assert p + t + b == p + (t + b);
    var u := t + b;
    if p != [] {
      assert Tail(p + u, 7) == (p + u)[|p| + |u| - 7..] == u[|u| - 7..];
    } else {
      assert p + u == u;
    }
  }

  predicate Streams(crc: Checksum, a: seq<uint8>, b: seq<uint8>) {
    var (frames1, rest1) := Parse(crc, a);
    var (frames2, rest2) := Parse(crc, rest1 + b);
    Parse(crc, a + b) == (frames1 + frames2, rest2)
  }

  lemma OnlyTailMatters(crc: Checksum, p: seq<uint8>, t: seq<uint8>, b: seq<uint8>)
    requires Find(p + t) < 0 && (p == [] || |t| == |MAGIC| - 1)
    ensures Parse(crc, p + t + b) == Parse(crc, t + b)
  {
    FindSkips(p, t, b);
    TailOfSum(p, t, b);
    DropFirst(p, t, b);
    SkippedPrefix(crc, p + t + b, |p|, t + b);
  }

  lemma DropFirst<T>(p: seq<T>, t: seq<T>, b: seq<T>)
    ensures (p + t + b)[|p|..] == t + b
  {
  }

  lemma StreamsWithoutMagic(crc: Checksum, a: seq<uint8>, b: seq<uint8>)
    requires Find(a) < 0
    ensures Streams(crc, a, b)
  {
    TailSplits(a);
    var n := if |a| > 7 then |a| - 7 else 0;
    OnlyTailMatters(crc, a[..n], Tail(a, 7), b);
    var frames2 := Parse(crc, Tail(a, 7) + b).0;
    assert [] + frames2 == frames2;
  }

  lemma SkippedPrefix(crc: Checksum, s: seq<uint8>, k: nat, u: seq<uint8>)
    requires k <= |s| && s[k..] == u && Tail(s, 7) == Tail(u, 7)
    requires Find(u) < 0 <==> Find(s) < 0
    requires Find(u) >= 0 ==> Find(s) == k + Find(u)
    ensures Parse(crc, s) == Parse(crc, u)
  {
    if Find(u) >= 0 {
      DropTwice(s, k, Find(u));
    }
  }

  lemma DropTwice<T>(s: seq<T>, k: nat, r: nat)
    requires k + r <= |s|
    ensures s[k + r..] == s[k..][r..]
  {
  }

  /** With the magic at the front nothing is skipped before it. */
  lemma ParseFromMagic(crc: Checksum, c: seq<uint8>)
    requires OccursAt(c, 0)
    ensures Parse(crc, c) == ParseAt(crc, c)
  {
    FirstIsFound(c, 0);
    assert c[0..] == c;
  }

  /** The same frames come out, in the same order, and the same bytes are left, however
      the stream is cut in two. */
  lemma {:induction false} StreamingIsBatch(crc: Checksum, a: seq<uint8>, b: seq<uint8>)
    ensures Streams(crc, a, b)
    decreases |a|, 1
  {
    var start := Find(a);
    if start < 0 {
      StreamsWithoutMagic(crc, a, b);
    } else {
      FindInPrefix(a, b);
      assert (a + b)[start..] == a[start..] + b;
      StreamingFromMagic(crc, a[start..], b);
    }
  }

  lemma {:induction false} StreamingFromMagic(crc: Checksum, c: seq<uint8>, b: seq<uint8>)
    requires OccursAt(c, 0)
    ensures OccursAt(c + b, 0)
    ensures var (frames1, rest1) := ParseAt(crc, c);
            var (frames2, rest2) := Parse(crc, rest1 + b);
            ParseAt(crc, c + b) == (frames1 + frames2, rest2)
    decreases |c|, 0
  {
    OccursInPrefix(c, b, 0);
    ParseFromMagic(crc, c + b);
    if |c| < 12 || (c[11] <= MAX_PAYLOAD && |c| < 20 + c[11]) {
      var all := ParseAt(crc, c + b).0;
      assert [] + all == all;
    } else if c[11] > MAX_PAYLOAD {
      assert (c + b)[1..] == c[1..] + b;
      StreamingIsBatch(crc, c[1..], b);
    } else {
      StreamingIsBatch(crc, c[20 + c[11]..], b);
      FirstFrameStreams(crc, c, b);
    }
  }

  lemma FirstFrameStreams(crc: Checksum, c: seq<uint8>, b: seq<uint8>)
    requires OccursAt(c, 0) && OccursAt(c + b, 0)
    requires |c| >= 12 && c[11] <= MAX_PAYLOAD && |c| >= 20 + c[11]
    requires Streams(crc, c[20 + c[11]..], b)
    ensures var (frames1, rest1) := ParseAt(crc, c);
            var (frames2, rest2) := Parse(crc, rest1 + b);
            ParseAt(crc, c + b) == (frames1 + frames2, rest2)
  {
    var n := 20 + c[11];
    assert (c + b)[..n] == c[..n] && (c + b)[n..] == c[n..] + b && (c + b)[11] == c[11];
    FramesAssociate(Checked(crc, c[..n]), Parse(crc, c[n..]).0, Parse(crc, Parse(crc, c[n..]).1 + b).0);
  }

  /** Any number of reads: each chunk is appended to what the last call left. */
  function ParseChunks(crc: Checksum, chunks: seq<seq<uint8>>): (r: (seq<Frame>, seq<uint8>))
    decreases |chunks|
  {
    if chunks == [] then ([], [])
    else
      var (frames, rest) := ParseChunks(crc, chunks[..|chunks| - 1]);
      var (more, rest') := Parse(crc, rest + chunks[|chunks| - 1]);
      (frames + more, rest')
  }

  function Concat(chunks: seq<seq<uint8>>): seq<uint8> {
    if chunks == [] then [] else Concat(chunks[..|chunks| - 1]) + chunks[|chunks| - 1]
  }

  lemma {:induction false} ChunksAreBatch(crc: Checksum, chunks: seq<seq<uint8>>)
    ensures ParseChunks(crc, chunks) == Parse(crc, Concat(chunks))
    decreases |chunks|
  {
    if chunks == [] {
    } else {
      var n := |chunks| - 1;
      ChunksAreBatch(crc, chunks[..n]);
      StreamingIsBatch(crc, Concat(chunks[..n]), chunks[n]);
    }
  }

  // ----- The parser undoes the builder --------------------------------------------

  function BuildAll(crc: Checksum, fs: seq<Frame>): seq<uint8>
    requires forall i :: 0 <= i < |fs| ==> fs[i].Fits()
  {
    if fs == [] then [] else FrameBuild(crc, fs[0]) + BuildAll(crc, fs[1..])
  }

  lemma BuiltIsParsed(crc: Checksum, f: Frame, more: seq<uint8>)
    requires f.Fits()
    ensures Parse(crc, FrameBuild(crc, f) + more) == ([f] + Parse(crc, more).0, Parse(crc, more).1)
  {
    var b := FrameBuild(crc, f);
    BuiltFrame(crc, f);
    assert b[0..0 + |MAGIC|] == b[..8];
    OccursInPrefix(b, more, 0);
    ParseFromMagic(crc, b + more);
    assert (b + more)[..|b|] == b && (b + more)[|b|..] == more;
    assert (b + more)[11] == b[11];
  }

  /** A stream of built frames parses into exactly those frames and nothing is left; since
      FirmwareCrc and the zlib CRC are equal, this holds for either builder. */
  lemma {:induction false} ParserUndoesBuilder(crc: Checksum, fs: seq<Frame>)
    requires forall i :: 0 <= i < |fs| ==> fs[i].Fits()
    ensures Parse(crc, BuildAll(crc, fs)) == (fs, [])
    decreases |fs|
  {
    if fs == [] {
    } else {
      ParserUndoesBuilder(crc, fs[1..]);
      BuiltIsParsed(crc, fs[0], BuildAll(crc, fs[1..]));
      assert fs == [fs[0]] + fs[1..];
    }
  }

  lemma ToolParsesFirmwareFrame(f: Frame)
    requires f.Fits()
    ensures Parse(ZlibCrc32, FrameBuild(FirmwareCrc, f)) == ([f], [])
  {
    EndsAgree(f, []);
    ParserUndoesBuilder(ZlibCrc32, [f]);
    var b := FrameBuild(ZlibCrc32, f);
    assert [f][1..] == [] && b + [] == b;
  }

  // ----- After noise --------------------------------------------------------------

  lemma MagicOnlyAtFrame(noise: seq<uint8>, b: seq<uint8>)
    requires Find(noise) < 0 && OccursAt(b, 0)
    ensures Find(noise + b) == |noise|
  {
    OccursInSuffix(noise, b, 0);
    forall i | 0 <= i < |noise| ensures !OccursAt(noise + b, i) {
      if i + |MAGIC| <= |noise| {
        OccursInPrefix(noise, b, i);
      } else if OccursAt(noise + b, i) {
        var k := |noise| - i;
        assert (noise + b)[i..i + |MAGIC|][k] == b[0] == b[0..0 + |MAGIC|][0];
        MagicHasNoBorder(k);
      }
    }
    FirstIsFound(noise + b, |noise|);
  }

  /** Like the firmware's filter, the parser finds a built frame after any noise that does
      not contain the magic. */
  lemma NoiseThenBuiltIsParsed(crc: Checksum, noise: seq<uint8>, f: Frame)
    requires Find(noise) < 0 && f.Fits()
    ensures Parse(crc, noise + FrameBuild(crc, f)) == ([f], [])
  {
    var b := FrameBuild(crc, f);
    BuiltFrame(crc, f);
    assert b[0..0 + |MAGIC|] == b[..8];
    MagicOnlyAtFrame(noise, b);
    assert (noise + b)[|noise|..] == b;
    ParseFromMagic(crc, b);
    BuiltIsParsed(crc, f, []);
    assert b + [] == b && [f] + [] == [f];
  }
}
