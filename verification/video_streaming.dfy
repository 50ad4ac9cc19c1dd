/** Mono video over UDP: an encoded frame is cut into fixed-size datagrams,
    each a packed `Frame` record (a 12-byte `FrameMetadata` header and a
    zero-padded payload), and the receiver stores segments by id until the
    frame is complete, then concatenates them in id order. */
module VideoStreaming {
  import opened Wire

  const MAX_UDP_PACKET_SIZE: nat := 65507
  const METADATA_SIZE: nat := 12
  /** Payload bytes per datagram: what is left of a UDP datagram after the header. */
  const MAX_SIZE: nat := MAX_UDP_PACKET_SIZE - METADATA_SIZE

  /** The packed header: sequenceID u32, segmentID u8, numSegments u8,
      totalLength u32, length u16, in native byte order (little-endian on
      the hosts the program runs on). */
  datatype FrameMetadata = FrameMetadata(
    sequenceId: nat, segmentId: nat, numSegments: nat, totalLength: nat, length: nat)

  predicate MetadataFits(m: FrameMetadata)
  {
    && m.sequenceId < 0x1_0000_0000
    && m.segmentId < 0x100
    && m.numSegments < 0x100
    && m.totalLength < 0x1_0000_0000
    && m.length < 0x1_0000
  }

  function EncodeMetadata(m: FrameMetadata): (r: Bytes)
    requires MetadataFits(m)
    ensures |r| == METADATA_SIZE
  {
    ToLE(m.sequenceId, 4) + ToLE(m.segmentId, 1) + ToLE(m.numSegments, 1)
      + ToLE(m.totalLength, 4) + ToLE(m.length, 2)
  }

  function DecodeMetadata(b: Bytes): (m: FrameMetadata)
    requires |b| >= METADATA_SIZE
    ensures MetadataFits(m)
  {
    FieldSizes();
    FromLEBound(b[0..4]);
    FromLEBound(b[4..5]);
    FromLEBound(b[5..6]);
    FromLEBound(b[6..10]);
    FromLEBound(b[10..12]);
    FrameMetadata(FromLE(b[0..4]), FromLE(b[4..5]), FromLE(b[5..6]), FromLE(b[6..10]), FromLE(b[10..12]))
  }

  lemma MetadataRoundTrip(m: FrameMetadata)
    requires MetadataFits(m)
    ensures DecodeMetadata(EncodeMetadata(m)) == m
  {
    FieldSizes();
    var b := EncodeMetadata(m);
    assert b[0..4] == ToLE(m.sequenceId, 4);
    assert b[4..5] == ToLE(m.segmentId, 1);
    assert b[5..6] == ToLE(m.numSegments, 1);
    assert b[6..10] == ToLE(m.totalLength, 4);
    assert b[10..12] == ToLE(m.length, 2);
    LERoundTrip(m.sequenceId, 4);
    LERoundTrip(m.segmentId, 1);
    LERoundTrip(m.numSegments, 1);
    LERoundTrip(m.totalLength, 4);
    LERoundTrip(m.length, 2);
  }

  /** A `Frame` record: the header and a payload of MAX_SIZE bytes. */
  datatype Frame = Frame(metadata: FrameMetadata, payload: Bytes)

  predicate FrameFits(f: Frame)
  {
    MetadataFits(f.metadata) && |f.payload| == MAX_SIZE
  }

  /** The datagram that carries a frame record: always a full UDP datagram. */
  function EncodeFrame(f: Frame): (r: Bytes)
    requires FrameFits(f)
    ensures |r| == MAX_UDP_PACKET_SIZE
  {
    EncodeMetadata(f.metadata) + f.payload
  }

  /** The frame record overlaid on a received datagram. */
  function DecodeFrame(d: Bytes): (f: Frame)
    requires |d| == MAX_UDP_PACKET_SIZE
    ensures FrameFits(f)
  {
    Frame(DecodeMetadata(d[..METADATA_SIZE]), d[METADATA_SIZE..])
  }

  lemma FrameRoundTrip(f: Frame)
    requires FrameFits(f)
    ensures DecodeFrame(EncodeFrame(f)) == f
  {
    var d := EncodeFrame(f);
    assert d[..METADATA_SIZE] == EncodeMetadata(f.metadata);
    assert d[METADATA_SIZE..] == f.payload;
    MetadataRoundTrip(f.metadata);
  }

  // ---------------------------------------------------------------------
  // Fragmentation

  /** The number of datagrams a frame of n bytes needs: n / MAX_SIZE rounded up. */
  function NumSegments(n: nat): (r: nat)
    ensures n == 0 ==> r == 0
    ensures n > 0 ==> (r - 1) * MAX_SIZE < n <= r * MAX_SIZE
  {
    (n + MAX_SIZE - 1) / MAX_SIZE
  }

  /** The payload length of segment k: a full MAX_SIZE, or what remains. */
  function ChunkLength(n: nat, k: nat): (r: nat)
    requires k < NumSegments(n)
    ensures 0 < r <= MAX_SIZE
    ensures k * MAX_SIZE + r <= n
    ensures k + 1 < NumSegments(n) ==> r == MAX_SIZE
    ensures k + 1 == NumSegments(n) ==> k * MAX_SIZE + r == n
  {
    Min(MAX_SIZE, n - k * MAX_SIZE)
  }

  /** The bytes of the frame that segment k carries. */
  function Chunk(data: Bytes, k: nat): (r: Bytes)
    requires k < NumSegments(|data|)
    ensures |r| == ChunkLength(|data|, k)
  {
    data[k * MAX_SIZE .. k * MAX_SIZE + ChunkLength(|data|, k)]
  }

  /** The header of segment k of an n-byte frame sent as frame number
      `frameId`. Each ctypes field assignment keeps the low bits only. */
  function SegmentMetadata(frameId: nat, n: nat, k: nat): (m: FrameMetadata)
    requires k < NumSegments(n)
    ensures MetadataFits(m)
  {
    FrameMetadata(frameId % 0x1_0000_0000, k % 0x100, NumSegments(n) % 0x100,
                  n % 0x1_0000_0000, ChunkLength(n, k))
  }

  /** The k-th frame record sent for `data`: its header, its chunk, then zeros. */
  function SegmentFrame(frameId: nat, data: Bytes, k: nat): (f: Frame)
    requires k < NumSegments(|data|)
    ensures FrameFits(f)
    ensures f.metadata.length == |Chunk(data, k)|
    ensures f.payload[..f.metadata.length] == Chunk(data, k)
    ensures forall i :: f.metadata.length <= i < MAX_SIZE ==> f.payload[i] == 0
  {
    var chunk := Chunk(data, k);
    var f := Frame(SegmentMetadata(frameId, |data|, k), chunk + Zeros(MAX_SIZE - |chunk|));
    assert f.payload[..|chunk|] == chunk;
    f
  }

  /** The k-th datagram sent for `data`. */
  function Fragment(frameId: nat, data: Bytes, k: nat): (r: Bytes)
    requires k < NumSegments(|data|)
    ensures |r| == MAX_UDP_PACKET_SIZE
  {
    EncodeFrame(SegmentFrame(frameId, data, k))
  }

  /** All datagrams of a frame, in send order. */
  function Fragments(frameId: nat, data: Bytes): (r: seq<Bytes>)
    ensures |r| == NumSegments(|data|)
  {
    seq(NumSegments(|data|), k requires 0 <= k < NumSegments(|data|) => Fragment(frameId, data, k))
  }

  /** A receiver reading segment k's datagram sees exactly the record sent. */
  lemma FragmentDecodes(frameId: nat, data: Bytes, k: nat)
    requires k < NumSegments(|data|)
    ensures DecodeFrame(Fragment(frameId, data, k)) == SegmentFrame(frameId, data, k)
  {
    FrameRoundTrip(SegmentFrame(frameId, data, k));
  }

  /** The concatenation of chunks 0..count-1. */
  function Chunks(data: Bytes, count: nat): Bytes
    requires count <= NumSegments(|data|)
  {
    if count == 0 then [] else Chunks(data, count - 1) + Chunk(data, count - 1)
  }

  /** The first `count` chunks are exactly the first bytes of the frame, so
      all of them together give back the frame and their lengths sum to it. */
  lemma {:induction false} ChunksPrefix(data: Bytes, count: nat)
    requires count <= NumSegments(|data|)
    ensures Chunks(data, count) == data[..Min(count * MAX_SIZE, |data|)]
    ensures count == NumSegments(|data|) ==> Chunks(data, count) == data
  {
    if count > 0 {
      ChunksPrefix(data, count - 1);
      var lo := (count - 1) * MAX_SIZE;
      assert count * MAX_SIZE == lo + MAX_SIZE;
      assert lo < |data|;
      var hi := lo + ChunkLength(|data|, count - 1);
      assert hi == Min(count * MAX_SIZE, |data|);
      assert data[..lo] + data[lo..hi] == data[..hi];
    }
  }

  // ---------------------------------------------------------------------
  // Reassembly

  /** The receiver's state: segments by id, the frame being collected
      (None before the first datagram and after each completion), and the
      number of segments that frame announced. */
  datatype ReceiverState = ReceiverState(segmentMap: map<int, Bytes>, recvFrameId: Option<int>, expectedSegments: nat)

  /** What one datagram leads to: nothing yet, a reassembled frame pushed to
      the output buffer, or the end of the receive loop. */
  datatype StepOutcome = Continue | Pushed(frame: Bytes) | Stopped

  /** The payload bytes a datagram contributes: the first `length` of them
      (slicing the fixed-size payload array stops at its end). */
  function StoredSegment(f: Frame): (r: Bytes)
    ensures |r| == Min(f.metadata.length, |f.payload|) && r == f.payload[..|r|]
  {
    f.payload[..Min(f.metadata.length, |f.payload|)]
  }

  predicate Complete(m: map<int, Bytes>, count: nat)
  {
    forall i :: 0 <= i < count ==> i in m
  }

  /** Segments 0..count-1 concatenated in id order. */
  function Concat(m: map<int, Bytes>, count: nat): Bytes
    requires Complete(m, count)
  {
    if count == 0 then [] else Concat(m, count - 1) + m[count - 1]
  }

  /** The receiver's reaction to one datagram. */
  function ReceiveStep(st: ReceiverState, f: Frame): (r: (ReceiverState, StepOutcome))
    ensures r.1.Continue? ==>
      && r.0.recvFrameId == Some(f.metadata.sequenceId)
      && f.metadata.segmentId in r.0.segmentMap
      && |r.0.segmentMap| != r.0.expectedSegments
    ensures !r.1.Continue? ==> r.0.segmentMap == map[] && r.0.recvFrameId == None
    ensures st.recvFrameId != Some(f.metadata.sequenceId) ==> r.0.expectedSegments == f.metadata.numSegments
    ensures st.recvFrameId == Some(f.metadata.sequenceId) ==> r.0.expectedSegments == st.expectedSegments
  {
    var meta := f.metadata;
    var current := if st.recvFrameId != Some(meta.sequenceId)
                 then ReceiverState(map[], Some(meta.sequenceId), meta.numSegments)
                   else st;
    var m := current.segmentMap[meta.segmentId := StoredSegment(f)];
    if |m| == current.expectedSegments then
      var cleared := ReceiverState(map[], None, current.expectedSegments);
      if Complete(m, current.expectedSegments) then (cleared, Pushed(Concat(m, current.expectedSegments)))
      else (cleared, Stopped)
    else
      (current.(segmentMap := m), Continue)
  }

  /** A datagram of a new frame (a sequence id other than the one being
      collected) discards the old segments and starts over with its own. */
  lemma NewSequenceResets(st: ReceiverState, f: Frame)
    requires st.recvFrameId != Some(f.metadata.sequenceId)
    ensures var (s, o) := ReceiveStep(st, f);
      && (o.Continue? ==> s == ReceiverState(map[f.metadata.segmentId := StoredSegment(f)], Some(f.metadata.sequenceId), f.metadata.numSegments))
      && (!o.Continue? <==> f.metadata.numSegments == 1)
      && (f.metadata.numSegments == 1 && f.metadata.segmentId == 0 ==> o == Pushed(StoredSegment(f)))
      && (f.metadata.numSegments == 1 && f.metadata.segmentId != 0 ==> o == Stopped)
  {
    var m := map[f.metadata.segmentId := StoredSegment(f)];
    assert |m| == 1;
    if f.metadata.numSegments == 1 && f.metadata.segmentId == 0 {
      assert Concat(m, 1) == [] + m[0];
    }
  }

  /** A segment id already stored in the current frame replaces its bytes
      without growing the map. */
  lemma RepeatedSegmentOverwrites(st: ReceiverState, f: Frame)
    requires st.recvFrameId == Some(f.metadata.sequenceId)
    requires f.metadata.segmentId in st.segmentMap
    requires |st.segmentMap| != st.expectedSegments
    ensures ReceiveStep(st, f) == (st.(segmentMap := st.segmentMap[f.metadata.segmentId := StoredSegment(f)]), Continue)
  {
    var m := st.segmentMap[f.metadata.segmentId := StoredSegment(f)];
    assert m.Keys == st.segmentMap.Keys;
  }

  /** When the map reaches the announced count with an id in 0..count-1
      absent, the segments are dropped, nothing is pushed and the loop ends. */
  lemma MissingSegmentStops(st: ReceiverState, f: Frame, missing: nat)
    requires st.recvFrameId == Some(f.metadata.sequenceId)
    requires |st.segmentMap[f.metadata.segmentId := StoredSegment(f)]| == st.expectedSegments
    requires missing < st.expectedSegments && missing !in st.segmentMap && missing != f.metadata.segmentId
    ensures ReceiveStep(st, f) == (ReceiverState(map[], None, st.expectedSegments), Stopped)
  {
    assert missing !in st.segmentMap[f.metadata.segmentId := StoredSegment(f)];
  }

  /** The records overlaid on a run of datagrams. */
  function DecodeAll(ds: seq<Bytes>): (fs: seq<Frame>)
    requires forall i :: 0 <= i < |ds| ==> |ds[i]| == MAX_UDP_PACKET_SIZE
    ensures |fs| == |ds|
    ensures forall i :: 0 <= i < |ds| ==> fs[i] == DecodeFrame(ds[i])
  {
    seq(|ds|, i requires 0 <= i < |ds| => DecodeFrame(ds[i]))
  }

  /** The outcome of a run of datagrams: the final state, the frames pushed,
      and whether the loop ended. Datagrams after the end are not read. */
  function Feed(st: ReceiverState, fs: seq<Frame>): (r: (ReceiverState, seq<Bytes>, bool))
    decreases |fs|
  {
    if fs == [] then (st, [], false)
    else
      var (s, pushed, stopped) := Feed(st, fs[..|fs| - 1]);
      if stopped then (s, pushed, true)
      else
        var (s', o) := ReceiveStep(s, fs[|fs| - 1]);
        (s', pushed + (if o.Pushed? then [o.frame] else []), o.Stopped?)
  }

  /** The datagrams of frame `frameId` arriving in the order of segment ids `ks`. */
  function Datagrams(frameId: nat, data: Bytes, ks: seq<nat>): (r: seq<Bytes>)
    requires forall i :: 0 <= i < |ks| ==> ks[i] < NumSegments(|data|)
    ensures |r| == |ks|
    ensures forall i :: 0 <= i < |ks| ==> r[i] == Fragments(frameId, data)[ks[i]]
  {
    seq(|ks|, i requires 0 <= i < |ks| => Fragment(frameId, data, ks[i]))
  }

  predicate Distinct(ks: seq<nat>)
  {
    forall i, j :: 0 <= i < j < |ks| ==> ks[i] != ks[j]
  }

  /** `ks` lists every segment id 0..count-1 exactly once. */
  predicate IsPermutation(ks: seq<nat>, count: nat)
  {
    && |ks| == count
    && Distinct(ks)
    && (forall i :: 0 <= i < |ks| ==> ks[i] < count)
    && (forall k :: 0 <= k < count ==> k in ks)
  }

  // The reassembly argument below is stated for any frame cut into the
  // segments `segs`; `ChunkSegments` then instantiates it with the cut the
  // sender makes.

  /** Segments concatenated in order. */
  function Flatten(segs: seq<Bytes>): Bytes
  {
    if segs == [] then [] else Flatten(segs[..|segs| - 1]) + segs[|segs| - 1]
  }

  /** Record `f` carries segment k of the frame with sequence id `id` cut
      into `segs`. */
  predicate Carries(f: Frame, id: int, segs: seq<Bytes>, k: nat)
    requires k < |segs|
  {
    && f.metadata.sequenceId == id
    && f.metadata.segmentId == k
    && f.metadata.numSegments == |segs|
    && StoredSegment(f) == segs[k]
  }

  /** The records `fs` carry the segments `ks` of that frame, in that order. */
  predicate CarriesAll(fs: seq<Frame>, id: int, segs: seq<Bytes>, ks: seq<nat>)
  {
    && |fs| == |ks|
    && (forall i :: 0 <= i < |ks| ==> ks[i] < |segs|)
    && (forall i :: 0 <= i < |ks| ==> Carries(fs[i], id, segs, ks[i]))
  }

  /** The segments listed in `ks`, stored by id. */
  function SegmentsOf(segs: seq<Bytes>, ks: seq<nat>): (m: map<int, Bytes>)
    requires forall i :: 0 <= i < |ks| ==> ks[i] < |segs|
    ensures forall k :: k in m <==> k in ks
  {
    map k | k in ks :: segs[k]
  }

  /** What a run of distinct segment ids `ks` of one frame has led to: while
      the frame is incomplete nothing is pushed and the map holds exactly the
      segments received; once all have arrived the frame is pushed and the
      state cleared. The loop never ends on the way. */
  predicate Collected(r: (ReceiverState, seq<Bytes>, bool), id: int, segs: seq<Bytes>, ks: seq<nat>)
    requires forall i :: 0 <= i < |ks| ==> ks[i] < |segs|
  {
    && !r.2
    && (|ks| < |segs| ==>
          && r.1 == []
          && (ks != [] ==>
                && r.0 == ReceiverState(SegmentsOf(segs, ks), Some(id), |segs|)
                && |r.0.segmentMap| == |ks|))
    && (|ks| == |segs| ==>
          r.1 == [Flatten(segs)] && r.0 == ReceiverState(map[], None, |segs|))
  }

  /** Adding a new id to the list adds exactly one entry to the map. */
  lemma SegmentsOfAppend(segs: seq<Bytes>, init: seq<nat>, k: nat)
    requires forall i :: 0 <= i < |init| ==> init[i] < |segs|
    requires k < |segs| && k !in init
    ensures SegmentsOf(segs, init + [k]) == SegmentsOf(segs, init)[k := segs[k]]
    ensures |SegmentsOf(segs, init + [k])| == |SegmentsOf(segs, init)| + 1
  {
    var ks := init + [k];
    assert forall x :: x in ks <==> x in init || x == k;
    assert k !in SegmentsOf(segs, init);
  }

  /** A map holding every segment concatenates, in id order, to the frame. */
  lemma {:induction false} ConcatSegments(m: map<int, Bytes>, segs: seq<Bytes>, count: nat)
    requires count <= |segs|
    requires forall k :: 0 <= k < count ==> k in m && m[k] == segs[k]
    ensures Complete(m, count) && Concat(m, count) == Flatten(segs[..count])
  {
    if count > 0 {
      ConcatSegments(m, segs, count - 1);
      assert segs[..count][..count - 1] == segs[..count - 1];
    }
  }

  /** The map of a collected frame, updated with one more stored segment. */
  lemma StoreInFrame(s: ReceiverState, f: Frame, m: map<int, Bytes>)
    requires s.recvFrameId == Some(f.metadata.sequenceId) && s.expectedSegments == f.metadata.numSegments
    requires m == s.segmentMap[f.metadata.segmentId := StoredSegment(f)]
    ensures |m| != s.expectedSegments ==> ReceiveStep(s, f) == (s.(segmentMap := m), Continue)
    ensures |m| == s.expectedSegments && Complete(m, s.expectedSegments) ==>
      ReceiveStep(s, f) == (ReceiverState(map[], None, s.expectedSegments), Pushed(Concat(m, s.expectedSegments)))
  {
  }

  /** The first datagram of a new frame, with the map it starts. */
  lemma StoreInNewFrame(s: ReceiverState, f: Frame, m: map<int, Bytes>)
    requires s.recvFrameId != Some(f.metadata.sequenceId)
    requires m == map[f.metadata.segmentId := StoredSegment(f)]
    ensures |m| != f.metadata.numSegments ==>
      ReceiveStep(s, f) == (ReceiverState(m, Some(f.metadata.sequenceId), f.metadata.numSegments), Continue)
    ensures |m| == f.metadata.numSegments && Complete(m, f.metadata.numSegments) ==>
      ReceiveStep(s, f) == (ReceiverState(map[], None, f.metadata.numSegments), Pushed(Concat(m, f.metadata.numSegments)))
  {
  }

  /** One more segment of a frame: it joins the segments already collected
      (or starts the frame when none are), and the last one completes it. */
  lemma NextSegment(s: ReceiverState, id: int, segs: seq<Bytes>, init: seq<nat>, k: nat, f: Frame)
    requires |init| < |segs|
    requires forall i :: 0 <= i < |init| ==> init[i] < |segs|
    requires k < |segs| && k !in init
    requires init == [] ==> s.recvFrameId != Some(id)
    requires Collected((s, [], false), id, segs, init)
    requires |init| + 1 == |segs| ==> forall x :: 0 <= x < |segs| ==> x in init + [k]
    requires Carries(f, id, segs, k)
    ensures var (s', o) := ReceiveStep(s, f);
      Collected((s', if o.Pushed? then [o.frame] else [], o.Stopped?), id, segs, init + [k])
  {
    var ks := init + [k];
    SegmentsOfAppend(segs, init, k);
    var m := SegmentsOf(segs, ks);
    if init == [] {
      assert SegmentsOf(segs, init) == map[];
      StoreInNewFrame(s, f, m);
    } else {
      StoreInFrame(s, f, m);
    }
    if |ks| == |segs| {
      ConcatSegments(m, segs, |segs|);
      assert segs[..|segs|] == segs;
    }
  }

  lemma FeedLast(st: ReceiverState, fs: seq<Frame>)
    requires fs != [] && !Feed(st, fs[..|fs| - 1]).2
    ensures var prev := Feed(st, fs[..|fs| - 1]);
      var step := ReceiveStep(prev.0, fs[|fs| - 1]);
      Feed(st, fs) == (step.0, prev.1 + (if step.1.Pushed? then [step.1.frame] else []), step.1.Stopped?)
  {
  }

  /** Feeding the records of distinct segment ids of one frame, starting
      from any state that is not collecting that frame's sequence id: see
      `Collected`. */
  lemma {:induction false} FeedSegments(st: ReceiverState, id: int, segs: seq<Bytes>, ks: seq<nat>, fs: seq<Frame>)
    requires 0 < |segs| && Distinct(ks) && |ks| <= |segs|
    requires CarriesAll(fs, id, segs, ks)
    requires |ks| == |segs| ==> forall x :: 0 <= x < |segs| ==> x in ks
    requires st.recvFrameId != Some(id)
    ensures Collected(Feed(st, fs), id, segs, ks)
    decreases |ks|
  {
    if ks != [] {
      var j := |ks| - 1;
      SplitLast(fs, id, segs, ks);
      FeedSegments(st, id, segs, ks[..j], fs[..j]);
      FeedOneMore(st, id, segs, ks[..j], ks[j], fs);
    }
  }

  /** The run without its last record is a run of the same kind. */
  lemma SplitLast(fs: seq<Frame>, id: int, segs: seq<Bytes>, ks: seq<nat>)
    requires ks != [] && Distinct(ks) && CarriesAll(fs, id, segs, ks)
    ensures Distinct(ks[..|ks| - 1]) && ks[|ks| - 1] !in ks[..|ks| - 1]
    ensures CarriesAll(fs[..|ks| - 1], id, segs, ks[..|ks| - 1])
    ensures ks[..|ks| - 1] + [ks[|ks| - 1]] == ks
  {
  }

  /** One more record of the frame after a run that collected `init`. */
  lemma FeedOneMore(st: ReceiverState, id: int, segs: seq<Bytes>, init: seq<nat>, k: nat, fs: seq<Frame>)
    requires |init| < |segs|
    requires forall i :: 0 <= i < |init| ==> init[i] < |segs|
    requires k < |segs| && k !in init
    requires |init| + 1 == |segs| ==> forall x :: 0 <= x < |segs| ==> x in init + [k]
    requires st.recvFrameId != Some(id)
    requires |fs| == |init| + 1 && Carries(fs[|init|], id, segs, k)
    requires Collected(Feed(st, fs[..|init|]), id, segs, init)
    ensures Collected(Feed(st, fs), id, segs, init + [k])
  {
    var prev := Feed(st, fs[..|init|]);
    if init == [] {
      assert prev.0 == st;
    }
    NextSegment(prev.0, id, segs, init, k, fs[|init|]);
    FeedLast(st, fs);
  }

  // The segments the sender cuts a frame into.

  /** The chunks of `data` in send order. */
  function ChunkSegments(data: Bytes): (segs: seq<Bytes>)
    ensures |segs| == NumSegments(|data|)
    ensures forall k :: 0 <= k < |segs| ==> segs[k] == Chunk(data, k)
  {
    seq(NumSegments(|data|), k requires 0 <= k < NumSegments(|data|) => Chunk(data, k))
  }

  lemma {:induction false} FlattenChunks(data: Bytes, count: nat)
    requires count <= NumSegments(|data|)
    ensures Flatten(ChunkSegments(data)[..count]) == Chunks(data, count)
  {
    if count > 0 {
      FlattenChunks(data, count - 1);
      assert ChunkSegments(data)[..count][..count - 1] == ChunkSegments(data)[..count - 1];
    }
  }

  /** The chunks put back together are the frame. */
  lemma ChunkSegmentsFlatten(data: Bytes)
    ensures Flatten(ChunkSegments(data)) == data
  {
    var segs := ChunkSegments(data);
    FlattenChunks(data, |segs|);
    ChunksPrefix(data, |segs|);
    assert segs[..|segs|] == segs;
  }

  /** The datagrams of segment ids `ks`, as the receiver reads them, carry
      those chunks of the frame. */
  lemma DatagramsCarry(frameId: nat, data: Bytes, ks: seq<nat>)
    requires NumSegments(|data|) < 0x100
    requires forall i :: 0 <= i < |ks| ==> ks[i] < NumSegments(|data|)
    ensures CarriesAll(DecodeAll(Datagrams(frameId, data, ks)), frameId % 0x1_0000_0000, ChunkSegments(data), ks)
  {
    var fs := DecodeAll(Datagrams(frameId, data, ks));
    forall i | 0 <= i < |ks|
      ensures Carries(fs[i], frameId % 0x1_0000_0000, ChunkSegments(data), ks[i])
    {
      FragmentDecodes(frameId, data, ks[i]);
      SegmentCarries(frameId, data, ks[i]);
    }
  }

  /** The record of segment k carries chunk k under the 32-bit frame number. */
  lemma SegmentCarries(frameId: nat, data: Bytes, k: nat)
    requires NumSegments(|data|) < 0x100 && k < NumSegments(|data|)
    ensures Carries(SegmentFrame(frameId, data, k), frameId % 0x1_0000_0000, ChunkSegments(data), k)
  {
    var f := SegmentFrame(frameId, data, k);
    assert StoredSegment(f) == f.payload[..f.metadata.length];
  }

  /** Fragmenting a frame and delivering all its datagrams in any order
      reassembles exactly the original bytes, once. */
  lemma ReassembleAnyOrder(st: ReceiverState, frameId: nat, data: Bytes, order: seq<nat>)
    requires 0 < |data| && NumSegments(|data|) < 0x100
    requires IsPermutation(order, NumSegments(|data|))
    requires st.recvFrameId != Some(frameId % 0x1_0000_0000)
    ensures Feed(st, DecodeAll(Datagrams(frameId, data, order))) == (ReceiverState(map[], None, NumSegments(|data|)), [data], false)
  {
    DatagramsCarry(frameId, data, order);
    FeedSegments(st, frameId % 0x1_0000_0000, ChunkSegments(data), order, DecodeAll(Datagrams(frameId, data, order)));
    ChunkSegmentsFlatten(data);
  }

  /** While some segment id of the frame has not arrived, whatever arrives
      (repeats included), nothing is pushed, the loop goes on, and the
      receiver holds exactly the segments seen so far. */
  predicate Partial(r: (ReceiverState, seq<Bytes>, bool), id: int, segs: seq<Bytes>, ks: seq<nat>)
    requires forall i :: 0 <= i < |ks| ==> ks[i] < |segs|
  {
    && !r.2
    && r.1 == []
    && (ks != [] ==> r.0 == ReceiverState(SegmentsOf(segs, ks), Some(id), |segs|))
  }

  lemma SubsetCard(a: set<int>, b: set<int>)
    requires a <= b
    ensures |a| <= |b|
  {
    var rest := b - a;
    assert b == a + rest && a * rest == {};
  }

  /** The ids 0..n-1. */
  function Ids(n: nat): (r: set<int>)
    ensures forall x :: x in r <==> 0 <= x < n
    ensures |r| == n
  {
    if n == 0 then {} else Ids(n - 1) + {n - 1}
  }

  /** A map keyed within 0..count-1 that lacks one of those ids has fewer
      than `count` entries, so it never reaches the completion test. */
  lemma MissingKeyBelowCount(m: map<int, Bytes>, count: nat, missing: nat)
    requires missing < count && missing !in m
    requires forall k :: k in m ==> 0 <= k < count
    ensures |m| < count
  {
    var others := Ids(count) - {missing};
    assert |others| == count - 1;
    SubsetCard(m.Keys, others);
  }

  /** One more record of the frame, other than the missing one. */
  lemma PartialNext(s: ReceiverState, id: int, segs: seq<Bytes>, init: seq<nat>, k: nat, f: Frame, missing: nat)
    requires forall i :: 0 <= i < |init| ==> init[i] < |segs|
    requires missing < |segs| && missing !in init && k < |segs| && k != missing
    requires init == [] ==> s.recvFrameId != Some(id)
    requires Partial((s, [], false), id, segs, init)
    requires Carries(f, id, segs, k)
    ensures var (s', o) := ReceiveStep(s, f);
      o == Continue && Partial((s', [], false), id, segs, init + [k])
  {
    var ks := init + [k];
    var m := SegmentsOf(segs, ks);
    assert forall x :: x in ks <==> x in init || x == k;
    assert m == SegmentsOf(segs, init)[k := segs[k]];
    MissingKeyBelowCount(m, |segs|, missing);
    if init == [] {
      assert m == map[k := segs[k]];
      StoreInNewFrame(s, f, m);
    } else {
      StoreInFrame(s, f, m);
    }
  }

  /** Feeding records of one frame that never carry segment `missing`. */
  lemma {:induction false} FeedPartial(st: ReceiverState, id: int, segs: seq<Bytes>, ks: seq<nat>, fs: seq<Frame>, missing: nat)
    requires missing < |segs| && missing !in ks
    requires CarriesAll(fs, id, segs, ks)
    requires st.recvFrameId != Some(id)
    ensures Partial(Feed(st, fs), id, segs, ks)
    decreases |ks|
  {
    if ks != [] {
      var j := |ks| - 1;
      var init := ks[..j];
      assert ks == init + [ks[j]];
      assert CarriesAll(fs[..j], id, segs, init) by {
        forall i | 0 <= i < j
          ensures Carries(fs[..j][i], id, segs, init[i])
        {
          assert Carries(fs[i], id, segs, ks[i]);
        }
      }
      FeedPartial(st, id, segs, init, fs[..j], missing);
      var prev := Feed(st, fs[..j]);
      assert init == [] ==> prev.0 == st;
      assert Carries(fs[j], id, segs, ks[j]);
      PartialNext(prev.0, id, segs, init, ks[j], fs[j], missing);
      FeedLast(st, fs);
    }
  }

  /** If any datagram of a frame is withheld, the frame is never pushed and
      the loop goes on, however often the others arrive. */
  lemma WithheldSegmentNeverPushed(st: ReceiverState, frameId: nat, data: Bytes, ks: seq<nat>)
    requires NumSegments(|data|) < 0x100
    requires forall i :: 0 <= i < |ks| ==> ks[i] < NumSegments(|data|)
    requires exists k :: 0 <= k < NumSegments(|data|) && k !in ks
    requires st.recvFrameId != Some(frameId % 0x1_0000_0000)
    ensures Feed(st, DecodeAll(Datagrams(frameId, data, ks))).1 == []
    ensures !Feed(st, DecodeAll(Datagrams(frameId, data, ks))).2
  {
    var missing :| 0 <= missing < NumSegments(|data|) && missing !in ks;
    DatagramsCarry(frameId, data, ks);
    FeedPartial(st, frameId % 0x1_0000_0000, ChunkSegments(data), ks, DecodeAll(Datagrams(frameId, data, ks)), missing);
  }

  // ---------------------------------------------------------------------
  // The streamer object

  class VideoStreamer {
    var sendFrameId: nat
    var segmentMap: map<int, Bytes>
    var recvFrameId: Option<int>
    var expectedSegments: nat
    /** The frame output buffer, as the sequence of frames pushed to it. */
    var frameBuffer: seq<Bytes>

    function State(): ReceiverState
      reads this
    {
      ReceiverState(segmentMap, recvFrameId, expectedSegments)
    }

    constructor ()
      ensures sendFrameId == 0 && segmentMap == map[] && recvFrameId == None && frameBuffer == []
    {
      sendFrameId := 0;
      segmentMap := map[];
      recvFrameId := None;
      expectedSegments := 0;
      frameBuffer := [];
    }

    /** Copies `segment` to the front of the reused payload buffer and zeroes
        the rest of it. */
    static method FillPayload(buf: array<Byte>, segment: Bytes)
      requires buf.Length == MAX_SIZE && |segment| <= MAX_SIZE
      modifies buf
      ensures buf[..] == segment + Zeros(MAX_SIZE - |segment|)
    {
      for i := 0 to |segment|
        invariant buf[..i] == segment[..i]
      {
        buf[i] := segment[i];
      }
      if |segment| < MAX_SIZE {
        for i := |segment| to MAX_SIZE
          invariant buf[..|segment|] == segment
          invariant forall j :: |segment| <= j < i ==> buf[j] == 0
        {
          buf[i] := 0;
        }
      }
      assert buf[..] == buf[..|segment|] + buf[|segment|..];
    }

    /** Sends `data` as consecutive datagrams, stopping at the first failed
        send; the frame counter advances once per call whatever happens. */
    method SendFrame(data: Bytes, send: Bytes -> bool) returns (sent: seq<Bytes>)
      modifies this`sendFrameId
      ensures sendFrameId == old(sendFrameId) + 1
      ensures |sent| <= NumSegments(|data|)
      ensures sent == Fragments(old(sendFrameId), data)[..|sent|]
      ensures forall i :: 0 <= i < |sent| - 1 ==> send(sent[i])
      ensures |sent| < NumSegments(|data|) ==> |sent| > 0 && !send(sent[|sent| - 1])
      ensures (forall i :: 0 <= i < NumSegments(|data|) ==> send(Fragments(old(sendFrameId), data)[i]))
                ==> sent == Fragments(old(sendFrameId), data)
    {
      var payload := new Byte[MAX_SIZE];
      var bytesRemaining := |data|;
      var offset := 0;
      var frameSequence := 0;
      sent := [];
      ghost var all := Fragments(sendFrameId, data);
      while bytesRemaining > 0
        invariant frameSequence <= NumSegments(|data|)
        invariant offset == Min(frameSequence * MAX_SIZE, |data|)
        invariant bytesRemaining == |data| - offset
        invariant bytesRemaining > 0 <==> frameSequence < NumSegments(|data|)
        invariant sent == all[..frameSequence]
        invariant forall i :: 0 <= i < |sent| ==> send(sent[i])
        invariant sendFrameId == old(sendFrameId)
        decreases bytesRemaining
      {
        var bytesToSend := Min(MAX_SIZE, bytesRemaining);
        var meta := FrameMetadata(
          sendFrameId % 0x1_0000_0000,
          frameSequence % 0x100,
          ((|data| + MAX_SIZE - 1) / MAX_SIZE) % 0x100,
          |data| % 0x1_0000_0000,
          bytesToSend);
        SendStep(sendFrameId, data, frameSequence, offset);
        var segment := data[offset .. offset + bytesToSend];
        FillPayload(payload, segment);
        var packet := EncodeFrame(Frame(meta, payload[..]));
        SentPacket(sendFrameId, data, frameSequence, meta, payload[..], packet);
        offset := offset + bytesToSend;
        bytesRemaining := bytesRemaining - bytesToSend;
        sent := sent + [packet];
        frameSequence := frameSequence + 1;
        var ok := send(packet);
        if !ok {
          break;
        }
      }
      sendFrameId := sendFrameId + 1;
    }

    /** The header, the slice and the offsets of one pass of the send loop
        are those of segment k. */
    static lemma SendStep(frameId: nat, data: Bytes, k: nat, offset: nat)
      requires k < NumSegments(|data|) && offset == Min(k * MAX_SIZE, |data|)
      ensures offset == k * MAX_SIZE
      ensures Min(MAX_SIZE, |data| - offset) == ChunkLength(|data|, k)
      ensures data[offset .. offset + Min(MAX_SIZE, |data| - offset)] == Chunk(data, k)
      ensures FrameMetadata(frameId % 0x1_0000_0000, k % 0x100, ((|data| + MAX_SIZE - 1) / MAX_SIZE) % 0x100,
                            |data| % 0x1_0000_0000, Min(MAX_SIZE, |data| - offset))
              == SegmentMetadata(frameId, |data|, k)
      ensures offset + Min(MAX_SIZE, |data| - offset) == Min((k + 1) * MAX_SIZE, |data|)
      ensures |data| - offset - Min(MAX_SIZE, |data| - offset) > 0 <==> k + 1 < NumSegments(|data|)
    {
    }

    /** The datagram built from segment k's header and its filled payload
        buffer is segment k's fragment. */
    static lemma SentPacket(frameId: nat, data: Bytes, k: nat, meta: FrameMetadata, contents: Bytes, packet: Bytes)
      requires k < NumSegments(|data|) && meta == SegmentMetadata(frameId, |data|, k)
      requires contents == Chunk(data, k) + Zeros(MAX_SIZE - |Chunk(data, k)|)
      requires packet == EncodeFrame(Frame(meta, contents))
      ensures packet == Fragments(frameId, data)[k]
    {
    }

    /** One pass of the receive loop on a datagram of at most
        MAX_UDP_PACKET_SIZE bytes (the size of the receive buffer). A shorter
        datagram cannot be overlaid with a frame record: the loop ends
        there, leaving everything as it was. */
    method Step(datagram: Bytes) returns (outcome: StepOutcome)
      requires |datagram| <= MAX_UDP_PACKET_SIZE
      modifies this`segmentMap, this`recvFrameId, this`expectedSegments, this`frameBuffer
      ensures |datagram| < MAX_UDP_PACKET_SIZE ==>
        outcome == Stopped && State() == old(State()) && frameBuffer == old(frameBuffer)
      ensures |datagram| == MAX_UDP_PACKET_SIZE ==>
        && (State(), outcome) == ReceiveStep(old(State()), DecodeFrame(datagram))
        && frameBuffer == old(frameBuffer) + (if outcome.Pushed? then [outcome.frame] else [])
    {
      if |datagram| < MAX_UDP_PACKET_SIZE {
        return Stopped;
      }
      var frameSeg := DecodeFrame(datagram);
      var seqId := frameSeg.metadata.sequenceId;
      var segId := frameSeg.metadata.segmentId;
      var numSegs := frameSeg.metadata.numSegments;
      var segLen := frameSeg.metadata.length;

      // A new frame before the old one completed: drop the old segments.
      if recvFrameId.Some? && Some(seqId) != recvFrameId
         && |segmentMap| > 0 && |segmentMap| < expectedSegments {
        segmentMap := map[];
      }
      // Starting a new frame: record its id and segment count.
      if recvFrameId != Some(seqId) {
        recvFrameId := Some(seqId);
        expectedSegments := numSegs;
        segmentMap := map[];
      }
      segmentMap := segmentMap[segId := frameSeg.payload[..Min(segLen, MAX_SIZE)]];

      if |segmentMap| == expectedSegments {
        var complete, frameBytes := Assemble(segmentMap, expectedSegments);
        segmentMap := map[];
        recvFrameId := None;
        if complete {
          frameBuffer := frameBuffer + [frameBytes];
          outcome := Pushed(frameBytes);
        } else {
          outcome := Stopped;
        }
      } else {
        outcome := Continue;
      }
    }

    /** Concatenates segments 0..count-1 in id order, giving up at the first
        missing one. */
    static method Assemble(segments: map<int, Bytes>, count: nat) returns (complete: bool, frameBytes: Bytes)
      ensures complete == Complete(segments, count)
      ensures complete ==> frameBytes == Concat(segments, count)
    {
      frameBytes := [];
      for i := 0 to count
        invariant Complete(segments, i)
        invariant frameBytes == Concat(segments, i)
      {
        if i !in segments {
          return false, frameBytes;
        }
        frameBytes := frameBytes + segments[i];
      }
      complete := true;
    }

    /** The receive loop over a run of datagrams, until the run is exhausted
        or the loop ends: on a frame with a missing segment, or on the first
        datagram too short to hold a frame record. */
    method StreamThread(datagrams: seq<Bytes>) returns (stopped: bool)
      requires forall i :: 0 <= i < |datagrams| ==> |datagrams[i]| <= MAX_UDP_PACKET_SIZE
      modifies this`segmentMap, this`recvFrameId, this`expectedSegments, this`frameBuffer
      ensures var n := FullCount(datagrams);
        var (s, pushed, stop) := Feed(old(State()), DecodeAll(datagrams[..n]));
        State() == s && frameBuffer == old(frameBuffer) + pushed && stopped == (stop || n < |datagrams|)
    {
      ghost var st := State();
      ghost var n := FullCount(datagrams);
      ghost var fs := DecodeAll(datagrams[..n]);
      ghost var buf := frameBuffer;
      var i := 0;
      while i < |datagrams|
        invariant i <= n
        invariant State() == Feed(st, fs[..i]).0
        invariant frameBuffer == buf + Feed(st, fs[..i]).1
        invariant !Feed(st, fs[..i]).2
      {
        ghost var before := frameBuffer;
        var outcome := Step(datagrams[i]);
        if |datagrams[i]| < MAX_UDP_PACKET_SIZE {
          assert i == n && fs[..i] == fs;
          return true;
        }
        assert fs[i] == DecodeFrame(datagrams[i]);
        StreamStep(st, fs, i, buf, State(), outcome, before, frameBuffer);
        i := i + 1;
        if outcome.Stopped? {
          return true;
        }
      }
      assert fs[..i] == fs;
      return false;
    }
  }

  /** The number of leading datagrams that are full frame records. */
  function FullCount(ds: seq<Bytes>): (n: nat)
    ensures n <= |ds|
    ensures forall i :: 0 <= i < n ==> |ds[i]| == MAX_UDP_PACKET_SIZE
    ensures n < |ds| ==> |ds[n]| != MAX_UDP_PACKET_SIZE
  {
    if ds == [] || |ds[0]| != MAX_UDP_PACKET_SIZE then 0 else 1 + FullCount(ds[1..])
  }

  /** One pass of the receive loop extends the run by one record; when it
      ends the loop, the rest of the run changes nothing. */
  lemma StreamStep(st: ReceiverState, fs: seq<Frame>, i: nat, buf: seq<Bytes>,
                   s: ReceiverState, o: StepOutcome, before: seq<Bytes>, after: seq<Bytes>)
    requires i < |fs| && !Feed(st, fs[..i]).2
    requires (s, o) == ReceiveStep(Feed(st, fs[..i]).0, fs[i])
    requires before == buf + Feed(st, fs[..i]).1
    requires after == before + (if o.Pushed? then [o.frame] else [])
    ensures s == Feed(st, fs[..i + 1]).0
    ensures after == buf + Feed(st, fs[..i + 1]).1
    ensures o.Stopped? == Feed(st, fs[..i + 1]).2
    ensures o.Stopped? ==> Feed(st, fs) == Feed(st, fs[..i + 1])
  {
    assert fs[..i + 1][..i] == fs[..i];
    if o.Stopped? {
      FeedStopped(st, fs, i + 1);
    }
  }

  /** Once a run of datagrams has ended the loop, later datagrams change nothing. */
  lemma {:induction false} FeedStopped(st: ReceiverState, fs: seq<Frame>, i: nat)
    requires i <= |fs| && Feed(st, fs[..i]).2
    ensures Feed(st, fs) == Feed(st, fs[..i])
    decreases |fs| - i
  {
    if i < |fs| {
      assert fs[..i + 1][..i] == fs[..i];
      FeedStopped(st, fs, i + 1);
    } else {
      assert fs[..i] == fs;
    }
  }
}
