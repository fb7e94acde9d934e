/**
 * The arithmetic and decision logic of the kernel consumer's sub-buffer
 * read path: packet-index values, lost-packet and discarded-event
 * accounting, metadata-version change detection, the padding and
 * expected-write-length rule, and the data-pending test.
 *
 * Every `kernctl_*` call is replaced by its answer, which is an input:
 * a value, or a negative errno.
 */
module StreamStats {
  import opened FixedWidth

  const EPERM: nat := 1
  const EAGAIN: nat := 11
  const ENOTTY: nat := 25

  /** The answer of a kernel query that reads one value. */
  datatype Answer<T> = Value(v: T) | Failed(err: int)

  predicate WellFormed<T>(a: Answer<T>) {
    a.Failed? ==> a.err < 0
  }

  /** The counters a channel aggregates over its streams (`uint64_t`). */
  datatype Channel = Channel(lostPackets: uint64, discardedEvents: uint64)

  datatype Output = Splice | Mmap

  /** The per-stream state the read path consults and updates. */
  datatype Stream = Stream(
    lastSequenceNumber: uint64,   // UNSET_U64 until the first packet
    lastDiscardedEvents: uint64,
    metadataVersion: uint64,
    resetMetadataFlag: bool,
    netSeqIdx: uint64,            // UNSET_U64 when writing locally
    metadataFlag: bool)

  /* ------------------------------------------------------ index values */

  /** The values `get_index_values` stores in a `struct ctf_packet_index`
      (before their conversion to big endian). */
  datatype PacketIndex = PacketIndex(
    timestampBegin: uint64, timestampEnd: uint64, eventsDiscarded: uint64,
    contentSize: uint64, packetSize: uint64, streamId: uint64,
    streamInstanceId: uint64, packetSeqNum: uint64)

  datatype IndexAnswers = IndexAnswers(
    timestampBegin: Answer<uint64>, timestampEnd: Answer<uint64>,
    eventsDiscarded: Answer<uint64>, contentSize: Answer<uint64>,
    packetSize: Answer<uint64>, streamId: Answer<uint64>,
    instanceId: Answer<uint64>, sequenceNumber: Answer<uint64>)

  predicate WellFormedIndexAnswers(a: IndexAnswers) {
    && WellFormed(a.timestampBegin) && WellFormed(a.timestampEnd)
    && WellFormed(a.eventsDiscarded) && WellFormed(a.contentSize)
    && WellFormed(a.packetSize) && WellFormed(a.streamId)
    && WellFormed(a.instanceId) && WellFormed(a.sequenceNumber)
  }

  /** An answer for a query lttng-modules may not implement: `-ENOTTY`
      stands for the unset value instead of an error. */
  predicate Tolerable(a: Answer<uint64>) {
    a.Value? || a.err == -(ENOTTY as int)
  }

  function OrUnset(a: Answer<uint64>): uint64
    requires Tolerable(a)
  {
    if a.Value? then a.v else UNSET_U64
  }

  datatype IndexResult = IndexOk(index: PacketIndex) | IndexErr(ret: int)

  /** `get_index_values`: the six mandatory fields must all be answered;
      a missing instance id or sequence number (`-ENOTTY`) becomes
      `-1ULL` rather than an error. */
  function GetIndexValues(a: IndexAnswers): (r: IndexResult)
    requires WellFormedIndexAnswers(a)
    ensures r.IndexOk? <==>
              && a.timestampBegin.Value? && a.timestampEnd.Value? && a.eventsDiscarded.Value?
              && a.contentSize.Value? && a.packetSize.Value? && a.streamId.Value?
              && Tolerable(a.instanceId) && Tolerable(a.sequenceNumber)
    ensures r.IndexOk? ==>
              && r.index.timestampBegin == a.timestampBegin.v
              && r.index.timestampEnd == a.timestampEnd.v
              && r.index.eventsDiscarded == a.eventsDiscarded.v
              && r.index.contentSize == a.contentSize.v
              && r.index.packetSize == a.packetSize.v
              && r.index.streamId == a.streamId.v
              && (a.instanceId.Value? ==> r.index.streamInstanceId == a.instanceId.v)
              && (a.instanceId.Failed? ==> r.index.streamInstanceId == UNSET_U64)
              && (a.sequenceNumber.Value? ==> r.index.packetSeqNum == a.sequenceNumber.v)
              && (a.sequenceNumber.Failed? ==> r.index.packetSeqNum == UNSET_U64)
    ensures r.IndexErr? ==> r.ret < 0
    // The error is the first failing query's, in the order they are asked.
    ensures a.timestampBegin.Failed? ==> r == IndexErr(a.timestampBegin.err)
    ensures (a.timestampBegin.Value? && a.timestampEnd.Failed?) ==> r == IndexErr(a.timestampEnd.err)
    ensures (&& a.timestampBegin.Value? && a.timestampEnd.Value?
             && a.eventsDiscarded.Failed?) ==> r == IndexErr(a.eventsDiscarded.err)
    ensures (&& a.timestampBegin.Value? && a.timestampEnd.Value? && a.eventsDiscarded.Value?
             && a.contentSize.Failed?) ==> r == IndexErr(a.contentSize.err)
    ensures (&& a.timestampBegin.Value? && a.timestampEnd.Value? && a.eventsDiscarded.Value?
             && a.contentSize.Value? && a.packetSize.Failed?) ==> r == IndexErr(a.packetSize.err)
    ensures (&& a.timestampBegin.Value? && a.timestampEnd.Value? && a.eventsDiscarded.Value?
             && a.contentSize.Value? && a.packetSize.Value? && a.streamId.Failed?) ==>
              r == IndexErr(a.streamId.err)
    ensures (&& a.timestampBegin.Value? && a.timestampEnd.Value? && a.eventsDiscarded.Value?
             && a.contentSize.Value? && a.packetSize.Value? && a.streamId.Value?
             && !Tolerable(a.instanceId)) ==> r == IndexErr(a.instanceId.err)
    ensures (&& a.timestampBegin.Value? && a.timestampEnd.Value? && a.eventsDiscarded.Value?
             && a.contentSize.Value? && a.packetSize.Value? && a.streamId.Value?
             && Tolerable(a.instanceId) && !Tolerable(a.sequenceNumber)) ==>
              r == IndexErr(a.sequenceNumber.err)
  {
    if a.timestampBegin.Failed? then IndexErr(a.timestampBegin.err)
    else if a.timestampEnd.Failed? then IndexErr(a.timestampEnd.err)
    else if a.eventsDiscarded.Failed? then IndexErr(a.eventsDiscarded.err)
    else if a.contentSize.Failed? then IndexErr(a.contentSize.err)
    else if a.packetSize.Failed? then IndexErr(a.packetSize.err)
    else if a.streamId.Failed? then IndexErr(a.streamId.err)
    else if !Tolerable(a.instanceId) then IndexErr(a.instanceId.err)
    else if !Tolerable(a.sequenceNumber) then IndexErr(a.sequenceNumber.err)
    else IndexOk(PacketIndex(a.timestampBegin.v, a.timestampEnd.v, a.eventsDiscarded.v,
                             a.contentSize.v, a.packetSize.v, a.streamId.v,
                             OrUnset(a.instanceId), OrUnset(a.sequenceNumber)))
  }

  /** With lttng-modules lacking the instance-id and sequence-number
      queries (`-ENOTTY`), the index is the one a newer lttng-modules gives
      with exactly those two fields unset. */
  lemma OlderModulesIndex(a: IndexAnswers)
    requires WellFormedIndexAnswers(a) && GetIndexValues(a).IndexOk?
    ensures
      var older := a.(instanceId := Failed(-(ENOTTY as int)), sequenceNumber := Failed(-(ENOTTY as int)));
      GetIndexValues(older)
        == IndexOk(GetIndexValues(a).index.(streamInstanceId := UNSET_U64, packetSeqNum := UNSET_U64))
  {
  }

  /* ------------------------------------------------------ stream stats */

  datatype StatsOutcome = StatsOutcome(ret: int, stream: Stream, chan: Channel)

  /** The amount `update_stream_stats` adds to the channel's discarded-event
      total when the kernel's counter moves from `last` to `now`: the plain
      difference, or, when the counter went backwards, the difference across
      one wrap-around at 2^(BITS_PER_LONG-1), all in `uint64_t` arithmetic. */
  function DiscardedDelta(bits: LongBits, last: uint64, now: uint64): (d: uint64)
    ensures now >= last ==> d == now - last
    ensures now < last ==> d == Wrap64(HalfLongLimit(bits) - last + now)
  {
    if now < last then Wrap64(HalfLongLimit(bits) - last + now) else now - last
  }

  /** `update_stream_stats`. The sequence number is first checked against
      the last one seen: a first sample (last is `-1ULL`) only records it, a
      larger one counts the packets in between as lost, and anything else is
      an inconsistency that changes nothing and returns -1. Then the
      discarded-event counter's progress is added to the channel total. */
  function UpdateStreamStats(bits: LongBits, s: Stream, c: Channel,
                             seqAnswer: Answer<uint64>, discardedAnswer: Answer<uint64>): (o: StatsOutcome)
    requires WellFormed(seqAnswer) && WellFormed(discardedAnswer)
    // A failed kernel query (other than an unimplemented one) changes nothing.
    ensures !Tolerable(seqAnswer) ==> o == StatsOutcome(seqAnswer.err, s, c)
    ensures Tolerable(seqAnswer) ==>
      var sn := OrUnset(seqAnswer);
      && (s.lastSequenceNumber == UNSET_U64 ==>
            o.stream.lastSequenceNumber == sn && o.chan.lostPackets == c.lostPackets)
      && (s.lastSequenceNumber != UNSET_U64 && sn > s.lastSequenceNumber ==>
            && o.stream.lastSequenceNumber == sn
            && o.chan.lostPackets == Wrap64(c.lostPackets + (sn - s.lastSequenceNumber - 1)))
      && (s.lastSequenceNumber != UNSET_U64 && sn <= s.lastSequenceNumber ==>
            o == StatsOutcome(-1, s, c))
      && (s.lastSequenceNumber == UNSET_U64 || sn > s.lastSequenceNumber ==>
            && o.stream == s.(lastSequenceNumber := sn,
                              lastDiscardedEvents := if discardedAnswer.Value? then discardedAnswer.v
                                                     else s.lastDiscardedEvents)
            && (discardedAnswer.Failed? ==>
                  o.ret == discardedAnswer.err && o.chan.discardedEvents == c.discardedEvents)
            && (discardedAnswer.Value? ==>
                  && o.ret == 0
                  && o.chan.discardedEvents
                     == Wrap64(c.discardedEvents
                               + DiscardedDelta(bits, s.lastDiscardedEvents, discardedAnswer.v))))
    ensures o.ret == 0 || o.ret < 0
  {
    if !Tolerable(seqAnswer) then StatsOutcome(seqAnswer.err, s, c)
    else
      var sn := OrUnset(seqAnswer);
      if s.lastSequenceNumber != UNSET_U64 && sn <= s.lastSequenceNumber then StatsOutcome(-1, s, c)
      else
        var lost := if s.lastSequenceNumber == UNSET_U64 then c.lostPackets
                    else Wrap64(c.lostPackets + (sn - s.lastSequenceNumber - 1));
        var s1 := s.(lastSequenceNumber := sn);
        var c1 := c.(lostPackets := lost);
        match discardedAnswer
        case Failed(e) => StatsOutcome(e, s1, c1)
        case Value(d) =>
          StatsOutcome(0, s1.(lastDiscardedEvents := d),
                       c1.(discardedEvents := Wrap64(c1.discardedEvents
                                                     + DiscardedDelta(bits, s.lastDiscardedEvents, d))))
  }

  /** Feeds `UpdateStreamStats` one packet's (sequence number, discarded
      count) pair at a time, the kernel answering every query. */
  function Replay(bits: LongBits, s: Stream, c: Channel, samples: seq<(uint64, uint64)>): StatsOutcome
    decreases |samples|
  {
    if |samples| == 0 then StatsOutcome(0, s, c)
    else
      var o := Replay(bits, s, c, samples[..|samples| - 1]);
      var last := samples[|samples| - 1];
      UpdateStreamStats(bits, o.stream, o.chan, Value(last.0), Value(last.1))
  }

  /** Each packet's sequence number is larger than the previous one's. */
  predicate StrictlyIncreasingSeq(samples: seq<(uint64, uint64)>) {
    forall i :: 0 < i < |samples| ==> samples[i - 1].0 < samples[i].0
  }

  /** The kernel's discarded-event counter never goes backwards from `start`. */
  predicate NonDecreasingDiscarded(start: uint64, samples: seq<(uint64, uint64)>) {
    && (|samples| > 0 ==> start <= samples[0].1)
    && (forall i :: 0 < i < |samples| ==> samples[i - 1].1 <= samples[i].1)
  }

  /** The totals `ReplayTotals` promises after the samples `samples[..n+1]`. */
  predicate Totals(s: Stream, c: Channel, samples: seq<(uint64, uint64)>, o: StatsOutcome)
    requires |samples| > 0
  {
    var n := |samples| - 1;
    && o.ret == 0
    && o.stream.lastSequenceNumber == samples[n].0
    && o.stream.lastDiscardedEvents == samples[n].1
    && o.chan.lostPackets == Wrap64(c.lostPackets + (samples[n].0 - samples[0].0 - n))
    && o.chan.discardedEvents == Wrap64(c.discardedEvents + (samples[n].1 - s.lastDiscardedEvents))
  }

  /** Accounting over a whole run: starting from the first-sample sentinel,
      for increasing sequence numbers `s0 < ... < sn` the channel loses
      exactly the `sn - s0 - n` packets never seen, and with a counter that
      never wraps it accumulates exactly the discarded events reported since
      the start. */
  lemma {:induction false} ReplayTotals(bits: LongBits, s: Stream, c: Channel,
                                        samples: seq<(uint64, uint64)>)
    requires s.lastSequenceNumber == UNSET_U64
    requires |samples| > 0
    requires forall i :: 0 <= i < |samples| ==> samples[i].0 != UNSET_U64
    requires StrictlyIncreasingSeq(samples)
    requires NonDecreasingDiscarded(s.lastDiscardedEvents, samples)
    ensures Totals(s, c, samples, Replay(bits, s, c, samples))
    decreases |samples|
  {
    var n := |samples| - 1;
    var init := samples[..n];
    if n == 0 {
      assert Replay(bits, s, c, init) == StatsOutcome(0, s, c);
      FirstSample(bits, s, c, samples[0].0, samples[0].1);
    } else {
      assert forall i :: 0 <= i < |init| ==> init[i] == samples[i];
      ReplayTotals(bits, s, c, init);
      ReplayStep(bits, s, c, samples);
    }
  }

  /** The inductive step of `ReplayTotals`, stated on `Replay` alone. */
  lemma ReplayStep(bits: LongBits, s: Stream, c: Channel, samples: seq<(uint64, uint64)>)
    requires |samples| >= 2
    requires var n := |samples| - 1;
             && samples[n - 1].0 != UNSET_U64
             && samples[n - 1].0 < samples[n].0 && samples[n - 1].1 <= samples[n].1
    requires Totals(s, c, samples[..|samples| - 1], Replay(bits, s, c, samples[..|samples| - 1]))
    ensures Totals(s, c, samples, Replay(bits, s, c, samples))
  {
    var n := |samples| - 1;
    var init := samples[..n];
    assert init[n - 1] == samples[n - 1] && init[0] == samples[0];
    var o := Replay(bits, s, c, init);
    assert Replay(bits, s, c, samples)
           == UpdateStreamStats(bits, o.stream, o.chan, Value(samples[n].0), Value(samples[n].1));
    ExtendTotals(bits, s, c, o, samples[n - 1], samples[n], samples[0].0, n);
  }

  /** The inductive step of `ReplayTotals`, on the totals alone. */
  lemma ExtendTotals(bits: LongBits, s: Stream, c: Channel, o: StatsOutcome,
                     prev: (uint64, uint64), next: (uint64, uint64), first: uint64, n: nat)
    requires n >= 1
    requires prev.0 != UNSET_U64 && prev.0 < next.0 && prev.1 <= next.1
    requires o.stream.lastSequenceNumber == prev.0 && o.stream.lastDiscardedEvents == prev.1
    requires o.chan.lostPackets == Wrap64(c.lostPackets + (prev.0 - first - (n - 1)))
    requires o.chan.discardedEvents == Wrap64(c.discardedEvents + (prev.1 - s.lastDiscardedEvents))
    ensures
      var o2 := UpdateStreamStats(bits, o.stream, o.chan, Value(next.0), Value(next.1));
      && o2.ret == 0
      && o2.stream.lastSequenceNumber == next.0
      && o2.stream.lastDiscardedEvents == next.1
      && o2.chan.lostPackets == Wrap64(c.lostPackets + (next.0 - first - n))
      && o2.chan.discardedEvents == Wrap64(c.discardedEvents + (next.1 - s.lastDiscardedEvents))
  {
    NextSample(bits, o.stream, o.chan, next.0, next.1);
    WrapChain(o.chan.lostPackets, c.lostPackets + (prev.0 - first - (n - 1)),
              next.0 - prev.0 - 1, c.lostPackets + (next.0 - first - n));
    WrapChain(o.chan.discardedEvents, c.discardedEvents + (prev.1 - s.lastDiscardedEvents),
              next.1 - prev.1, c.discardedEvents + (next.1 - s.lastDiscardedEvents));
  }

  /** Adding to a reduced running total is adding to the unreduced one. */
  lemma WrapChain(total: int, x: int, y: int, target: int)
    requires total == Wrap64(x)
    requires target == x + y
    ensures Wrap64(total + y) == Wrap64(target)
  {
  }

  /** One step of `ReplayTotals`: the first sample after the sentinel. */
  lemma FirstSample(bits: LongBits, s: Stream, c: Channel, sn: uint64, d: uint64)
    requires s.lastSequenceNumber == UNSET_U64 && s.lastDiscardedEvents <= d
    ensures
      var o := UpdateStreamStats(bits, s, c, Value(sn), Value(d));
      && o.ret == 0 && o.stream.lastSequenceNumber == sn && o.stream.lastDiscardedEvents == d
      && o.chan.lostPackets == c.lostPackets
      && o.chan.discardedEvents == Wrap64(c.discardedEvents + (d - s.lastDiscardedEvents))
  {
  }

  /** One step of `ReplayTotals`: a later sample with a larger sequence number. */
  lemma NextSample(bits: LongBits, s: Stream, c: Channel, sn: uint64, d: uint64)
    requires s.lastSequenceNumber != UNSET_U64 && s.lastSequenceNumber < sn
    requires s.lastDiscardedEvents <= d
    ensures
      var o := UpdateStreamStats(bits, s, c, Value(sn), Value(d));
      && o.ret == 0 && o.stream.lastSequenceNumber == sn && o.stream.lastDiscardedEvents == d
      && o.chan.lostPackets == Wrap64(c.lostPackets + (sn - s.lastSequenceNumber - 1))
      && o.chan.discardedEvents == Wrap64(c.discardedEvents + (d - s.lastDiscardedEvents))
  {
  }

  /** When lttng-modules does not implement sequence numbers (`-ENOTTY`),
      the sentinel is kept and no packet is ever counted as lost. */
  lemma UnimplementedSequenceNeverLoses(bits: LongBits, s: Stream, c: Channel, discarded: Answer<uint64>)
    requires WellFormed(discarded)
    requires s.lastSequenceNumber == UNSET_U64
    ensures
      var o := UpdateStreamStats(bits, s, c, Failed(-(ENOTTY as int)), discarded);
      o.stream.lastSequenceNumber == UNSET_U64 && o.chan.lostPackets == c.lostPackets
  {
  }

  /* -------------------------------------------------- metadata version */

  datatype VersionOutcome = VersionOutcome(ret: int, stream: Stream)

  /** `metadata_stream_check_version`: a kernel version different from the
      stored one replaces it and raises the reset flag; an equal version or
      an unimplemented query (`-ENOTTY`) changes nothing and succeeds; any
      other failure changes nothing and is returned. */
  function CheckMetadataVersion(s: Stream, answer: Answer<uint64>): (o: VersionOutcome)
    requires WellFormed(answer)
    ensures o.ret == 0 <==> Tolerable(answer)
    ensures !Tolerable(answer) ==> o.ret == answer.err
    ensures answer.Value? && answer.v != s.metadataVersion ==>
              o.stream == s.(metadataVersion := answer.v, resetMetadataFlag := true)
    ensures answer.Failed? || answer.v == s.metadataVersion ==> o.stream == s
  {
    match answer
    case Failed(e) => if e == -(ENOTTY as int) then VersionOutcome(0, s) else VersionOutcome(e, s)
    case Value(v) =>
      if s.metadataVersion == v then VersionOutcome(0, s)
      else VersionOutcome(0, s.(metadataVersion := v, resetMetadataFlag := true))
  }

  /** Seeing the same kernel version twice changes nothing the second time. */
  lemma CheckMetadataVersionIdempotent(s: Stream, answer: Answer<uint64>)
    requires WellFormed(answer)
    ensures
      var once := CheckMetadataVersion(s, answer).stream;
      CheckMetadataVersion(once, answer).stream == once
  {
  }

  /** After a check answered with a version, the stored version is the
      kernel's and the reset flag is raised iff the version changed (or was
      already raised). */
  lemma CheckMetadataVersionTracksKernel(s: Stream, v: uint64)
    ensures
      var o := CheckMetadataVersion(s, Value(v)).stream;
      && o.metadataVersion == v
      && (o.resetMetadataFlag <==> s.resetMetadataFlag || v != s.metadataVersion)
  {
  }

  /* ------------------------------------------------ read_subbuffer */

  /** The release rule on the read path's error exits: after a failed query
      the sub-buffer is put back with `kernctl_put_subbuf`, and the code
      returns the put's result: when the put succeeds that is 0 and the
      original error is lost (the padded-size and sub-buffer-size exits). */
  function ReleaseAfterErrorAsWritten(err: int, putRet: int): (ret: int)
    requires err < 0
    ensures putRet == 0 ==> ret == 0
  {
    putRet
  }

  /** The intended release rule: a failed put reports the put's error,
      otherwise the original error is kept. Either way the result is negative. */
  function ReleaseAfterError(err: int, putRet: int): (ret: int)
    requires err < 0 && putRet <= 0
    ensures ret < 0
    ensures putRet == 0 ==> ret == err
    ensures putRet != 0 ==> ret == putRet
  {
    if putRet != 0 then putRet else err
  }

  /** With a successful put, the as-written rule turns a failure into 0. */
  lemma ReleaseAfterErrorLosesFailure(err: int)
    requires err < 0
    ensures ReleaseAfterErrorAsWritten(err, 0) == 0
    ensures ReleaseAfterError(err, 0) == err
  {
  }

  /** The number of bytes the mmap writer must report for the read to be
      complete: the payload alone when streaming to a relay daemon, the
      padded sub-buffer when writing a local trace file. */
  function ExpectedWriteLen(netSeqIdx: uint64, subbufSize: nat, paddedLen: nat): nat
  {
    if netSeqIdx != UNSET_U64 then subbufSize else paddedLen
  }

  /** The hand-off to the tracefile writer: payload size and padding. */
  datatype WriteRequest = WriteRequest(subbufSize: nat, padding: nat)

  datatype ReadAnswers = ReadAnswers(
    nextSubbuf: int,               // kernctl_get_next_subbuf: 0 or a negative errno
    paddedSize: Answer<nat>,       // kernctl_get_padded_subbuf_size
    index: IndexAnswers,           // the queries of get_index_values
    statsSeq: Answer<uint64>,      // the sequence-number query of update_stream_stats
    statsDiscarded: Answer<uint64>,
    version: Answer<uint64>,       // kernctl_get_metadata_version
    subbufSize: Answer<nat>,       // kernctl_get_subbuf_size (mmap output)
    written: int,                  // result of the mmap/splice writer
    putSubbuf: int,                // kernctl_put_subbuf on an error exit
    putNextSubbuf: int)            // kernctl_put_next_subbuf

  predicate WellFormedReadAnswers(a: ReadAnswers) {
    && a.nextSubbuf <= 0
    && WellFormed(a.paddedSize) && WellFormedIndexAnswers(a.index)
    && WellFormed(a.statsSeq) && WellFormed(a.statsDiscarded) && WellFormed(a.version)
    && WellFormed(a.subbufSize)
    && a.putSubbuf <= 0 && a.putNextSubbuf <= 0
  }

  datatype ReadOutcome = ReadOutcome(
    ret: int,
    stream: Stream,
    chan: Channel,
    request: Option<WriteRequest>,  // what was handed to the writer, if anything
    index: Option<PacketIndex>)     // the index entry passed on for writing, if any

  datatype Option<T> = None | Some(value: T)

  /** Metadata and data streams differ before the write: a data stream
      collects its index values and updates its statistics, a metadata
      stream checks its version and never writes an index. */
  function Prepare(bits: LongBits, s: Stream, c: Channel, a: ReadAnswers): (r: Result3)
    requires WellFormedReadAnswers(a)
    ensures r.PrepFailed? ==> r.ret < 0
    ensures r.Prepared? ==> s.metadataFlag || r.index.Some?
    ensures r.PrepFailed? <==>
              if s.metadataFlag then !Tolerable(a.version)
              else GetIndexValues(a.index).IndexErr?
                   || UpdateStreamStats(bits, s, c, a.statsSeq, a.statsDiscarded).ret < 0
    // Data stream: the index values fail first, before any statistic moves.
    ensures !s.metadataFlag && GetIndexValues(a.index).IndexErr? ==>
              r == PrepFailed(ReleaseAfterError(GetIndexValues(a.index).ret, a.putSubbuf), s, c)
    // Data stream: the statistics' update is kept, even when it fails.
    ensures !s.metadataFlag && GetIndexValues(a.index).IndexOk? ==>
              var st := UpdateStreamStats(bits, s, c, a.statsSeq, a.statsDiscarded);
              && r.stream == st.stream && r.chan == st.chan
              && (r.Prepared? ==> r.index == Some(GetIndexValues(a.index).index))
              && (r.PrepFailed? ==> r.ret == ReleaseAfterError(st.ret, a.putSubbuf))
    // Metadata stream: the version check, which never touches the channel.
    ensures s.metadataFlag ==>
              && r.stream == CheckMetadataVersion(s, a.version).stream && r.chan == c
              && (r.Prepared? ==> r.index.None?)
              && (r.PrepFailed? ==> r.ret == ReleaseAfterError(a.version.err, a.putSubbuf))
  {
    if !s.metadataFlag then
      match GetIndexValues(a.index)
      case IndexErr(e) => PrepFailed(ReleaseAfterError(e, a.putSubbuf), s, c)
      case IndexOk(idx) =>
        var st := UpdateStreamStats(bits, s, c, a.statsSeq, a.statsDiscarded);
        if st.ret < 0 then PrepFailed(ReleaseAfterError(st.ret, a.putSubbuf), st.stream, st.chan)
        else Prepared(st.stream, st.chan, Some(idx))
    else
      var v := CheckMetadataVersion(s, a.version);
      if v.ret < 0 then PrepFailed(ReleaseAfterError(v.ret, a.putSubbuf), v.stream, c)
      else Prepared(v.stream, c, None)
  }

  datatype Result3 =
    | Prepared(stream: Stream, chan: Channel, index: Option<PacketIndex>)
    | PrepFailed(ret: int, stream: Stream, chan: Channel)

  /** `lttng_kconsumer_read_subbuffer` from reserving the next sub-buffer to
      the decision to write its index entry (stream rotation and the live
      metadata synchronisation are not part of this model).
      A data sub-buffer's index entry is passed on exactly when every query
      succeeded, the writer reported the expected length, and the sub-buffer
      was released; with mmap output the writer is given the payload size and
      the padding `padded_len - subbuf_size`. A failed size query puts the
      sub-buffer back with the intended release rule `ReleaseAfterError`;
      as written the code returns 0 once the put succeeds. */
  function ReadSubbuffer(bits: LongBits, s: Stream, c: Channel, output: Output, a: ReadAnswers): (o: ReadOutcome)
    requires WellFormedReadAnswers(a)
    requires a.paddedSize.Value? && a.subbufSize.Value? ==> a.subbufSize.v <= a.paddedSize.v
    // Reservation failure: nothing happens.
    ensures a.nextSubbuf != 0 ==> o == ReadOutcome(a.nextSubbuf, s, c, None, None)
    // A metadata stream never produces an index entry.
    ensures s.metadataFlag ==> o.index.None?
    // The padding rule of mmap output.
    ensures output == Mmap && o.request.Some? ==>
              && a.paddedSize.Value? && a.subbufSize.Value?
              && o.request.value == WriteRequest(a.subbufSize.v, a.paddedSize.v - a.subbufSize.v)
    ensures output == Splice && o.request.Some? ==>
              a.paddedSize.Value? && o.request.value == WriteRequest(a.paddedSize.v, 0)
    // The index is written exactly when the whole read went as expected.
    ensures o.index.Some? <==>
              && a.nextSubbuf == 0 && a.paddedSize.Value? && !s.metadataFlag
              && GetIndexValues(a.index).IndexOk?
              && UpdateStreamStats(bits, s, c, a.statsSeq, a.statsDiscarded).ret == 0
              && (output == Mmap ==> a.subbufSize.Value?
                                     && a.written == ExpectedWriteLen(s.netSeqIdx, a.subbufSize.v, a.paddedSize.v))
              && (output == Splice ==> a.written == a.paddedSize.v)
              && a.putNextSubbuf == 0
    ensures o.index.Some? ==> o.index.value == GetIndexValues(a.index).index
    ensures o.index.Some? ==> o.ret == a.written
    // The padded size cannot be read: the sub-buffer is put back.
    ensures a.nextSubbuf == 0 && a.paddedSize.Failed? ==>
              o == ReadOutcome(ReleaseAfterError(a.paddedSize.err, a.putSubbuf), s, c, None, None)
    // Once the padded size is known, the stream and channel are as Prepare left them.
    ensures a.nextSubbuf == 0 && a.paddedSize.Value? ==>
              var p := Prepare(bits, s, c, a);
              && o.stream == p.stream && o.chan == p.chan
              && (p.PrepFailed? ==> o == ReadOutcome(p.ret, p.stream, p.chan, None, None))
    // The payload size cannot be read (mmap output): the sub-buffer is put back.
    ensures a.nextSubbuf == 0 && a.paddedSize.Value? && Prepare(bits, s, c, a).Prepared?
            && output == Mmap && a.subbufSize.Failed? ==>
              && o.ret == ReleaseAfterError(a.subbufSize.err, a.putSubbuf)
              && o.request.None? && o.index.None?
    // The writer is called exactly when every step before it succeeded.
    ensures o.request.Some? <==>
              && a.nextSubbuf == 0 && a.paddedSize.Value? && Prepare(bits, s, c, a).Prepared?
              && (output == Mmap ==> a.subbufSize.Value?)
    ensures o.request.Some? ==> o.ret == (if a.putNextSubbuf != 0 then a.putNextSubbuf else a.written)
  {
    if a.nextSubbuf != 0 then ReadOutcome(a.nextSubbuf, s, c, None, None)
    else match a.paddedSize
      case Failed(e) => ReadOutcome(ReleaseAfterError(e, a.putSubbuf), s, c, None, None)
      case Value(len) =>
        match Prepare(bits, s, c, a)
        case PrepFailed(r, s1, c1) => ReadOutcome(r, s1, c1, None, None)
        case Prepared(s1, c1, idx) =>
          var written :=
            match output
            case Splice => WriteStep(WriteRequest(len, 0), a.written == len)
            case Mmap =>
              match a.subbufSize
              case Failed(e) => WriteFailed(ReleaseAfterError(e, a.putSubbuf))
              case Value(size) =>
                WriteStep(WriteRequest(size, len - size),
                          a.written == ExpectedWriteLen(s.netSeqIdx, size, len));
          match written
          case WriteFailed(r) => ReadOutcome(r, s1, c1, None, None)
          case WriteStep(req, complete) =>
            if a.putNextSubbuf != 0 then ReadOutcome(a.putNextSubbuf, s1, c1, Some(req), None)
            else ReadOutcome(a.written, s1, c1, Some(req), if complete then idx else None)
  }

  datatype WriteResult = WriteStep(request: WriteRequest, complete: bool) | WriteFailed(ret: int)

  /** A data sub-buffer handed to the writer leaves the stream and channel
      exactly as `update_stream_stats` left them, and the writer is given
      the whole padded sub-buffer, payload plus padding. */
  lemma DataReadUpdatesStats(bits: LongBits, s: Stream, c: Channel, output: Output, a: ReadAnswers)
    requires WellFormedReadAnswers(a)
    requires a.paddedSize.Value? && a.subbufSize.Value? ==> a.subbufSize.v <= a.paddedSize.v
    requires !s.metadataFlag
    ensures
      var o := ReadSubbuffer(bits, s, c, output, a);
      var st := UpdateStreamStats(bits, s, c, a.statsSeq, a.statsDiscarded);
      o.request.Some? ==>
        && st.ret == 0 && o.stream == st.stream && o.chan == st.chan
        && o.request.value.subbufSize + o.request.value.padding == a.paddedSize.v
  {
  }

  /** A metadata sub-buffer handed to the writer leaves the stream as the
      version check left it and the channel untouched. */
  lemma MetadataReadChecksVersion(bits: LongBits, s: Stream, c: Channel, output: Output, a: ReadAnswers)
    requires WellFormedReadAnswers(a)
    requires a.paddedSize.Value? && a.subbufSize.Value? ==> a.subbufSize.v <= a.paddedSize.v
    requires s.metadataFlag
    ensures
      var o := ReadSubbuffer(bits, s, c, output, a);
      o.request.Some? ==>
        && Tolerable(a.version)
        && o.stream == CheckMetadataVersion(s, a.version).stream && o.chan == c
        && o.request.value.subbufSize + o.request.value.padding == a.paddedSize.v
  {
  }

  /* -------------------------------------------------- data pending */

  /** `lttng_kconsumer_data_pending`: 1 (data still being extracted) exactly
      when the stream's endpoint is active and a further sub-buffer can be
      reserved; 0 otherwise. */
  function DataPending(endpointActive: bool, nextSubbuf: int): (r: int)
    ensures r == 0 || r == 1
    ensures r == 1 <==> endpointActive && nextSubbuf == 0
  {
    if !endpointActive then 0
    else if nextSubbuf == 0 then 1
    else 0
  }

  /** On an active stream, data is pending exactly when a read would get
      past the reservation of the next sub-buffer instead of returning its
      answer untouched. */
  lemma DataPendingMeansReadable(bits: LongBits, s: Stream, c: Channel, output: Output, a: ReadAnswers)
    requires WellFormedReadAnswers(a)
    requires a.paddedSize.Value? && a.subbufSize.Value? ==> a.subbufSize.v <= a.paddedSize.v
    ensures DataPending(true, a.nextSubbuf) == 1
            <==> ReadSubbuffer(bits, s, c, output, a) != ReadOutcome(a.nextSubbuf, s, c, None, None)
  {
  }
}
