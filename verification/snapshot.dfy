/**
 * Snapshot recording of a kernel channel (`lttng_kconsumer_snapshot_channel`):
 * for each stream, flush and snapshot the ring buffer, then walk the
 * consumed position up to the produced position one sub-buffer at a time,
 * copying each sub-buffer out and counting the ones the kernel could not
 * hand over as lost packets.
 *
 * Positions are `unsigned long` values that wrap; the walk compares them
 * as `(long)(consumed - produced) < 0`. Kernel answers, the writer's
 * results and `consumer_get_consume_start_pos` are inputs.
 */
module Snapshot {
  import opened FixedWidth
  import opened StreamStats

  /** Kernel answers for the sub-buffer at one consumed position. */
  datatype SubbufAnswers = SubbufAnswers(
    get: int,             // kernctl_get_subbuf: 0, -EAGAIN, or another negative errno
    size: Answer<nat>,    // kernctl_get_subbuf_size
    padded: Answer<nat>,  // kernctl_get_padded_subbuf_size
    written: int,         // lttng_consumer_on_read_subbuffer_mmap
    put: int)             // kernctl_put_subbuf

  predicate WellFormedSubbuf(a: SubbufAnswers) {
    a.get <= 0 && WellFormed(a.size) && WellFormed(a.padded) && a.put <= 0
  }

  /** The kernel answers well-formedly at every sub-buffer position. */
  ghost predicate WellFormedKernel(kernel: int -> SubbufAnswers) {
    forall pos :: WellFormedSubbuf(kernel(pos))
  }

  /** One iteration of the walk: a sub-buffer skipped because the kernel
      answered `-EAGAIN`, or one copied out (`complete` records whether the
      writer reported the expected length; a mismatch is only logged). */
  datatype Step = Skipped(pos: int) | Copied(pos: int, len: nat, paddedLen: nat, complete: bool)

  /** The loop condition `(long)(consumed - produced) < 0`: the difference,
      as an `unsigned long`, has its sign bit set. */
  predicate Pending(bits: LongBits, consumed: int, produced: int) {
    WrapULong(bits, consumed - produced) >= HalfLongLimit(bits)
  }

  /** `Pending` is the C comparison through the `(long)` cast. */
  lemma PendingIsSignedComparison(bits: LongBits, consumed: int, produced: int)
    ensures Pending(bits, consumed, produced)
            <==> SignedLong(bits, WrapULong(bits, consumed - produced)) < 0
  {
  }

  /** How far `consumed` is behind `produced`, in bytes, as the wrap-around
      comparison sees it: 0 when it is not behind. */
  function Backlog(bits: LongBits, consumed: int, produced: int): (b: nat)
    ensures b <= HalfLongLimit(bits)
    ensures b > 0 <==> Pending(bits, consumed, produced)
  {
    if Pending(bits, consumed, produced) then
      BacklogBound(bits, consumed, produced);
      WrapULong(bits, produced - consumed)
    else 0
  }

  lemma BacklogBound(bits: LongBits, consumed: int, produced: int)
    requires Pending(bits, consumed, produced)
    ensures 0 < WrapULong(bits, produced - consumed) <= HalfLongLimit(bits)
  {
    var w := WrapULong(bits, consumed - produced);
    WrapSub(bits, 0, consumed - produced);
    WrapNegate(bits, w);
  }

  /** After covering `covered` bytes from `start`, the loop condition holds
      exactly while some of the initial backlog remains. */
  lemma PendingTracksRemaining(bits: LongBits, start: int, produced: int, covered: nat)
    requires IsULong(bits, start) && IsULong(bits, produced)
    requires Backlog(bits, start, produced) == 0 ==> covered == 0
    requires -HalfLongLimit(bits) < Backlog(bits, start, produced) - covered
    ensures Pending(bits, WrapULong(bits, start + covered), produced)
            <==> Backlog(bits, start, produced) - covered > 0
  {
    var b := Backlog(bits, start, produced);
    var r := b - covered;
    var w := WrapULong(bits, start + covered);
    if b > 0 {
      assert b == WrapULong(bits, produced - start);
      WrapAdd(bits, start + covered, -produced);
      assert WrapULong(bits, w - produced) == WrapULong(bits, covered - (produced - start));
      WrapSub(bits, covered, produced - start);
      assert WrapULong(bits, w - produced) == WrapULong(bits, -r);
      if r > 0 {
        WrapNegate(bits, r);
      } else {
        WrapInRange(bits, -r);
      }
    } else {
      WrapInRange(bits, start);
      assert w == start;
    }
  }

  function CountSkipped(steps: seq<Step>): nat
    decreases |steps|
  {
    if |steps| == 0 then 0
    else CountSkipped(steps[..|steps| - 1]) + (if steps[|steps| - 1].Skipped? then 1 else 0)
  }

  /** `lost_packets++` on the channel's `uint64_t` counter. */
  function Inc64(x: uint64): (r: uint64)
    ensures r == Wrap64(x + 1)
  {
    if x == UNSET_U64 then 0 else x + 1
  }

  /** The lost-packet count after `n` increments from `lost`. */
  function AddLost(lost: uint64, n: nat): uint64
  {
    if n == 0 then lost else Inc64(AddLost(lost, n - 1))
  }

  /** Incrementing twice in a row is incrementing by the sum. */
  lemma {:induction false} AddLostAdd(lost: uint64, x: nat, y: nat)
    ensures AddLost(AddLost(lost, x), y) == AddLost(lost, x + y)
    decreases y
  {
    if y > 0 {
      AddLostAdd(lost, x, y - 1);
    }
  }

  /** `n` increments add `n` modulo 2^64. */
  lemma {:induction false} AddLostWraps(lost: uint64, n: nat)
    ensures AddLost(lost, n) == Wrap64(lost + n)
  {
    if n > 0 {
      AddLostWraps(lost, n - 1);
      assert AddLost(lost, n) == Inc64(Wrap64(lost + (n - 1)));
      WrapSucc(lost + (n - 1));
    }
  }

  lemma WrapSucc(x: int)
    ensures Wrap64(Wrap64(x) + 1) == Wrap64(x + 1)
  {
  }

  /** What one iteration did is what the kernel answered at its position. */
  predicate StepMatches(relayd: bool, a: SubbufAnswers, step: Step) {
    match step
    case Skipped(_) => a.get == -(EAGAIN as int)
    case Copied(_, len, padded, complete) =>
      && a.get == 0 && a.size == Value(len) && a.padded == Value(padded) && a.put == 0
      && (complete <==> a.written == (if relayd then len else padded))
  }

  predicate StepFaithful(kernel: int -> SubbufAnswers, relayd: bool, step: Step) {
    StepMatches(relayd, kernel(step.pos), step)
  }

  /** The outcome of one iteration of the walk. */
  datatype Visit = Next(step: Step) | Stop(ret: int)

  /** One iteration at position `pos`: `-EAGAIN` skips the sub-buffer, any
      other failure of `get_subbuf` or of the final `put_subbuf` stops the
      walk with that error, and a failed size query releases the sub-buffer
      and stops with a negative result: the intended release rule
      `ReleaseAfterError`, where the code as written returns 0 once the put
      succeeds (`ReleaseAfterErrorAsWritten`). Otherwise the sub-buffer is
      copied; a short write is only logged. */
  function VisitAt(relayd: bool, pos: int, a: SubbufAnswers): (v: Visit)
    requires WellFormedSubbuf(a)
    ensures v.Stop? ==> v.ret < 0
    ensures v.Next? ==> v.step.pos == pos && StepMatches(relayd, a, v.step)
    ensures v.Stop? <==> (a.get < 0 && a.get != -(EAGAIN as int))
                         || (a.get == 0 && (a.size.Failed? || a.padded.Failed? || a.put < 0))
  {
    if a.get < 0 then
      if a.get != -(EAGAIN as int) then Stop(a.get) else Next(Skipped(pos))
    else if a.size.Failed? then Stop(ReleaseAfterError(a.size.err, a.put))
    else if a.padded.Failed? then Stop(ReleaseAfterError(a.padded.err, a.put))
    else if a.put < 0 then Stop(a.put)
    else
      var expected := if relayd then a.size.v else a.padded.v;
      Next(Copied(pos, a.size.v, a.padded.v, a.written == expected))
  }

  predicate Faithful(kernel: int -> SubbufAnswers, relayd: bool, steps: seq<Step>) {
    forall k :: 0 <= k < |steps| ==> StepFaithful(kernel, relayd, steps[k])
  }

  lemma CountSkippedSnoc(steps: seq<Step>, step: Step)
    ensures CountSkipped(steps + [step]) == CountSkipped(steps) + (if step.Skipped? then 1 else 0)
  {
    assert (steps + [step])[..|steps|] == steps;
  }

  /** The bytes covered by `n` sub-buffers of `size` bytes. */
  function Span(n: nat, size: nat): nat
  {
    if n == 0 then 0 else Span(n - 1, size) + size
  }

  /** The k-th iteration visits the position `start + k * maxSb`, wrapped. */
  predicate Positioned(bits: LongBits, start: int, maxSb: nat, steps: seq<Step>) {
    forall k :: 0 <= k < |steps| ==> steps[k].pos == WrapULong(bits, start + Span(k, maxSb))
  }

  /** What the walk of one stream is given: the word size, the start and
      produced positions, the sub-buffer size, whether the stream goes to a
      relay daemon, the kernel's answers and the channel's lost count. */
  datatype WalkParams = WalkParams(bits: LongBits, start: int, produced: int, maxSb: nat,
                                   relayd: bool, kernel: int -> SubbufAnswers, lostIn: uint64)

  ghost predicate ValidParams(p: WalkParams) {
    && IsULong(p.bits, p.start) && IsULong(p.bits, p.produced)
    && 0 < p.maxSb <= HalfLongLimit(p.bits)
    && WellFormedKernel(p.kernel)
  }

  /** The walk's loop variables: the consumed position, the iterations so
      far and the channel's lost-packet count. */
  datatype WalkState = WalkState(consumed: int, steps: seq<Step>, lost: uint64)

  datatype WalkOutcome = WalkOutcome(ret: int, state: WalkState)

  /** The position part of the walk's state after `|steps|` iterations:
      the consumed position is `start` plus the bytes covered so far, the
      k-th iteration visited `start + k * maxSb`, and no more than one
      sub-buffer was covered past the initial backlog. */
  ghost predicate PosInv(p: WalkParams, st: WalkState)
    requires ValidParams(p)
  {
    var b := Backlog(p.bits, p.start, p.produced);
    var covered := Span(|st.steps|, p.maxSb);
    && st.consumed == WrapULong(p.bits, p.start + covered)
    && (b == 0 ==> covered == 0)
    && b - covered > -(p.maxSb as int)
    && Positioned(p.bits, p.start, p.maxSb, st.steps)
  }

  /** The record part of the walk's state: every iteration did what the
      kernel answered, and every skip was counted as a lost packet. */
  ghost predicate TraceInv(p: WalkParams, st: WalkState) {
    && Faithful(p.kernel, p.relayd, st.steps)
    && st.lost == AddLost(p.lostIn, CountSkipped(st.steps))
  }

  ghost predicate WalkInv(p: WalkParams, st: WalkState)
    requires ValidParams(p)
  {
    PosInv(p, st) && TraceInv(p, st)
  }

  lemma WalkStart(p: WalkParams)
    requires ValidParams(p)
    ensures WalkInv(p, WalkState(p.start, [], p.lostIn))
  {
  }

  /** In a walk state, the loop condition holds exactly while some of the
      initial backlog remains. */
  lemma WalkPending(p: WalkParams, st: WalkState)
    requires ValidParams(p) && WalkInv(p, st)
    ensures Pending(p.bits, st.consumed, p.produced)
            <==> Backlog(p.bits, p.start, p.produced) - Span(|st.steps|, p.maxSb) > 0
  {
    PendingTracksRemaining(p.bits, p.start, p.produced, Span(|st.steps|, p.maxSb));
  }

  /** The state after one more iteration with `step`. */
  function Advanced(p: WalkParams, st: WalkState, step: Step): WalkState
    requires ValidParams(p)
  {
    WalkState(WrapULong(p.bits, st.consumed + p.maxSb), st.steps + [step],
              if step.Skipped? then Inc64(st.lost) else st.lost)
  }

  /** One iteration keeps the walk's state: the new step is `maxSb` past the
      previous one, and the lost count grows by one exactly on a skip. */
  lemma WalkStep(p: WalkParams, st: WalkState, step: Step)
    requires ValidParams(p) && WalkInv(p, st)
    requires Pending(p.bits, st.consumed, p.produced)
    requires step.pos == st.consumed && StepFaithful(p.kernel, p.relayd, step)
    ensures WalkInv(p, Advanced(p, st, step))
  {
    PosStep(p, st, step);
    TraceStep(p, st, step);
  }

  lemma PosStep(p: WalkParams, st: WalkState, step: Step)
    requires ValidParams(p) && PosInv(p, st)
    requires Pending(p.bits, st.consumed, p.produced)
    requires step.pos == st.consumed
    ensures PosInv(p, Advanced(p, st, step))
  {
    var covered := Span(|st.steps|, p.maxSb);
    PendingTracksRemaining(p.bits, p.start, p.produced, covered);
    WrapAdd(p.bits, p.start + covered, p.maxSb);
    var st' := Advanced(p, st, step);
    assert |st'.steps| == |st.steps| + 1;
    assert Span(|st'.steps|, p.maxSb) == covered + p.maxSb;
    PositionedSnoc(p.bits, p.start, p.maxSb, st.steps, step);
  }

  lemma TraceStep(p: WalkParams, st: WalkState, step: Step)
    requires ValidParams(p) && TraceInv(p, st)
    requires StepFaithful(p.kernel, p.relayd, step)
    ensures TraceInv(p, Advanced(p, st, step))
  {
    CountSkippedSnoc(st.steps, step);
    FaithfulSnoc(p.kernel, p.relayd, st.steps, step);
  }

  lemma PositionedSnoc(bits: LongBits, start: int, maxSb: nat, steps: seq<Step>, step: Step)
    requires Positioned(bits, start, maxSb, steps)
    requires step.pos == WrapULong(bits, start + Span(|steps|, maxSb))
    ensures Positioned(bits, start, maxSb, steps + [step])
  {
    var steps' := steps + [step];
    assert forall k :: 0 <= k < |steps| ==> steps'[k] == steps[k];
  }

  lemma FaithfulSnoc(kernel: int -> SubbufAnswers, relayd: bool, steps: seq<Step>, step: Step)
    requires Faithful(kernel, relayd, steps)
    requires StepFaithful(kernel, relayd, step)
    ensures Faithful(kernel, relayd, steps + [step])
  {
    var steps' := steps + [step];
    assert forall k :: 0 <= k < |steps| ==> steps'[k] == steps[k];
  }

  /** The loop of the walk, from state `st` on. */
  function WalkFrom(p: WalkParams, st: WalkState): (r: WalkOutcome)
    requires ValidParams(p) && WalkInv(p, st)
    ensures r.ret <= 0 && WalkInv(p, r.state)
    ensures r.ret == 0 ==> !Pending(p.bits, r.state.consumed, p.produced)
    ensures r.ret < 0 ==> && Pending(p.bits, r.state.consumed, p.produced)
                          && VisitAt(p.relayd, r.state.consumed, p.kernel(r.state.consumed)) == Stop(r.ret)
    decreases Backlog(p.bits, p.start, p.produced) - Span(|st.steps|, p.maxSb)
  {
    WalkPending(p, st);
    if !Pending(p.bits, st.consumed, p.produced) then WalkOutcome(0, st)
    else
      match VisitAt(p.relayd, st.consumed, p.kernel(st.consumed))
      case Stop(ret) => WalkOutcome(ret, st)
      case Next(step) =>
        WalkStep(p, st, step);
        WalkFrom(p, Advanced(p, st, step))
  }

  /** When the loop condition fails, the walk took exactly
      ceil(backlog / maxSb) steps. */
  lemma WalkEnd(p: WalkParams, st: WalkState)
    requires ValidParams(p) && WalkInv(p, st)
    requires !Pending(p.bits, st.consumed, p.produced)
    ensures var b := Backlog(p.bits, p.start, p.produced);
            && (b == 0 ==> |st.steps| == 0)
            && (b > 0 ==> |st.steps| > 0 && Span(|st.steps| - 1, p.maxSb) < b <= Span(|st.steps|, p.maxSb))
  {
    WalkPending(p, st);
    if |st.steps| > 0 {
      assert Span(|st.steps|, p.maxSb) == Span(|st.steps| - 1, p.maxSb) + p.maxSb;
    }
  }

  /** The position walk of `lttng_kconsumer_snapshot_channel` for one stream.
      Each iteration advances the consumed position by exactly `maxSb`,
      whether the sub-buffer was copied or skipped on `-EAGAIN` (which counts
      one lost packet), so the k-th iteration visits `start + k * maxSb`. On
      success the walk stops at the first position that is no longer behind
      `produced`; any other kernel failure stops it with a negative result
      (the intended release rule of `ReleaseAfterError` is used). */
  function Walk(p: WalkParams): (r: WalkOutcome)
    requires ValidParams(p)
    ensures r.ret <= 0
    ensures Positioned(p.bits, p.start, p.maxSb, r.state.steps)
    ensures Faithful(p.kernel, p.relayd, r.state.steps)
    ensures r.state.lost == AddLost(p.lostIn, CountSkipped(r.state.steps))
    ensures r.state.consumed == WrapULong(p.bits, p.start + Span(|r.state.steps|, p.maxSb))
    ensures r.ret == 0 ==> !Pending(p.bits, r.state.consumed, p.produced)
    ensures r.ret < 0 ==> && Pending(p.bits, r.state.consumed, p.produced)
                          && VisitAt(p.relayd, r.state.consumed, p.kernel(r.state.consumed)) == Stop(r.ret)
  {
    WalkStart(p);
    WalkFrom(p, WalkState(p.start, [], p.lostIn))
  }

  /** The lost count the walk starts from only shifts the count it ends
      with: where the walk stops, how, and what it did on the way do not
      depend on it. */
  lemma {:induction false} WalkFromIgnoresLost(p: WalkParams, st: WalkState, l: uint64)
    requires ValidParams(p) && WalkInv(p, st)
    ensures WalkInv(p.(lostIn := l), Shifted(st, l))
    ensures var r := WalkFrom(p, st);
            var r' := WalkFrom(p.(lostIn := l), Shifted(st, l));
            r'.ret == r.ret && r'.state.steps == r.state.steps && r'.state.consumed == r.state.consumed
    decreases Backlog(p.bits, p.start, p.produced) - Span(|st.steps|, p.maxSb)
  {
    var p' := p.(lostIn := l);
    var st' := Shifted(st, l);
    ShiftedInv(p, st, l);
    WalkPending(p, st);
    if Pending(p.bits, st.consumed, p.produced) {
      var v := VisitAt(p.relayd, st.consumed, p.kernel(st.consumed));
      if v.Next? {
        WalkStep(p, st, v.step);
        var next := Advanced(p, st, v.step);
        ShiftedAdvance(p, st, v.step, l);
        assert Span(|next.steps|, p.maxSb) == Span(|st.steps|, p.maxSb) + p.maxSb;
        WalkFromIgnoresLost(p, next, l);
        assert WalkFrom(p, st) == WalkFrom(p, next);
        assert WalkFrom(p', st') == WalkFrom(p', Shifted(next, l));
      }
    }
  }

  /** A walk state whose lost count starts from `l` instead. */
  function Shifted(st: WalkState, l: uint64): WalkState {
    st.(lost := AddLost(l, CountSkipped(st.steps)))
  }

  lemma ShiftedInv(p: WalkParams, st: WalkState, l: uint64)
    requires ValidParams(p) && WalkInv(p, st)
    ensures WalkInv(p.(lostIn := l), Shifted(st, l))
  {
    assert PosInv(p.(lostIn := l), Shifted(st, l)) == PosInv(p, st);
  }

  lemma ShiftedAdvance(p: WalkParams, st: WalkState, step: Step, l: uint64)
    requires ValidParams(p)
    ensures Advanced(p.(lostIn := l), Shifted(st, l), step) == Shifted(Advanced(p, st, step), l)
  {
    CountSkippedSnoc(st.steps, step);
  }

  /** `Walk` with another initial lost count stops at the same place, with
      the same result and the same iterations. */
  lemma WalkIgnoresLost(p: WalkParams, l: uint64)
    requires ValidParams(p)
    ensures Walk(p.(lostIn := l)).ret == Walk(p).ret
    ensures Walk(p.(lostIn := l)).state.steps == Walk(p).state.steps
  {
    WalkStart(p);
    WalkFromIgnoresLost(p, WalkState(p.start, [], p.lostIn), l);
    assert Shifted(WalkState(p.start, [], p.lostIn), l) == WalkState(p.start, [], l);
  }

  /** A successful walk takes exactly ceil(backlog / maxSb) iterations:
      none when `consumed` is not behind `produced`. */
  lemma WalkIterations(p: WalkParams)
    requires ValidParams(p)
    ensures var r := Walk(p);
            var b := Backlog(p.bits, p.start, p.produced);
            r.ret == 0 ==>
              && (b == 0 ==> |r.state.steps| == 0)
              && (b > 0 ==> |r.state.steps| > 0
                            && Span(|r.state.steps| - 1, p.maxSb) < b <= Span(|r.state.steps|, p.maxSb))
  {
    WalkStart(p);
    var r := WalkFrom(p, WalkState(p.start, [], p.lostIn));
    if r.ret == 0 {
      WalkEnd(p, r.state);
    }
  }

  /* ------------------------------------------------------- per stream */

  /** `kernctl_buffer_flush_empty`, falling back to `kernctl_buffer_flush`
      when lttng-modules lacks it. */
  datatype FlushDecision = Proceed | EndSnapshot(ret: int)

  /** The fallback as written: after a successful fallback flush the code
      jumps to the end of the channel snapshot, returning the flush's result. */
  function FlushStepAsWritten(flushEmpty: int, flush: int): (d: FlushDecision)
    ensures flushEmpty < 0 ==> d == EndSnapshot(flush)
  {
    if flushEmpty >= 0 then Proceed else EndSnapshot(flush)
  }

  /** The intended fallback: the snapshot of the stream goes on once either
      flush succeeded, and ends with the flush's error otherwise. */
  function FlushStep(flushEmpty: int, flush: int): (d: FlushDecision)
    ensures d == Proceed <==> flushEmpty >= 0 || flush >= 0
    ensures d.EndSnapshot? ==> d.ret == flush && d.ret < 0
  {
    if flushEmpty >= 0 || flush >= 0 then Proceed else EndSnapshot(flush)
  }

  /** With an lttng-modules that lacks `flush_empty`, the as-written code
      ends the whole snapshot "successfully" before recording this stream. */
  lemma FallbackFlushEndsSnapshot()
    ensures FlushStepAsWritten(-(ENOTTY as int), 0) == EndSnapshot(0)
    ensures FlushStep(-(ENOTTY as int), 0) == Proceed
  {
  }

  /** The answers for one stream of the channel. */
  datatype StreamAnswers = StreamAnswers(
    openOutput: int,          // consumer_send_relayd_stream / utils_create_stream_file
    flushEmpty: int,
    flush: int,
    takeSnapshot: int,        // kernctl_snapshot
    produced: Answer<nat>,    // kernctl_snapshot_get_produced
    consumed: Answer<nat>,    // kernctl_snapshot_get_consumed
    maxSbSize: Answer<nat>,   // kernctl_get_max_subbuf_size, asked only if not yet known
    startPos: nat,            // consumer_get_consume_start_pos(consumed, produced, ...)
    kernel: int -> SubbufAnswers,
    closeOut: int)            // close(out_fd) after a local snapshot

  ghost predicate WellFormedStream(bits: LongBits, knownMaxSb: nat, a: StreamAnswers) {
    && WellFormed(a.produced) && WellFormed(a.consumed) && WellFormed(a.maxSbSize)
    && (a.produced.Value? ==> IsULong(bits, a.produced.v))
    && IsULong(bits, a.startPos)
    && (knownMaxSb == 0 ==> a.maxSbSize.Value? ==> 0 < a.maxSbSize.v <= HalfLongLimit(bits))
    && knownMaxSb <= HalfLongLimit(bits)
    && WellFormedKernel(a.kernel)
  }

  datatype StreamOutcome = StreamOutcome(ret: int, lost: uint64, maxSb: nat, steps: seq<Step>)

  /** Every step before the walk succeeded: the output opened, a flush went
      through, the snapshot and both positions were taken, and the sub-buffer
      size is known or was learnt. */
  predicate Prepared(knownMaxSb: nat, a: StreamAnswers) {
    && a.openOutput >= 0 && FlushStep(a.flushEmpty, a.flush) == Proceed
    && a.takeSnapshot >= 0 && a.produced.Value? && a.consumed.Value?
    && (knownMaxSb > 0 || a.maxSbSize.Value?)
  }

  /** The steps before the walk, in the code's order: the (negative) result
      of the first one that fails, or 0 once the stream is prepared. The
      flush uses the intended fallback `FlushStep`. */
  function PrepareStream(bits: LongBits, knownMaxSb: nat, a: StreamAnswers): (r: int)
    requires WellFormedStream(bits, knownMaxSb, a)
    ensures r <= 0
    ensures r == 0 <==> Prepared(knownMaxSb, a)
  {
    if a.openOutput < 0 then a.openOutput
    else match FlushStep(a.flushEmpty, a.flush)
      case EndSnapshot(r) => r
      case Proceed =>
        if a.takeSnapshot < 0 then a.takeSnapshot
        else if a.produced.Failed? then a.produced.err
        else if a.consumed.Failed? then a.consumed.err
        else if knownMaxSb == 0 && a.maxSbSize.Failed? then a.maxSbSize.err
        else 0
  }

  /** The sub-buffer size the walk uses: the stream's, or the kernel's answer. */
  function MaxSbFor(knownMaxSb: nat, a: StreamAnswers): nat {
    if knownMaxSb > 0 then knownMaxSb else if a.maxSbSize.Value? then a.maxSbSize.v else 0
  }

  /** The walk of a prepared stream, counted from no lost packets. */
  function StreamWalk(bits: LongBits, relayd: bool, knownMaxSb: nat, a: StreamAnswers): (r: WalkOutcome)
    requires WellFormedStream(bits, knownMaxSb, a) && Prepared(knownMaxSb, a)
  {
    Walk(WalkParams(bits, a.startPos, a.produced.v, MaxSbFor(knownMaxSb, a), relayd, a.kernel, 0))
  }

  /** The iterations a stream's snapshot performs: none unless prepared. */
  function StreamSteps(bits: LongBits, relayd: bool, knownMaxSb: nat, a: StreamAnswers): seq<Step>
    requires WellFormedStream(bits, knownMaxSb, a)
  {
    if Prepared(knownMaxSb, a) then StreamWalk(bits, relayd, knownMaxSb, a).state.steps else []
  }

  /** A stream's snapshot fails exactly when a step before the walk fails,
      the walk stops on a kernel error, or the local output cannot be closed. */
  predicate StreamFails(bits: LongBits, relayd: bool, knownMaxSb: nat, a: StreamAnswers)
    requires WellFormedStream(bits, knownMaxSb, a)
  {
    || !Prepared(knownMaxSb, a)
    || StreamWalk(bits, relayd, knownMaxSb, a).ret < 0
    || (!relayd && a.closeOut < 0)
  }

  /** The result of a stream's snapshot: the first failing step's result
      before the walk, the walk's error, `close`'s result for a local output
      that cannot be closed, and 0 when the stream was recorded. */
  function StreamResult(bits: LongBits, relayd: bool, knownMaxSb: nat, a: StreamAnswers): (r: int)
    requires WellFormedStream(bits, knownMaxSb, a)
    ensures r <= 0
    ensures r < 0 <==> StreamFails(bits, relayd, knownMaxSb, a)
  {
    if !Prepared(knownMaxSb, a) then PrepareStream(bits, knownMaxSb, a)
    else if StreamWalk(bits, relayd, knownMaxSb, a).ret < 0 then StreamWalk(bits, relayd, knownMaxSb, a).ret
    else if !relayd && a.closeOut < 0 then a.closeOut
    else 0
  }

  /** One stream of the channel snapshot: open the output (relay stream or
      local file), flush, snapshot, sample the positions, learn the
      sub-buffer size if needed, walk, and close the output. */
  method SnapshotStream(bits: LongBits, relayd: bool, knownMaxSb: nat, a: StreamAnswers, lostIn: uint64)
    returns (o: StreamOutcome)
    requires WellFormedStream(bits, knownMaxSb, a)
    ensures o.ret <= 0
    ensures o.lost == AddLost(lostIn, CountSkipped(o.steps))
    ensures o.ret == 0 ==>
              && a.openOutput >= 0 && FlushStep(a.flushEmpty, a.flush) == Proceed
              && a.takeSnapshot >= 0 && a.produced.Value? && a.consumed.Value?
              && o.maxSb > 0
              && !Pending(bits, WrapULong(bits, a.startPos + Span(|o.steps|, o.maxSb)), a.produced.v)
              && Positioned(bits, a.startPos, o.maxSb, o.steps)
              && Faithful(a.kernel, relayd, o.steps)
    ensures o.ret == 0 && knownMaxSb > 0 ==> o.maxSb == knownMaxSb
    ensures o.ret < 0 <==> StreamFails(bits, relayd, knownMaxSb, a)
    ensures o.ret == StreamResult(bits, relayd, knownMaxSb, a)
    ensures o.steps == StreamSteps(bits, relayd, knownMaxSb, a)
    ensures !Prepared(knownMaxSb, a) ==> o.ret == PrepareStream(bits, knownMaxSb, a)
    ensures Prepared(knownMaxSb, a) ==> o.maxSb == MaxSbFor(knownMaxSb, a)
    ensures Prepared(knownMaxSb, a) && StreamWalk(bits, relayd, knownMaxSb, a).ret < 0 ==>
              o.ret == StreamWalk(bits, relayd, knownMaxSb, a).ret
  {
    var pre := PrepareStream(bits, knownMaxSb, a);
    if pre < 0 {
      o := StreamOutcome(pre, lostIn, knownMaxSb, []);
      return;
    }
    var maxSb := MaxSbFor(knownMaxSb, a);
    var params := WalkParams(bits, a.startPos, a.produced.v, maxSb, relayd, a.kernel, lostIn);
    var w := Walk(params);
    WalkIgnoresLost(params, 0);
    o := StreamOutcome(w.ret, w.state.lost, maxSb, w.state.steps);
    if w.ret < 0 {
      return;
    }
    if !relayd && a.closeOut < 0 {
      o := o.(ret := a.closeOut);
    }
  }

  /* ------------------------------------------------------ per channel */

  function SumSkipped(walks: seq<seq<Step>>): nat
    decreases |walks|
  {
    if |walks| == 0 then 0 else SumSkipped(walks[..|walks| - 1]) + CountSkipped(walks[|walks| - 1])
  }

  /** `lttng_kconsumer_snapshot_channel` with the intended flush fallback
      (`FlushStep`) and release rule (`ReleaseAfterError`): only mmap
      channels can be snapshotted (-1 otherwise). Streams are recorded in order, and the
      first failure ends the snapshot with that (negative) result; 0 is
      returned exactly when every stream was recorded. Every skipped
      sub-buffer, in every stream reached, adds one lost packet. */
  method SnapshotChannel(bits: LongBits, output: Output, relaydId: uint64,
                         streams: seq<(nat, StreamAnswers)>, lostIn: uint64)
    returns (ret: int, recorded: nat, walks: seq<seq<Step>>, lost: uint64)
    requires forall i :: 0 <= i < |streams| ==> WellFormedStream(bits, streams[i].0, streams[i].1)
    ensures output != Mmap ==> ret == -1 && recorded == 0 && lost == lostIn
    ensures ret <= 0
    ensures recorded <= |streams| && |walks| == recorded
    ensures output == Mmap ==> (ret == 0 <==> recorded == |streams|)
    ensures ret == 0 ==> lost == AddLost(lostIn, SumSkipped(walks))
    ensures output == Mmap ==> AllRecorded(bits, relaydId != UNSET_U64, streams, walks)
    ensures output == Mmap && recorded < |streams| ==>
              StreamFails(bits, relaydId != UNSET_U64, streams[recorded].0, streams[recorded].1)
    ensures output == Mmap && recorded < |streams| ==>
              ret == StreamResult(bits, relaydId != UNSET_U64, streams[recorded].0, streams[recorded].1)
  {
    walks := [];
    lost := lostIn;
    recorded := 0;
    if output != Mmap {
      ret := -1;
      return;
    }
    ret := 0;
    while recorded < |streams|
      invariant recorded <= |streams| && |walks| == recorded
      invariant ret == 0
      invariant lost == AddLost(lostIn, SumSkipped(walks))
      invariant AllRecorded(bits, relaydId != UNSET_U64, streams, walks)
    {
      var o := RecordNext(bits, relaydId != UNSET_U64, streams, walks, lostIn, lost);
      if o.ret < 0 {
        ret := o.ret;
        lost := o.lost;
        return;
      }
      walks := walks + [o.steps];
      lost := o.lost;
      recorded := recorded + 1;
    }
  }

  /** Snapshots the stream after the `|walks|` recorded ones, carrying the
      lost count on. */
  method RecordNext(bits: LongBits, relayd: bool, streams: seq<(nat, StreamAnswers)>,
                    walks: seq<seq<Step>>, lostIn: uint64, lost: uint64)
    returns (o: StreamOutcome)
    requires |walks| < |streams|
    requires WellFormedStream(bits, streams[|walks|].0, streams[|walks|].1)
    requires AllRecorded(bits, relayd, streams, walks)
    requires lost == AddLost(lostIn, SumSkipped(walks))
    ensures o.ret <= 0
    ensures o.ret >= 0 ==> AllRecorded(bits, relayd, streams, walks + [o.steps])
    ensures o.ret >= 0 ==> o.lost == AddLost(lostIn, SumSkipped(walks + [o.steps]))
    ensures o.ret < 0 ==> StreamFails(bits, relayd, streams[|walks|].0, streams[|walks|].1)
    ensures o.ret == StreamResult(bits, relayd, streams[|walks|].0, streams[|walks|].1)
  {
    var s := streams[|walks|];
    o := SnapshotStream(bits, relayd, s.0, s.1, lost);
    if o.ret >= 0 {
      RecordedSnoc(bits, relayd, streams, walks, o.steps);
      LostSnoc(lostIn, walks, o.steps, lost, o.lost);
    }
  }

  /** Stream `s` was recorded, with the iterations `steps`. */
  ghost predicate Recorded(bits: LongBits, relayd: bool, s: (nat, StreamAnswers), steps: seq<Step>) {
    && WellFormedStream(bits, s.0, s.1)
    && steps == StreamSteps(bits, relayd, s.0, s.1)
    && !StreamFails(bits, relayd, s.0, s.1)
  }

  /** The first `|walks|` streams were all recorded, `walks[i]` being the
      iterations of stream `i`. */
  ghost predicate AllRecorded(bits: LongBits, relayd: bool, streams: seq<(nat, StreamAnswers)>,
                              walks: seq<seq<Step>>)
    decreases |walks|
  {
    && |walks| <= |streams|
    && (|walks| > 0 ==>
          && AllRecorded(bits, relayd, streams, walks[..|walks| - 1])
          && Recorded(bits, relayd, streams[|walks| - 1], walks[|walks| - 1]))
  }

  /** Every stream before `|walks|` was recorded as `walks` says. */
  lemma {:induction false} AllRecordedAt(bits: LongBits, relayd: bool, streams: seq<(nat, StreamAnswers)>,
                                         walks: seq<seq<Step>>, i: nat)
    requires AllRecorded(bits, relayd, streams, walks) && i < |walks|
    ensures Recorded(bits, relayd, streams[i], walks[i])
    decreases |walks|
  {
    if i < |walks| - 1 {
      AllRecordedAt(bits, relayd, streams, walks[..|walks| - 1], i);
    }
  }

  /** Recording one more stream adds its skipped sub-buffers to the count. */
  lemma LostSnoc(lostIn: uint64, walks: seq<seq<Step>>, steps: seq<Step>, before: uint64, after: uint64)
    requires before == AddLost(lostIn, SumSkipped(walks))
    requires after == AddLost(before, CountSkipped(steps))
    ensures after == AddLost(lostIn, SumSkipped(walks + [steps]))
  {
    assert (walks + [steps])[..|walks|] == walks;
    AddLostAdd(lostIn, SumSkipped(walks), CountSkipped(steps));
  }

  /** Recording one more stream extends `AllRecorded`. */
  lemma RecordedSnoc(bits: LongBits, relayd: bool, streams: seq<(nat, StreamAnswers)>,
                     walks: seq<seq<Step>>, steps: seq<Step>)
    requires AllRecorded(bits, relayd, streams, walks) && |walks| < |streams|
    requires Recorded(bits, relayd, streams[|walks|], steps)
    ensures AllRecorded(bits, relayd, streams, walks + [steps])
  {
    assert (walks + [steps])[..|walks|] == walks;
  }
}
