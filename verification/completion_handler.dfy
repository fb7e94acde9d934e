/**
 * The session daemon's command completion handler: a callback, with its
 * own data, queued by a command and run after the command has executed
 * but before its reply goes out. A failing handler's code replaces the
 * command's reply.
 *
 * The command bodies themselves are not modelled; a command is reduced to
 * the reply code it produced.
 */
module CommandCompletion {

  /** An `enum lttng_error_code`: `LTTNG_OK` or some error code. */
  datatype ReturnCode = LttngOk | Error(code: int)

  /** `struct cmd_completion_handler`: the function and the data it runs on. */
  datatype CompletionHandler<!D> = CompletionHandler(run: D -> ReturnCode, data: D)

  /** Running a handler applies its function to its own data and to nothing else. */
  function Run<D>(h: CompletionHandler<D>): ReturnCode
  {
    h.run(h.data)
  }

  /** What the client-facing side of the daemon does after a command. */
  datatype Event = HandlerRan | ReplySent(code: ReturnCode)

  predicate IsReply(e: Event) {
    e.ReplySent?
  }

  function CountReplies(trace: seq<Event>): nat
    decreases |trace|
  {
    if |trace| == 0 then 0
    else CountReplies(trace[..|trace| - 1]) + (if IsReply(trace[|trace| - 1]) then 1 else 0)
  }

  /**
   * Completing a command whose own reply is `cmdReply`, with the handler it
   * may have queued: the handler runs first, the reply follows it, and a
   * failing handler's code is the reply instead of the command's.
   */
  function Complete<D>(cmdReply: ReturnCode, handler: Option<CompletionHandler<D>>): (trace: seq<Event>)
    ensures |trace| >= 1 && IsReply(trace[|trace| - 1])
    ensures handler.None? ==> trace == [ReplySent(cmdReply)]
    ensures handler.Some? ==> trace[0] == HandlerRan
    ensures forall i, j ::
              0 <= i < |trace| && 0 <= j < |trace| && IsReply(trace[i]) && trace[j] == HandlerRan ==> j < i
  {
    match handler
    case None => [ReplySent(cmdReply)]
    case Some(h) =>
      var handled := Run(h);
      [HandlerRan, ReplySent(if handled == LttngOk then cmdReply else handled)]
  }

  datatype Option<T> = None | Some(value: T)

  /** The code the client receives: the last event's. */
  function SentReply(trace: seq<Event>): ReturnCode
    requires |trace| >= 1 && IsReply(trace[|trace| - 1])
  {
    trace[|trace| - 1].code
  }

  /** Exactly one reply reaches the client, whether or not a handler was queued. */
  lemma OneReply<D>(cmdReply: ReturnCode, handler: Option<CompletionHandler<D>>)
    ensures CountReplies(Complete(cmdReply, handler)) == 1
  {
    var t := Complete(cmdReply, handler);
    if handler.Some? {
      assert t[..1] == [HandlerRan] && t[..1][..0] == [];
      assert CountReplies(t[..1]) == 0;
    } else {
      assert t[..0] == [];
    }
  }

  /** A handler that succeeds leaves the command's reply as it was. */
  lemma SuccessfulHandlerKeepsReply<D>(cmdReply: ReturnCode, h: CompletionHandler<D>)
    requires h.run(h.data) == LttngOk
    ensures SentReply(Complete(cmdReply, Some(h))) == cmdReply
  {
  }

  /** A handler that fails overrides the command's reply with its own code,
      even when the command itself succeeded. */
  lemma FailedHandlerOverridesReply<D>(cmdReply: ReturnCode, h: CompletionHandler<D>)
    requires h.run(h.data) != LttngOk
    ensures SentReply(Complete(cmdReply, Some(h))) == h.run(h.data)
    ensures SentReply(Complete(cmdReply, Some(h))) != LttngOk
  {
  }

  /** The client is told `LTTNG_OK` exactly when the command and its handler,
      if any, both succeeded. */
  lemma ReplyOkIffAllSucceeded<D>(cmdReply: ReturnCode, handler: Option<CompletionHandler<D>>)
    ensures SentReply(Complete(cmdReply, handler)) == LttngOk
            <==> cmdReply == LttngOk && (handler.Some? ==> Run(handler.value) == LttngOk)
  {
  }
}
