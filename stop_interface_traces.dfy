/**
 * Sequences of Stop Interface requests handled one after another by the same
 * responder: the calls the configuration store sees and the lifecycle state
 * the TDI ends in. Each request's step is the one `StopInterface` specifies,
 * which is what `TdispResponder.HandleStopInterfaceRequest` does per call.
 */
module StopInterfaceTraces {
  import opened Wrappers
  import opened TdispTypes
  import opened Configuration
  import opened StopInterfaceHandler

  /** One request as the handler sees it: what the readers returned and what the
      configuration backend will report. */
  datatype StopRequest = StopRequest(
    header: Option<TdispMessageHeader>,
    request: Option<StopInterfaceRequest>,
    erase: ConfigResult,
    unlock: ConfigResult)

  function StepOf(versionSel: TdispVersion, tdi: InterfaceId, codec: Codec, q: StopRequest): (step: StopInterfaceStep) {
    StopInterface(versionSel, tdi, q.header, q.request, codec, q.erase, q.unlock)
  }

  /** A request that decodes and whose erase and unlock both succeed. */
  predicate Completes(q: StopRequest) {
    q.header.Some? && q.request.Some? && q.erase.ConfigOk? && q.unlock.ConfigOk?
  }

  /** The configuration-store calls made while handling `qs`, in order. */
  function TraceCalls(versionSel: TdispVersion, tdi: InterfaceId, codec: Codec, qs: seq<StopRequest>): (calls: seq<ConfigCall>)
    decreases |qs|
  {
    if qs == [] then []
    else StepOf(versionSel, tdi, codec, qs[0]).calls + TraceCalls(versionSel, tdi, codec, qs[1..])
  }

  /** The lifecycle state after handling `qs`, starting from `s`. */
  function TraceState(s: TdispState, versionSel: TdispVersion, tdi: InterfaceId, codec: Codec, qs: seq<StopRequest>): (t: TdispState)
    decreases |qs|
  {
    if qs == [] then s
    else
      var next := if StepOf(versionSel, tdi, codec, qs[0]).transitioned then ConfigUnlocked else s;
      TraceState(next, versionSel, tdi, codec, qs[1..])
  }

  /** The flags after a non-empty sequence of requests are those after the first
      request's calls (what one `HandleStopInterfaceRequest` leaves in the store),
      carried through the rest of the sequence. */
  lemma TraceFlagsStep(f: ConfigFlags, versionSel: TdispVersion, tdi: InterfaceId, codec: Codec, qs: seq<StopRequest>)
    requires qs != []
    ensures ApplyCalls(f, TraceCalls(versionSel, tdi, codec, qs)) ==
      ApplyCalls(ApplyCalls(f, StepOf(versionSel, tdi, codec, qs[0]).calls), TraceCalls(versionSel, tdi, codec, qs[1..]))
  {
    ApplyCallsConcat(f, StepOf(versionSel, tdi, codec, qs[0]).calls, TraceCalls(versionSel, tdi, codec, qs[1..]));
  }

  /** However the readers and the backend behave, across any number of requests
      every unlock the store sees comes right after an erase that succeeded. */
  lemma {:induction false} TraceScrubBeforeUnlock(versionSel: TdispVersion, tdi: InterfaceId, codec: Codec, qs: seq<StopRequest>)
    ensures ScrubBeforeUnlock(TraceCalls(versionSel, tdi, codec, qs))
    decreases |qs|
  {
    if qs != [] {
      TraceScrubBeforeUnlock(versionSel, tdi, codec, qs[1..]);
      ScrubBeforeUnlockConcat(StepOf(versionSel, tdi, codec, qs[0]).calls, TraceCalls(versionSel, tdi, codec, qs[1..]));
    }
  }

  /** Configuration never ends up unlocked while confidential secrets remain,
      provided it was not so before the first request. */
  lemma TraceKeepsScrubbed(f: ConfigFlags, versionSel: TdispVersion, tdi: InterfaceId, codec: Codec, qs: seq<StopRequest>)
    requires ScrubbedIfUnlocked(f)
    ensures ScrubbedIfUnlocked(ApplyCalls(f, TraceCalls(versionSel, tdi, codec, qs)))
  {
    var calls := TraceCalls(versionSel, tdi, codec, qs);
    TraceScrubBeforeUnlock(versionSel, tdi, codec, qs);
    ScrubBeforeUnlockFromAnyFlags(f, calls);
    ApplyCallsKeepsScrubbed(f, calls);
  }

  /** Stop Interface only ever moves the TDI to ConfigUnlocked, and does so
      exactly when some request completes; otherwise the state is as it was,
      whatever state that is. */
  lemma {:induction false} TraceStateUnlockedIffCompleted(
    s: TdispState, versionSel: TdispVersion, tdi: InterfaceId, codec: Codec, qs: seq<StopRequest>)
    ensures TraceState(s, versionSel, tdi, codec, qs) ==
      if exists k :: 0 <= k < |qs| && Completes(qs[k]) then ConfigUnlocked else s
    decreases |qs|
  {
    if qs != [] {
      var next := if StepOf(versionSel, tdi, codec, qs[0]).transitioned then ConfigUnlocked else s;
      TraceStateUnlockedIffCompleted(next, versionSel, tdi, codec, qs[1..]);
      if exists k :: 0 <= k < |qs[1..]| && Completes(qs[1..][k]) {
        var k :| 0 <= k < |qs[1..]| && Completes(qs[1..][k]);
        assert Completes(qs[k + 1]);
      } else if !Completes(qs[0]) {
        forall k | 0 <= k < |qs|
          ensures !Completes(qs[k])
        {
          if k > 0 {
            assert qs[k] == qs[1..][k - 1];
          }
        }
      }
    }
  }
}
