/**
 * The TDISP responder's Stop Interface handler: decode the request, pre-build
 * the Stop Interface response, scrub the confidential configuration, unlock the
 * configuration, and only when both succeed move the TDI to ConfigUnlocked.
 *
 * `StopInterface` is the specification of one request: what the handler
 * returns, which configuration-store calls it makes, in order, and whether it
 * takes the transition. `TdispResponder.HandleStopInterfaceRequest` is proved
 * against it.
 */
module StopInterfaceHandler {
  import opened Wrappers
  import opened TdispTypes
  import opened TdispWriter
  import opened Configuration
  import opened StateMachine

  datatype StopInterfaceStep = StopInterfaceStep(
    result: HandlerResult,
    calls: seq<ConfigCall>,
    transitioned: bool)

  /** The header of every Stop Interface response: the negotiated version, the
      paired response type and the interface this responder hosts. */
  function ResponseHeader(versionSel: TdispVersion, tdi: InterfaceId): (h: TdispMessageHeader) {
    TdispMessageHeader(versionSel, ResponseStopInterfaceResponse, tdi)
  }

  /** The success response, built in a zero-filled buffer of the vendor-defined
      payload capacity: the response header first, then the default response
      payload, each written only when it fits in what is left. The meaningful
      length is left at zero. */
  function SuccessResponse(codec: Codec, versionSel: TdispVersion, tdi: InterfaceId): (rsp: VendorDefinedRspPayload)
    ensures rsp.rspLength == 0
    ensures var h := codec.encodeHeader(ResponseHeader(versionSel, tdi));
            var p := codec.encodeStopInterfaceResponse(StopInterfaceResponse);
            var n := MaxSpdmVendorDefinedPayloadSize;
            && (|h| + |p| <= n ==> rsp.payload == h + p + Zeros(n - |h| - |p|))
            && (|h| <= n < |h| + |p| ==> rsp.payload == h + Zeros(n - |h|))
            && (n < |h| && |p| <= n ==> rsp.payload == p + Zeros(n - |p|))
            && (n < |h| && n < |p| ==> rsp.payload == Zeros(n))
  {
    var h := codec.encodeHeader(ResponseHeader(versionSel, tdi));
    var p := codec.encodeStopInterfaceResponse(StopInterfaceResponse);
    var w0 := WriterState(Zeros(MaxSpdmVendorDefinedPayloadSize), 0);
    var w1 := Extend(w0, h);
    var w2 := Extend(w1, p);
    ExtendOntoZeros(w0, h);
    ExtendOntoZeros(w1, p);
    VendorDefinedRspPayload(0, w2.bytes)
  }

  /** Extending a writer whose unused part is all zero: what was written stays,
      the new bytes follow it, and the rest is still zero. */
  lemma ExtendOntoZeros(w: WriterState, data: seq<Byte>)
    requires WellFormed(w) && w.bytes[w.offset..] == Zeros(|w.bytes| - w.offset)
    ensures var r := Extend(w, data);
      && r.bytes[r.offset..] == Zeros(|r.bytes| - r.offset)
      && (w.offset + |data| <= |w.bytes| ==>
            r.bytes == w.bytes[..w.offset] + data + Zeros(|w.bytes| - w.offset - |data|))
  {
  }

  /** One Stop Interface request. `header` and `request` are what the two
      readers returned; `erase` and `unlock` are what the configuration backend
      reports for each call, should the handler make it. */
  function StopInterface(
    versionSel: TdispVersion, tdi: InterfaceId,
    header: Option<TdispMessageHeader>, request: Option<StopInterfaceRequest>,
    codec: Codec, erase: ConfigResult, unlock: ConfigResult): (step: StopInterfaceStep)
    // A request that does not decode is rejected before anything is touched.
    ensures header.None? || request.None? <==> step.calls == []
    ensures header.None? || request.None? ==>
      step.result == ErrorRsp(InvalidRequest) && !step.transitioned
    // Unlock is only attempted right after an erase that succeeded.
    ensures ScrubBeforeUnlock(step.calls)
    ensures (exists i :: 0 <= i < |step.calls| && step.calls[i].Unlock?) ==> erase.ConfigOk?
    // A failed erase is the last call, and the request fails.
    ensures header.Some? && request.Some? && erase.ConfigErr? ==>
      step.calls == [Erase(false)] && step.result == ErrorRsp(InvalidDeviceConfiguration)
    // A failed unlock after a good erase fails the request; the erase stands.
    ensures header.Some? && request.Some? && erase.ConfigOk? ==>
      step.calls == [Erase(true), Unlock(unlock.ConfigOk?)]
    ensures header.Some? && request.Some? && step.result.ErrorRsp? ==>
      step.result.code == InvalidDeviceConfiguration
    // The transition happens exactly when erase and unlock both succeed, and that
    // is the one case in which the pre-built response is returned.
    ensures step.transitioned <==> header.Some? && request.Some? && erase.ConfigOk? && unlock.ConfigOk?
    ensures step.result.Success? <==> step.transitioned
    ensures step.result.Success? ==> step.result.rsp == SuccessResponse(codec, versionSel, tdi)
  {
    if header.None? || request.None? then
      StopInterfaceStep(ErrorRsp(InvalidRequest), [], false)
    else
      var rsp := SuccessResponse(codec, versionSel, tdi);
      match erase
      case ConfigOk =>
        (match unlock
         case ConfigOk => StopInterfaceStep(Success(rsp), [Erase(true), Unlock(true)], true)
         case ConfigErr => StopInterfaceStep(ErrorRsp(InvalidDeviceConfiguration), [Erase(true), Unlock(false)], false))
      case ConfigErr =>
        StopInterfaceStep(ErrorRsp(InvalidDeviceConfiguration), [Erase(false)], false)
  }

  /** The handler does not look inside the decoded request header: a request
      for another interface, another version or another operation's message
      type gets the same outcome as one for the hosted interface. */
  lemma StopInterfaceIgnoresRequestHeader(
    versionSel: TdispVersion, tdi: InterfaceId,
    h1: TdispMessageHeader, h2: TdispMessageHeader, request: Option<StopInterfaceRequest>,
    codec: Codec, erase: ConfigResult, unlock: ConfigResult)
    ensures StopInterface(versionSel, tdi, Some(h1), request, codec, erase, unlock)
         == StopInterface(versionSel, tdi, Some(h2), request, codec, erase, unlock)
  {
  }

  /** The responder for one TDI: the requester context's negotiated version, the
      hosted interface, the configuration store and the state machine. */
  class TdispResponder {
    var versionSel: TdispVersion
    var tdi: InterfaceId
    var configuration: ConfigurationStore
    var stateMachine: TdispStateMachine

    constructor (versionSel: TdispVersion, tdi: InterfaceId, configuration: ConfigurationStore, stateMachine: TdispStateMachine)
      ensures this.versionSel == versionSel && this.tdi == tdi
      ensures this.configuration == configuration && this.stateMachine == stateMachine
    {
      this.versionSel := versionSel;
      this.tdi := tdi;
      this.configuration := configuration;
      this.stateMachine := stateMachine;
    }

    /** Handles one Stop Interface request. Only the configuration store and the
        state machine change; the versions, the interface and the objects the
        responder refers to stay as they are. */
    method HandleStopInterfaceRequest(
      header: Option<TdispMessageHeader>, request: Option<StopInterfaceRequest>,
      codec: Codec, erase: ConfigResult, unlock: ConfigResult) returns (r: HandlerResult)
      modifies configuration, stateMachine
      ensures var step := StopInterface(versionSel, tdi, header, request, codec, erase, unlock);
        && r == step.result
        && configuration.calls == old(configuration.calls) + step.calls
        && configuration.Flags() == ApplyCalls(old(configuration.Flags()), step.calls)
        && stateMachine.state == (if step.transitioned then ConfigUnlocked else old(stateMachine.state))
        && stateMachine.history == old(stateMachine.history) + (if step.transitioned then [ConfigUnlocked] else [])
      ensures ScrubbedIfUnlocked(old(configuration.Flags())) ==> ScrubbedIfUnlocked(configuration.Flags())
    {
      ghost var f0 := configuration.Flags();
      ghost var step := StopInterface(versionSel, tdi, header, request, codec, erase, unlock);
      ScrubBeforeUnlockFromAnyFlags(f0, step.calls);
      if ScrubbedIfUnlocked(f0) {
        ApplyCallsKeepsScrubbed(f0, step.calls);
      }
      if header.None? || request.None? {
        r := ErrorRsp(InvalidRequest);
        return;
      }
      var buf := new Byte[MaxSpdmVendorDefinedPayloadSize](_ => 0);
      assert buf[..] == Zeros(MaxSpdmVendorDefinedPayloadSize);
      var writer := new Writer(buf);
      var tmhr := TdispMessageHeader(versionSel, ResponseStopInterfaceResponse, tdi);
      var mprr := StopInterfaceResponse;
      var _ := writer.ExtendFromSlice(codec.encodeHeader(tmhr));
      var _ := writer.ExtendFromSlice(codec.encodeStopInterfaceResponse(mprr));
      var rsp := VendorDefinedRspPayload(0, buf[..]);
      assert rsp == SuccessResponse(codec, versionSel, tdi);

      var erased := configuration.EraseConfidentialConfig(erase);
      match erased {
        case ConfigOk =>
          var unlocked := configuration.UnlockConfig(unlock);
          match unlocked {
            case ConfigOk =>
              stateMachine.ToStateConfigUnlocked();
              r := Success(rsp);
            case ConfigErr =>
              r := ErrorRsp(InvalidDeviceConfiguration);
          }
        case ConfigErr =>
          r := ErrorRsp(InvalidDeviceConfiguration);
      }
    }
  }
}
