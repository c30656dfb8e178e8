# TDISP Stop Interface handler

A model of the Stop Interface handler of the TDISP responder in rust-spdm. TDISP is the
TEE Device Interface Security Protocol of chapter 11 of the PCI Express Base Specification,
Revision 6.1. When a host asks the device to stop a TEE Device Interface (TDI), the handler
does the following:

1. It reads the TDISP message header and the Stop Interface request payload. Either read may
   come back absent; if one does, the request is rejected with `INVALID_REQUEST`.
2. It builds the success response in a zero-filled buffer of capacity
   `MAX_SPDM_VENDOR_DEFINED_PAYLOAD_SIZE`. The buffer holds the response header (negotiated
   version, `ResponseStopInterfaceResponse`, the hosted TDI) followed by the default response
   payload.
3. It asks the configuration store to erase the confidential configuration. Only if that
   succeeds does it ask the store to unlock the configuration.
4. Only if both succeed does it move the state machine to `ConfigUnlocked` and return the
   pre-built buffer. Any failure discards that buffer and returns `INVALID_DEVICE_CONFIGURATION`.

The order of the steps is the point: secrets are scrubbed before configuration becomes
writable, and no transition happens unless both steps succeed.

Files, as Dafny modules:

- `tdisp_types.dfy` (`TdispTypes`): lifecycle states, message header and payloads, error
  codes, the response buffer, the handler's outcome and the abstract encoders.
- `writer.dfy` (`TdispWriter`): the bounded `Writer` over an `array` that the response is
  encoded into, plus its specification `Extend`.
- `configuration.dfy` (`Configuration`): the configuration store as a class. It has ghost
  `erased`/`unlocked` flags and a ghost log of the calls it served. The file also has the
  predicates and lemmas about such logs.
- `state_machine.dfy` (`StateMachine`): the TDI lifecycle state as a class.
- `stop_interface.dfy` (`StopInterfaceHandler`): `StopInterface` specifies one request, and
  `TdispResponder.HandleStopInterfaceRequest` is the handler proved against it.
- `stop_interface_traces.dfy` (`StopInterfaceTraces`): any sequence of Stop Interface requests
  handled one after another.

Collaborators become parameters:

- What the two readers return becomes the `Option` arguments.
- What the configuration backend reports for erase and for unlock becomes the `ConfigResult`
  arguments. The unlock outcome is consumed only if unlock is called.
- The byte encodings of the response header and payload become the `Codec` argument.
- `handle_tdisp_error(code)` becomes the outcome `ErrorRsp(code)`.

The handler does not check that the request's interface id is the hosted one, and it does not
check that the current state permits Stop Interface. The model does not add either check.
`StopInterfaceIgnoresRequestHeader` states that the decoded header has no effect on the
outcome. The current lifecycle state is not even an input of `StopInterface`.

The code sets `rsp_length` to 0 when it builds the buffer and never assigns it again
(stop_interface_request_rsp.rs:43), so even a successful response reports no meaningful
bytes. The model returns `rspLength == 0`, as the code does.

## Model

| member | source | states |
|---|---|---|
| `StopInterfaceHandler.StopInterface` | tdisp/src/tdisp_responder/stop_interface_request_rsp.rs:28-82 | The store sees no calls exactly when the header or the payload fails to decode, and then the result is `INVALID_REQUEST` with no transition. Every unlock follows an erase that succeeded. A failed erase is the only call and yields `INVALID_DEVICE_CONFIGURATION`. A good erase is always followed by exactly one unlock. The transition happens if and only if both decodes, the erase and the unlock succeed. The success response is returned if and only if the transition happens, and it is `SuccessResponse`. Every other decoded outcome is `INVALID_DEVICE_CONFIGURATION`. |
| `StopInterfaceHandler.TdispResponder.HandleStopInterfaceRequest` | tdisp/src/tdisp_responder/stop_interface_request_rsp.rs:24-84 | Returns what `StopInterface` specifies. If the store was not unlocked with secrets resident before the call, it is not after it. The store's call log grows by exactly that step's calls, in order, and its flags change only by those calls (no rollback of the erase). The state becomes `ConfigUnlocked` with one recorded transition when the step transitions, and is otherwise unchanged. Only the store and the state machine may change (`modifies`), so the version, the TDI and the references stay as they were. |
| `StopInterfaceHandler.SuccessResponse` | tdisp/src/tdisp_responder/stop_interface_request_rsp.rs:41-59 | `rsp_length` is 0. The buffer has exactly the vendor-defined payload capacity. It holds the encoding of the response header (context version, `ResponseStopInterfaceResponse`, context TDI) and then the default response payload, with zeros after them. When the capacity is too small, each encode that does not fit leaves the buffer as it was; all four cases are stated. |
| `StopInterfaceHandler.ExtendOntoZeros` | tdisp/src/tdisp_responder/stop_interface_request_rsp.rs:44-59 | Writing onto a buffer whose unused part is all zero keeps what was written, puts the new bytes after it, and leaves the rest zero. |
| `StopInterfaceHandler.StopInterfaceIgnoresRequestHeader` | tdisp/src/tdisp_responder/stop_interface_request_rsp.rs:30-35 | Only whether the header decodes matters: two decoded headers with different interface ids, versions or message types give the same outcome. No ownership check is made. |
| `TdispWriter.Extend` | tdisp/src/tdisp_responder/stop_interface_request_rsp.rs:58-59 | An encode that fits lands at the writer's offset and advances it by its length, leaving the bytes before and after unchanged. One that does not fit changes nothing. |
| `TdispWriter.Writer.ExtendFromSlice` | tdisp/src/tdisp_responder/stop_interface_request_rsp.rs:58-59 | Copies the bytes into the array in place. The new array contents and offset are `Extend` of the old ones. It reports the number of bytes added, or `None` when they do not fit. |
| `Configuration.ConfigurationStore.EraseConfidentialConfig` | tdisp/src/tdisp_responder/stop_interface_request_rsp.rs:61-65 | Returns the backend's outcome and logs the call. It records the secrets as erased only on success and never touches `unlocked`. |
| `Configuration.ConfigurationStore.UnlockConfig` | tdisp/src/tdisp_responder/stop_interface_request_rsp.rs:66 | Returns the backend's outcome and logs the call. It records the configuration as unlocked only on success and never touches `erased`. |
| `StateMachine.TdispStateMachine.ToStateConfigUnlocked` | tdisp/src/tdisp_responder/stop_interface_request_rsp.rs:68-70 | The state becomes `ConfigUnlocked` and exactly one transition is recorded. |
| `Configuration.ApplyCallsKeepsScrubbed` | tdisp/src/tdisp_responder/stop_interface_request_rsp.rs:61-66 | Applying a call log in which every unlock follows a successful erase never leaves configuration unlocked with secrets still resident. |
| `Configuration.ApplyCallsConcat` | tdisp/src/tdisp_responder/stop_interface_request_rsp.rs:61-66 | Applying two call logs in turn gives the same flags as applying their concatenation. `TraceFlagsStep` relies on it. |
| `Configuration.ScrubBeforeUnlockConcat` | tdisp/src/tdisp_responder/stop_interface_request_rsp.rs:61-66 | Concatenating two logs in which every unlock follows a successful erase keeps that property. |
| `Configuration.ScrubBeforeUnlockFromAnyFlags` | tdisp/src/tdisp_responder/stop_interface_request_rsp.rs:61-66 | If every unlock in a log follows a successful erase, that holds from any starting flags. |
| `StopInterfaceTraces.TraceFlagsStep` | tdisp/src/tdisp_responder/stop_interface_request_rsp.rs:61-82 | The store's flags after a sequence of requests are the flags after the first request's calls, carried through the rest of the sequence. This is how the per-call contract of `HandleStopInterfaceRequest` composes into the trace. |
| `StopInterfaceTraces.TraceScrubBeforeUnlock` | tdisp/src/tdisp_responder/stop_interface_request_rsp.rs:61-82 | Over any sequence of Stop Interface requests, and whatever the readers and the backend report, every unlock the store sees comes right after an erase that succeeded. |
| `StopInterfaceTraces.TraceKeepsScrubbed` | tdisp/src/tdisp_responder/stop_interface_request_rsp.rs:61-82 | If configuration was not unlocked with secrets resident before the first request, it never is after any number of requests. |
| `StopInterfaceTraces.TraceStateUnlockedIffCompleted` | tdisp/src/tdisp_responder/stop_interface_request_rsp.rs:66-71 | After any sequence of requests, the state is `ConfigUnlocked` if some request completed (decoded, erased, unlocked), and otherwise it is the starting state, whatever that state was. |

## Left out

- Byte layouts of the TDISP message header and of the Stop Interface request and response
  payloads: the codec is not part of this model. Decoding results are inputs. Encodings are
  arbitrary functions supplied in `Codec`.
- The `Reader`/`Writer` internals are not part of this model. The `Writer` is modelled as
  all-or-nothing per encode call. A header encoder that writes field by field and could leave
  a partial header in a too-small buffer is not represented.
- The readers and encoders receive the requester context mutably in the code. Any change they
  might make to it is not represented: reading and encoding are taken to leave the context as
  it is.
- The value of `MAX_SPDM_VENDOR_DEFINED_PAYLOAD_SIZE` comes from the SPDM library's build
  configuration. `MaxSpdmVendorDefinedPayloadSize` is left unspecified, and every property
  holds for any value.
- `handle_tdisp_error` is not part of this model. It becomes the outcome `ErrorRsp(code)`. The
  error buffer it encodes, any change it makes to the responder, and any failure of its own
  are not represented.
- The body of `to_state_config_unlocked` is not among the source files. The model takes it
  to set the state to `ConfigUnlocked` unconditionally, whatever the current state.
- The configuration backend (what erase and unlock do on the device) is a foreign
  collaborator. Only the outcome it reports and the ghost flags it implies are modelled.
- The device-side teardown described in comments (aborting DMA and in-flight operations,
  interrupts, ATS invalidation, PRI page requests, key reclamation) is not implemented by this
  handler, so it is not modelled.
- Interface-id ownership and state-eligibility checks are not made by this handler and are
  not modelled. The same goes for the dispatcher and the other TDISP operations.
- The SPDM secure session and the vendor-defined transport framing are outside the handler.
  The request buffer appears only through what the readers return.
