/**
 * The values the Stop Interface handler reads and produces: the TDISP lifecycle
 * state, the message header and payloads, error codes, the response buffer and
 * the handler's outcome.
 */
module TdispTypes {

  newtype Byte = b: int | 0 <= b < 0x100

  /** Capacity of a vendor-defined response buffer. Its value comes from the SPDM
      library's build configuration; every property here holds for any value. */
  const MaxSpdmVendorDefinedPayloadSize: nat

  /** The negotiated TDISP version and the interface identifier are carried as
      they are; their field layout is not part of this model. */
  type TdispVersion(==)
  type InterfaceId(==)

  /** Lifecycle of a TEE Device Interface. */
  datatype TdispState = ConfigUnlocked | ConfigLocked | Run | Error

  /** The message types of the Stop Interface exchange, and any other request or
      response code, carried as its byte. */
  datatype TdispRequestResponseCode =
    | RequestStopInterfaceRequest
    | ResponseStopInterfaceResponse
    | OtherCode(code: Byte)

  /** The TDISP error codes this handler reports. */
  datatype TdispErrorCode = InvalidRequest | InvalidDeviceConfiguration

  datatype TdispMessageHeader = TdispMessageHeader(
    tdispVersion: TdispVersion,
    messageType: TdispRequestResponseCode,
    interfaceId: InterfaceId)

  /** Stop Interface request and response carry nothing beyond the header. */
  datatype StopInterfaceRequest = StopInterfaceRequest
  datatype StopInterfaceResponse = StopInterfaceResponse

  /** A vendor-defined response: the fixed-capacity byte buffer and the count of
      meaningful bytes in it. */
  datatype VendorDefinedRspPayload = VendorDefinedRspPayload(rspLength: nat, payload: seq<Byte>)

  /** What the handler returns: the encoded success response, or the response that
      the shared error helper builds for `code`. */
  datatype HandlerResult =
    | Success(rsp: VendorDefinedRspPayload)
    | ErrorRsp(code: TdispErrorCode)

  /** The encoders of the two structures the handler writes. Their byte layouts
      are not part of this model, so any encoding is allowed. */
  datatype Codec = Codec(
    encodeHeader: TdispMessageHeader -> seq<Byte>,
    encodeStopInterfaceResponse: StopInterfaceResponse -> seq<Byte>)

  function Zeros(n: nat): (z: seq<Byte>)
    ensures |z| == n && forall i :: 0 <= i < n ==> z[i] == 0
  {
    seq(n, _ => 0)
  }
}
