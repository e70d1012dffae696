/** MAP operations, TCAP tags and the unified MAP message. */
module MapMessages {
  import opened Basics

  /** An operation code: any octet can arrive, the constants name the supported ones. */
  type MapOperation = Byte
  const CANCEL_LOCATION: MapOperation := 3
  const INSERT_SUBSCRIBER_DATA: MapOperation := 7
  const DELETE_SUBSCRIBER_DATA: MapOperation := 8
  const UPDATE_GPRS_LOCATION: MapOperation := 23
  const SEND_AUTHENTICATION_INFO: MapOperation := 56
  const PURGE_MS: MapOperation := 67
  const UNKNOWN_OPERATION: MapOperation := 0xFF

  const TCAP_BEGIN: Byte := 0x62
  const TCAP_END: Byte := 0x64
  const TCAP_OTID: Byte := 0x48
  const TCAP_DTID: Byte := 0x49
  const TCAP_COMPONENTS: Byte := 0x6C
  const COMP_INVOKE: Byte := 0xA1
  const COMP_RETURN_RESULT: Byte := 0xA2
  const COMP_RETURN_ERROR: Byte := 0xA3
  const BER_INT: Byte := 0x02
  const BER_OCTETS: Byte := 0x04
  const BER_NULL: Byte := 0x05
  const BER_SEQUENCE: Byte := 0x30

  /** The error code sent when a ReturnError carries none. */
  const SYSTEM_FAILURE: Byte := 34

  datatype Triplet = Triplet(rand: Bytes, sres: Bytes, kc: Bytes)
  datatype Quintuplet = Quintuplet(rand: Bytes, xres: Bytes, ck: Bytes, ik: Bytes, autn: Bytes)

  datatype ComponentType = Invoke | ReturnResult | ReturnError | Reject

  datatype MapMessage = MapMessage(
    transactionId: U32,
    component: ComponentType,
    invokeId: Byte,
    operation: MapOperation,
    imsi: string,
    numRequestedVectors: Option<Byte>,
    triplets: seq<Triplet>,
    quintuplets: seq<Quintuplet>,
    sgsnNumber: Option<Bytes>,
    sgsnAddress: Option<Bytes>,
    hlrNumber: Option<Bytes>,
    msisdn: Option<Bytes>,
    cancelType: Option<Byte>,
    freezePtmsi: bool,
    errorCode: Option<Byte>)

  /** A default-constructed message. */
  const BLANK_MAP := MapMessage(0, Invoke, 1, UNKNOWN_OPERATION, "", None, [], [], None, None, None, None, None,
      false, None)
}
