/** GSUP message types, information element tags and the unified GSUP message. */
module GsupMessages {
  import opened Basics

  /** A message type: any octet can arrive, the constants name the supported ones. */
  type MessageType = Byte
  const UPDATE_LOCATION_REQUEST: MessageType := 0x04
  const UPDATE_LOCATION_ERROR: MessageType := 0x05
  const UPDATE_LOCATION_RESULT: MessageType := 0x06
  const SEND_AUTH_INFO_REQUEST: MessageType := 0x08
  const SEND_AUTH_INFO_ERROR: MessageType := 0x09
  const SEND_AUTH_INFO_RESULT: MessageType := 0x0A
  const PURGE_MS_REQUEST: MessageType := 0x0C
  const PURGE_MS_ERROR: MessageType := 0x0D
  const PURGE_MS_RESULT: MessageType := 0x0E
  const INSERT_DATA_REQUEST: MessageType := 0x10
  const INSERT_DATA_ERROR: MessageType := 0x11
  const INSERT_DATA_RESULT: MessageType := 0x12
  const DELETE_DATA_REQUEST: MessageType := 0x14
  const DELETE_DATA_ERROR: MessageType := 0x15
  const DELETE_DATA_RESULT: MessageType := 0x16
  const LOCATION_CANCEL_REQUEST: MessageType := 0x1C
  const LOCATION_CANCEL_ERROR: MessageType := 0x1D
  const LOCATION_CANCEL_RESULT: MessageType := 0x1E
  const UNKNOWN_TYPE: MessageType := 0xFF

  const IE_IMSI: Byte := 0x01
  const IE_CAUSE: Byte := 0x02
  const IE_AUTH_TUPLE: Byte := 0x03
  const IE_PDP_INFO_COMPLETE: Byte := 0x04
  const IE_PDP_INFO: Byte := 0x05
  const IE_CANCEL_TYPE: Byte := 0x06
  const IE_FREEZE_PTMSI: Byte := 0x07
  const IE_MSISDN: Byte := 0x08
  const IE_HLR_NUMBER: Byte := 0x09
  const IE_NUM_VECTORS: Byte := 0x10
  const IE_RAND: Byte := 0x20
  const IE_SRES: Byte := 0x21
  const IE_KC: Byte := 0x22
  const IE_IK: Byte := 0x23
  const IE_CK: Byte := 0x24
  const IE_AUTN: Byte := 0x25
  const IE_RES: Byte := 0x27
  const IE_CN_DOMAIN: Byte := 0x28
  const IE_PDP_CONTEXT_ID: Byte := 0x60
  const IE_PDP_TYPE: Byte := 0x61
  const IE_APN: Byte := 0x62
  const IE_PDP_ADDRESS: Byte := 0x63
  const IE_PDP_QOS: Byte := 0x64

  datatype AuthTuple = AuthTuple(
    rand: Bytes, sres: Bytes, kc: Bytes,
    ik: Option<Bytes>, ck: Option<Bytes>, autn: Option<Bytes>, res: Option<Bytes>)

  /** An APN is a byte string, as `std::string` is. */
  datatype PdpInfo = PdpInfo(
    contextId: Byte, pdpType: Option<U16>, apn: Option<Bytes>, pdpAddress: Option<Bytes>, qos: Option<Bytes>)

  datatype GsupMessage = GsupMessage(
    mtype: MessageType,
    imsi: string,
    cause: Option<Byte>,
    numVectorsRequested: Option<Byte>,
    authTuples: seq<AuthTuple>,
    msisdn: Option<Bytes>,
    hlrNumber: Option<Bytes>,
    cnDomain: Option<Byte>,
    pdpInfoList: seq<PdpInfo>,
    pdpInfoComplete: bool,
    cancelType: Option<Byte>,
    freezePtmsi: bool,
    freezePtmsiResult: bool)

  const BLANK_TUPLE := AuthTuple([], [], [], None, None, None, None)
  const BLANK_PDP := PdpInfo(0, None, None, None, None)
  const BLANK_GSUP := GsupMessage(UNKNOWN_TYPE, "", None, None, [], None, None, None, [], false, None, false, false)
}
