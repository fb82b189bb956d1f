// The records shared by the scanner and the interrogator firmware: decoded
// advertising reports, interrogation requests, and the per-slot GATT client
// state, with the size limits the firmware fixes for them.

module Definitions {
  import opened Bytes

  /** Largest HCI event the controller hands over: 3 header bytes and 255
      parameter bytes. */
  const HCI_EVENT_MAX_SIZE: nat := 3 + 255
  /** Number of slots in the scanner's ring of received HCI packets. */
  const HCI_BUFFER_SIZE: nat := 10
  /** Most reports one LE Advertising Report event may carry. */
  const MAX_NUM_REPORTS: nat := 0x19
  /** A busy slot older than this is considered stuck. */
  const CONNECTION_OPEN_TIMEOUT_SECONDS: nat := 75
  /** Capacity of a report's advertising-data field (legacy advertising). */
  const ADV_DATA_CAPACITY: nat := 31
  /** Capacity of the advertisement file name field, terminator included. */
  const FILENAME_CAPACITY: nat := 64

  /** One report of an LE Advertising Report event. `rssi` is the signed
      value, `bdaddrStr` the printed address, `rawBdaddr` the address bytes in
      the order they arrived. */
  datatype SingleReport = SingleReport(
    advEventType: uint8,
    addrType: uint8,
    bdaddrStr: string,
    rawBdaddr: seq<uint8>,
    advDataLength: uint8,
    advData: seq<uint8>,
    rssi: int)

  const EMPTY_REPORT := SingleReport(0, 0, "", [0, 0, 0, 0, 0, 0], 0, [], 0)

  /** A decoded advertising event: its timestamp, its report count and a
      fixed array of report slots, of which the first `numReports` are
      current. The decoder overwrites it in place for every packet. */
  class LeAdvertisingReport {
    var timestamp: int
    var numReports: uint8
    const reports: array<SingleReport>

    constructor ()
      ensures reports.Length == MAX_NUM_REPORTS && fresh(reports)
      ensures numReports == 0
    {
      timestamp := 0;
      numReports := 0;
      reports := new SingleReport[MAX_NUM_REPORTS](_ => EMPTY_REPORT);
    }

    /** Whether any current report was sent with a connectable event type. */
    predicate IsAdvertisingReportConnectable(): (r: bool)
      reads this, reports
      requires numReports <= reports.Length
      ensures r <==> exists i :: 0 <= i < numReports && IsConnectableType(reports[i].advEventType)
    {
      AnyConnectable(reports[..numReports])
    }
  }

  /** ADV_IND (0x00) and ADV_DIRECT_IND (0x01) are the connectable legacy
      advertising event types. */
  predicate IsConnectableType(t: uint8) { t == 0x00 || t == 0x01 }

  /** Scans the reports in order and stops at the first connectable one. */
  function AnyConnectable(rs: seq<SingleReport>): (r: bool)
    ensures r <==> exists i :: 0 <= i < |rs| && IsConnectableType(rs[i].advEventType)
  {
    if rs == [] then false
    else if IsConnectableType(rs[0].advEventType) then true
    else
      var rest := AnyConnectable(rs[1..]);
      assert forall i :: 1 <= i < |rs| ==> rs[i] == rs[1..][i - 1];
      rest
  }

  /** The record a line of the scanner's UART stream decodes to: the
      report fields and the name of the scanner file that holds the raw
      advertisement. */
  datatype TextReport = TextReport(
    timestamp: int,
    advEventType: uint8,
    addrType: uint8,
    bdaddrStr: string,
    advDataLength: uint8,
    rssi: int,
    advertisementFilename: string)

  /** A device the interrogator is asked to connect to. */
  datatype InterrogationRequest = InterrogationRequest(
    address: seq<uint8>,
    addrType: uint8,
    timestamp: int,
    advertisementFilename: string)

  /** `esp_bt_uuid_t`: a length in bytes and a 16-byte union that holds a
      16-bit, a 32-bit or a 128-bit UUID, least significant byte first. */
  datatype BtUuid = BtUuid(len: nat, bytes: seq<uint8>)
  {
    predicate WellFormed() { |bytes| == 16 }
  }

  /** `esp_gattc_char_elem_t`: one discovered characteristic. */
  datatype CharElem = CharElem(charHandle: uint16, properties: uint8, uuid: BtUuid)

  datatype CharacteristicWrapper = CharacteristicWrapper(meta: CharElem, value: seq<uint8>)

  /** `esp_gatt_srvc_id_t`: the service UUID, its instance and whether it is
      a primary service. */
  datatype ServiceId = ServiceId(uuid: BtUuid, instId: uint8, isPrimary: bool)

  datatype ServiceWrapper = ServiceWrapper(
    service: ServiceId,
    startHandle: uint16,
    endHandle: uint16,
    chars: seq<CharacteristicWrapper>)

  /** A characteristic read that was sent and is waiting for its result;
      `timestamp` is in milliseconds of the scheduler clock. */
  datatype PendingRequest = PendingRequest(handle: uint16, timestamp: int)
}
