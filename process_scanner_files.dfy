// The offline decoder of scanner files: a file of 16-byte records becomes a
// CSV table with one header row and one row per complete record.

module ProcessScannerFiles {
  import opened Bytes
  import opened Text
  import opened Definitions
  import opened HciEventParser
  import opened RomPrintController

  /** `mac_bytes_to_str`: the bytes in reverse order, each as `%02X`, joined
      by colons. */
  function MacBytesToStr(mac: seq<uint8>): string
  {
    HexPairs(Reverse(mac), true)
  }

  /** One decoded record. */
  datatype ScannerRow = ScannerRow(
    timestampUs: nat,
    advEventType: uint8,
    addrType: uint8,
    macAddress: string,
    advDataLength: uint8,
    rssi: int)

  /** A row of the CSV output: the column names, or a record. */
  datatype CsvRow = NamesRow(names: seq<string>) | RecordRow(row: ScannerRow)

  const COLUMN_NAMES: seq<string> := ["timestamp_us", "adv_event_type", "addr_type", "mac_address", "adv_data_length", "rssi"]

  /** One record: bytes 0..5 zero-extended to eight and read little-endian,
      bytes 6 and 7 as they are, bytes 8..13 as the address, byte 14 as it is
      and byte 15 as a signed byte. */
  function DecodeRecord(hdr: seq<uint8>): ScannerRow
    requires |hdr| == HEADER_SIZE
  {
    ScannerRow(FromLittleEndian(hdr[0..6] + [0, 0]), hdr[6], hdr[7], MacBytesToStr(hdr[8..14]), hdr[14], AsInt8(hdr[15]))
  }

  /** `parse_single_file`: the column names, then one row per complete
      16-byte record; a shorter tail is dropped. */
  method ParseSingleFile(data: seq<uint8>) returns (rows: seq<CsvRow>)
    ensures |rows| == 1 + |data| / HEADER_SIZE && rows[0] == NamesRow(COLUMN_NAMES)
    ensures forall j :: 0 <= j < |data| / HEADER_SIZE ==>
      rows[1 + j] == RecordRow(DecodeRecord(data[HEADER_SIZE * j..HEADER_SIZE * j + HEADER_SIZE]))
  {
    rows := [NamesRow(COLUMN_NAMES)];
    var pos := 0;
    while true
      invariant pos <= |data| && pos % HEADER_SIZE == 0
      invariant |rows| == 1 + pos / HEADER_SIZE && rows[0] == NamesRow(COLUMN_NAMES)
      invariant forall j :: 0 <= j < pos / HEADER_SIZE ==>
        rows[1 + j] == RecordRow(DecodeRecord(data[HEADER_SIZE * j..HEADER_SIZE * j + HEADER_SIZE]))
      decreases |data| - pos
    {
      var hdr := data[pos..if pos + HEADER_SIZE <= |data| then pos + HEADER_SIZE else |data|];
      if |hdr| < HEADER_SIZE {
        break;
      }
      rows := rows + [RecordRow(DecodeRecord(hdr))];
      pos := pos + HEADER_SIZE;
    }
  }

  // ---------------------------------------------------------------------
  // Properties

  /** Appending zero bytes at the most significant end keeps the value. */
  lemma {:induction false} ZeroExtension(bs: seq<uint8>, zeros: seq<uint8>)
    requires forall i :: 0 <= i < |zeros| ==> zeros[i] == 0
    ensures FromLittleEndian(bs + zeros) == FromLittleEndian(bs)
    decreases |bs| + |zeros|
  {
    if bs == [] {
      if zeros != [] {
        assert ([] + zeros)[1..] == [] + zeros[1..];
        ZeroExtension([], zeros[1..]);
      }
    } else {
      assert (bs + zeros)[1..] == bs[1..] + zeros;
      ZeroExtension(bs[1..], zeros);
    }
  }

  lemma UpperHex2(b: uint8)
    ensures Hex2(b, true) == Upper(Hex2(b, false))
  {
    var lo := Hex2(b, false);
    assert Upper(lo) == [Upper(lo)[0], Upper(lo)[1]];
    assert lo[1..][1..] == [];
  }

  /** Upper-case pairs are the lower-case pairs upper-cased. */
  lemma {:induction false} UpperPairs(bs: seq<uint8>)
    ensures HexPairs(bs, true) == Upper(HexPairs(bs, false))
    decreases |bs|
  {
    if |bs| == 1 {
      UpperHex2(bs[0]);
    } else if |bs| > 1 {
      UpperPairs(bs[1..]);
      UpperHex2(bs[0]);
      UpperAppend(Hex2(bs[0], false), ":");
      UpperAppend(Hex2(bs[0], false) + ":", HexPairs(bs[1..], false));
    }
  }

  /** Decoding the record the file sink wrote for a decoded report gives back
      the timestamp modulo 2^48, the event type, the address type, the
      printed address in upper case, the data length and the RSSI. */
  lemma RecordRoundTrip(report: SingleReport, timestamp: int)
    requires |report.rawBdaddr| == 6 && report.bdaddrStr == FormatBdaddr(report.rawBdaddr)
    requires -0x80 <= report.rssi < 0x80
    ensures DecodeRecord(Header(report, timestamp)) == ScannerRow(
      timestamp % Pow256(6), report.advEventType, report.addrType, Upper(report.bdaddrStr),
      report.advDataLength, report.rssi)
  {
    var hdr := Header(report, timestamp);
    HeaderLayout(report, timestamp);
    ZeroExtension(hdr[0..6], [0, 0]);
    assert hdr[0..6] == hdr[..6];
    UpperPairs(Reverse(report.rawBdaddr));
  }

  /** Every record of a stored packet decodes to its report. */
  lemma StoredRecordDecodes(reports: seq<SingleReport>, timestamp: int, j: nat)
    requires forall i :: 0 <= i < |reports| ==> |reports[i].rawBdaddr| == 6
    requires j < |reports|
    requires reports[j].bdaddrStr == FormatBdaddr(reports[j].rawBdaddr) && -0x80 <= reports[j].rssi < 0x80
    ensures |Records(reports, timestamp)| / HEADER_SIZE == |reports|
    ensures DecodeRecord(Records(reports, timestamp)[HEADER_SIZE * j..HEADER_SIZE * j + HEADER_SIZE]) == ScannerRow(
      timestamp % Pow256(6), reports[j].advEventType, reports[j].addrType, Upper(reports[j].bdaddrStr),
      reports[j].advDataLength, reports[j].rssi)
  {
    RecordsSlice(reports, timestamp, j);
    RecordRoundTrip(reports[j], timestamp);
  }
}
