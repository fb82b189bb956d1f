// The scanner's UART sink: every admitted report becomes one CSV line that
// the interrogator reads back with `parseAdvReportFromString`.

module UartController {
  import opened Bytes
  import opened Text
  import opened Definitions
  import opened HciEventParser

  /** Size of the `snprintf` buffer: at most 255 characters are sent. */
  const LINE_CAPACITY: nat := 256

  /** A field, its comma, and what follows. */
  function Field(field: string, rest: string): string
  {
    field + [','] + rest
  }

  /** The five leading fields of `"%lld,%d,%d,%s,%d,"`, each with its comma,
      followed by `last`. */
  function LineHead(report: SingleReport, timestamp: int, last: string): string
  {
    Field(IntToDecimal(timestamp), Field(NatToDecimal(report.advEventType), Field(NatToDecimal(report.addrType),
      Field(report.bdaddrStr, Field(NatToDecimal(report.advDataLength), last)))))
  }

  /** The line as `printAdvertisingSingleReport` formats it: with no file name
      the RSSI is followed by `,-`; with one, the name follows the RSSI with no
      comma between them. `snprintf` keeps 255 characters. */
  function CsvLineAsWritten(report: SingleReport, timestamp: int, filename: Option<string>): string
  {
    var rssi := IntToDecimal(report.rssi);
    var line := if filename.None? then LineHead(report, timestamp, Field(rssi, "-\n"))
                else LineHead(report, timestamp, rssi + filename.value + "\n");
    Prefix(line, LINE_CAPACITY - 1)
  }

  /** The file name, or `-` when there is none. */
  function NameField(filename: Option<string>): string
  {
    if filename.None? then "-" else filename.value
  }

  /** The line with the file name as a seventh comma-separated field, which is
      where the parser looks for it. */
  function CsvLine(report: SingleReport, timestamp: int, filename: Option<string>): (line: string)
    ensures |line| <= LINE_CAPACITY - 1
  {
    Prefix(LineHead(report, timestamp, Field(IntToDecimal(report.rssi), NameField(filename) + "\n")), LINE_CAPACITY - 1)
  }

  /** Without a file name the corrected line is the line as written. */
  lemma CsvLineWithoutName(report: SingleReport, timestamp: int)
    ensures CsvLine(report, timestamp, None) == CsvLineAsWritten(report, timestamp, None)
  {
  }

  /** The UART sink: the name of the scanner file currently written (a null
      pointer is None) and the lines sent so far. */
  class UartController {
    var currentlyUsedFilename: Option<string>
    var sent: seq<string>

    constructor ()
      ensures currentlyUsedFilename.None? && sent == []
    {
      currentlyUsedFilename := None;
      sent := [];
    }

    method SetCurrentlyUsedFilename(filename: Option<string>)
      modifies this
      ensures currentlyUsedFilename == filename && sent == old(sent)
    {
      currentlyUsedFilename := filename;
    }

    /** Sends one report's line; it never fails. */
    method PrintAdvertisingSingleReport(report: SingleReport, timestamp: int) returns (status: Status)
      modifies this
      ensures status == Ok
      ensures sent == old(sent) + [CsvLine(report, timestamp, currentlyUsedFilename)]
      ensures currentlyUsedFilename == old(currentlyUsedFilename)
    {
      var formatted := LineHead(report, timestamp, Field(IntToDecimal(report.rssi), NameField(currentlyUsedFilename) + "\n"));
      if |formatted| > LINE_CAPACITY - 1 {
        formatted := formatted[..LINE_CAPACITY - 1];
      }
      sent := sent + [formatted];
      return Ok;
    }

    /** Sends the current reports of `adv` in order, all stamped with the
        event's timestamp, stopping at the first error (there is none): one
        line per report, appended after what was sent before. */
    method PrintAdvertisingReport(adv: LeAdvertisingReport) returns (status: Status)
      requires adv.numReports <= adv.reports.Length
      modifies this
      ensures status == Ok
      ensures |sent| == |old(sent)| + adv.numReports && sent[..|old(sent)|] == old(sent)
      ensures forall j :: 0 <= j < adv.numReports ==>
        sent[|old(sent)| + j] == CsvLine(adv.reports[j], adv.timestamp, currentlyUsedFilename)
      ensures currentlyUsedFilename == old(currentlyUsedFilename)
    {
      var i := 0;
      while i < adv.numReports
        invariant 0 <= i <= adv.numReports
        invariant currentlyUsedFilename == old(currentlyUsedFilename)
        invariant |sent| == |old(sent)| + i && sent[..|old(sent)|] == old(sent)
        invariant forall j :: 0 <= j < i ==>
          sent[|old(sent)| + j] == CsvLine(adv.reports[j], adv.timestamp, currentlyUsedFilename)
      {
        var s := PrintAdvertisingSingleReport(adv.reports[i], adv.timestamp);
        if s != Ok {
          return s;
        }
        i := i + 1;
      }
      return Ok;
    }
  }

  // ---------------------------------------------------------------------
  // Reading the line back

  /** What a report must satisfy for its line to be read back field by field:
      an address with no comma that fits the parser's 18-byte field, and an
      RSSI that fits `int8_t`. */
  predicate Transmissible(report: SingleReport)
  {
    1 <= |report.bdaddrStr| <= 17 && NoComma(report.bdaddrStr) && -0x80 <= report.rssi < 0x80
  }

  /** The length of the line before `snprintf` cuts it. */
  function UntruncatedLength(report: SingleReport, timestamp: int, filename: Option<string>): nat
  {
    |LineHead(report, timestamp, Field(IntToDecimal(report.rssi), NameField(filename) + "\n"))|
  }

  /** `strtok_r` takes the five leading fields off a line in order. */
  lemma HeadTokens(report: SingleReport, timestamp: int, last: string)
    requires Transmissible(report)
    ensures var r0 := Field(NatToDecimal(report.advEventType), Field(NatToDecimal(report.addrType),
              Field(report.bdaddrStr, Field(NatToDecimal(report.advDataLength), last))));
      var r1 := Field(NatToDecimal(report.addrType), Field(report.bdaddrStr, Field(NatToDecimal(report.advDataLength), last)));
      var r2 := Field(report.bdaddrStr, Field(NatToDecimal(report.advDataLength), last));
      var r3 := Field(NatToDecimal(report.advDataLength), last);
      StrTok(LineHead(report, timestamp, last)) == Some((IntToDecimal(timestamp), r0))
      && StrTok(r0) == Some((NatToDecimal(report.advEventType), r1))
      && StrTok(r1) == Some((NatToDecimal(report.addrType), r2))
      && StrTok(r2) == Some((report.bdaddrStr, r3))
      && StrTok(r3) == Some((NatToDecimal(report.advDataLength), last))
  {
    IntIsToken(timestamp);
    NatIsToken(report.advEventType);
    NatIsToken(report.addrType);
    NatIsToken(report.advDataLength);
    var r3 := Field(NatToDecimal(report.advDataLength), last);
    var r2 := Field(report.bdaddrStr, r3);
    var r1 := Field(NatToDecimal(report.addrType), r2);
    var r0 := Field(NatToDecimal(report.advEventType), r1);
    StrTokOfField(IntToDecimal(timestamp), r0);
    StrTokOfField(NatToDecimal(report.advEventType), r1);
    StrTokOfField(NatToDecimal(report.addrType), r2);
    StrTokOfField(report.bdaddrStr, r3);
    StrTokOfField(NatToDecimal(report.advDataLength), last);
  }

  lemma IntIsToken(i: int)
    ensures IsToken(IntToDecimal(i))
  {
    var s := IntToDecimal(i);
    assert forall k :: 0 <= k < |s| ==> s[k] != ',' by {
      assert forall k :: 1 <= k < |s| ==> IsDigit(s[k]);
    }
  }

  lemma NatIsToken(n: nat)
    ensures IsToken(NatToDecimal(n))
  {
    var s := NatToDecimal(n);
    assert forall k :: 0 <= k < |s| ==> IsDigit(s[k]);
  }

  /** The parser recovers every field of a line it was sent, including the
      file name, or `-` when there was none. */
  lemma CsvRoundTrip(report: SingleReport, timestamp: int, filename: Option<string>)
    requires Transmissible(report)
    requires filename.Some? ==> |filename.value| <= FILENAME_CAPACITY - 1
    requires UntruncatedLength(report, timestamp, filename) <= LINE_CAPACITY - 1
    ensures ParseAdvReportFromString(CsvLine(report, timestamp, filename)) ==
      Some(TextReport(timestamp, report.advEventType, report.addrType, report.bdaddrStr,
                      report.advDataLength, report.rssi, NameField(filename)))
  {
    var rssi := IntToDecimal(report.rssi);
    var tail := NameField(filename) + "\n";
    var last := Field(rssi, tail);
    assert last == rssi + [','] + tail;
    IntIsToken(report.rssi);
    StrTokOfField(rssi, tail);
    ParseOfHead(report, timestamp, last, rssi, tail);
    FieldsReadBack(report, timestamp, []);
    assert tail[..|tail| - 1] == NameField(filename);
  }

  /** The parse of a line made of the five leading fields and a last part
      from which `strtok_r` takes the sixth token. */
  lemma ParseOfHead(report: SingleReport, timestamp: int, last: string, t5: string, r5: string)
    requires Transmissible(report)
    requires |LineHead(report, timestamp, last)| <= 255
    requires StrTok(last) == Some((t5, r5))
    ensures ParseAdvReportFromString(LineHead(report, timestamp, last)) ==
      Some(TextReport(Atoi(IntToDecimal(timestamp)), ToUint8(Atoi(NatToDecimal(report.advEventType))),
                      ToUint8(Atoi(NatToDecimal(report.addrType))), Prefix(report.bdaddrStr, 17),
                      ToUint8(Atoi(NatToDecimal(report.advDataLength))), ToInt8(Atoi(t5)), FilenameField(r5)))
  {
    var r3 := Field(NatToDecimal(report.advDataLength), last);
    var r2 := Field(report.bdaddrStr, r3);
    var r1 := Field(NatToDecimal(report.addrType), r2);
    var r0 := Field(NatToDecimal(report.advEventType), r1);
    HeadTokens(report, timestamp, last);
    ParseOfTokens(LineHead(report, timestamp, last), IntToDecimal(timestamp), r0, NatToDecimal(report.advEventType), r1,
      NatToDecimal(report.addrType), r2, report.bdaddrStr, r3, NatToDecimal(report.advDataLength), last, t5, r5);
  }

  /** `atoi` and the casts give back the numeric fields, whatever non-digit
      text follows the RSSI. */
  lemma FieldsReadBack(report: SingleReport, timestamp: int, rssiTail: string)
    requires Transmissible(report)
    requires rssiTail == [] || !IsDigit(rssiTail[0])
    ensures Atoi(IntToDecimal(timestamp)) == timestamp
    ensures ToUint8(Atoi(NatToDecimal(report.advEventType))) == report.advEventType
    ensures ToUint8(Atoi(NatToDecimal(report.addrType))) == report.addrType
    ensures Prefix(report.bdaddrStr, 17) == report.bdaddrStr
    ensures ToUint8(Atoi(NatToDecimal(report.advDataLength))) == report.advDataLength
    ensures ToInt8(Atoi(IntToDecimal(report.rssi) + rssiTail)) == report.rssi
    ensures ToInt8(Atoi(IntToDecimal(report.rssi))) == report.rssi
  {
    AtoiOfNat(report.rssi);
    AtoiOfNat(timestamp);
    AtoiOfNat(report.advEventType);
    AtoiOfNat(report.addrType);
    AtoiOfNat(report.advDataLength);
    AtoiOfDecimal(report.rssi, rssiTail);
    Int8RoundTrip(report.rssi);
  }

  lemma AtoiOfNat(i: int)
    ensures Atoi(IntToDecimal(i)) == i
    ensures i >= 0 ==> Atoi(NatToDecimal(i)) == i
  {
    AtoiOfDecimal(i, []);
    assert IntToDecimal(i) + [] == IntToDecimal(i);
  }

  /** The line as written loses the file name: the name fuses with the RSSI
      into the sixth token, `atoi` stops at its first character, and the
      parser finds nothing after the sixth token. */
  lemma AsWrittenLosesFilename(report: SingleReport, timestamp: int, filename: string)
    requires Transmissible(report)
    requires NoComma(filename) && (filename == [] || !IsDigit(filename[0]))
    requires UntruncatedLength(report, timestamp, Some(filename)) <= LINE_CAPACITY - 1
    ensures ParseAdvReportFromString(CsvLineAsWritten(report, timestamp, Some(filename))) ==
      Some(TextReport(timestamp, report.advEventType, report.addrType, report.bdaddrStr,
                      report.advDataLength, report.rssi, ""))
  {
    var rssi := IntToDecimal(report.rssi);
    var last := rssi + (filename + "\n");
    assert rssi + filename + "\n" == last;
    LineHeadLength(report, timestamp, last);
    LineHeadLength(report, timestamp, Field(rssi, filename + "\n"));
    IntIsToken(report.rssi);
    assert IsToken(last);
    StrTokOfField(last, []);
    ParseOfHead(report, timestamp, last, last, []);
    FieldsReadBack(report, timestamp, filename + "\n");
  }

  /** The five leading fields take their printed lengths and five commas. */
  lemma LineHeadLength(report: SingleReport, timestamp: int, last: string)
    ensures |LineHead(report, timestamp, last)| ==
      |IntToDecimal(timestamp)| + |NatToDecimal(report.advEventType)| + |NatToDecimal(report.addrType)|
      + |report.bdaddrStr| + |NatToDecimal(report.advDataLength)| + 5 + |last|
  {
  }

  /** The names the file sink gives the scanner's files, `"%s_%d%s"` of
      the base name, an index below 1000 and the extension. */
  function ScannerFilename(index: nat): string
  {
    "/storage/scanner_log_" + NatToDecimal(index) + ".bin"
  }

  lemma ScannerFilenameShape(index: nat)
    requires index < 1000
    ensures var name := ScannerFilename(index);
      NoComma(name) && name[0] == '/' && |name| <= 28
  {
    var d := NatToDecimal(index);
    DecimalLength(index, 3);
    assert forall k :: 0 <= k < |d| ==> IsDigit(d[k]);
    NoCommaAppend("/storage/scanner_log_", d);
    NoCommaAppend("/storage/scanner_log_" + d, ".bin");
  }

  lemma NoCommaAppend(a: string, b: string)
    requires NoComma(a) && NoComma(b)
    ensures NoComma(a + b)
  {
    forall k | 0 <= k < |a + b| ensures (a + b)[k] != ',' {
      if k >= |a| {
        assert (a + b)[k] == b[k - |a|];
      }
    }
  }

  /** Every scanner file name is lost on the way through the line as written,
      and kept by the corrected line. */
  lemma AsWrittenLosesScannerFilename(report: SingleReport, timestamp: int, index: nat)
    requires Transmissible(report) && index < 1000
    requires UntruncatedLength(report, timestamp, Some(ScannerFilename(index))) <= LINE_CAPACITY - 1
    ensures ParseAdvReportFromString(CsvLineAsWritten(report, timestamp, Some(ScannerFilename(index)))) ==
      Some(TextReport(timestamp, report.advEventType, report.addrType, report.bdaddrStr,
                      report.advDataLength, report.rssi, ""))
    ensures ParseAdvReportFromString(CsvLine(report, timestamp, Some(ScannerFilename(index)))) ==
      Some(TextReport(timestamp, report.advEventType, report.addrType, report.bdaddrStr,
                      report.advDataLength, report.rssi, ScannerFilename(index)))
  {
    ScannerFilenameShape(index);
    AsWrittenLosesFilename(report, timestamp, ScannerFilename(index));
    CsvRoundTrip(report, timestamp, Some(ScannerFilename(index)));
  }
}
