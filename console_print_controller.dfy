// The console sink: a report becomes one log line in the six-field form the
// UART sink uses, without the file name; a finished profile becomes the
// JSON document, built piece by piece in a string stream.

module ConsolePrintController {
  import opened Bytes
  import opened Text
  import opened Definitions
  import opened HciEventParser
  import opened UartController
  import opened GattJson

  /** `VERBOSE_PRINT`: the multi-line report form is switched off, so only
      the one-line form is modelled. */
  const VERBOSE_PRINT := false

  /** `"%lld,%d,%d,%s,%d,%d"`: the UART line's first six fields and nothing
      after the RSSI. */
  function ConsoleLine(report: SingleReport, timestamp: int): string
  {
    LineHead(report, timestamp, IntToDecimal(report.rssi))
  }

  /** The header lines logged before the reports of an event. */
  function EventBanner(timestamp: int, numReports: nat): seq<string>
  {
    ["LE Advertising Report:", "Timestamp: " + IntToDecimal(timestamp), "Number of Reports: " + NatToDecimal(numReports)]
  }

  class ConsolePrintController {
    var logged: seq<string>

    constructor ()
      ensures logged == []
    {
      logged := [];
    }

    /** Logs one report; it never fails. */
    method PrintAdvertisingSingleReport(report: SingleReport, timestamp: int) returns (status: Status)
      modifies this
      ensures status == Ok && logged == old(logged) + [ConsoleLine(report, timestamp)]
    {
      logged := logged + [ConsoleLine(report, timestamp)];
      return Ok;
    }

    /** Logs the event's banner, then its current reports in order. */
    method PrintAdvertisingReport(adv: LeAdvertisingReport) returns (status: Status)
      requires adv.numReports <= adv.reports.Length
      modifies this
      ensures status == Ok
      ensures |logged| == |old(logged)| + 3 + adv.numReports
      ensures logged[..|old(logged)| + 3] == old(logged) + EventBanner(adv.timestamp, adv.numReports as nat)
      ensures forall j :: 0 <= j < adv.numReports ==>
        logged[|old(logged)| + 3 + j] == ConsoleLine(adv.reports[j], adv.timestamp)
    {
      logged := logged + EventBanner(adv.timestamp, adv.numReports as nat);
      ghost var start := logged;
      var i := 0;
      while i < adv.numReports
        invariant 0 <= i <= adv.numReports
        invariant |logged| == |start| + i && logged[..|start|] == start
        invariant forall j :: 0 <= j < i ==> logged[|start| + j] == ConsoleLine(adv.reports[j], adv.timestamp)
      {
        var s := PrintAdvertisingSingleReport(adv.reports[i], adv.timestamp);
        if s != Ok {
          return s;
        }
        i := i + 1;
      }
      return Ok;
    }

    /** Builds the profile's JSON and logs it under the slot's number. */
    method PrintGattProfileJson(appId: int, remoteBda: seq<uint8>, request: InterrogationRequest, services: seq<ServiceWrapper>)
      requires forall j :: 0 <= j < |services| ==> ServiceWellFormed(services[j])
      modifies this
      ensures logged == old(logged) + ["GATT Profile JSON of APP_ID " + IntToDecimal(appId) + ":\n"
        + ProfileJson(remoteBda, request, services, Unpadded)]
    {
      var json := BuildProfileJson(remoteBda, request, services);
      logged := logged + ["GATT Profile JSON of APP_ID " + IntToDecimal(appId) + ":\n" + json];
    }
  }

  /** The string stream: the head, then one service at a time, then the
      closing brackets. */
  method BuildProfileJson(remoteBda: seq<uint8>, request: InterrogationRequest, services: seq<ServiceWrapper>) returns (oss: string)
    requires forall j :: 0 <= j < |services| ==> ServiceWellFormed(services[j])
    ensures oss == ProfileJson(remoteBda, request, services, Unpadded)
  {
    ghost var lines := ServiceUuidLines(services, Unpadded);
    ghost var texts := ServiceCharTexts(services, Unpadded);
    ghost var head := JsonHead(remoteBda, request);
    oss := JsonHead(remoteBda, request);
    var si := 0;
    while si < |services|
      invariant 0 <= si <= |services|
      invariant oss == head + ServiceItems(services, lines, texts, si)
    {
      var item := BuildServiceJson(services[si], si + 1 == |services|);
      assert lines[si] == UuidJson(services[si].service.uuid, "      ", Unpadded);
      assert texts[si] == CharsJson(services[si].chars, Unpadded);
      ServicesStep(head, services, lines, texts, si, item);
      oss := oss + item;
      si := si + 1;
    }
    oss := oss + JSON_TAIL;
    WellFormedProfile(remoteBda, request, services, Unpadded);
  }

  /** One service object, its characteristics streamed one at a time. */
  method BuildServiceJson(srv: ServiceWrapper, last: bool) returns (item: string)
    requires ServiceWellFormed(srv)
    ensures item == ServiceText(srv, UuidJson(srv.service.uuid, "      ", Unpadded), CharsJson(srv.chars, Unpadded), last)
  {
    var chars := BuildCharsJson(srv.chars);
    item := ServiceText(srv, UuidJson(srv.service.uuid, "      ", Unpadded), chars, last);
  }

  /** The characteristics of one service, one at a time. */
  method BuildCharsJson(cs: seq<CharacteristicWrapper>) returns (oss: string)
    requires forall j :: 0 <= j < |cs| ==> CharWellFormed(cs[j])
    ensures oss == CharsJson(cs, Unpadded)
  {
    ghost var lines := CharUuidLines(cs, Unpadded);
    oss := "";
    var ci := 0;
    while ci < |cs|
      invariant 0 <= ci <= |cs|
      invariant oss == CharItems(cs, lines, ci)
    {
      var item := CharText(cs[ci], UuidJson(cs[ci].meta.uuid, "          ", Unpadded), ci + 1 == |cs|);
      CharsStep(cs, lines, ci, item);
      oss := oss + item;
      ci := ci + 1;
    }
  }

  lemma CharsStep(cs: seq<CharacteristicWrapper>, lines: seq<string>, n: nat, item: string)
    requires forall j :: 0 <= j < |cs| ==> CharWellFormed(cs[j])
    requires n < |cs| && lines == CharUuidLines(cs, Unpadded)
    requires item == CharText(cs[n], UuidJson(cs[n].meta.uuid, "          ", Unpadded), n + 1 == |cs|)
    ensures CharItems(cs, lines, n) + item == CharItems(cs, lines, n + 1)
  {
    assert lines[n] == UuidJson(cs[n].meta.uuid, "          ", Unpadded);
  }

  lemma ServicesStep(head: string, ss: seq<ServiceWrapper>, lines: seq<string>, texts: seq<string>, n: nat, item: string)
    requires n < |ss| == |lines| == |texts|
    requires item == ServiceText(ss[n], lines[n], texts[n], n + 1 == |ss|)
    ensures head + ServiceItems(ss, lines, texts, n) + item == head + ServiceItems(ss, lines, texts, n + 1)
  {
    assert ServiceItems(ss, lines, texts, n + 1) == ServiceItems(ss, lines, texts, n) + item;
  }

  lemma WellFormedProfile(remoteBda: seq<uint8>, request: InterrogationRequest, services: seq<ServiceWrapper>, style: UuidStyle)
    requires forall j :: 0 <= j < |services| ==> ServiceWellFormed(services[j])
    ensures ProfileJson(remoteBda, request, services, style)
      == JsonHead(remoteBda, request) + ServiceItems(services, ServiceUuidLines(services, style), ServiceCharTexts(services, style), |services|) + JSON_TAIL
  {
  }

  // ---------------------------------------------------------------------
  // Properties

  /** Wrapping the last field. */
  lemma LineHeadAppend(report: SingleReport, timestamp: int, last: string, more: string)
    ensures LineHead(report, timestamp, last) + more == LineHead(report, timestamp, last + more)
  {
  }

  /** The console line is the UART line without its seventh field: with no
      file name set, the UART line is the console line followed by `,-`. */
  lemma ConsoleLineIsUartLineHead(report: SingleReport, timestamp: int)
    requires |ConsoleLine(report, timestamp)| + 3 <= LINE_CAPACITY - 1
    ensures CsvLineAsWritten(report, timestamp, None) == ConsoleLine(report, timestamp) + ",-\n"
  {
    var rssi := IntToDecimal(report.rssi);
    LineHeadAppend(report, timestamp, rssi, ",-\n");
    assert Field(rssi, "-\n") == rssi + ",-\n";
  }

  /** With a file name set, the UART line as written is the console line
      with the name glued to it. */
  lemma ConsoleLineAndNamedUartLine(report: SingleReport, timestamp: int, filename: string)
    ensures CsvLineAsWritten(report, timestamp, Some(filename))
      == Prefix(ConsoleLine(report, timestamp) + filename + "\n", LINE_CAPACITY - 1)
  {
    var rssi := IntToDecimal(report.rssi);
    LineHeadAppend(report, timestamp, rssi, filename + "\n");
    assert rssi + filename + "\n" == rssi + (filename + "\n");
  }

  /** The body of the logged console message, without the prefix and the
      newline `ESP_LOGI` adds, read by the UART parser, gives back the six
      fields and an empty file name. */
  lemma ConsoleLineRoundTrip(report: SingleReport, timestamp: int)
    requires Transmissible(report)
    requires |ConsoleLine(report, timestamp)| <= LINE_CAPACITY - 1
    ensures ParseAdvReportFromString(ConsoleLine(report, timestamp)) == Some(TextReport(
      timestamp, report.advEventType, report.addrType, report.bdaddrStr, report.advDataLength, report.rssi, ""))
  {
    var rssi := IntToDecimal(report.rssi);
    IntIsToken(report.rssi);
    StrTokOfField(rssi, []);
    ParseOfHead(report, timestamp, rssi, rssi, []);
    FieldsReadBack(report, timestamp, []);
    assert rssi + [] == rssi;
  }
}
