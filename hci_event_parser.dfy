// The two decoders of the capture pipeline: the binary decoder of the HCI
// LE Advertising Report event (Bluetooth Core Specification v5.4, Vol 4,
// Part E, section 7.7.65.2, in an HCI event packet of section 5.4.4 behind
// the H4 indicator of Vol 4, Part A, section 2), and the parser of the text
// line the scanner sends over UART. The binary decoder reads each report's
// fields together, one report after the other; the collector reads the
// per-field arrays of that section one after the other instead.

module HciEventParser {
  import opened Bytes
  import opened Text
  import opened Definitions

  /** H4 packet indicator of an HCI event. */
  const H4_TYPE_EVENT: uint8 := 0x04
  /** Event code of the LE Meta event. */
  const LE_META_EVENTS: uint8 := 0x3E
  /** Subevent code of the LE Advertising Report. */
  const HCI_LE_ADV_REPORT: uint8 := 0x02
  /** Offset of the first report: H4 indicator, event code, parameter length,
      subevent code and report count come first. */
  const REPORTS_OFFSET: nat := 5

  /** The `esp_err_t` results of the decoder, the sinks and the
      interrogator's request queue. */
  datatype Status = Ok | ErrInvalidState | ErrNotFound | Fail | ErrInvalidSize | ErrNoMem

  /** The address as printed by `%02x:%02x:...` from the last wire byte to the
      first, so that the most significant octet comes first. */
  function FormatBdaddr(wire: seq<uint8>): (s: string)
    requires |wire| == 6
    ensures |s| == 17
  {
    HexPairs(Reverse(wire), false)
  }

  /** What one decoded report always satisfies. */
  ghost predicate WellDecoded(r: SingleReport)
  {
    |r.rawBdaddr| == 6 && r.bdaddrStr == FormatBdaddr(r.rawBdaddr)
    && r.advDataLength <= ADV_DATA_CAPACITY && |r.advData| == r.advDataLength
    && -0x80 <= r.rssi < 0x80
  }

  /** The data length kept for a report: the declared length, clamped to the
      31 bytes a report holds. */
  function StoredLength(wireLength: uint8): (n: uint8)
    ensures n <= ADV_DATA_CAPACITY && n <= wireLength
    ensures wireLength <= ADV_DATA_CAPACITY ==> n == wireLength
  {
    if wireLength > ADV_DATA_CAPACITY then ADV_DATA_CAPACITY else wireLength
  }

  /** Whether the report that starts at `pos` lies inside `buf`: its nine
      fixed bytes, its stored data and its RSSI byte; with `checked`, also
      the data length it declares. */
  predicate ReportFits(buf: seq<uint8>, pos: nat, checked: bool)
  {
    pos + 9 <= |buf| && (checked ==> pos + 9 + buf[pos + 8] <= |buf|)
    && pos + 10 + StoredLength(buf[pos + 8]) <= |buf|
  }

  /** The fields of the report at `pos`, read one after the other, with the
      position just after it; the address text is printed from the last wire
      byte to the first. */
  function ReportBody(buf: seq<uint8>, pos: nat): (r: (SingleReport, nat))
    requires ReportFits(buf, pos, false)
    ensures WellDecoded(r.0)
    ensures pos < r.1 == pos + 10 + r.0.advDataLength <= |buf|
  {
    var length := StoredLength(buf[pos + 8]);
    var raw := buf[pos + 2..pos + 8];
    (SingleReport(buf[pos], buf[pos + 1], FormatBdaddr(raw), raw, length,
                  buf[pos + 9..pos + 9 + length], AsInt8(buf[pos + 9 + length])),
     pos + 10 + length)
  }

  /** The report that starts at `pos`, or None when reading it would pass the
      end of `buf`. */
  function ReportAt(buf: seq<uint8>, pos: nat, checked: bool): (r: Option<(SingleReport, nat)>)
  {
    if ReportFits(buf, pos, checked) then Some(ReportBody(buf, pos)) else None
  }

  /** One more report onto a walk: nothing changes once the walk has passed
      the end; otherwise the report at the current position is appended, or
      the walk fails there. */
  function WalkStep(buf: seq<uint8>, prev: (seq<SingleReport>, Option<nat>), checked: bool): (r: (seq<SingleReport>, Option<nat>))
  {
    if prev.1.None? then prev
    else
      var next := ReportAt(buf, prev.1.value, checked);
      if next.None? then (prev.0, None) else (prev.0 + [next.value.0], Some(next.value.1))
  }

  /** The first `k` consecutive reports from `start`, and the position after
      the last, or None as second component when the walk passed the end; the
      reports read before that point are kept. */
  function ReportsFrom(buf: seq<uint8>, start: nat, k: nat, checked: bool): (r: (seq<SingleReport>, Option<nat>))
    ensures |r.0| <= k
    ensures r.1.None? ==> |r.0| < k
    ensures r.1.Some? ==> |r.0| == k && (k == 0 ==> r.1.value == start) && (k > 0 ==> start < r.1.value <= |buf|)
    decreases k
  {
    if k == 0 then ([], Some(start)) else WalkStep(buf, ReportsFrom(buf, start, k - 1, checked), checked)
  }

  /** Every report a walk reads is one a decoder can give. */
  lemma {:induction false} ReportsWellDecoded(buf: seq<uint8>, start: nat, k: nat, checked: bool)
    ensures forall j :: 0 <= j < |ReportsFrom(buf, start, k, checked).0| ==> WellDecoded(ReportsFrom(buf, start, k, checked).0[j])
    decreases k
  {
    if k > 0 {
      ReportsWellDecoded(buf, start, k - 1, checked);
    }
  }

  /** Once the walk has passed the end, reading further reports changes nothing. */
  lemma {:induction false} WalkStaysFailed(buf: seq<uint8>, start: nat, i: nat, k: nat, checked: bool)
    requires i <= k && ReportsFrom(buf, start, i, checked).1.None?
    ensures ReportsFrom(buf, start, k, checked).1.None?
    ensures ReportsFrom(buf, start, k, checked).0 == ReportsFrom(buf, start, i, checked).0
    decreases k - i
  {
    if i < k {
      var a := ReportsFrom(buf, start, i, checked);
      var b := ReportsFrom(buf, start, i + 1, checked);
      FailedStep(buf, start, i, checked);
      WalkStaysFailed(buf, start, i + 1, k, checked);
      var c := ReportsFrom(buf, start, k, checked);
      assert c.0 == b.0;
      assert b.0 == a.0;
    } else {
      assert i == k;
    }
  }

  lemma FailedStep(buf: seq<uint8>, start: nat, i: nat, checked: bool)
    requires ReportsFrom(buf, start, i, checked).1.None?
    ensures ReportsFrom(buf, start, i + 1, checked).1.None?
    ensures ReportsFrom(buf, start, i + 1, checked).0 == ReportsFrom(buf, start, i, checked).0
  {
  }

  /** Everything a call leaves behind: its status, whether it stamped the
      report with the packet's timestamp, the report count it stored, and the
      reports it wrote, from slot 0 on. */
  datatype Outcome = Outcome(status: Status, stamped: bool, count: Option<uint8>, decoded: seq<SingleReport>)

  predicate MarkersMatch(buf: seq<uint8>)
  {
    |buf| >= 4 && buf[0] == H4_TYPE_EVENT && buf[1] == LE_META_EVENTS && buf[3] == HCI_LE_ADV_REPORT
  }

  /** The walk of `fillAdvReport`. With `checked`, every read first checks the
      end of the buffer (ESP_ERR_INVALID_SIZE); without it, ESP_ERR_INVALID_SIZE
      marks the point where the walk would read past the end. */
  function Walk(buf: seq<uint8>, checked: bool): (o: Outcome)
  {
    if |buf| == 0 then Outcome(ErrInvalidState, false, None, [])
    else if buf[0] != H4_TYPE_EVENT then Outcome(ErrNotFound, false, None, [])
    else if |buf| < 2 then Outcome(ErrInvalidSize, false, None, [])
    else if buf[1] != LE_META_EVENTS then Outcome(ErrNotFound, false, None, [])
    else if |buf| < 4 then Outcome(ErrInvalidSize, false, None, [])
    else if buf[3] != HCI_LE_ADV_REPORT then Outcome(ErrNotFound, false, None, [])
    else if |buf| < 5 then Outcome(ErrInvalidSize, true, None, [])
    else if buf[4] < 1 || buf[4] > MAX_NUM_REPORTS then Outcome(Fail, true, None, [])
    else
      var (reports, end) := ReportsFrom(buf, REPORTS_OFFSET, buf[4], checked);
      Outcome(if end.Some? then Ok else ErrInvalidSize, true, Some(buf[4]), reports)
  }

  /** The decoder with the end-of-buffer checks in place. */
  function Decode(buf: seq<uint8>): (o: Outcome)
    ensures o.status == ErrInvalidState <==> |buf| == 0
    ensures o.status == ErrNotFound <==>
      (|buf| >= 1 && buf[0] != H4_TYPE_EVENT)
      || (|buf| >= 2 && buf[0] == H4_TYPE_EVENT && buf[1] != LE_META_EVENTS)
      || (|buf| >= 4 && buf[0] == H4_TYPE_EVENT && buf[1] == LE_META_EVENTS && buf[3] != HCI_LE_ADV_REPORT)
    ensures o.stamped <==> MarkersMatch(buf)
    ensures o.status == Fail <==> MarkersMatch(buf) && |buf| >= 5 && !(1 <= buf[4] <= MAX_NUM_REPORTS)
    ensures o.count.Some? <==> MarkersMatch(buf) && |buf| >= 5 && 1 <= buf[4] <= MAX_NUM_REPORTS
    ensures o.count.Some? ==> o.count.value == buf[4]
    ensures o.status == Ok ==> o.count.Some? && |o.decoded| == o.count.value
    ensures o.status != Ok ==> o.count.None? || |o.decoded| < o.count.value
    ensures |o.decoded| <= MAX_NUM_REPORTS
    ensures forall j :: 0 <= j < |o.decoded| ==> WellDecoded(o.decoded[j])
  {
    if |buf| >= 5 then ReportsWellDecoded(buf, REPORTS_OFFSET, buf[4], true); Walk(buf, true) else Walk(buf, true)
  }

  /** `fillAdvReport` as written, where none of the end-of-buffer checks is
      active: None when it reads past the end of the packet. */
  function AsWrittenDecode(buf: seq<uint8>): (r: Option<Outcome>)
  {
    var o := Walk(buf, false);
    if o.status == ErrInvalidSize then None else Some(o)
  }

  /** The checked walk stops no later than the unchecked one, and where it
      completes the two walks read the same reports to the same end. */
  lemma {:induction false} CheckedWalkRefines(buf: seq<uint8>, pos: nat, k: nat)
    ensures ReportsFrom(buf, pos, k, false).1.None? ==> ReportsFrom(buf, pos, k, true).1.None?
    ensures ReportsFrom(buf, pos, k, true).1.Some? ==> ReportsFrom(buf, pos, k, false) == ReportsFrom(buf, pos, k, true)
    decreases k
  {
    if k > 0 {
      CheckedWalkRefines(buf, pos, k - 1);
      var c := ReportsFrom(buf, pos, k - 1, true);
      var u := ReportsFrom(buf, pos, k - 1, false);
      CheckedStepRefines(buf, u, c);
    } else {
      assert k == 0;
    }
  }

  lemma CheckedStepRefines(buf: seq<uint8>, u: (seq<SingleReport>, Option<nat>), c: (seq<SingleReport>, Option<nat>))
    requires u.1.None? ==> c.1.None?
    requires c.1.Some? ==> u == c
    ensures WalkStep(buf, u, false).1.None? ==> WalkStep(buf, c, true).1.None?
    ensures WalkStep(buf, c, true).1.Some? ==> WalkStep(buf, u, false) == WalkStep(buf, c, true)
  {
    if c.1.Some? {
      CheckedReportRefines(buf, c.1.value);
    }
  }

  /** The data-length check only ever refuses more. */
  lemma CheckedReportRefines(buf: seq<uint8>, pos: nat)
    ensures ReportFits(buf, pos, true) ==> ReportFits(buf, pos, false)
    ensures ReportFits(buf, pos, true) ==> ReportAt(buf, pos, false) == ReportAt(buf, pos, true)
  {
  }

  /** Every packet on which the code as written reads past its end is
      refused with ESP_ERR_INVALID_SIZE once the checks are restored, and on
      every packet the checked decoder accepts the two agree. */
  lemma AsWrittenOverrunsAreRefused(buf: seq<uint8>)
    ensures AsWrittenDecode(buf).None? ==> Decode(buf).status == ErrInvalidSize
    ensures Decode(buf).status != ErrInvalidSize ==> AsWrittenDecode(buf) == Some(Decode(buf))
  {
    if MarkersMatch(buf) && |buf| >= 5 && 1 <= buf[4] <= MAX_NUM_REPORTS {
      CheckedWalkRefines(buf, REPORTS_OFFSET, buf[4]);
    }
  }

  /** A one-report event whose RSSI byte is missing: the code as written
      reads one byte past the 14-byte packet. */
  lemma AsWrittenReadsPastEnd()
    ensures AsWrittenDecode([0x04, 0x3E, 0x0B, 0x02, 0x01, 0x00, 0x00, 0xFF, 0xEE, 0xDD, 0xCC, 0xBB, 0xAA, 0x00]).None?
    ensures Decode([0x04, 0x3E, 0x0B, 0x02, 0x01, 0x00, 0x00, 0xFF, 0xEE, 0xDD, 0xCC, 0xBB, 0xAA, 0x00]).status == ErrInvalidSize
  {
  }

  /** An event that carries one report with at most 31 bytes of data
      decodes to exactly that report. */
  lemma SingleReportEvent(eventType: uint8, addrType: uint8, raw: seq<uint8>, data: seq<uint8>, rssiByte: uint8)
    requires |raw| == 6 && |data| <= ADV_DATA_CAPACITY
    ensures var buf := [H4_TYPE_EVENT, LE_META_EVENTS, 12 + |data|, HCI_LE_ADV_REPORT, 1, eventType, addrType] + raw + [|data|] + data + [rssiByte];
      Decode(buf) == Outcome(Ok, true, Some(1), [SingleReport(eventType, addrType, FormatBdaddr(raw), raw, |data|, data, AsInt8(rssiByte))])
  {
    var buf := [H4_TYPE_EVENT, LE_META_EVENTS, 12 + |data|, HCI_LE_ADV_REPORT, 1, eventType, addrType] + raw + [|data|] + data + [rssiByte];
    assert buf[7..13] == raw && buf[13] == |data|;
    assert buf[14..14 + |data|] == data && buf[14 + |data|] == rssiByte;
    var r := ReportAt(buf, 5, true);
    assert r == Some((SingleReport(eventType, addrType, FormatBdaddr(raw), raw, |data|, data, AsInt8(rssiByte)), 15 + |data|));
    assert ReportsFrom(buf, 5, 1, true) == WalkStep(buf, ([], Some(5)), true);
  }

  /** The worked example: one connectable report from AA:BB:CC:DD:EE:FF with
      no data and RSSI 0xBF. */
  lemma DecodeExample(packet: seq<uint8>)
    requires packet == [0x04, 0x3E, 0x0C, 0x02, 0x01, 0x00, 0x00, 0xFF, 0xEE, 0xDD, 0xCC, 0xBB, 0xAA, 0x00, 0xBF]
    ensures var o := Decode(packet);
      o.status == Ok && o.count == Some(1) && |o.decoded| == 1
      && o.decoded[0].advEventType == 0x00
      && o.decoded[0].rawBdaddr == [0xFF, 0xEE, 0xDD, 0xCC, 0xBB, 0xAA]
      && o.decoded[0].bdaddrStr == FormatBdaddr([0xFF, 0xEE, 0xDD, 0xCC, 0xBB, 0xAA])
      && o.decoded[0].rssi == -65
  {
    assert packet == [H4_TYPE_EVENT, LE_META_EVENTS, 12, HCI_LE_ADV_REPORT, 1, 0x00, 0x00]
      + [0xFF, 0xEE, 0xDD, 0xCC, 0xBB, 0xAA] + [0] + [] + [0xBF];
    SingleReportEvent(0x00, 0x00, [0xFF, 0xEE, 0xDD, 0xCC, 0xBB, 0xAA], [], 0xBF);
  }

  /** The address of the worked example, printed most significant octet
      first. */
  lemma FormatExample()
    ensures FormatBdaddr([0xFF, 0xEE, 0xDD, 0xCC, 0xBB, 0xAA]) == "aa:bb:cc:dd:ee:ff"
  {
    var raw: seq<uint8> := [0xFF, 0xEE, 0xDD, 0xCC, 0xBB, 0xAA];
    assert Reverse(raw) == [0xAA, 0xBB, 0xCC, 0xDD, 0xEE, 0xFF];
    PairsExample();
  }

  lemma PairsExample()
    ensures HexPairs([0xAA, 0xBB, 0xCC, 0xDD, 0xEE, 0xFF], false) == "aa:bb:cc:dd:ee:ff"
  {
    HexExample();
    PairsExampleB();
    PairsStep(0xAA, [0xBB, 0xCC, 0xDD, 0xEE, 0xFF], "aa", "bb:cc:dd:ee:ff");
    assert "aa" + ":" + "bb:cc:dd:ee:ff" == "aa:bb:cc:dd:ee:ff";
  }

  lemma PairsExampleB()
    ensures HexPairs([0xBB, 0xCC, 0xDD, 0xEE, 0xFF], false) == "bb:cc:dd:ee:ff"
  {
    HexExample();
    PairsExampleC();
    PairsStep(0xBB, [0xCC, 0xDD, 0xEE, 0xFF], "bb", "cc:dd:ee:ff");
    assert "bb" + ":" + "cc:dd:ee:ff" == "bb:cc:dd:ee:ff";
  }

  lemma PairsExampleC()
    ensures HexPairs([0xCC, 0xDD, 0xEE, 0xFF], false) == "cc:dd:ee:ff"
  {
    HexExample();
    PairsExampleD();
    PairsStep(0xCC, [0xDD, 0xEE, 0xFF], "cc", "dd:ee:ff");
    assert "cc" + ":" + "dd:ee:ff" == "cc:dd:ee:ff";
  }

  lemma PairsExampleD()
    ensures HexPairs([0xDD, 0xEE, 0xFF], false) == "dd:ee:ff"
  {
    HexExample();
    PairsStep(0xEE, [0xFF], "ee", "ff");
    assert "ee" + ":" + "ff" == "ee:ff";
    PairsStep(0xDD, [0xEE, 0xFF], "dd", "ee:ff");
    assert "dd" + ":" + "ee:ff" == "dd:ee:ff";
  }

  /** One more pair in front. */
  lemma PairsStep(b: uint8, rest: seq<uint8>, h: string, t: string)
    requires rest != [] && Hex2(b, false) == h && HexPairs(rest, false) == t
    ensures HexPairs([b] + rest, false) == h + ":" + t
  {
    assert ([b] + rest)[1..] == rest;
  }

  lemma HexExample()
    ensures Hex2(0xAA, false) == "aa" && Hex2(0xBB, false) == "bb" && Hex2(0xCC, false) == "cc"
    ensures Hex2(0xDD, false) == "dd" && Hex2(0xEE, false) == "ee" && Hex2(0xFF, false) == "ff"
  {
    assert HexChar(10, false) == 'a' && HexChar(11, false) == 'b' && HexChar(12, false) == 'c';
    assert HexChar(13, false) == 'd' && HexChar(14, false) == 'e' && HexChar(15, false) == 'f';
  }

  /** `fillAdvReport`: decodes the packet `data` received at `timestamp` into
      `adv` in place. The walk stops at the first failure; the slots of the
      reports it did not reach keep their previous contents. */
  method FillAdvReport(data: seq<uint8>, timestamp: int, adv: LeAdvertisingReport) returns (status: Status)
    requires adv.reports.Length == MAX_NUM_REPORTS
    modifies adv, adv.reports
    ensures var o := Decode(data);
      status == o.status
      && adv.timestamp == (if o.stamped then timestamp else old(adv.timestamp))
      && adv.numReports == (if o.count.Some? then o.count.value else old(adv.numReports))
      && adv.reports[..|o.decoded|] == o.decoded
      && adv.reports[|o.decoded|..] == old(adv.reports[..])[|o.decoded|..]
  {
    if |data| == 0 {
      return ErrInvalidState;
    }
    var cursor := 0;
    if data[cursor] != H4_TYPE_EVENT {
      return ErrNotFound;
    }
    cursor := cursor + 1;
    if cursor + 1 > |data| {
      return ErrInvalidSize;
    }
    if data[cursor] != LE_META_EVENTS {
      return ErrNotFound;
    }
    cursor := cursor + 1;
    // the parameter length is skipped unread
    if cursor + 1 > |data| {
      return ErrInvalidSize;
    }
    cursor := cursor + 1;
    if cursor + 1 > |data| {
      return ErrInvalidSize;
    }
    if data[cursor] != HCI_LE_ADV_REPORT {
      return ErrNotFound;
    }
    cursor := cursor + 1;
    adv.timestamp := timestamp;
    if cursor + 1 > |data| {
      return ErrInvalidSize;
    }
    var reportCount := data[cursor];
    if reportCount < 1 || reportCount > MAX_NUM_REPORTS {
      return Fail;
    }
    adv.numReports := reportCount;
    cursor := cursor + 1;
    var ok := FillReports(data, cursor, reportCount, adv.reports);
    status := if ok then Ok else ErrInvalidSize;
  }

  /** The report loop of `fillAdvReport`: reads `count` reports from `start`
      into the first slots of `reports`, stopping at the first one that does
      not fit in the packet. */
  method FillReports(data: seq<uint8>, start: nat, count: nat, reports: array<SingleReport>) returns (ok: bool)
    requires count <= reports.Length
    modifies reports
    ensures ok == ReportsFrom(data, start, count, true).1.Some?
    ensures reports[..|ReportsFrom(data, start, count, true).0|] == ReportsFrom(data, start, count, true).0
    ensures reports[|ReportsFrom(data, start, count, true).0|..] == old(reports[..])[|ReportsFrom(data, start, count, true).0|..]
  {
    var cursor := start;
    var i := 0;
    while i < count
      invariant 0 <= i <= count
      invariant reports[i..] == old(reports[..])[i..]
      invariant ReportsFrom(data, start, i, true) == (reports[..i], Some(cursor))
    {
      var next := ReadReport(data, cursor);
      if next.None? {
        WalkStaysFailed(data, start, i + 1, count, true);
        return false;
      }
      reports[i] := next.value.0;
      assert reports[..i + 1] == reports[..i] + [next.value.0];
      cursor := next.value.1;
      i := i + 1;
    }
    return true;
  }

  /** One iteration of the report loop: the fields of the report at `cursor`,
      read one after the other, each after its end-of-buffer check. */
  method ReadReport(data: seq<uint8>, start: nat) returns (r: Option<(SingleReport, nat)>)
    ensures r == ReportAt(data, start, true)
  {
    var cursor := start;
    if cursor + 1 > |data| {
      return None;
    }
    var eventType := data[cursor];
    cursor := cursor + 1;
    if cursor + 1 > |data| {
      return None;
    }
    var addrType := data[cursor];
    cursor := cursor + 1;
    if cursor + 6 > |data| {
      return None;
    }
    var raw := data[cursor..cursor + 6];
    var text := FormatBdaddr(raw);
    cursor := cursor + 6;
    if cursor + 1 > |data| {
      return None;
    }
    var length := data[cursor];
    cursor := cursor + 1;
    if cursor + length > |data| {
      return None;
    }
    if length > ADV_DATA_CAPACITY {
      length := ADV_DATA_CAPACITY;
    }
    var advData := data[cursor..cursor + length];
    cursor := cursor + length;
    if cursor + 1 > |data| {
      return None;
    }
    var rssi := AsInt8(data[cursor]);
    cursor := cursor + 1;
    return Some((SingleReport(eventType, addrType, text, raw, length, advData, rssi), cursor));
  }

  // ---------------------------------------------------------------------
  // The UART text line

  /** Number of leading commas. */
  function LeadingCommas(s: string): (n: nat)
    ensures n <= |s| && (n < |s| ==> s[n] != ',')
    ensures forall i :: 0 <= i < n ==> s[i] == ','
  {
    if s != [] && s[0] == ',' then 1 + LeadingCommas(s[1..]) else 0
  }

  function CommaIndex(s: string): (n: nat)
    ensures n <= |s| && (n < |s| ==> s[n] == ',')
    ensures forall i :: 0 <= i < n ==> s[i] != ','
  {
    if s == [] || s[0] == ',' then 0 else 1 + CommaIndex(s[1..])
  }

  predicate NoComma(s: string) { forall i :: 0 <= i < |s| ==> s[i] != ',' }

  /** What `strtok_r` can return: a non-empty run without separators. */
  predicate IsToken(s: string) { s != [] && NoComma(s) }

  /** `strtok_r(s, ",", &rest)`: leading commas are skipped; None when only
      commas remain; otherwise the token up to the next comma and the text
      after that comma (empty when the token ended the string). */
  function StrTok(s: string): (r: Option<(string, string)>)
    ensures r.Some? ==> IsToken(r.value.0)
    ensures r.Some? ==> |r.value.1| < |s|
  {
    var start := LeadingCommas(s);
    if start == |s| then None
    else
      var t := s[start..];
      var n := CommaIndex(t);
      var rest := if n < |t| then t[n + 1..] else [];
      Some((t[..n], rest))
  }

  /** `strtok_r` finds no token exactly when only separators remain. */
  lemma StrTokNone(s: string)
    ensures StrTok(s).None? <==> forall i :: 0 <= i < |s| ==> s[i] == ','
  {
  }

  /** A token that leaves text behind consumed the comma that ended it. */
  lemma StrTokConsumesComma(s: string)
    requires StrTok(s).Some?
    ensures Count(s, ',') >= Count(StrTok(s).value.1, ',') + (if StrTok(s).value.1 == [] then 0 else 1)
  {
    var t := s[LeadingCommas(s)..];
    CommaCount(s, t, CommaIndex(t));
  }

  lemma CommaCount(s: string, t: string, n: nat)
    requires |t| <= |s| && t == s[|s| - |t|..] && n <= |t|
    requires n < |t| ==> t[n] == ','
    ensures Count(s, ',') >= Count(if n < |t| then t[n + 1..] else [], ',') + (if n < |t| && t[n + 1..] != [] then 1 else 0)
  {
    assert s == s[..|s| - |t|] + t;
    CountAppend(s[..|s| - |t|], t, ',');
    if n < |t| {
      assert t == t[..n] + [','] + t[n + 1..];
      CountAppend(t[..n] + [','], t[n + 1..], ',');
      CountAppend(t[..n], [','], ',');
    }
  }

  function Prefix(s: string, n: nat): (t: string)
    ensures |t| <= n && |t| <= |s| && t == s[..|t|]
    ensures |s| <= n ==> t == s
  {
    if |s| <= n then s else s[..n]
  }

  /** `parseAdvReportFromString`: the line is first cut to the 255 characters
      that fit the parser's buffer; six tokens are taken with `strtok_r`, and
      what follows the sixth, without one trailing newline, is the file name
      (empty when nothing follows). */
  function ParseAdvReportFromString(advStr: string): (r: Option<TextReport>)
    ensures r.Some? ==> Count(Prefix(advStr, 255), ',') >= 5
    ensures r.Some? ==> 1 <= |r.value.bdaddrStr| <= 17 && NoComma(r.value.bdaddrStr)
    ensures r.Some? ==> |r.value.advertisementFilename| <= FILENAME_CAPACITY - 1
    ensures r.Some? ==> -0x80 <= r.value.rssi < 0x80
  {
    var buf := Prefix(advStr, 255);
    var t0 := StrTok(buf);
    if t0.None? then None else
    var t1 := StrTok(t0.value.1);
    if t1.None? then None else
    var t2 := StrTok(t1.value.1);
    if t2.None? then None else
    var t3 := StrTok(t2.value.1);
    if t3.None? then None else
    var t4 := StrTok(t3.value.1);
    if t4.None? then None else
    var t5 := StrTok(t4.value.1);
    if t5.None? then None else
    StrTokConsumesComma(buf);
    StrTokConsumesComma(t0.value.1);
    StrTokConsumesComma(t1.value.1);
    StrTokConsumesComma(t2.value.1);
    StrTokConsumesComma(t3.value.1);
    TokenPrefix(t3.value.0, 17);
    Some(TextReport(Atoi(t0.value.0), ToUint8(Atoi(t1.value.0)), ToUint8(Atoi(t2.value.0)), Prefix(t3.value.0, 17),
                    ToUint8(Atoi(t4.value.0)), ToInt8(Atoi(t5.value.0)), FilenameField(t5.value.1)))
  }

  /** The text after the sixth token without one trailing newline, cut to the
      63 characters of the name field; empty when nothing follows. */
  function FilenameField(rest: string): (name: string)
    ensures |name| <= FILENAME_CAPACITY - 1
    ensures |rest| <= FILENAME_CAPACITY - 1 && (rest == [] || rest[|rest| - 1] != '\n') ==> name == rest
    ensures 1 <= |rest| <= FILENAME_CAPACITY && rest[|rest| - 1] == '\n' ==> name == rest[..|rest| - 1]
  {
    var trimmed := if rest != [] && rest[|rest| - 1] == '\n' then rest[..|rest| - 1] else rest;
    if rest != [] then Prefix(trimmed, FILENAME_CAPACITY - 1) else ""
  }

  /** The parse of a line is determined by the six tokens `strtok_r` takes
      from it and the text left after them. */
  lemma ParseOfTokens(line: string, t0: string, r0: string, t1: string, r1: string, t2: string, r2: string,
                      t3: string, r3: string, t4: string, r4: string, t5: string, r5: string)
    requires |line| <= 255
    requires StrTok(line) == Some((t0, r0)) && StrTok(r0) == Some((t1, r1)) && StrTok(r1) == Some((t2, r2))
    requires StrTok(r2) == Some((t3, r3)) && StrTok(r3) == Some((t4, r4)) && StrTok(r4) == Some((t5, r5))
    ensures ParseAdvReportFromString(line) ==
      Some(TextReport(Atoi(t0), ToUint8(Atoi(t1)), ToUint8(Atoi(t2)), Prefix(t3, 17),
                      ToUint8(Atoi(t4)), ToInt8(Atoi(t5)), FilenameField(r5)))
  {
    assert Prefix(line, 255) == line;
  }

  /** Cutting a token short leaves a token. */
  lemma TokenPrefix(t: string, n: nat)
    requires IsToken(t) && n >= 1
    ensures IsToken(Prefix(t, n))
  {
    var p := Prefix(t, n);
    forall i | 0 <= i < |p|
      ensures p[i] != ','
    {
      assert p[i] == t[i];
    }
  }

  /** `strtok_r` splits a token off a comma-separated concatenation. */
  lemma StrTokOfField(a: string, rest: string)
    requires IsToken(a)
    ensures StrTok(a + [','] + rest) == Some((a, rest))
    ensures StrTok(a) == Some((a, []))
  {
    var s := a + [','] + rest;
    assert s[0] == a[0];
    assert LeadingCommas(s) == 0 && s[0..] == s;
    assert LeadingCommas(a) == 0 && a[0..] == a;
    CommaIndexOf(a, [','] + rest);
    assert s == a + ([','] + rest);
    CommaIndexOf(a, []);
    assert a + [] == a;
    assert s[..|a|] == a && s[|a| + 1..] == rest;
  }

  lemma {:induction false} CommaIndexOf(a: string, rest: string)
    requires NoComma(a)
    requires rest == [] || rest[0] == ','
    ensures CommaIndex(a + rest) == |a|
    decreases |a|
  {
    if a != [] {
      assert (a + rest)[0] == a[0];
      assert (a + rest)[1..] == a[1..] + rest;
      CommaIndexOf(a[1..], rest);
    }
  }
}
