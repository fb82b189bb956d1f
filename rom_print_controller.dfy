// The flash-file sink: the scanner stores every report of a routed packet as
// a 16-byte binary record, and the interrogator stores every finished GATT
// profile as JSON text.

module RomPrintController {
  import opened Bytes
  import opened Definitions
  import opened HciEventParser
  import opened GattJson

  const HEADER_SIZE: nat := 16
  /** `NUMBER_OF_ADVERTISEMENTS_TO_FLASH_AFTER`: the flip counter runs from 0
      up to this value before the file is synced. */
  const FLASH_AFTER: nat := 256

  /** The record of one report: the low 48 bits of the timestamp least
      significant byte first, the event type, the address type, the six
      address bytes in wire order, the advertising-data length and the RSSI
      as an unsigned byte. */
  function Header(report: SingleReport, timestamp: int): (hdr: seq<uint8>)
    requires |report.rawBdaddr| == 6
  {
    LittleEndian(timestamp, 6) + [report.advEventType, report.addrType] + report.rawBdaddr
      + [report.advDataLength, ToUint8(report.rssi)]
  }

  /** Field by field, the record holds what the report holds. */
  lemma HeaderLayout(report: SingleReport, timestamp: int)
    requires |report.rawBdaddr| == 6
    ensures var hdr := Header(report, timestamp);
      |hdr| == HEADER_SIZE
      && FromLittleEndian(hdr[..6]) == timestamp % Pow256(6)
      && hdr[6] == report.advEventType && hdr[7] == report.addrType
      && hdr[8..14] == report.rawBdaddr
      && hdr[14] == report.advDataLength
      && AsInt8(hdr[15]) == ToInt8(report.rssi)
  {
    var hdr := Header(report, timestamp);
    assert hdr[..6] == LittleEndian(timestamp, 6);
    LittleEndianRoundTrip(timestamp, 6);
  }

  /** Every report carries a six-byte address. */
  predicate SixByteAddrs(reports: seq<SingleReport>)
  {
    forall j :: 0 <= j < |reports| ==> |reports[j].rawBdaddr| == 6
  }

  lemma SixByteAddrsPrefix(reports: seq<SingleReport>, i: nat)
    requires SixByteAddrs(reports) && i <= |reports|
    ensures SixByteAddrs(reports[..i])
  {
  }

  /** The records of `reports`, all stamped `timestamp`, one after another. */
  function Records(reports: seq<SingleReport>, timestamp: int): (bs: seq<uint8>)
    requires SixByteAddrs(reports)
    ensures |bs| == HEADER_SIZE * |reports|
  {
    if reports == [] then []
    else
      SixByteAddrsPrefix(reports, |reports| - 1);
      Records(reports[..|reports| - 1], timestamp) + Header(reports[|reports| - 1], timestamp)
  }

  /** Record `j` sits at bytes `16 j .. 16 j + 16`. */
  lemma {:induction false} RecordsSlice(reports: seq<SingleReport>, timestamp: int, j: nat)
    requires forall i :: 0 <= i < |reports| ==> |reports[i].rawBdaddr| == 6
    requires j < |reports|
    ensures Records(reports, timestamp)[HEADER_SIZE * j..HEADER_SIZE * j + HEADER_SIZE] == Header(reports[j], timestamp)
    decreases |reports|
  {
    var n := |reports|;
    var init := reports[..n - 1];
    var a := Records(init, timestamp);
    var b := Header(reports[n - 1], timestamp);
    assert Records(reports, timestamp) == a + b;
    if j < n - 1 {
      RecordsSlice(init, timestamp, j);
      assert init[j] == reports[j];
      SliceOfAppend(a, b, HEADER_SIZE * j, HEADER_SIZE * j + HEADER_SIZE);
    } else {
      SliceOfAppend(a, b, HEADER_SIZE * j, HEADER_SIZE * j + HEADER_SIZE);
    }
  }

  lemma SliceOfAppend(a: seq<uint8>, b: seq<uint8>, lo: nat, hi: nat)
    requires lo <= hi <= |a| + |b|
    ensures hi <= |a| ==> (a + b)[lo..hi] == a[lo..hi]
    ensures lo == |a| && hi == |a| + |b| ==> (a + b)[lo..hi] == b
  {
  }

  /** One step of the flip counter: it climbs to FLASH_AFTER, then the file is
      synced and the counter starts again at 0. */
  function NextFlip(flip: nat): (r: (nat, bool))
  {
    if flip == FLASH_AFTER then (0, true) else (flip + 1, false)
  }

  /** The flip counter and the number of syncs after `n` records. */
  function FlipAfter(n: nat): (nat, nat)
  {
    if n == 0 then (0, 0)
    else
      var (flip, syncs) := FlipAfter(n - 1);
      var (flip', synced) := NextFlip(flip);
      (flip', if synced then syncs + 1 else syncs)
  }

  /** The counter cycles through 0..256, so the file is synced once every 257
      records. */
  lemma {:induction false} FlipCycle(n: nat)
    ensures FlipAfter(n) == (n % (FLASH_AFTER + 1), n / (FLASH_AFTER + 1))
  {
    if n > 0 {
      FlipCycle(n - 1);
      var m := n - 1;
      if m % (FLASH_AFTER + 1) == FLASH_AFTER {
        assert n == (m / (FLASH_AFTER + 1) + 1) * (FLASH_AFTER + 1);
      } else {
        assert n == (m / (FLASH_AFTER + 1)) * (FLASH_AFTER + 1) + (m % (FLASH_AFTER + 1) + 1);
      }
    }
  }

  /** The record bytes written while a packet's reports were stored: every
      record up to the first short write, then what that write wrote. */
  function Stored(reports: seq<SingleReport>, timestamp: int, written: seq<nat>): (bs: seq<uint8>)
    requires forall j :: 0 <= j < |reports| ==> |reports[j].rawBdaddr| == 6
    requires |written| >= |reports| && forall j :: 0 <= j < |reports| ==> written[j] <= HEADER_SIZE
  {
    var k := FirstShort(written, |reports|);
    Records(reports[..k], timestamp) + (if k < |reports| then Header(reports[k], timestamp)[..written[k]] else [])
  }

  /** The index of the first write below 16 bytes among the first `n`, or
      `n` when there is none. */
  function FirstShort(written: seq<nat>, n: nat): (k: nat)
    requires n <= |written|
    ensures k <= n && (forall j :: 0 <= j < k ==> written[j] == HEADER_SIZE)
    ensures k < n ==> written[k] != HEADER_SIZE
  {
    if n == 0 then 0
    else if FirstShort(written, n - 1) < n - 1 then FirstShort(written, n - 1)
    else if written[n - 1] == HEADER_SIZE then n
    else n - 1
  }

  /** `FilePrintController`. The output stream is modelled as the record bytes
      written to it and the text written to it; `synced` counts the syncs the
      record path made, and `flip` is the function-static counter. */
  class FilePrintController {
    var fileOpen: bool
    var records: seq<uint8>
    var text: string
    var flip: nat
    var synced: nat
    ghost var stored: nat

    /** The flip counter and the sync count follow the number of records. */
    ghost predicate Valid()
      reads this
    {
      (flip, synced) == FlipAfter(stored)
    }

    constructor (fileOpen: bool)
      ensures this.fileOpen == fileOpen && records == [] && text == [] && stored == 0
      ensures Valid()
    {
      this.fileOpen := fileOpen;
      records := [];
      text := [];
      flip := 0;
      synced := 0;
      stored := 0;
    }

    /** Builds the record: the six timestamp bytes by repeated shifts of the
        timestamp as an unsigned 64-bit value, then the other fields. */
    static method BuildHeader(report: SingleReport, timestamp: int) returns (hdr: array<uint8>)
      requires |report.rawBdaddr| == 6
      ensures fresh(hdr) && hdr[..] == Header(report, timestamp)
    {
      hdr := new uint8[HEADER_SIZE];
      WriteTimestamp(hdr, timestamp);
      hdr[6] := report.advEventType;
      hdr[7] := report.addrType;
      var b := 0;
      while b < 6
        invariant 0 <= b <= 6
        invariant hdr[..6] == LittleEndian(timestamp, 6)
        invariant hdr[6] == report.advEventType && hdr[7] == report.addrType
        invariant hdr[8..8 + b] == report.rawBdaddr[..b]
      {
        hdr[8 + b] := report.rawBdaddr[b];
        b := b + 1;
      }
      hdr[14] := report.advDataLength;
      hdr[15] := ToUint8(report.rssi);
      assert hdr[..] == hdr[..6] + [hdr[6], hdr[7]] + hdr[8..14] + [hdr[14], hdr[15]];
    }

    /** The shifting loop: byte `i` of the record is byte `i` of the
        timestamp taken as an unsigned 64-bit value. */
    static method WriteTimestamp(hdr: array<uint8>, timestamp: int)
      requires hdr.Length == HEADER_SIZE
      modifies hdr
      ensures hdr[..6] == LittleEndian(timestamp, 6)
    {
      var ts := timestamp % 0x1_0000_0000_0000_0000;
      LowBytesOfUnsigned(timestamp);
      ghost var done: seq<uint8> := [];
      var i := 0;
      while i < 6
        invariant 0 <= i <= 6 && |done| == i
        invariant forall j :: 0 <= j < i ==> hdr[j] == done[j]
        invariant done + LittleEndian(ts, 6 - i) == LittleEndian(timestamp, 6)
      {
        assert LittleEndian(ts, 6 - i) == [ts % 0x100] + LittleEndian(ts / 0x100, 6 - i - 1);
        SeqAssoc(done, [ts % 0x100], LittleEndian(ts / 0x100, 6 - i - 1));
        hdr[i] := ts % 0x100;
        done := done + [ts % 0x100];
        ts := ts / 0x100;
        i := i + 1;
      }
      assert hdr[..6] == done;
    }

    /** Stores one report. `written` is what `fwrite` reports. A closed file
        or a short write fails; a full record advances the flip counter, and
        every 257th record is followed by a sync. */
    method PrintAdvertisingSingleReport(report: SingleReport, timestamp: int, written: nat) returns (status: Status)
      requires |report.rawBdaddr| == 6 && written <= HEADER_SIZE
      requires Valid()
      modifies this
      ensures Valid() && fileOpen == old(fileOpen) && text == old(text)
      ensures status == Ok <==> fileOpen && written == HEADER_SIZE
      ensures status != Ok ==> status == Fail
      ensures records == old(records) + (if fileOpen then Header(report, timestamp)[..written] else [])
      ensures status == Ok ==> records == old(records) + Header(report, timestamp)
      ensures stored == old(stored) + (if status == Ok then 1 else 0)
    {
      if !fileOpen {
        return Fail;
      }
      var hdr := BuildHeader(report, timestamp);
      records := records + hdr[..written];
      if written != HEADER_SIZE {
        return Fail;
      }
      stored := stored + 1;
      if flip == FLASH_AFTER {
        flip := 0;
        synced := synced + 1;
      } else {
        flip := flip + 1;
      }
      return Ok;
    }

    /** Stores the current reports of `adv` in order, stopping at the first
        failure. `written[j]` is what `fwrite` reports for report `j`. */
    method PrintAdvertisingReport(adv: LeAdvertisingReport, written: seq<nat>) returns (status: Status)
      requires adv.numReports <= adv.reports.Length && |written| >= adv.numReports
      requires forall j :: 0 <= j < adv.numReports ==> |adv.reports[j].rawBdaddr| == 6 && written[j] <= HEADER_SIZE
      requires Valid()
      modifies this
      ensures Valid() && fileOpen == old(fileOpen) && text == old(text)
      ensures status == Ok <==> adv.numReports == 0 || (fileOpen && FirstShort(written, adv.numReports) == adv.numReports)
      ensures records == old(records) + (if fileOpen then Stored(adv.reports[..adv.numReports], adv.timestamp, written) else [])
    {
      status := StoreReports(adv.reports[..adv.numReports], adv.timestamp, written);
    }

    /** The loop of `printAdvertisingReport` over the current reports. */
    method StoreReports(rs: seq<SingleReport>, timestamp: int, written: seq<nat>) returns (status: Status)
      requires |written| >= |rs|
      requires forall j :: 0 <= j < |rs| ==> |rs[j].rawBdaddr| == 6 && written[j] <= HEADER_SIZE
      requires Valid()
      modifies this
      ensures Valid() && fileOpen == old(fileOpen) && text == old(text)
      ensures status == Ok <==> |rs| == 0 || (fileOpen && FirstShort(written, |rs|) == |rs|)
      ensures records == old(records) + (if fileOpen then Stored(rs, timestamp, written) else [])
    {
      var i := 0;
      while i < |rs|
        invariant 0 <= i <= |rs|
        invariant Valid() && fileOpen == old(fileOpen) && text == old(text)
        invariant fileOpen ==> FirstShort(written, i) == i
        invariant SixByteAddrs(rs[..i])
        invariant records == old(records) + (if fileOpen then Records(rs[..i], timestamp) else [])
        invariant !fileOpen ==> i == 0
      {
        var s := PrintAdvertisingSingleReport(rs[i], timestamp, written[i]);
        if s != Ok {
          if fileOpen {
            FirstShortAt(written, i, |rs|);
            StoredShort(rs, timestamp, written, i);
            SeqAssoc(old(records), Records(rs[..i], timestamp), Header(rs[i], timestamp)[..written[i]]);
          }
          return s;
        }
        RecordsSnoc(rs, timestamp, i);
        SeqAssoc(old(records), Records(rs[..i], timestamp), Header(rs[i], timestamp));
        i := i + 1;
        SixByteAddrsPrefix(rs, i);
      }
      if fileOpen {
        StoredFull(rs, timestamp, written);
      }
      return Ok;
    }

    /** `printGattProfileJson`: the profile is appended to the text. */
    method PrintGattProfileJson(remoteBda: seq<uint8>, request: InterrogationRequest, services: seq<ServiceWrapper>)
      requires |remoteBda| == 6
      modifies this
      ensures text == old(text) + ProfileJson(remoteBda, request, services, Padded)
      ensures records == old(records) && fileOpen == old(fileOpen) && Valid() == old(Valid())
      ensures flip == old(flip) && synced == old(synced) && stored == old(stored)
    {
      text := text + ProfileJson(remoteBda, request, services, Padded);
    }
  }

  lemma RecordsSnoc(rs: seq<SingleReport>, timestamp: int, i: nat)
    requires i < |rs| && SixByteAddrs(rs)
    ensures Records(rs[..i + 1], timestamp) == Records(rs[..i], timestamp) + Header(rs[i], timestamp)
  {
    SixByteAddrsPrefix(rs, i + 1);
    assert rs[..i + 1][..i] == rs[..i];
  }

  lemma StoredShort(rs: seq<SingleReport>, timestamp: int, written: seq<nat>, i: nat)
    requires forall j :: 0 <= j < |rs| ==> |rs[j].rawBdaddr| == 6
    requires |written| >= |rs| && forall j :: 0 <= j < |rs| ==> written[j] <= HEADER_SIZE
    requires i < |rs| && FirstShort(written, |rs|) == i
    ensures Stored(rs, timestamp, written) == Records(rs[..i], timestamp) + Header(rs[i], timestamp)[..written[i]]
  {
  }

  lemma StoredFull(rs: seq<SingleReport>, timestamp: int, written: seq<nat>)
    requires forall j :: 0 <= j < |rs| ==> |rs[j].rawBdaddr| == 6
    requires |written| >= |rs| && forall j :: 0 <= j < |rs| ==> written[j] <= HEADER_SIZE
    requires FirstShort(written, |rs|) == |rs|
    ensures Stored(rs, timestamp, written) == Records(rs, timestamp)
  {
    assert rs[..|rs|] == rs;
  }

  /** A write that falls short at `i`, after `i` full writes, is the first
      short write among any longer run. */
  lemma {:induction false} FirstShortAt(written: seq<nat>, i: nat, n: nat)
    requires i < n <= |written| && FirstShort(written, i) == i && written[i] != HEADER_SIZE
    ensures FirstShort(written, n) == i
    decreases n
  {
    if n > i + 1 {
      FirstShortAt(written, i, n - 1);
    }
  }

  /** Reducing the timestamp to an unsigned 64-bit value keeps its low six
      bytes. */
  lemma LowBytesOfUnsigned(timestamp: int)
    ensures LittleEndian(timestamp % 0x1_0000_0000_0000_0000, 6) == LittleEndian(timestamp, 6)
  {
    assert 0x1_0000_0000_0000_0000 == Pow256(6) * 0x1_0000;
    LittleEndianOfMod(timestamp, 0x1_0000, 6);
  }

  /** The low `n` bytes of `x` do not depend on multiples of 256^n. */
  lemma {:induction false} LittleEndianOfMod(x: int, q: nat, n: nat)
    requires q >= 1
    ensures LittleEndian(x % (Pow256(n) * q), n) == LittleEndian(x, n)
    decreases n
  {
    if n > 0 {
      var m := Pow256(n - 1) * q;
      assert Pow256(n) * q == 0x100 * m;
      DivModSplit(x, m);
      var y := x % (0x100 * m);
      assert y == x % 0x100 + 0x100 * ((x / 0x100) % m);
      ModOfSum(y, 0x100, (x / 0x100) % m, x % 0x100);
      DivOfSum(y, (x / 0x100) % m, x % 0x100);
      LittleEndianOfMod(x / 0x100, q, n - 1);
    }
  }

  lemma DivOfSum(y: int, a: int, c: int)
    requires 0 <= c < 0x100 && y == 0x100 * a + c
    ensures y / 0x100 == a
  {
  }
}
