// The interrogation role's request queue and its pool of three GATT client
// slots. Requests parsed from the scanner's text stream wait in a bounded
// FIFO; a dispatcher hands each one to the lowest free slot whose connection
// attempt the stack accepts; a slot is released by `finalProcedure`, by the
// pending-read sweep when its reads are done, or (all slots together) by the
// stuck-slot reaper. Radio calls are recorded as actions; their outcomes and
// the scheduler's tick count are parameters.

module DeviceInterrogator {
  import opened Bytes
  import opened Text
  import opened Definitions
  import opened HciEventParser
  import opened UartController

  /** Number of GATT client slots (application ids 0, 1 and 2). */
  const PROFILE_NUM: nat := 3
  /** `conn_id` of a slot with no open connection (`UINT16_MAX`). */
  const UNUSED_CONN_ID: uint16 := 0xFFFF
  /** `ESP_GATT_IF_NONE`: no interface registered yet, or every interface. */
  const ESP_GATT_IF_NONE: uint8 := 0xFF
  /** Capacity of the interrogation request queue. */
  const REQUEST_QUEUE_CAPACITY: nat := 50
  /** A sent characteristic read older than this is given up. */
  const PENDING_READ_TIMEOUT_MS: nat := 120000
  /** The scheduler's tick counter is 32 bits wide. */
  const TICK_MODULUS: nat := 0x1_0000_0000
  const ZERO_BDA: seq<uint8> := [0, 0, 0, 0, 0, 0]

  /** A reading of the scheduler's tick counter, one tick per millisecond (a 1 kHz
      scheduler tick). */
  type Tick = x: int | 0 <= x < 0x1_0000_0000

  /** `now - since` on 32-bit unsigned ticks: the subtraction wraps. */
  function Elapsed(now: Tick, since: int): (d: nat)
    ensures d < TICK_MODULUS
  {
    (now - since) % TICK_MODULUS
  }

  /** The events of the GATT client stack, reduced to the fields the slots
      use; a status is `true` when it is `ESP_GATT_OK`. */
  datatype GattcEvent =
    | RegEvt(regOk: bool, appId: nat)
    | UnregEvt
    | ConnectEvt(connId: uint16)
    | OpenEvt(openOk: bool, connId: uint16)
    | CfgMtuEvt(mtuOk: bool, connId: uint16)
    | SearchResEvt(srvcId: ServiceId, startHandle: uint16, endHandle: uint16)
    | SearchCmplEvt(searchOk: bool, connId: uint16)
    | ReadCharEvt(readOk: bool, handle: uint16, value: seq<uint8>)
    | WriteCharEvt(writeOk: bool)
    | DisconnectEvt(connId: uint16, remoteBda: seq<uint8>)
    | CloseEvt(remoteBda: seq<uint8>)
    | OtherEvt

  datatype Sink = Console | File

  /** The calls into the radio stack and the sinks, in the order made. A
      profile dump hands the slot's address, request and services to a sink,
      which renders them as its profile JSON. */
  datatype Action =
    | Open(gattcIf: uint8, address: seq<uint8>, addrType: uint8)
    | Close(gattcIf: uint8, connId: uint16)
    | MtuRequest(gattcIf: uint8, connId: uint16)
    | SearchService(gattcIf: uint8, connId: uint16)
    | ReadChar(gattcIf: uint8, connId: uint16, handle: uint16)
    | AppRegister(appId: nat)
    | Restart
    | ProfileDump(sink: Sink, appId: nat, remoteBda: seq<uint8>, request: InterrogationRequest,
                  services: seq<ServiceWrapper>)

  /** `gattc_profile_inst`: the state of one GATT client slot. */
  datatype Profile = Profile(
    gattcIf: uint8,
    connId: uint16,
    services: seq<ServiceWrapper>,
    remoteBda: seq<uint8>,
    readCharQueue: seq<uint16>,
    pendingRequests: seq<PendingRequest>,
    isBusy: bool,
    busySince: Tick,
    isCharScheduled: bool,
    shouldForceUnregister: bool,
    request: InterrogationRequest)

  const EMPTY_REQUEST := InterrogationRequest(ZERO_BDA, 0, 0, "")

  /** A slot as the constructor leaves it: zero-initialised, with no
      interface and no connection. */
  const INITIAL_PROFILE := Profile(ESP_GATT_IF_NONE, UNUSED_CONN_ID, [], ZERO_BDA, [], [], false, 0, false, false, EMPTY_REQUEST)

  /** What every operation keeps: an idle slot has a zero address and no
      start time; a busy slot's address is the one it was asked to
      interrogate. */
  predicate SlotConsistent(p: Profile)
  {
    |p.remoteBda| == 6
    && (p.isBusy ==> p.remoteBda == p.request.address)
    && (!p.isBusy ==> p.remoteBda == ZERO_BDA && p.busySince == 0)
  }

  /** Every slot of the table is consistent. */
  ghost predicate AllConsistent(tabs: seq<Profile>)
  {
    forall i :: 0 <= i < |tabs| ==> SlotConsistent(tabs[i])
  }

  // ---------------------------------------------------------------------
  // Parsing a printed address

  /** One `sscanf` conversion: the value read and the unread rest. */
  type Conversion = string -> Option<(int, string)>

  /** `sscanf(s, "%x:%x:...")` with `n` conversions `conv`: consecutive
      fields are separated by exactly one ':' and text after the last field
      is not looked at. The address parser uses `%x` (`ScanHex`); the
      structural facts below hold for any conversion. */
  function ScanAddressFields(conv: Conversion, s: string, n: nat): (r: Option<seq<int>>)
    ensures r.Some? ==> |r.value| == n
    decreases n
  {
    if n == 0 then Some([])
    else
      var scanned := conv(s);
      if scanned.None? then None
      else
        var v := scanned.value.0;
        var rest := scanned.value.1;
        if n == 1 then Some([v])
        else if rest != [] && rest[0] == ':' then
          var more := ScanAddressFields(conv, rest[1..], n - 1);
          if more.None? then None else Some([v] + more.value)
        else None
  }

  /** The number of `%x` conversions in an address. */
  const BDADDR_FIELDS: nat := 6

  /** Each scanned value cut to its low byte, as the `uint8_t` stores do. */
  function LowBytes(vs: seq<int>): (r: seq<uint8>)
    ensures |r| == |vs|
  {
    seq(|vs|, i requires 0 <= i < |vs| => ToUint8(vs[i]))
  }

  /** `parse_bdaddr_str`: six scanned fields, each cut to its low byte, in
      the order they are written. */
  function ParseBdaddr(s: string): (r: Option<seq<uint8>>)
    ensures r.Some? ==> |r.value| == 6
  {
    match ScanAddressFields(ScanHex, s, BDADDR_FIELDS)
    case None => None
    case Some(vs) => Some(LowBytes(vs))
  }

  /** `parse_bdaddr_str`; the caller's address is written only when all six
      fields were scanned. */
  method ParseBdaddrStr(s: string, bdAddr: array<uint8>) returns (ok: bool)
    requires bdAddr.Length == 6
    modifies bdAddr
    ensures ok <==> ParseBdaddr(s).Some?
    ensures ok ==> bdAddr[..] == ParseBdaddr(s).value
    ensures !ok ==> bdAddr[..] == old(bdAddr[..])
  {
    var values := ScanAddressFields(ScanHex, s, BDADDR_FIELDS);
    if values.None? {
      return false;
    }
    StoreLowBytes(values.value, bdAddr);
    return true;
  }

  /** The conversion loop of `parse_bdaddr_str`: one byte stored per field. */
  method StoreLowBytes(vs: seq<int>, bdAddr: array<uint8>)
    requires bdAddr.Length == |vs|
    modifies bdAddr
    ensures bdAddr[..] == LowBytes(vs)
  {
    for i := 0 to |vs|
      invariant forall j :: 0 <= j < i ==> bdAddr[j] == ToUint8(vs[j])
    {
      bdAddr[i] := ToUint8(vs[i]);
    }
  }

  /** What may follow a field: nothing, or the ':' before the next one. */
  predicate FieldEnd(rest: string)
  {
    rest == [] || rest[0] == ':'
  }

  /** `conv` reads a two-digit pair back to its byte when the pair ends
      the text or a ':' follows it. */
  ghost predicate ReadsHexPairs(conv: Conversion)
  {
    forall b: uint8, rest: string :: FieldEnd(rest) ==> conv(Hex2(b, false) + rest) == Some((b as int, rest))
  }

  /** `conv` reads a prefix of its input and leaves the rest. */
  ghost predicate ReadsPrefix(conv: Conversion)
  {
    forall x: string {:trigger conv(x)} :: conv(x).Some? ==> IsSuffix(conv(x).value.1, x)
  }

  /** `%x` reads the pairs `%02x` writes. */
  lemma ScanHexReadsHexPairs()
    ensures ReadsHexPairs(ScanHex)
  {
    forall b: uint8, rest: string | FieldEnd(rest)
      ensures ScanHex(Hex2(b, false) + rest) == Some((b as int, rest))
    {
      ScanHexOfHex2(b, rest);
    }
  }

  /** `%x` reads a prefix of its input. */
  lemma ScanHexReadsPrefix()
    ensures ReadsPrefix(ScanHex)
  {
    forall x: string | ScanHex(x).Some?
      ensures IsSuffix(ScanHex(x).value.1, x)
    {
    }
  }

  /** A printed address scans back to its bytes. */
  lemma {:induction false} ScanOfHexPairs(conv: Conversion, bs: seq<uint8>)
    requires ReadsHexPairs(conv) && bs != []
    ensures ScanAddressFields(conv, HexPairs(bs, false), |bs|) == Some(bs)
    decreases |bs|
  {
    if |bs| == 1 {
      ScanOfOnePair(conv, bs);
    } else {
      ScanOfHexPairs(conv, bs[1..]);
      HexPairsSplit(bs, false);
      ScanOfPairsStep(conv, HexPairs(bs, false), bs, HexPairs(bs[1..], false));
    }
  }

  lemma ScanOfOnePair(conv: Conversion, bs: seq<uint8>)
    requires ReadsHexPairs(conv) && |bs| == 1
    ensures ScanAddressFields(conv, HexPairs(bs, false), 1) == Some(bs)
  {
    var s := HexPairs(bs, false);
    assert Hex2(bs[0], false) + [] == s;
    assert FieldEnd([]);
    assert conv(Hex2(bs[0], false) + []) == Some((bs[0] as int, []));
    assert bs == [bs[0]];
  }

  lemma ScanOfPairsStep(conv: Conversion, s: string, bs: seq<uint8>, t: string)
    requires ReadsHexPairs(conv)
    requires |bs| > 1 && s == Hex2(bs[0], false) + (":" + t) && ScanAddressFields(conv, t, |bs| - 1) == Some(bs[1..])
    ensures ScanAddressFields(conv, s, |bs|) == Some(bs)
  {
    assert FieldEnd(":" + t);
    assert conv(Hex2(bs[0], false) + (":" + t)) == Some((bs[0] as int, ":" + t));
    assert (":" + t)[1..] == t;
    assert [bs[0] as int] + bs[1..] == bs;
  }

  /** The interrogator reads the scanner's printed address back into the
      address bytes, most significant octet first: the reverse of the order
      they came off the air. */
  lemma ParseOfFormattedAddress(wire: seq<uint8>)
    requires |wire| == 6
    ensures ParseBdaddr(FormatBdaddr(wire)) == Some(Reverse(wire))
  {
    var bs := Reverse(wire);
    assert |bs| == BDADDR_FIELDS;
    ScanHexReadsHexPairs();
    ScanOfHexPairs(ScanHex, bs);
    LowBytesOfBytes(bs);
  }

  lemma LowBytesOfBytes(bs: seq<uint8>)
    ensures LowBytes(bs) == bs
  {
  }

  /** Each scanned field but the last is followed by a ':'. */
  lemma {:induction false} ScannedFieldsHaveColons(conv: Conversion, s: string, n: nat)
    requires ReadsPrefix(conv)
    requires n >= 1 && ScanAddressFields(conv, s, n).Some?
    ensures Count(s, ':') >= n - 1
    decreases n
  {
    if n > 1 {
      var rest := conv(s).value.1;
      ScannedFieldsHaveColons(conv, rest[1..], n - 1);
      ColonThenMore(s, rest, n - 2);
    }
  }

  lemma ColonThenMore(s: string, rest: string, k: nat)
    requires IsSuffix(rest, s) && rest != [] && rest[0] == ':'
    requires Count(rest[1..], ':') >= k
    ensures Count(s, ':') >= k + 1
  {
    var pre := s[..|s| - |rest|];
    assert s == pre + rest;
    CountAppend(pre, rest, ':');
    assert rest == [rest[0]] + rest[1..];
    CountAppend([rest[0]], rest[1..], ':');
  }

  /** An address parses only from text with at least five colons. */
  lemma ParsedAddressHasFiveColons(s: string)
    requires ParseBdaddr(s).Some?
    ensures Count(s, ':') >= 5
  {
    ScanHexReadsPrefix();
    ScannedFieldsHaveColons(ScanHex, s, BDADDR_FIELDS);
  }

  // ---------------------------------------------------------------------
  // Requests from the scanner's text stream

  /** What the UART task makes of one line of the scanner's stream. */
  datatype LineOutcome =
    | NotAReport
    | BadAddress
    | Request(req: InterrogationRequest)

  /** A line that parses as a report becomes a request for its address, with
      its address type, timestamp and file name; a report whose address does
      not parse ends the questioner loop. */
  function RequestOfLine(line: string): (o: LineOutcome)
    ensures o.Request? ==> |o.req.address| == 6
  {
    match ParseAdvReportFromString(line)
    case None => NotAReport
    case Some(tr) =>
      match ParseBdaddr(tr.bdaddrStr)
      case None => BadAddress
      case Some(address) =>
        Request(InterrogationRequest(address, tr.addrType, tr.timestamp, Prefix(tr.advertisementFilename, FILENAME_CAPACITY - 1)))
  }

  /** A report the scanner sent over the UART, when its line arrives in one
      read, reaches the interrogator as a request for the same device: its
      address (most significant octet first), its address type, its
      timestamp and the scanner's file name. */
  lemma ScannerLineBecomesRequest(report: SingleReport, timestamp: int, filename: Option<string>)
    requires |report.rawBdaddr| == 6 && report.bdaddrStr == FormatBdaddr(report.rawBdaddr)
    requires Transmissible(report)
    requires filename.Some? ==> |filename.value| <= FILENAME_CAPACITY - 1
    requires UntruncatedLength(report, timestamp, filename) <= LINE_CAPACITY - 1
    ensures RequestOfLine(CsvLine(report, timestamp, filename))
      == Request(InterrogationRequest(Reverse(report.rawBdaddr), report.addrType, timestamp, NameField(filename)))
  {
    CsvRoundTrip(report, timestamp, filename);
    ParseOfFormattedAddress(report.rawBdaddr);
  }

  /** The line the scanner actually sends while it writes a scanner log file
      has no comma between the RSSI and the file name, so the request the
      interrogator makes of it is for the right device but carries an empty
      file name. */
  lemma ScannerLineAsWrittenLosesFilename(report: SingleReport, timestamp: int, index: nat)
    requires |report.rawBdaddr| == 6 && report.bdaddrStr == FormatBdaddr(report.rawBdaddr)
    requires Transmissible(report) && index < 1000
    requires UntruncatedLength(report, timestamp, Some(ScannerFilename(index))) <= LINE_CAPACITY - 1
    ensures RequestOfLine(CsvLineAsWritten(report, timestamp, Some(ScannerFilename(index))))
      == Request(InterrogationRequest(Reverse(report.rawBdaddr), report.addrType, timestamp, ""))
  {
    AsWrittenLosesScannerFilename(report, timestamp, index);
    ParseOfFormattedAddress(report.rawBdaddr);
  }

  // ---------------------------------------------------------------------
  // Releasing a slot

  /** The slot after `finalProcedure`: lists emptied, connection and address
      forgotten, no longer busy. Its interface and its last request stay. */
  function Cleared(p: Profile): Profile
  {
    p.(services := [], readCharQueue := [], pendingRequests := [], isCharScheduled := false,
       connId := UNUSED_CONN_ID, remoteBda := ZERO_BDA, busySince := 0,
       shouldForceUnregister := false, isBusy := false)
  }

  /** `finalProcedure` closes the connection (its error ignored), hands the
      slot to the console sink when asked to and always to the file sink. */
  function FinalActions(app: nat, p: Profile, toConsole: bool): seq<Action>
  {
    [Close(p.gattcIf, p.connId)]
    + (if toConsole then [ProfileDump(Console, app, p.remoteBda, p.request, p.services)] else [])
    + [ProfileDump(File, app, p.remoteBda, p.request, p.services)]
  }

  /** The slot after `resetState`: cleared, and without an interface. */
  function ResetSlot(p: Profile): Profile
  {
    Cleared(p).(gattcIf := ESP_GATT_IF_NONE)
  }

  /** Releasing twice is releasing once; the interface and the last request
      survive; a released slot is free exactly when it has an interface. */
  lemma ClearedIsIdle(p: Profile)
    ensures Cleared(Cleared(p)) == Cleared(p)
    ensures Cleared(p).gattcIf == p.gattcIf && Cleared(p).request == p.request
    ensures SlotConsistent(Cleared(p))
    ensures Eligible(Cleared(p)) <==> p.gattcIf != ESP_GATT_IF_NONE
  {
  }

  /** A repeated `finalProcedure` closes the unused connection id and dumps
      an empty profile with a zero address. */
  lemma SecondFinalProcedure(app: nat, p: Profile, toConsole: bool)
    ensures FinalActions(app, Cleared(p), toConsole)[0] == Close(p.gattcIf, UNUSED_CONN_ID)
    ensures var d := FinalActions(app, Cleared(p), toConsole)[|FinalActions(app, Cleared(p), toConsole)| - 1];
      d == ProfileDump(File, app, ZERO_BDA, p.request, [])
  {
  }

  /** A slot after `resetState` (the cleared slot without its interface) is
      consistent and never offered a request, and resetting again changes
      nothing. */
  lemma ResetIsClearedWithoutInterface(p: Profile)
    ensures !Eligible(ResetSlot(p)) && SlotConsistent(ResetSlot(p))
    ensures ResetSlot(ResetSlot(p)) == ResetSlot(p)
  {
  }

  // ---------------------------------------------------------------------
  // Dispatching

  /** A slot the dispatcher may try: registered and not busy. */
  predicate Eligible(p: Profile)
  {
    p.gattcIf != ESP_GATT_IF_NONE && !p.isBusy
  }

  /** The lowest slot from `lo` on that is eligible and whose connection
      attempt the stack accepts. */
  function FirstFree(tabs: seq<Profile>, accepts: seq<bool>, lo: nat): (r: Option<nat>)
    requires |accepts| == |tabs|
    ensures r.Some? ==> lo <= r.value < |tabs|
    decreases |tabs| - lo
  {
    if lo >= |tabs| then None
    else if Eligible(tabs[lo]) && accepts[lo] then Some(lo)
    else FirstFree(tabs, accepts, lo + 1)
  }

  /** The connection attempts made on the slots below `hi`: one per eligible
      slot, in slot order. */
  function Attempts(tabs: seq<Profile>, req: InterrogationRequest, hi: nat): seq<Action>
    requires hi <= |tabs|
  {
    if hi == 0 then []
    else (
      Attempts(tabs, req, hi - 1)
      + (if Eligible(tabs[hi - 1]) then [Open(tabs[hi - 1].gattcIf, req.address, req.addrType)] else []))
  }

  /** The slot that accepted a request: it now interrogates that address. */
  function Assigned(p: Profile, req: InterrogationRequest, now: Tick): Profile
  {
    p.(remoteBda := req.address, isBusy := true, busySince := now, request := req)
  }

  /** The dispatcher picks the lowest eligible accepting slot: no slot
      before it was both eligible and accepting; with no pick, none was. */
  lemma {:induction false} FirstFreeIsLowest(tabs: seq<Profile>, accepts: seq<bool>, lo: nat)
    requires |accepts| == |tabs|
    ensures match FirstFree(tabs, accepts, lo)
      case Some(j) =>
        Eligible(tabs[j]) && accepts[j]
        && forall k :: lo <= k < j ==> !(Eligible(tabs[k]) && accepts[k])
      case None => forall k :: lo <= k < |tabs| ==> !(Eligible(tabs[k]) && accepts[k])
    decreases |tabs| - lo
  {
    if lo < |tabs| && !(Eligible(tabs[lo]) && accepts[lo]) {
      FirstFreeIsLowest(tabs, accepts, lo + 1);
    }
  }

  /** A dispatched slot interrogates the request's device and stays
      consistent. */
  lemma AssignedIsConsistent(p: Profile, req: InterrogationRequest, now: Tick)
    requires |req.address| == 6
    ensures SlotConsistent(Assigned(p, req, now))
    ensures !Eligible(Assigned(p, req, now))
  {
  }

  // ---------------------------------------------------------------------
  // The stuck-slot reaper

  /** A slot counts as stuck when it is busy but never got a connection or
      any service, and more than 75 s have passed since it was dispatched
      (a start time of 0 means "not started"). */
  predicate Stuck(p: Profile, connDevice: bool, getService: bool, now: Tick)
  {
    p.isBusy && p.connId == UNUSED_CONN_ID
    && p.services == [] && p.pendingRequests == [] && p.readCharQueue == []
    && !connDevice && !getService
    && p.busySince != 0
    && Elapsed(now, p.busySince) > CONNECTION_OPEN_TIMEOUT_SECONDS * 1000
  }

  /** Number of stuck slots below `k`. */
  function StuckCount(tabs: seq<Profile>, cd: seq<bool>, gs: seq<bool>, now: Tick, k: nat): (n: nat)
    requires k <= |tabs| == |cd| == |gs|
  {
    if k == 0 then 0
    else StuckCount(tabs, cd, gs, now, k - 1) + (if Stuck(tabs[k - 1], cd[k - 1], gs[k - 1], now) then 1 else 0)
  }

  /** The count reaches `k` exactly when every slot below `k` is stuck. */
  lemma {:induction false} StuckCountFull(tabs: seq<Profile>, cd: seq<bool>, gs: seq<bool>, now: Tick, k: nat)
    requires k <= |tabs| == |cd| == |gs|
    ensures StuckCount(tabs, cd, gs, now, k) <= k
    ensures StuckCount(tabs, cd, gs, now, k) == k <==> forall i :: 0 <= i < k ==> Stuck(tabs[i], cd[i], gs[i], now)
  {
    if k > 0 {
      StuckCountFull(tabs, cd, gs, now, k - 1);
    }
  }

  /** A released slot, or one with an open connection, is never stuck. */
  lemma ReleasedOrConnectedNotStuck(p: Profile, cd: bool, gs: bool, now: Tick)
    ensures !Stuck(Cleared(p), cd, gs, now) && !Stuck(ResetSlot(p), cd, gs, now)
    ensures p.connId != UNUSED_CONN_ID ==> !Stuck(p, cd, gs, now)
  {
  }

  /** A slot dispatched from an empty state at a nonzero tick becomes stuck
      exactly when more than 75 s pass without a connection. */
  lemma DispatchedSlotTimesOut(p: Profile, req: InterrogationRequest, since: Tick, now: Tick)
    requires p.connId == UNUSED_CONN_ID && p.services == [] && p.pendingRequests == [] && p.readCharQueue == []
    requires since != 0
    ensures Stuck(Assigned(p, req, since), false, false, now) <==> Elapsed(now, since) > 75000
  {
  }

  /** A slot dispatched when the tick counter reads 0 is never reaped. */
  lemma DispatchedAtTickZeroNeverStuck(p: Profile, req: InterrogationRequest, cd: bool, gs: bool, now: Tick)
    ensures !Stuck(Assigned(p, req, 0), cd, gs, now)
  {
  }

  // ---------------------------------------------------------------------
  // The pending-read sweep

  /** A sent read whose answer has been awaited for more than 120 s. */
  predicate Expired(pr: PendingRequest, now: Tick)
  {
    Elapsed(now, pr.timestamp) > PENDING_READ_TIMEOUT_MS
  }

  /** `remove_if` on the pending list: the unexpired entries, in order. */
  function Unexpired(ps: seq<PendingRequest>, now: Tick): (r: seq<PendingRequest>)
    ensures |r| <= |ps|
  {
    if ps == [] then []
    else Unexpired(ps[..|ps| - 1], now) + (if Expired(ps[|ps| - 1], now) then [] else [ps[|ps| - 1]])
  }

  /** Purging keeps every unexpired entry as often as it occurs and drops
      every expired one. */
  lemma {:induction false} UnexpiredCounts(ps: seq<PendingRequest>, now: Tick, x: PendingRequest)
    ensures multiset(Unexpired(ps, now))[x] == if Expired(x, now) then 0 else multiset(ps)[x]
    decreases |ps|
  {
    if ps != [] {
      var init := ps[..|ps| - 1];
      UnexpiredCounts(init, now, x);
      assert ps == init + [ps[|ps| - 1]];
    }
  }

  /** Purging is done piecewise, so it keeps the order of what stays. */
  lemma {:induction false} UnexpiredAppend(a: seq<PendingRequest>, b: seq<PendingRequest>, now: Tick)
    ensures Unexpired(a + b, now) == Unexpired(a, now) + Unexpired(b, now)
    decreases |b|
  {
    if b == [] {
      assert a + b == a;
    } else {
      var init := b[..|b| - 1];
      assert (a + b)[..|a + b| - 1] == a + init;
      UnexpiredAppend(a, init, now);
    }
  }

  /** A second purge at the same tick removes nothing more. */
  lemma {:induction false} UnexpiredIdempotent(ps: seq<PendingRequest>, now: Tick)
    ensures Unexpired(Unexpired(ps, now), now) == Unexpired(ps, now)
    decreases |ps|
  {
    if ps != [] {
      var init := ps[..|ps| - 1];
      var last := ps[|ps| - 1];
      UnexpiredIdempotent(init, now);
      var kept := if Expired(last, now) then [] else [last];
      UnexpiredAppend(Unexpired(init, now), kept, now);
      if !Expired(last, now) {
        assert [last][..0] == [];
      }
    }
  }

  /** The slot after its pending list is purged. */
  function Purged(p: Profile, now: Tick): Profile
  {
    p.(pendingRequests := Unexpired(p.pendingRequests, now))
  }

  /** All reads were scheduled and none is queued or outstanding. */
  predicate ReadsDone(p: Profile)
  {
    p.isCharScheduled && p.readCharQueue == [] && p.pendingRequests == []
  }

  /** The slot after one pass of the pending monitor. */
  function AfterPendingSweep(p: Profile, now: Tick): Profile
  {
    var q := Purged(p, now);
    if ReadsDone(q) then Cleared(q) else q
  }

  /** The monitor's calls for one slot: a release when its reads are done. */
  function SweepSlotActions(app: nat, p: Profile, now: Tick): seq<Action>
  {
    var q := Purged(p, now);
    if ReadsDone(q) then FinalActions(app, q, true) else []
  }

  /** The monitor's calls for the slots below `k`, in slot order. */
  function SweepActions(tabs: seq<Profile>, now: Tick, k: nat): seq<Action>
    requires k <= |tabs|
  {
    if k == 0 then [] else SweepActions(tabs, now, k - 1) + SweepSlotActions(k - 1, tabs[k - 1], now)
  }

  /** The slots after the monitor has swept those below `k`. */
  function SweptTabs(tabs: seq<Profile>, now: Tick, k: nat): (r: seq<Profile>)
    ensures |r| == |tabs|
  {
    seq(|tabs|, i requires 0 <= i < |tabs| => if i < k then AfterPendingSweep(tabs[i], now) else tabs[i])
  }

  /** A per-slot flag (`conn_device`, `get_service`) after the monitor has
      swept the slots below `k`: cleared where the slot was released. */
  function SweptFlags(tabs: seq<Profile>, flags: seq<bool>, now: Tick, k: nat): (r: seq<bool>)
    requires |flags| == |tabs|
    ensures |r| == |flags|
  {
    seq(|flags|, i requires 0 <= i < |flags| => if i < k then flags[i] && !ReadsDone(Purged(tabs[i], now)) else flags[i])
  }

  lemma SweepStep(tabs: seq<Profile>, cd: seq<bool>, gs: seq<bool>, now: Tick, k: nat)
    requires k < |tabs| == |cd| == |gs|
    ensures SweptTabs(tabs, now, k)[k := AfterPendingSweep(tabs[k], now)] == SweptTabs(tabs, now, k + 1)
    ensures SweptFlags(tabs, cd, now, k)[k := cd[k] && !ReadsDone(Purged(tabs[k], now))] == SweptFlags(tabs, cd, now, k + 1)
    ensures SweptFlags(tabs, gs, now, k)[k := gs[k] && !ReadsDone(Purged(tabs[k], now))] == SweptFlags(tabs, gs, now, k + 1)
    ensures SweptTabs(tabs, now, k)[k] == tabs[k] && SweptFlags(tabs, cd, now, k)[k] == cd[k] && SweptFlags(tabs, gs, now, k)[k] == gs[k]
    ensures SweepActions(tabs, now, k + 1) == SweepActions(tabs, now, k) + SweepSlotActions(k, tabs[k], now)
  {
  }

  /** The monitor releases a slot exactly when its reads are scheduled,
      none is queued and none is outstanding after the purge; a slot it
      keeps has nothing expired left. */
  lemma SweepReleasesFinishedSlots(p: Profile, now: Tick)
    ensures !AfterPendingSweep(p, now).isBusy <==> (ReadsDone(Purged(p, now)) || !p.isBusy)
    ensures forall pr :: pr in AfterPendingSweep(p, now).pendingRequests ==> !Expired(pr, now)
  {
    var ps := p.pendingRequests;
    forall pr | pr in AfterPendingSweep(p, now).pendingRequests
      ensures !Expired(pr, now)
    {
      UnexpiredCounts(ps, now, pr);
    }
  }

  // ---------------------------------------------------------------------
  // Unregistration and routing

  /** Slot `p` after an unregistration event on `gattcIf`: released and left
      without an interface when the event names its interface, released
      (again) when re-registering its application is accepted. */
  function UnregSlot(p: Profile, gattcIf: uint8, registered: bool): Profile
  {
    var p1 := if gattcIf == p.gattcIf then Cleared(p).(gattcIf := ESP_GATT_IF_NONE) else p;
    if registered then Cleared(p1) else p1
  }

  /** The calls made for one slot on an unregistration event. */
  function UnregActions(app: nat, p: Profile, gattcIf: uint8, registered: bool): seq<Action>
  {
    var p1 := if gattcIf == p.gattcIf then Cleared(p).(gattcIf := ESP_GATT_IF_NONE) else p;
    (if gattcIf == p.gattcIf then FinalActions(app, p, true) else [])
    + [AppRegister(app)]
    + (if registered then FinalActions(app, p1, true) else [])
  }

  function UnregAllActions(tabs: seq<Profile>, gattcIf: uint8, registered: seq<bool>, k: nat): seq<Action>
    requires k <= |tabs| == |registered|
  {
    if k == 0 then []
    else UnregAllActions(tabs, gattcIf, registered, k - 1) + UnregActions(k - 1, tabs[k - 1], gattcIf, registered[k - 1])
  }

  /** The slots after the unregistration loop has handled those below `k`. */
  function UnregisteredTabs(tabs: seq<Profile>, gattcIf: uint8, registered: seq<bool>, k: nat): (r: seq<Profile>)
    requires |registered| == |tabs|
    ensures |r| == |tabs|
  {
    seq(|tabs|, i requires 0 <= i < |tabs| => if i < k then UnregSlot(tabs[i], gattcIf, registered[i]) else tabs[i])
  }

  /** A slot's connection or service flag after its unregistration step:
      cleared when the slot held the unregistered interface or its
      re-registration was accepted, since either runs `finalProcedure`. */
  function UnregFlag(p: Profile, flag: bool, gattcIf: uint8, registered: bool): bool
  {
    flag && !(gattcIf == p.gattcIf || registered)
  }

  /** The flags after the unregistration loop has handled the slots below `k`. */
  function UnregisteredFlags(tabs: seq<Profile>, flags: seq<bool>, gattcIf: uint8, registered: seq<bool>, k: nat): (r: seq<bool>)
    requires |registered| == |tabs| == |flags|
    ensures |r| == |flags|
  {
    seq(|flags|, i requires 0 <= i < |flags| => if i < k then UnregFlag(tabs[i], flags[i], gattcIf, registered[i]) else flags[i])
  }

  lemma UnregisterFlagStep(tabs: seq<Profile>, flags: seq<bool>, gattcIf: uint8, registered: seq<bool>, k: nat)
    requires k < |tabs| == |registered| == |flags|
    ensures UnregisteredFlags(tabs, flags, gattcIf, registered, k)[k] == flags[k]
    ensures UnregisteredFlags(tabs, flags, gattcIf, registered, k)[k := UnregFlag(tabs[k], flags[k], gattcIf, registered[k])]
      == UnregisteredFlags(tabs, flags, gattcIf, registered, k + 1)
  {
  }

  /** After an unregistration no slot is still marked connected or reading
      services when its re-registration was accepted or it held the
      unregistered interface; the other slots keep their flags. */
  lemma UnregistrationClearsFlags(tabs: seq<Profile>, flags: seq<bool>, gattcIf: uint8, registered: seq<bool>)
    requires |registered| == |tabs| == |flags|
    ensures var r := UnregisteredFlags(tabs, flags, gattcIf, registered, |tabs|);
      forall i :: 0 <= i < |flags| ==> (r[i] <==> flags[i] && !registered[i] && tabs[i].gattcIf != gattcIf)
  {
  }

  lemma UnregisterStep(tabs: seq<Profile>, gattcIf: uint8, registered: seq<bool>, k: nat)
    requires k < |tabs| == |registered|
    ensures UnregisteredTabs(tabs, gattcIf, registered, k)[k] == tabs[k]
    ensures UnregisteredTabs(tabs, gattcIf, registered, k)[k := UnregSlot(tabs[k], gattcIf, registered[k])]
      == UnregisteredTabs(tabs, gattcIf, registered, k + 1)
    ensures UnregAllActions(tabs, gattcIf, registered, k + 1)
      == UnregAllActions(tabs, gattcIf, registered, k) + UnregActions(k, tabs[k], gattcIf, registered[k])
  {
  }

  /** One unregistration stops every interrogation: a slot whose
      re-registration is accepted is released even when the event named
      another interface, and the slot it named is no longer dispatched to. */
  lemma UnregistrationAbortsInterrogations(p: Profile, gattcIf: uint8, registered: bool)
    requires SlotConsistent(p)
    ensures SlotConsistent(UnregSlot(p, gattcIf, registered))
    ensures registered ==> !UnregSlot(p, gattcIf, registered).isBusy
    ensures gattcIf == p.gattcIf ==> !Eligible(UnregSlot(p, gattcIf, registered))
    ensures gattcIf != p.gattcIf && !registered ==> UnregSlot(p, gattcIf, registered) == p
  {
  }

  /** The slots below `hi` an event on `gattcIf` is handed to, in order:
      every slot for `ESP_GATT_IF_NONE`, otherwise the slots registered
      under that interface. */
  function Routed(tabs: seq<Profile>, gattcIf: uint8, hi: nat): (r: seq<nat>)
    requires hi <= |tabs|
  {
    if hi == 0 then []
    else (
      Routed(tabs, gattcIf, hi - 1)
      + (if gattcIf == ESP_GATT_IF_NONE || gattcIf == tabs[hi - 1].gattcIf then [hi - 1] else []))
  }

  /** An event reaches exactly the slots registered under its interface (all
      of them for `ESP_GATT_IF_NONE`), each once and in slot order. */
  lemma {:induction false} RoutedSlots(tabs: seq<Profile>, gattcIf: uint8, hi: nat)
    requires hi <= |tabs|
    ensures forall k :: k in Routed(tabs, gattcIf, hi) <==>
      0 <= k < hi && (gattcIf == ESP_GATT_IF_NONE || gattcIf == tabs[k].gattcIf)
    ensures forall i, j :: 0 <= i < j < |Routed(tabs, gattcIf, hi)| ==> Routed(tabs, gattcIf, hi)[i] < Routed(tabs, gattcIf, hi)[j]
  {
    if hi > 0 {
      RoutedSlots(tabs, gattcIf, hi - 1);
      var r := Routed(tabs, gattcIf, hi - 1);
      forall i | 0 <= i < |r|
        ensures r[i] < hi - 1
      {
        assert r[i] in r;
      }
    }
  }

  // ---------------------------------------------------------------------
  // The interrogator

  class Interrogator {
    const profileTabs: array<Profile>
    const connDevice: array<bool>
    const getService: array<bool>
    /** The request queue, front first. */
    var queue: seq<InterrogationRequest>
    var actions: seq<Action>
    var isConnecting: bool
    var stopScanDone: bool
    var continueMonitorTask: bool

    ghost predicate Valid()
      reads this, profileTabs
    {
      profileTabs.Length == PROFILE_NUM && connDevice.Length == PROFILE_NUM && getService.Length == PROFILE_NUM
      && connDevice != getService
      && |queue| <= REQUEST_QUEUE_CAPACITY
      && (forall j :: 0 <= j < |queue| ==> |queue[j].address| == 6)
      && AllConsistent(profileTabs[..])
    }

    function Flags(): (bool, bool, bool)
      reads this
    {
      (isConnecting, stopScanDone, continueMonitorTask)
    }

    /** Three unregistered slots with no connection, an empty queue. */
    constructor ()
      ensures Valid() && fresh(profileTabs) && fresh(connDevice) && fresh(getService)
      ensures profileTabs[..] == [INITIAL_PROFILE, INITIAL_PROFILE, INITIAL_PROFILE]
      ensures connDevice[..] == [false, false, false] && getService[..] == [false, false, false]
      ensures queue == [] && actions == [] && Flags() == (false, false, true)
    {
      profileTabs := new Profile[PROFILE_NUM](_ => INITIAL_PROFILE);
      connDevice := new bool[PROFILE_NUM](_ => false);
      getService := new bool[PROFILE_NUM](_ => false);
      queue := [];
      actions := [];
      isConnecting := false;
      stopScanDone := false;
      continueMonitorTask := true;
    }

    /** `sendInterrogationRequestToQueue`: appends without waiting, or fails
      with `ESP_ERR_NO_MEM` and leaves the queue as it was. */
    method SendInterrogationRequestToQueue(req: InterrogationRequest) returns (status: Status)
      requires Valid() && |req.address| == 6
      modifies this
      ensures Valid()
      ensures status == Ok <==> |old(queue)| < REQUEST_QUEUE_CAPACITY
      ensures queue == if status == Ok then old(queue) + [req] else old(queue)
      ensures status == Ok || status == ErrNoMem
      ensures actions == old(actions) && Flags() == old(Flags())
    {
      if |queue| >= REQUEST_QUEUE_CAPACITY {
        return ErrNoMem;
      }
      queue := queue + [req];
      return Ok;
    }

    /** One line of the UART task, as `strtok_r` cuts it out of one read: a
      report becomes a queued request; the task stops (`stop`) on an address
      it cannot parse. */
    method QuestionerLine(line: string) returns (stop: bool)
      requires Valid()
      modifies this
      ensures Valid()
      ensures stop <==> RequestOfLine(line).BadAddress?
      ensures queue == match RequestOfLine(line)
        case Request(req) => if |old(queue)| < REQUEST_QUEUE_CAPACITY then old(queue) + [req] else old(queue)
        case _ => old(queue)
      ensures actions == old(actions) && Flags() == old(Flags())
    {
      var outcome := RequestOfLine(line);
      if outcome.BadAddress? {
        return true;
      }
      if outcome.Request? {
        var _ := SendInterrogationRequestToQueue(outcome.req);
      }
      return false;
    }

    /** `finalProcedure`. */
    method FinalProcedure(app: nat, toConsole: bool) returns (status: Status)
      requires Valid() && app < PROFILE_NUM
      modifies this, profileTabs, connDevice, getService
      ensures Valid() && status == Ok
      ensures profileTabs[..] == old(profileTabs[..])[app := Cleared(old(profileTabs[app]))]
      ensures connDevice[..] == old(connDevice[..])[app := false]
      ensures getService[..] == old(getService[..])[app := false]
      ensures actions == old(actions) + FinalActions(app, old(profileTabs[app]), toConsole)
      ensures queue == old(queue) && Flags() == old(Flags())
    {
      var p := profileTabs[app];
      actions := actions + [Close(p.gattcIf, p.connId)];
      if toConsole {
        actions := actions + [ProfileDump(Console, app, p.remoteBda, p.request, p.services)];
      }
      actions := actions + [ProfileDump(File, app, p.remoteBda, p.request, p.services)];
      profileTabs[app] := Cleared(p);
      connDevice[app] := false;
      getService[app] := false;
      return Ok;
    }

    /** `resetState`. */
    method ResetState()
      requires Valid()
      modifies this, profileTabs, connDevice, getService
      ensures Valid()
      ensures forall i :: 0 <= i < PROFILE_NUM ==>
        profileTabs[i] == ResetSlot(old(profileTabs[i])) && !connDevice[i] && !getService[i]
      ensures queue == old(queue) && actions == old(actions) && Flags() == (false, false, true)
    {
      for i := 0 to PROFILE_NUM
        invariant Valid() && queue == old(queue) && actions == old(actions)
        invariant forall j :: 0 <= j < i ==> profileTabs[j] == ResetSlot(old(profileTabs[j])) && !connDevice[j] && !getService[j]
        invariant forall j :: i <= j < PROFILE_NUM ==> profileTabs[j] == old(profileTabs[j])
      {
        profileTabs[i] := ResetSlot(profileTabs[i]);
        connDevice[i] := false;
        getService[i] := false;
      }
      isConnecting := false;
      stopScanDone := false;
      continueMonitorTask := true;
    }

    /** One pass of the dispatcher: takes the front request, offers it to
      the slots in order and gives it to the first that accepts; with no
      taker the request goes back to the front of the queue. `accepts[i]`
      is the stack's answer to a connection attempt on slot `i`. */
    method DispatchOnce(accepts: seq<bool>, now: Tick)
      requires Valid() && |accepts| == PROFILE_NUM
      modifies this, profileTabs
      ensures Valid() && Flags() == old(Flags())
      ensures old(queue) == [] ==> queue == [] && profileTabs[..] == old(profileTabs[..]) && actions == old(actions)
      ensures old(queue) != [] ==>
        var req := old(queue)[0];
        var tabs := old(profileTabs[..]);
        match FirstFree(tabs, accepts, 0)
        case Some(j) =>
          queue == old(queue)[1..] && profileTabs[..] == tabs[j := Assigned(tabs[j], req, now)]
          && actions == old(actions) + Attempts(tabs, req, j + 1)
        case None =>
          queue == old(queue) && profileTabs[..] == tabs
          && actions == old(actions) + Attempts(tabs, req, PROFILE_NUM)
    {
      if queue == [] {
        return;
      }
      var req := queue[0];
      queue := queue[1..];
      var taken := OfferToSlots(req, accepts, now);
      if !taken && |queue| < REQUEST_QUEUE_CAPACITY {
        queue := [req] + queue;
      }
    }

    /** The dispatcher's loop over the slots: a connection attempt on each
      eligible slot in order, until one is accepted. */
    method OfferToSlots(req: InterrogationRequest, accepts: seq<bool>, now: Tick) returns (taken: bool)
      requires Valid() && |accepts| == PROFILE_NUM && |req.address| == 6
      modifies this, profileTabs
      ensures Valid() && Flags() == old(Flags()) && queue == old(queue)
      ensures taken <==> FirstFree(old(profileTabs[..]), accepts, 0).Some?
      ensures var tabs := old(profileTabs[..]);
        match FirstFree(tabs, accepts, 0)
        case Some(j) =>
          profileTabs[..] == tabs[j := Assigned(tabs[j], req, now)]
          && actions == old(actions) + Attempts(tabs, req, j + 1)
        case None =>
          profileTabs[..] == tabs && actions == old(actions) + Attempts(tabs, req, PROFILE_NUM)
    {
      ghost var tabs := profileTabs[..];
      for k := 0 to PROFILE_NUM
        invariant Valid() && Flags() == old(Flags()) && queue == old(queue)
        invariant profileTabs[..] == tabs
        invariant actions == old(actions) + Attempts(tabs, req, k)
        invariant FirstFree(tabs, accepts, 0) == FirstFree(tabs, accepts, k)
      {
        var p := profileTabs[k];
        if p.gattcIf != ESP_GATT_IF_NONE && !p.isBusy {
          actions := actions + [Open(p.gattcIf, req.address, req.addrType)];
          if accepts[k] {
            AssignedIsConsistent(p, req, now);
            profileTabs[k] := Assigned(p, req, now);
            return true;
          }
        }
      }
      return false;
    }

    /** One pass of the timeout enforcer: when every slot is stuck the
      device restarts (`esp_restart` does not return, so the stack
      re-initialisation after it never runs); otherwise nothing changes. */
    method TimeoutEnforcerPass(now: Tick) returns (restart: bool)
      requires Valid()
      modifies this
      ensures Valid() && queue == old(queue) && Flags() == old(Flags())
      ensures restart <==> forall i :: 0 <= i < PROFILE_NUM ==> Stuck(profileTabs[i], connDevice[i], getService[i], now)
      ensures actions == old(actions) + (if restart then [Restart] else [])
    {
      ghost var tabs := profileTabs[..];
      ghost var cd := connDevice[..];
      ghost var gs := getService[..];
      var timedOutCount := 0;
      for appId := 0 to PROFILE_NUM
        invariant timedOutCount == StuckCount(tabs, cd, gs, now, appId)
      {
        var p := profileTabs[appId];
        if p.isBusy && p.connId == UNUSED_CONN_ID && p.services == [] && p.pendingRequests == []
          && p.readCharQueue == [] && !connDevice[appId] && !getService[appId]
          && p.busySince != 0 && Elapsed(now, p.busySince) > CONNECTION_OPEN_TIMEOUT_SECONDS * 1000
        {
          timedOutCount := timedOutCount + 1;
        }
      }
      StuckCountFull(tabs, cd, gs, now, PROFILE_NUM);
      restart := timedOutCount == PROFILE_NUM;
      if restart {
        actions := actions + [Restart];
      }
    }

    /** One pass of the pending monitor: every slot's expired reads are
      dropped, then a slot whose reads are all done is released (with a
      console dump). */
    method PendingMonitorPass(now: Tick)
      requires Valid()
      modifies this, profileTabs, connDevice, getService
      ensures Valid() && queue == old(queue) && Flags() == old(Flags())
      ensures profileTabs[..] == SweptTabs(old(profileTabs[..]), now, PROFILE_NUM)
      ensures connDevice[..] == SweptFlags(old(profileTabs[..]), old(connDevice[..]), now, PROFILE_NUM)
      ensures getService[..] == SweptFlags(old(profileTabs[..]), old(getService[..]), now, PROFILE_NUM)
      ensures actions == old(actions) + SweepActions(old(profileTabs[..]), now, PROFILE_NUM)
    {
      ghost var tabs := profileTabs[..];
      ghost var cd := connDevice[..];
      ghost var gs := getService[..];
      for appId := 0 to PROFILE_NUM
        invariant profileTabs[..] == SweptTabs(tabs, now, appId)
        invariant connDevice[..] == SweptFlags(tabs, cd, now, appId)
        invariant getService[..] == SweptFlags(tabs, gs, now, appId)
        invariant actions == old(actions) + SweepActions(tabs, now, appId)
        invariant queue == old(queue) && Flags() == old(Flags())
        invariant Valid()
      {
        SweepStep(tabs, cd, gs, now, appId);
        SeqAssoc(old(actions), SweepActions(tabs, now, appId), SweepSlotActions(appId, tabs[appId], now));
        SweepSlot(appId, now);
      }
    }

    /** One slot of the pending monitor's pass. */
    method SweepSlot(app: nat, now: Tick)
      requires Valid() && app < PROFILE_NUM
      modifies this, profileTabs, connDevice, getService
      ensures Valid() && queue == old(queue) && Flags() == old(Flags())
      ensures var done := ReadsDone(Purged(old(profileTabs[app]), now));
        profileTabs[..] == old(profileTabs[..])[app := AfterPendingSweep(old(profileTabs[app]), now)]
        && connDevice[..] == old(connDevice[..])[app := old(connDevice[app]) && !done]
        && getService[..] == old(getService[..])[app := old(getService[app]) && !done]
        && actions == old(actions) + SweepSlotActions(app, old(profileTabs[app]), now)
    {
      var p := profileTabs[app];
      var kept := RemoveExpired(p.pendingRequests, now);
      p := p.(pendingRequests := kept);
      profileTabs[app] := p;
      if p.isCharScheduled && p.readCharQueue == [] && p.pendingRequests == [] {
        var _ := FinalProcedure(app, true);
      }
    }

    /** The part of `esp_gattc_cb` before the per-slot handlers: an
      unregistration releases and re-registers every slot and stops there;
      a successful registration stores the interface; a failed one stops
      there. `targets` are the slots whose handlers then run, in order.
      `registered[i]` is the stack's answer to re-registering application
      `i`. */
    method GattcCallback(event: GattcEvent, gattcIf: uint8, registered: seq<bool>) returns (targets: seq<nat>)
      requires Valid() && |registered| == PROFILE_NUM
      requires event.RegEvt? ==> event.appId < PROFILE_NUM
      modifies this, profileTabs, connDevice, getService
      ensures Valid() && queue == old(queue) && Flags() == old(Flags())
      ensures event.UnregEvt? ==>
        targets == []
        && profileTabs[..] == UnregisteredTabs(old(profileTabs[..]), gattcIf, registered, PROFILE_NUM)
        && connDevice[..] == UnregisteredFlags(old(profileTabs[..]), old(connDevice[..]), gattcIf, registered, PROFILE_NUM)
        && getService[..] == UnregisteredFlags(old(profileTabs[..]), old(getService[..]), gattcIf, registered, PROFILE_NUM)
        && actions == old(actions) + UnregAllActions(old(profileTabs[..]), gattcIf, registered, PROFILE_NUM)
      ensures !event.UnregEvt? ==> connDevice[..] == old(connDevice[..]) && getService[..] == old(getService[..])
      ensures event.RegEvt? && !event.regOk ==>
        targets == [] && profileTabs[..] == old(profileTabs[..]) && actions == old(actions)
      ensures event.RegEvt? && event.regOk ==>
        profileTabs[..] == old(profileTabs[..])[event.appId := old(profileTabs[event.appId]).(gattcIf := gattcIf)]
        && targets == Routed(profileTabs[..], gattcIf, PROFILE_NUM) && actions == old(actions)
      ensures !event.RegEvt? && !event.UnregEvt? ==>
        profileTabs[..] == old(profileTabs[..]) && targets == Routed(profileTabs[..], gattcIf, PROFILE_NUM)
        && actions == old(actions)
    {
      if event.UnregEvt? {
        UnregisterAll(gattcIf, registered);
        return [];
      }
      if event.RegEvt? {
        if !event.regOk {
          return [];
        }
        var p := profileTabs[event.appId];
        profileTabs[event.appId] := p.(gattcIf := gattcIf);
      }
      targets := RouteEvent(gattcIf);
    }

    /** The slots an event on `gattcIf` is handed to, in slot order. */
    method RouteEvent(gattcIf: uint8) returns (targets: seq<nat>)
      requires Valid()
      ensures targets == Routed(profileTabs[..], gattcIf, PROFILE_NUM)
    {
      targets := [];
      for idx := 0 to PROFILE_NUM
        invariant targets == Routed(profileTabs[..], gattcIf, idx)
      {
        if gattcIf == ESP_GATT_IF_NONE || gattcIf == profileTabs[idx].gattcIf {
          targets := targets + [idx];
        }
      }
    }

    /** The unregistration branch: every slot in turn. */
    method UnregisterAll(gattcIf: uint8, registered: seq<bool>)
      requires Valid() && |registered| == PROFILE_NUM
      modifies this, profileTabs, connDevice, getService
      ensures Valid() && queue == old(queue) && Flags() == old(Flags())
      ensures profileTabs[..] == UnregisteredTabs(old(profileTabs[..]), gattcIf, registered, PROFILE_NUM)
      ensures connDevice[..] == UnregisteredFlags(old(profileTabs[..]), old(connDevice[..]), gattcIf, registered, PROFILE_NUM)
      ensures getService[..] == UnregisteredFlags(old(profileTabs[..]), old(getService[..]), gattcIf, registered, PROFILE_NUM)
      ensures actions == old(actions) + UnregAllActions(old(profileTabs[..]), gattcIf, registered, PROFILE_NUM)
    {
      ghost var tabs := profileTabs[..];
      ghost var cd := connDevice[..];
      ghost var gs := getService[..];
      for appId := 0 to PROFILE_NUM
        invariant profileTabs[..] == UnregisteredTabs(tabs, gattcIf, registered, appId)
        invariant connDevice[..] == UnregisteredFlags(tabs, cd, gattcIf, registered, appId)
        invariant getService[..] == UnregisteredFlags(tabs, gs, gattcIf, registered, appId)
        invariant actions == old(actions) + UnregAllActions(tabs, gattcIf, registered, appId)
        invariant queue == old(queue) && Flags() == old(Flags())
        invariant Valid()
      {
        UnregisterStep(tabs, gattcIf, registered, appId);
        UnregisterFlagStep(tabs, cd, gattcIf, registered, appId);
        UnregisterFlagStep(tabs, gs, gattcIf, registered, appId);
        SeqAssoc(old(actions), UnregAllActions(tabs, gattcIf, registered, appId), UnregActions(appId, tabs[appId], gattcIf, registered[appId]));
        UnregisterSlot(appId, gattcIf, registered[appId]);
      }
    }

    /** One iteration of the unregistration loop. */
    method UnregisterSlot(app: nat, gattcIf: uint8, registered: bool)
      requires Valid() && app < PROFILE_NUM
      modifies this, profileTabs, connDevice, getService
      ensures Valid() && queue == old(queue) && Flags() == old(Flags())
      ensures profileTabs[..] == old(profileTabs[..])[app := UnregSlot(old(profileTabs[app]), gattcIf, registered)]
      ensures connDevice[..] == old(connDevice[..])[app := UnregFlag(old(profileTabs[app]), old(connDevice[app]), gattcIf, registered)]
      ensures getService[..] == old(getService[..])[app := UnregFlag(old(profileTabs[app]), old(getService[app]), gattcIf, registered)]
      ensures actions == old(actions) + UnregActions(app, old(profileTabs[app]), gattcIf, registered)
    {
      ghost var p := profileTabs[app];
      if gattcIf == profileTabs[app].gattcIf {
        var _ := FinalProcedure(app, true);
        profileTabs[app] := profileTabs[app].(gattcIf := ESP_GATT_IF_NONE);
      }
      actions := actions + [AppRegister(app)];
      if registered {
        var _ := FinalProcedure(app, true);
      }
    }
  }

  /** The compaction loop of `remove_if`. */
  method RemoveExpired(ps: seq<PendingRequest>, now: Tick) returns (kept: seq<PendingRequest>)
    ensures kept == Unexpired(ps, now)
  {
    kept := [];
    for i := 0 to |ps|
      invariant kept == Unexpired(ps[..i], now)
    {
      assert ps[..i + 1][..i] == ps[..i];
      if !Expired(ps[i], now) {
        kept := kept + [ps[i]];
      }
    }
    assert ps[..|ps|] == ps;
  }
}
