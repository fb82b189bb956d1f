// The scanner's glue: the controller callback copies each HCI packet into a
// ring of ten fixed-size slots and queues a descriptor for it; the processing
// task takes descriptors in order, decodes the packet, and routes the reports
// of connectable events to the file sink (always) and to the UART (only when
// the cache admits the device).

module DeviceScanner {
  import opened Bytes
  import opened Text
  import opened Definitions
  import opened HciEventParser
  import MacCache
  import opened RomPrintController
  import opened UartController

  /** `hci_data_t` as queued: where the packet sits in the ring, its length,
      and the time the callback received it. */
  datatype QueuedPacket = QueuedPacket(slot: nat, len: nat, timestamp: int)

  /** The callback side: `_hci_buffer` (ten slots of `HCI_EVENT_MAX_SIZE`
      bytes), `_hci_buffer_idx`, and the queue of descriptors. `admitted`
      holds the payloads of the queued packets, for the specification. */
  class HciRing {
    const buffer: array<uint8>
    var idx: nat
    var queue: seq<QueuedPacket>
    ghost var admitted: seq<seq<uint8>>

    /** The queued packets occupy the slots just before `idx`, oldest first,
        and each slot still holds the bytes copied into it. */
    ghost predicate Valid()
      reads this, buffer
    {
      RingHolds(buffer[..], idx, queue, admitted)
    }

    constructor ()
      ensures Valid() && fresh(buffer) && idx == 0 && queue == [] && admitted == []
    {
      buffer := new uint8[HCI_BUFFER_SIZE * HCI_EVENT_MAX_SIZE](_ => 0);
      idx := 0;
      queue := [];
      admitted := [];
    }

    /** `controllerOutRdy`: refuses a packet longer than an HCI event can be,
        or when ten packets are already waiting; otherwise copies it into the
        slot at `idx`, advances `idx` modulo ten and queues the descriptor.
        The queue holds forty descriptors, so the send after the check never
        fails. */
    method ControllerOutRdy(data: seq<uint8>, now: int) returns (status: Status)
      requires Valid() && |data| <= 0xFFFF
      modifies this, buffer
      ensures Valid()
      ensures status == Ok <==> |data| <= HCI_EVENT_MAX_SIZE && |old(queue)| < HCI_BUFFER_SIZE
      ensures status != Ok ==>
        status == Fail && idx == old(idx) && queue == old(queue) && admitted == old(admitted) && buffer[..] == old(buffer[..])
      ensures status == Ok ==>
        idx == (old(idx) + 1) % HCI_BUFFER_SIZE
        && queue == old(queue) + [QueuedPacket(old(idx), |data|, now)] && admitted == old(admitted) + [data]
    {
      if |data| > HCI_EVENT_MAX_SIZE {
        return Fail;
      }
      if |queue| >= HCI_BUFFER_SIZE {
        return Fail;
      }
      Enqueue(data, now);
      return Ok;
    }

    /** The accepted path: the copy into the slot at `idx` and the
        descriptor. */
    method Enqueue(data: seq<uint8>, now: int)
      requires Valid() && |data| <= HCI_EVENT_MAX_SIZE && |queue| < HCI_BUFFER_SIZE
      modifies this, buffer
      ensures Valid()
      ensures idx == (old(idx) + 1) % HCI_BUFFER_SIZE
        && queue == old(queue) + [QueuedPacket(old(idx), |data|, now)] && admitted == old(admitted) + [data]
    {
      var slot := idx;
      ghost var buf0 := buffer[..];
      CopyIntoSlot(slot * HCI_EVENT_MAX_SIZE, data);
      EnqueueKeepsRing(buf0, buffer[..], slot, queue, admitted, data, now);
      idx := (idx + 1) % HCI_BUFFER_SIZE;
      queue := queue + [QueuedPacket(slot, |data|, now)];
      admitted := admitted + [data];
    }

    /** `memcpy` into the buffer at `base`; every other byte is kept. */
    method CopyIntoSlot(base: nat, data: seq<uint8>)
      requires base + |data| <= buffer.Length
      modifies buffer
      ensures Copied(old(buffer[..]), buffer[..], base, data)
    {
      forall k | 0 <= k < |data| {
        buffer[base + k] := data[k];
      }
    }

    /** The processing task's `xQueueReceive`: the oldest descriptor, and the
        bytes its slot holds. Nothing when the queue is empty (the processing task would
        block). */
    method Receive() returns (packet: Option<(seq<uint8>, int)>)
      requires Valid()
      modifies this
      ensures Valid() && idx == old(idx)
      ensures old(queue) == [] ==> packet == None && queue == [] && admitted == old(admitted)
      ensures old(queue) != [] ==>
        packet == Some((old(admitted)[0], old(queue)[0].timestamp))
        && queue == old(queue)[1..] && admitted == old(admitted)[1..]
    {
      if queue == [] {
        return None;
      }
      var p := queue[0];
      var base := p.slot * HCI_EVENT_MAX_SIZE;
      var data := buffer[base..base + p.len];
      assert data == admitted[0] by {
        assert forall k :: 0 <= k < p.len ==> data[k] == buffer[base + k];
      }
      queue := queue[1..];
      admitted := admitted[1..];
      return Some((data, p.timestamp));
    }
  }

  /** The queued packets occupy the slots just before `idx`, oldest first,
      and each slot still holds the bytes copied into it. */
  ghost predicate RingHolds(buf: seq<uint8>, idx: nat, queue: seq<QueuedPacket>, admitted: seq<seq<uint8>>)
  {
    |buf| == HCI_BUFFER_SIZE * HCI_EVENT_MAX_SIZE && idx < HCI_BUFFER_SIZE && |queue| <= HCI_BUFFER_SIZE
    && SlotsRun(idx, queue) && LengthsFit(queue, admitted) && BytesHeld(buf, queue, admitted)
  }

  /** The `j`-th queued packet sits `|queue| - j` slots before `idx`. */
  ghost predicate SlotsRun(idx: nat, queue: seq<QueuedPacket>)
  {
    forall j :: 0 <= j < |queue| ==> queue[j].slot == (idx + HCI_BUFFER_SIZE - |queue| + j) % HCI_BUFFER_SIZE
  }

  /** Each descriptor's length is its payload's, which fits a slot. */
  ghost predicate LengthsFit(queue: seq<QueuedPacket>, admitted: seq<seq<uint8>>)
  {
    |admitted| == |queue| && forall j :: 0 <= j < |queue| ==> queue[j].len == |admitted[j]| <= HCI_EVENT_MAX_SIZE
  }

  /** Each queued slot holds its payload. */
  ghost predicate BytesHeld(buf: seq<uint8>, queue: seq<QueuedPacket>, admitted: seq<seq<uint8>>)
  {
    forall j, k :: 0 <= j < |queue| && j < |admitted| && 0 <= k < |admitted[j]| ==>
      queue[j].slot * HCI_EVENT_MAX_SIZE + k < |buf| && buf[queue[j].slot * HCI_EVENT_MAX_SIZE + k] == admitted[j][k]
  }

  /** `buf1` is `buf0` with `data` copied in at `base`. */
  ghost predicate Copied(buf0: seq<uint8>, buf1: seq<uint8>, base: nat, data: seq<uint8>)
  {
    |buf1| == |buf0| && base + |data| <= |buf0|
    && forall p :: 0 <= p < |buf1| ==> buf1[p] == if base <= p < base + |data| then data[p - base] else buf0[p]
  }

  /** Copying a packet into the slot at `idx` and queueing it keeps the
      ring's layout. */
  lemma EnqueueKeepsRing(buf0: seq<uint8>, buf1: seq<uint8>, slot: nat, queue: seq<QueuedPacket>, admitted: seq<seq<uint8>>,
                         data: seq<uint8>, now: int)
    requires RingHolds(buf0, slot, queue, admitted) && |data| <= HCI_EVENT_MAX_SIZE && |queue| < HCI_BUFFER_SIZE
    requires Copied(buf0, buf1, slot * HCI_EVENT_MAX_SIZE, data)
    ensures RingHolds(buf1, (slot + 1) % HCI_BUFFER_SIZE, queue + [QueuedPacket(slot, |data|, now)], admitted + [data])
  {
    var q := queue + [QueuedPacket(slot, |data|, now)];
    var a := admitted + [data];
    EnqueueSlots(slot, queue, q);
    assert LengthsFit(q, a) by {
      forall j | 0 <= j < |q| ensures q[j].len == |a[j]| <= HCI_EVENT_MAX_SIZE {
        if j < |queue| {
          assert q[j] == queue[j] && a[j] == admitted[j];
        }
      }
    }
    EnqueueBytes(buf0, buf1, slot, queue, admitted, q, a);
  }

  /** The queued slots run on past the new one, which none of them is. */
  lemma EnqueueSlots(slot: nat, queue: seq<QueuedPacket>, q: seq<QueuedPacket>)
    requires slot < HCI_BUFFER_SIZE && |queue| < HCI_BUFFER_SIZE && SlotsRun(slot, queue)
    requires |q| == |queue| + 1 && q[..|queue|] == queue && q[|queue|].slot == slot
    ensures SlotsRun((slot + 1) % HCI_BUFFER_SIZE, q)
    ensures forall j :: 0 <= j < |queue| ==> queue[j].slot != slot && queue[j].slot < HCI_BUFFER_SIZE
  {
    forall j | 0 <= j < |q|
      ensures q[j].slot == ((slot + 1) % HCI_BUFFER_SIZE + HCI_BUFFER_SIZE - |q| + j) % HCI_BUFFER_SIZE
      ensures j < |queue| ==> queue[j].slot != slot && queue[j].slot < HCI_BUFFER_SIZE
    {
      if j < |queue| {
        assert q[j] == queue[j];
      }
      RingSlot(slot, |queue|, j);
    }
  }

  /** The new packet's bytes are in its slot, and every other queued slot
      is untouched. */
  lemma EnqueueBytes(buf0: seq<uint8>, buf1: seq<uint8>, slot: nat, queue: seq<QueuedPacket>, admitted: seq<seq<uint8>>,
                     q: seq<QueuedPacket>, a: seq<seq<uint8>>)
    requires |buf0| == HCI_BUFFER_SIZE * HCI_EVENT_MAX_SIZE && slot < HCI_BUFFER_SIZE
    requires LengthsFit(queue, admitted) && BytesHeld(buf0, queue, admitted)
    requires forall j :: 0 <= j < |queue| ==> queue[j].slot != slot && queue[j].slot < HCI_BUFFER_SIZE
    requires |q| == |a| == |queue| + 1 && q[..|queue|] == queue && a[..|queue|] == admitted && q[|queue|].slot == slot
    requires |a[|queue|]| <= HCI_EVENT_MAX_SIZE && Copied(buf0, buf1, slot * HCI_EVENT_MAX_SIZE, a[|queue|])
    ensures BytesHeld(buf1, q, a)
  {
    forall j, k | 0 <= j < |q| && j < |a| && 0 <= k < |a[j]|
      ensures q[j].slot * HCI_EVENT_MAX_SIZE + k < |buf1| && buf1[q[j].slot * HCI_EVENT_MAX_SIZE + k] == a[j][k]
    {
      if j < |queue| {
        assert q[j] == queue[j] && a[j] == admitted[j];
        SlotsApart(q[j].slot, slot, k);
      } else {
        assert q[j].slot * HCI_EVENT_MAX_SIZE + k < slot * HCI_EVENT_MAX_SIZE + |a[|queue|]|;
      }
    }
  }

  /** The slot arithmetic of the ring: with `n` packets waiting before the
      new one, the slot after `slot` continues the run, and every waiting
      packet sits in a slot other than `slot`. */
  lemma RingSlot(slot: nat, n: nat, j: nat)
    requires slot < HCI_BUFFER_SIZE && n < HCI_BUFFER_SIZE && j <= n
    ensures (slot + HCI_BUFFER_SIZE - n + j) % HCI_BUFFER_SIZE
      == ((slot + 1) % HCI_BUFFER_SIZE + HCI_BUFFER_SIZE - (n + 1) + j) % HCI_BUFFER_SIZE
    ensures j < n ==> (slot + HCI_BUFFER_SIZE - n + j) % HCI_BUFFER_SIZE != slot
    ensures j == n ==> (slot + HCI_BUFFER_SIZE - n + j) % HCI_BUFFER_SIZE == slot
  {
  }

  /** Bytes of different slots never share a position in the buffer. */
  lemma SlotsApart(a: nat, b: nat, k: nat)
    requires a != b && k < HCI_EVENT_MAX_SIZE
    ensures a * HCI_EVENT_MAX_SIZE + k < b * HCI_EVENT_MAX_SIZE || b * HCI_EVENT_MAX_SIZE + HCI_EVENT_MAX_SIZE <= a * HCI_EVENT_MAX_SIZE + k
  {
  }

  // ---------------------------------------------------------------------
  // Routing

  /** A character of the printed address as the byte `memcpy` copies. */
  function CharByte(c: char): uint8
  {
    (c as int % 256) as uint8
  }

  /** The cache key `hciEvtProcess` builds: the first six bytes of the
      printed address (`memcpy` from `bdaddr_str`) and the address type. */
  function TextKey(r: SingleReport): MacCache.MacKey
  {
    MacCache.MacKey(seq(6, j requires 0 <= j < 6 => if j < |r.bdaddrStr| then CharByte(r.bdaddrStr[j]) else 0), r.addrType)
  }

  /** One report offered to the cache at time `now`: the cache after the
      offer (and, on admission, after eviction), and whether it admitted. */
  function Offer(s: MacCache.CacheState, r: SingleReport, now: int): (o: (MacCache.CacheState, bool))
    requires MacCache.Valid(s)
    ensures MacCache.Valid(o.0)
    ensures o.1 <==> TextKey(r) !in s.stamps || now - s.stamps[TextKey(r)] >= MacCache.TTL
  {
    var (fwd, t) := MacCache.Touch(s, TextKey(r), now);
    MacCache.TouchPreservesValid(s, TextKey(r), now);
    MacCache.EvictPreservesValid(t, now);
    MacCache.TouchOutcome(s, TextKey(r), now);
    (if fwd then MacCache.Evict(t, now) else t, fwd)
  }

  /** The cache after offering the reports of one packet in order, all at
      time `now`, and for each report whether the cache admitted it. After an
      admission the cache evicts expired entries. */
  function Admissions(s: MacCache.CacheState, rs: seq<SingleReport>, now: int): (r: (MacCache.CacheState, seq<bool>))
    requires MacCache.Valid(s)
    ensures MacCache.Valid(r.0) && |r.1| == |rs|
    decreases |rs|
  {
    if rs == [] then (s, [])
    else
      var prev := Admissions(s, rs[..|rs| - 1], now);
      var (after, fwd) := Offer(prev.0, rs[|rs| - 1], now);
      (after, prev.1 + [fwd])
  }

  /** The UART lines of the admitted reports, in order. */
  function ForwardedLines(rs: seq<SingleReport>, flags: seq<bool>, timestamp: int, filename: Option<string>): seq<string>
    requires |flags| == |rs|
    decreases |rs|
  {
    if rs == [] then []
    else
      ForwardedLines(rs[..|rs| - 1], flags[..|rs| - 1], timestamp, filename)
        + (if flags[|rs| - 1] then [CsvLine(rs[|rs| - 1], timestamp, filename)] else [])
  }

  /** What the file sink receives for each report: its header, cut to what
      the write accepted. */
  function Written(rs: seq<SingleReport>, timestamp: int, written: seq<nat>): seq<uint8>
    requires Writable(rs, written)
    decreases |rs|
  {
    if rs == [] then []
    else
      WritablePrefix(rs, written, |rs| - 1);
      Written(rs[..|rs| - 1], timestamp, written[..|rs| - 1]) + Header(rs[|rs| - 1], timestamp)[..written[|rs| - 1]]
  }

  /** Every report has a six-byte address and every write accepted at most
      one record. */
  predicate Writable(rs: seq<SingleReport>, written: seq<nat>)
  {
    |written| == |rs| && forall j :: 0 <= j < |rs| ==> |rs[j].rawBdaddr| == 6 && written[j] <= HEADER_SIZE
  }

  lemma WritablePrefix(rs: seq<SingleReport>, written: seq<nat>, i: nat)
    requires Writable(rs, written) && i <= |rs|
    ensures Writable(rs[..i], written[..i])
  {
  }

  /** The processing side: the decoded-report buffer it reuses, the cache and
      the two sinks. */
  class DeviceScanner {
    const ring: HciRing
    const adv: LeAdvertisingReport
    const cache: MacCache.Cache
    const rom: FilePrintController
    const uart: UartController

    ghost predicate Valid()
      reads this, ring, ring.buffer, adv, cache, rom
    {
      ring.Valid() && adv.reports.Length == MAX_NUM_REPORTS && adv.numReports as nat <= MAX_NUM_REPORTS && MacCache.Valid(cache.State()) && rom.Valid()
    }

    constructor (fileOpen: bool)
      ensures Valid() && fresh(ring) && fresh(ring.buffer) && fresh(adv) && fresh(adv.reports)
      ensures ring.queue == [] && cache.State() == MacCache.CacheState(map[], [])
      ensures rom.fileOpen == fileOpen && rom.records == [] && uart.sent == []
    {
      ring := new HciRing();
      adv := new LeAdvertisingReport();
      cache := new MacCache.Cache();
      rom := new FilePrintController(fileOpen);
      uart := new UartController();
    }

    /** One pass of `hciEvtProcess`: take the oldest packet and process it.
        `now` is the clock read for the cache; `written` gives what each file
        write accepted. */
    method HciEvtProcess(now: int, written: seq<nat>) returns (status: Option<Status>)
      requires Valid()
      requires |written| == MAX_NUM_REPORTS && forall j :: 0 <= j < |written| ==> written[j] <= HEADER_SIZE
      modifies ring, adv, adv.reports, cache, rom, uart
      ensures Valid()
      ensures old(ring.queue) == [] ==>
        status.None? && cache.State() == old(cache.State()) && uart.sent == old(uart.sent) && rom.records == old(rom.records)
      ensures old(ring.queue) != [] ==>
        ring.queue == old(ring.queue)[1..]
        && status == Some(Decode(old(ring.admitted[0])).status)
        && Processed(old(ring.admitted[0]), old(ring.queue[0].timestamp), now, written,
             old(cache.State()), old(uart.sent), old(rom.records), cache.State(), uart.sent, rom.records,
             uart.currentlyUsedFilename, rom.fileOpen)
    {
      var packet := ring.Receive();
      if packet.None? {
        return None;
      }
      var (data, ts) := packet.value;
      var st := ProcessPacket(data, ts, now, written);
      status := Some(st);
    }

    /** The body of `hciEvtProcess` for a received packet: decode it, and
        route its reports only when it decoded and one of them is
        connectable. */
    method ProcessPacket(data: seq<uint8>, ts: int, now: int, written: seq<nat>) returns (status: Status)
      requires adv.reports.Length == MAX_NUM_REPORTS && adv.numReports as nat <= MAX_NUM_REPORTS
      requires MacCache.Valid(cache.State()) && rom.Valid()
      requires |written| == MAX_NUM_REPORTS && forall j :: 0 <= j < |written| ==> written[j] <= HEADER_SIZE
      modifies adv, adv.reports, cache, rom, uart
      ensures adv.numReports as nat <= MAX_NUM_REPORTS && MacCache.Valid(cache.State()) && rom.Valid()
      ensures uart.currentlyUsedFilename == old(uart.currentlyUsedFilename) && rom.fileOpen == old(rom.fileOpen)
      ensures status == Decode(data).status
      ensures Processed(data, ts, now, written, old(cache.State()), old(uart.sent), old(rom.records),
        cache.State(), uart.sent, rom.records, uart.currentlyUsedFilename, rom.fileOpen)
    {
      ghost var c0, sent0, records0 := cache.State(), uart.sent, rom.records;
      status := FillAdvReport(data, ts, adv);
      ghost var o := Decode(data);
      assert cache.State() == c0 && uart.sent == sent0 && rom.records == records0;
      if status == Ok && adv.IsAdvertisingReportConnectable() {
        var rs := adv.reports[..adv.numReports];
        assert rs == o.decoded && Routed(o);
        RouteReports(rs, ts, now, written[..adv.numReports]);
        ProcessedWhenRouted(data, ts, now, written, c0, sent0, records0, cache.State(), uart.sent, rom.records,
          uart.currentlyUsedFilename, rom.fileOpen);
      } else {
        assert !Routed(o);
      }
    }

    /** The loop over a routed packet's reports. */
    method RouteReports(rs: seq<SingleReport>, timestamp: int, now: int, written: seq<nat>)
      requires Writable(rs, written)
      requires MacCache.Valid(cache.State()) && rom.Valid()
      modifies cache, rom, uart
      ensures MacCache.Valid(cache.State()) && rom.Valid()
      ensures uart.currentlyUsedFilename == old(uart.currentlyUsedFilename) && rom.fileOpen == old(rom.fileOpen)
      ensures cache.State() == Admissions(old(cache.State()), rs, now).0
      ensures uart.sent == old(uart.sent) + ForwardedLines(rs, Admissions(old(cache.State()), rs, now).1, timestamp, uart.currentlyUsedFilename)
      ensures rom.records == old(rom.records) + (if rom.fileOpen then Written(rs, timestamp, written) else [])
    {
      ghost var s0 := cache.State();
      ghost var sent0 := uart.sent;
      ghost var records0 := rom.records;
      ghost var flags: seq<bool> := [];
      var i := 0;
      while i < |rs|
        invariant 0 <= i <= |rs| && |flags| == i
        invariant MacCache.Valid(cache.State()) && rom.Valid()
        invariant uart.currentlyUsedFilename == old(uart.currentlyUsedFilename) && rom.fileOpen == old(rom.fileOpen)
        invariant (cache.State(), flags) == Admissions(s0, rs[..i], now)
        invariant uart.sent == sent0 + ForwardedLines(rs[..i], flags, timestamp, uart.currentlyUsedFilename)
        invariant Writable(rs[..i], written[..i])
        invariant rom.records == records0 + (if rom.fileOpen then Written(rs[..i], timestamp, written[..i]) else [])
      {
        ghost var c := cache.State();
        var fwd := RouteOne(rs[i], timestamp, now, written[i]);
        RouteStep(s0, rs, i, now, timestamp, written, uart.currentlyUsedFilename, c, flags);
        SeqAssoc(sent0, ForwardedLines(rs[..i], flags, timestamp, uart.currentlyUsedFilename),
          if fwd then [CsvLine(rs[i], timestamp, uart.currentlyUsedFilename)] else []);
        if rom.fileOpen {
          SeqAssoc(records0, Written(rs[..i], timestamp, written[..i]), Header(rs[i], timestamp)[..written[i]]);
        }
        flags := flags + [fwd];
        i := i + 1;
        WritablePrefix(rs, written, i);
      }
      assert rs[..i] == rs && written[..i] == written;
    }

    /** One report: to the file sink; then offered to the cache, and on
        admission the cache evicts and the report goes to the UART. */
    method RouteOne(report: SingleReport, timestamp: int, now: int, written: nat) returns (fwd: bool)
      requires |report.rawBdaddr| == 6 && written <= HEADER_SIZE
      requires MacCache.Valid(cache.State()) && rom.Valid()
      modifies cache, rom, uart
      ensures MacCache.Valid(cache.State()) && rom.Valid()
      ensures uart.currentlyUsedFilename == old(uart.currentlyUsedFilename) && rom.fileOpen == old(rom.fileOpen)
      ensures (cache.State(), fwd) == Offer(old(cache.State()), report, now)
      ensures uart.sent == old(uart.sent) + (if fwd then [CsvLine(report, timestamp, uart.currentlyUsedFilename)] else [])
      ensures rom.records == old(rom.records) + (if rom.fileOpen then Header(report, timestamp)[..written] else [])
    {
      var key := TextKey(report);
      var _ := rom.PrintAdvertisingSingleReport(report, timestamp, written);
      fwd := cache.ShouldPrintAndAddToCache(key, now);
      if fwd {
        cache.EvictOld(now);
        var _ := uart.PrintAdvertisingSingleReport(report, timestamp);
      }
    }
  }

  /** What processing one packet leaves in the cache and the two sinks: a
      packet that did not decode, or has no connectable report, changes
      nothing; otherwise every report goes to the file sink and the admitted
      ones to the UART. */
  ghost predicate Processed(data: seq<uint8>, ts: int, now: int, written: seq<nat>,
                            c0: MacCache.CacheState, sent0: seq<string>, records0: seq<uint8>,
                            c1: MacCache.CacheState, sent1: seq<string>, records1: seq<uint8>,
                            filename: Option<string>, fileOpen: bool)
    requires MacCache.Valid(c0)
    requires |written| == MAX_NUM_REPORTS && forall j :: 0 <= j < |written| ==> written[j] <= HEADER_SIZE
  {
    var o := Decode(data);
    if Routed(o) then
      var (after, flags) := Admissions(c0, o.decoded, now);
      c1 == after
      && sent1 == sent0 + ForwardedLines(o.decoded, flags, ts, filename)
      && records1 == records0 + (if fileOpen then Written(o.decoded, ts, written[..|o.decoded|]) else [])
    else
      c1 == c0 && sent1 == sent0 && records1 == records0
  }

  lemma ProcessedWhenRouted(data: seq<uint8>, ts: int, now: int, written: seq<nat>,
                            c0: MacCache.CacheState, sent0: seq<string>, records0: seq<uint8>,
                            c1: MacCache.CacheState, sent1: seq<string>, records1: seq<uint8>,
                            filename: Option<string>, fileOpen: bool)
    requires MacCache.Valid(c0)
    requires |written| == MAX_NUM_REPORTS && forall j :: 0 <= j < |written| ==> written[j] <= HEADER_SIZE
    requires Routed(Decode(data))
    requires var rs := Decode(data).decoded;
      Writable(rs, written[..|rs|])
      && c1 == Admissions(c0, rs, now).0
      && sent1 == sent0 + ForwardedLines(rs, Admissions(c0, rs, now).1, ts, filename)
      && records1 == records0 + (if fileOpen then Written(rs, ts, written[..|rs|]) else [])
    ensures Processed(data, ts, now, written, c0, sent0, records0, c1, sent1, records1, filename, fileOpen)
  {
  }

  /** A packet is routed when it decoded and one of its reports is
      connectable. */
  predicate Routed(o: Outcome)
  {
    o.status == Ok && AnyConnectable(o.decoded)
  }

  /** One report more: the three specification functions each take one step. */
  lemma RouteStep(s0: MacCache.CacheState, rs: seq<SingleReport>, i: nat, now: int, timestamp: int, written: seq<nat>,
                  filename: Option<string>, c: MacCache.CacheState, flags: seq<bool>)
    requires MacCache.Valid(s0) && i < |rs| && Writable(rs, written)
    requires (c, flags) == Admissions(s0, rs[..i], now)
    ensures var (after, fwd) := Offer(c, rs[i], now);
      Admissions(s0, rs[..i + 1], now) == (after, flags + [fwd])
      && ForwardedLines(rs[..i + 1], flags + [fwd], timestamp, filename)
         == ForwardedLines(rs[..i], flags, timestamp, filename) + (if fwd then [CsvLine(rs[i], timestamp, filename)] else [])
      && Written(rs[..i + 1], timestamp, written[..i + 1]) == Written(rs[..i], timestamp, written[..i]) + Header(rs[i], timestamp)[..written[i]]
  {
    AdmissionsStep(s0, rs, i, now);
    ForwardedStep(rs, i, flags, Offer(c, rs[i], now).1, timestamp, filename);
    WrittenStep(rs, i, timestamp, written);
  }

  lemma AdmissionsStep(s0: MacCache.CacheState, rs: seq<SingleReport>, i: nat, now: int)
    requires MacCache.Valid(s0) && i < |rs|
    ensures var prev := Admissions(s0, rs[..i], now);
      var (after, fwd) := Offer(prev.0, rs[i], now);
      Admissions(s0, rs[..i + 1], now) == (after, prev.1 + [fwd])
  {
    assert rs[..i + 1][..i] == rs[..i];
  }

  lemma ForwardedStep(rs: seq<SingleReport>, i: nat, flags: seq<bool>, fwd: bool, timestamp: int, filename: Option<string>)
    requires i < |rs| && |flags| == i
    ensures ForwardedLines(rs[..i + 1], flags + [fwd], timestamp, filename)
      == ForwardedLines(rs[..i], flags, timestamp, filename) + (if fwd then [CsvLine(rs[i], timestamp, filename)] else [])
  {
    assert rs[..i + 1][..i] == rs[..i];
    assert (flags + [fwd])[..i] == flags;
  }

  lemma WrittenStep(rs: seq<SingleReport>, i: nat, timestamp: int, written: seq<nat>)
    requires i < |rs| && Writable(rs, written)
    ensures Written(rs[..i + 1], timestamp, written[..i + 1]) == Written(rs[..i], timestamp, written[..i]) + Header(rs[i], timestamp)[..written[i]]
  {
    WritablePrefix(rs, written, i + 1);
    assert rs[..i + 1][..i] == rs[..i];
    assert written[..i + 1][..i] == written[..i];
  }

  // ---------------------------------------------------------------------
  // Properties

  /** The text key of a decoded report holds the two most significant
      address octets and nothing else of the address: two decoded reports
      share a key exactly when their address types and their two top
      octets agree, so devices that differ only below them share one cache
      entry. */
  lemma TextKeyOfDecoded(r1: SingleReport, r2: SingleReport)
    requires WellDecoded(r1) && WellDecoded(r2)
    ensures TextKey(r1) == TextKey(r2) <==>
      r1.addrType == r2.addrType && r1.rawBdaddr[4..] == r2.rawBdaddr[4..]
  {
    var w1, w2 := r1.rawBdaddr, r2.rawBdaddr;
    KeyPrefix(w1);
    KeyPrefix(w2);
    var p1, p2 := r1.bdaddrStr[..6], r2.bdaddrStr[..6];
    if r1.addrType == r2.addrType && w1[4..] == w2[4..] {
      assert w1[4] == w1[4..][0] && w1[5] == w1[4..][1];
      assert p1 == p2;
      assert TextKey(r1).addr == TextKey(r2).addr;
    }
    if TextKey(r1) == TextKey(r2) {
      forall j | 0 <= j < 6 ensures p1[j] == p2[j] {
        assert CharByte(r1.bdaddrStr[j]) == TextKey(r1).addr[j];
        CharByteOfAscii(r1.bdaddrStr[j]);
        CharByteOfAscii(r2.bdaddrStr[j]);
      }
      assert p1 == p2;
      assert Hex2(w1[5], false) == p1[..2] && Hex2(w2[5], false) == p2[..2];
      assert Hex2(w1[4], false) == p1[3..5] && Hex2(w2[4], false) == p2[3..5];
      HexInjective(w1[5], w2[5]);
      HexInjective(w1[4], w2[4]);
      assert w1[4..] == [w1[4], w1[5]];
      assert w2[4..] == [w2[4], w2[5]];
    }
  }

  lemma CharByteOfAscii(c: char)
    requires c as int < 128
    ensures CharByte(c) as int == c as int
  {
  }

  /** The first six characters of a printed address: the top octet, a colon,
      the next octet and a colon, each character below 128. */
  lemma KeyPrefix(w: seq<uint8>)
    requires |w| == 6
    ensures var s := FormatBdaddr(w);
      s[..6] == Hex2(w[5], false) + ":" + Hex2(w[4], false) + ":"
      && forall j :: 0 <= j < 6 ==> s[j] as int < 128
  {
    var r := Reverse(w);
    assert HexPairs(r, false) == Hex2(r[0], false) + ":" + HexPairs(r[1..], false);
    assert HexPairs(r[1..], false) == Hex2(r[1], false) + ":" + HexPairs(r[2..], false);
  }

  lemma HexInjective(a: uint8, b: uint8)
    requires Hex2(a, false) == Hex2(b, false)
    ensures a == b
  {
  }

  /** A key is fresh at `now` when its entry is less than TTL old: the
      cache refuses it. */
  ghost predicate Fresh(c: MacCache.CacheState, k: MacCache.MacKey, now: int)
  {
    k in c.stamps && now - c.stamps[k] < MacCache.TTL
  }

  /** Eviction keeps every entry that is at most TTL old, with its time. */
  lemma EvictSparesFresh(s: MacCache.CacheState, now: int, k: MacCache.MacKey)
    requires MacCache.Valid(s) && k in s.stamps && now - s.stamps[k] <= MacCache.TTL
    ensures k in MacCache.Evict(s, now).stamps && MacCache.Evict(s, now).stamps[k] == s.stamps[k]
  {
    var r := MacCache.Evict(s, now);
    MacCache.EvictDropsExpiredPrefix(s, now);
    MacCache.EvictPreservesValid(s, now);
    var i := MacCache.IndexOf(s.order, k);
    var d := |s.order| - |r.order|;
    assert s.order[i] == k && now - s.stamps[s.order[i]] <= MacCache.TTL;
    assert i >= d;
    assert r.order[i - d] == k;
    assert k in r.stamps;
  }

  /** Offering any report keeps a fresh key fresh. */
  lemma OfferKeepsFresh(c: MacCache.CacheState, r: SingleReport, now: int, k: MacCache.MacKey)
    requires MacCache.Valid(c) && Fresh(c, k, now)
    ensures Fresh(Offer(c, r, now).0, k, now)
  {
    var (fwd, t) := MacCache.Touch(c, TextKey(r), now);
    MacCache.TouchOutcome(c, TextKey(r), now);
    MacCache.TouchPreservesValid(c, TextKey(r), now);
    if fwd {
      assert k != TextKey(r);
      EvictSparesFresh(t, now, k);
    }
  }

  /** Offering a report leaves its key fresh. */
  lemma OfferMakesFresh(c: MacCache.CacheState, r: SingleReport, now: int)
    requires MacCache.Valid(c)
    ensures Fresh(Offer(c, r, now).0, TextKey(r), now)
  {
    var (fwd, t) := MacCache.Touch(c, TextKey(r), now);
    MacCache.TouchOutcome(c, TextKey(r), now);
    MacCache.TouchPreservesValid(c, TextKey(r), now);
    if fwd {
      EvictSparesFresh(t, now, TextKey(r));
    }
  }

  /** Once a packet's report has been offered, its key stays fresh for the
      rest of the packet. */
  lemma {:induction false} SeenStaysFresh(s: MacCache.CacheState, rs: seq<SingleReport>, now: int, i: nat)
    requires MacCache.Valid(s) && i < |rs|
    ensures Fresh(Admissions(s, rs, now).0, TextKey(rs[i]), now)
    decreases |rs|
  {
    var init := rs[..|rs| - 1];
    var prev := Admissions(s, init, now);
    if i == |rs| - 1 {
      OfferMakesFresh(prev.0, rs[i], now);
    } else {
      assert init[i] == rs[i];
      SeenStaysFresh(s, init, now, i);
      OfferKeepsFresh(prev.0, rs[|rs| - 1], now, TextKey(rs[i]));
    }
  }

  /** The admissions of a prefix of the reports are the prefix of the
      admissions. */
  lemma {:induction false} AdmissionsPrefix(s: MacCache.CacheState, rs: seq<SingleReport>, now: int, m: nat)
    requires MacCache.Valid(s) && m <= |rs|
    ensures Admissions(s, rs, now).1[..m] == Admissions(s, rs[..m], now).1
    decreases |rs|
  {
    if m == |rs| {
      assert rs[..m] == rs;
    } else {
      var init := rs[..|rs| - 1];
      AdmissionsPrefix(s, init, now, m);
      assert init[..m] == rs[..m];
    }
  }

  /** Within one packet a device reaches the UART at most once: a report
      whose key an earlier report of the packet already had is refused. */
  lemma RepeatNotAdmitted(s: MacCache.CacheState, rs: seq<SingleReport>, now: int, i: nat, j: nat)
    requires MacCache.Valid(s) && i < j < |rs| && TextKey(rs[i]) == TextKey(rs[j])
    ensures !Admissions(s, rs, now).1[j]
  {
    AdmissionsPrefix(s, rs, now, j + 1);
    AdmissionsStep(s, rs, j, now);
    var prev := Admissions(s, rs[..j], now);
    SeenStaysFresh(s, rs[..j], now, i);
    assert rs[..j][i] == rs[i];
    assert Fresh(prev.0, TextKey(rs[j]), now);
    assert !Offer(prev.0, rs[j], now).1;
  }
}
