// The per-slot state machine of the GATT client: what each event of the
// stack does to the slot it was routed to. Opening a connection asks for a
// larger MTU, the MTU answer starts the service search, every search result
// adds a service, and the end of the search fetches each service's
// characteristics, queues the read-only ones and sends all their reads at
// once; every read result is stored and struck off the pending list. A
// failed open or search, or a disconnect of the slot's own connection,
// releases the slot. The stack's answers and the tick count are parameters.

module InterrogatorEventLoop {
  import opened Bytes
  import opened Definitions
  import opened DeviceInterrogator

  /** At most this many characteristics are fetched per service. */
  const MAX_CHARACTERISTICS_IN_SERVICE: nat := 16
  /** `ESP_GATT_CHAR_PROP_BIT_READ`. */
  const CHAR_PROP_BIT_READ: bv8 := 0x02
  /** `esp_bt_uuid_t` lengths, in bytes. */
  const ESP_UUID_LEN_16: nat := 2
  const ESP_UUID_LEN_32: nat := 4
  const ESP_UUID_LEN_128: nat := 16

  // ---------------------------------------------------------------------
  // UUID comparison

  /** `esp_bt_uuid_cmp`: equal lengths, and then the 16-bit, the 32-bit or
      the whole 128-bit value equal; any other length compares unequal. */
  function UuidCmp(a: BtUuid, b: BtUuid): bool
    requires a.WellFormed() && b.WellFormed()
  {
    if a.len != b.len then false
    else if a.len == ESP_UUID_LEN_16 then a.bytes[..2] == b.bytes[..2]
    else if a.len == ESP_UUID_LEN_32 then a.bytes[..4] == b.bytes[..4]
    else if a.len == ESP_UUID_LEN_128 then a.bytes == b.bytes
    else false
  }

  /** The comparison is equality of the significant bytes, for the three
      lengths the stack knows. */
  lemma UuidCmpMeaning(a: BtUuid, b: BtUuid)
    requires a.WellFormed() && b.WellFormed()
    ensures UuidCmp(a, b) <==>
      a.len == b.len && a.len in {ESP_UUID_LEN_16, ESP_UUID_LEN_32, ESP_UUID_LEN_128}
      && a.bytes[..a.len] == b.bytes[..a.len]
  {
    if a.len == ESP_UUID_LEN_128 {
      assert a.bytes[..16] == a.bytes && b.bytes[..16] == b.bytes;
    }
  }

  /** An equivalence on the UUIDs of known length: a UUID of any other length
      is not even equal to itself. */
  lemma UuidCmpEquivalence(a: BtUuid, b: BtUuid, c: BtUuid)
    requires a.WellFormed() && b.WellFormed() && c.WellFormed()
    ensures UuidCmp(a, a) <==> a.len in {ESP_UUID_LEN_16, ESP_UUID_LEN_32, ESP_UUID_LEN_128}
    ensures UuidCmp(a, b) == UuidCmp(b, a)
    ensures UuidCmp(a, b) && UuidCmp(b, c) ==> UuidCmp(a, c)
    ensures a.len != b.len ==> !UuidCmp(a, b)
  {
  }

  // ---------------------------------------------------------------------
  // Opening, MTU and service search results

  /** The slot after `ESP_GATTC_OPEN_EVT`: the connection id on success,
      released (without a console dump) on failure. */
  function AfterOpen(p: Profile, ok: bool, connId: uint16): Profile
  {
    if ok then p.(connId := connId) else Cleared(p)
  }

  function OpenActions(app: nat, p: Profile, gattcIf: uint8, ok: bool, connId: uint16): seq<Action>
  {
    if ok then [MtuRequest(gattcIf, connId)] else FinalActions(app, p, false)
  }

  /** A failed open frees the slot and leaves no connection id; a successful
      one keeps the interrogation and records the connection. */
  lemma OpenOutcome(app: nat, p: Profile, gattcIf: uint8, ok: bool, connId: uint16)
    requires SlotConsistent(p)
    ensures SlotConsistent(AfterOpen(p, ok, connId))
    ensures !ok ==>
      !AfterOpen(p, ok, connId).isBusy && AfterOpen(p, ok, connId).connId == UNUSED_CONN_ID
      && OpenActions(app, p, gattcIf, ok, connId)[0] == Close(p.gattcIf, p.connId)
      && forall a :: a in OpenActions(app, p, gattcIf, ok, connId) ==> !(a.ProfileDump? && a.sink == Console)
    ensures ok ==>
      AfterOpen(p, ok, connId).connId == connId && AfterOpen(p, ok, connId).isBusy == p.isBusy
      && AfterOpen(p, ok, connId).request == p.request
      && OpenActions(app, p, gattcIf, ok, connId) == [MtuRequest(gattcIf, connId)]
  {
  }

  /** The service an `ESP_GATTC_SEARCH_RES_EVT` adds: its id, whether it is
      primary, its handle range, and no characteristics yet. */
  function FoundService(srvcId: ServiceId, startHandle: uint16, endHandle: uint16): ServiceWrapper
  {
    ServiceWrapper(srvcId, startHandle, endHandle, [])
  }

  /** The slot after a sequence of search results: each adds one service at
      the end, and nothing caps their number. */
  function AfterSearchResults(p: Profile, found: seq<ServiceWrapper>): Profile
  {
    if found == [] then p else AfterSearchResults(p, found[..|found| - 1]).(services := AfterSearchResults(p, found[..|found| - 1]).services + [found[|found| - 1]])
  }

  lemma {:induction false} SearchResultsAccumulate(p: Profile, found: seq<ServiceWrapper>)
    ensures AfterSearchResults(p, found).services == p.services + found
    ensures AfterSearchResults(p, found) == p.(services := p.services + found)
  {
    if found != [] {
      var init := found[..|found| - 1];
      SearchResultsAccumulate(p, init);
      SeqAssoc(p.services, init, [found[|found| - 1]]);
      assert init + [found[|found| - 1]] == found;
    } else {
      assert p.services + found == p.services;
    }
  }

  // ---------------------------------------------------------------------
  // Characteristic discovery

  /** The stack's answers for one service: whether the attribute count query
      succeeded and the count it gave, then the elements `get_all_char` left
      in the buffer, as many as the count it reported back. Its status is
      only logged. */
  datatype CharDiscovery = CharDiscovery(countOk: bool, count: uint16, found: seq<CharElem>)

  /** `std::min<uint16_t>(count, MAX_CHARACTERISTICS_IN_SERVICE)`. */
  function Requested(count: uint16): (n: nat)
    ensures n <= count && n <= MAX_CHARACTERISTICS_IN_SERVICE
    ensures n == count || n == MAX_CHARACTERISTICS_IN_SERVICE
  {
    if count < MAX_CHARACTERISTICS_IN_SERVICE as uint16 then count else MAX_CHARACTERISTICS_IN_SERVICE
  }

  /** `get_all_char` never reports more elements than it was asked for. */
  predicate Answered(d: CharDiscovery)
  {
    d.countOk && d.count > 0 ==> |d.found| <= Requested(d.count)
  }

  /** A service after its characteristics are fetched: unchanged when the
      count query failed or found none, otherwise its characteristics are
      replaced by the reported ones, without values. */
  function Discovered(srv: ServiceWrapper, d: CharDiscovery): ServiceWrapper
  {
    if !d.countOk || d.count == 0 then srv
    else srv.(chars := seq(|d.found|, i requires 0 <= i < |d.found| => CharacteristicWrapper(d.found[i], [])))
  }

  function DiscoveredAll(ss: seq<ServiceWrapper>, ds: seq<CharDiscovery>): (r: seq<ServiceWrapper>)
    requires |ds| == |ss|
    ensures |r| == |ss|
  {
    seq(|ss|, i requires 0 <= i < |ss| => Discovered(ss[i], ds[i]))
  }

  /** What discovery does to a service, in terms of what the stack said. */
  lemma DiscoveryOutcome(srv: ServiceWrapper, d: CharDiscovery)
    requires Answered(d)
    ensures var r := Discovered(srv, d);
      r.service == srv.service && r.startHandle == srv.startHandle && r.endHandle == srv.endHandle
      && (!d.countOk || d.count == 0 ==> r.chars == srv.chars)
      && (d.countOk && d.count > 0 ==>
            |r.chars| == |d.found| <= MAX_CHARACTERISTICS_IN_SERVICE
            && forall j :: 0 <= j < |r.chars| ==> r.chars[j].meta == d.found[j] && r.chars[j].value == [])
  {
  }

  /** The inner loop: one wrapper without a value per element. */
  method WrapMetas(metas: seq<CharElem>) returns (chars: seq<CharacteristicWrapper>)
    ensures |chars| == |metas|
    ensures forall j :: 0 <= j < |metas| ==> chars[j] == CharacteristicWrapper(metas[j], [])
  {
    chars := [];
    for i := 0 to |metas|
      invariant |chars| == i
      invariant forall j :: 0 <= j < i ==> chars[j] == CharacteristicWrapper(metas[j], [])
    {
      chars := chars + [CharacteristicWrapper(metas[i], [])];
    }
  }

  /** The first loop of `ESP_GATTC_SEARCH_CMPL_EVT`: every service in turn. */
  method DiscoverChars(services: seq<ServiceWrapper>, ds: seq<CharDiscovery>) returns (out: seq<ServiceWrapper>)
    requires |ds| == |services|
    ensures out == DiscoveredAll(services, ds)
  {
    out := services;
    for i := 0 to |services|
      invariant |out| == |services|
      invariant forall j :: 0 <= j < i ==> out[j] == Discovered(services[j], ds[j])
      invariant forall j :: i <= j < |services| ==> out[j] == services[j]
    {
      var d := ds[i];
      if d.countOk && d.count != 0 {
        var chars := WrapMetas(d.found);
        assert chars == Discovered(services[i], d).chars;
        out := out[i := out[i].(chars := chars)];
      }
    }
  }

  // ---------------------------------------------------------------------
  // The read queue

  /** Read set, and no other property bit. */
  predicate ReadOnlyProps(props: uint8)
  {
    (props as bv8 & CHAR_PROP_BIT_READ) != 0 && (props as bv8 & !CHAR_PROP_BIT_READ) == 0
  }

  /** The bit test singles out exactly the property byte 0x02. */
  lemma ReadOnlyIsTwo(props: uint8)
    ensures ReadOnlyProps(props) <==> props == 2
  {
    var b := props as bv8;
    assert (b & CHAR_PROP_BIT_READ) != 0 && (b & !CHAR_PROP_BIT_READ) == 0 <==> b == 2;
    assert b as int == props;
  }

  /** The handles of the read-only characteristics of a list, in order. */
  function ReadableIn(cs: seq<CharacteristicWrapper>): seq<uint16>
  {
    if cs == [] then [] else
    ReadableIn(cs[..|cs| - 1])
      + (if ReadOnlyProps(cs[|cs| - 1].meta.properties) then [cs[|cs| - 1].meta.charHandle] else [])
  }

  /** Service after service, the handles of their read-only characteristics. */
  function ReadableHandles(ss: seq<ServiceWrapper>): seq<uint16>
  {
    if ss == [] then [] else ReadableHandles(ss[..|ss| - 1]) + ReadableIn(ss[|ss| - 1].chars)
  }

  /** A handle is queued exactly when some characteristic with that handle
      has the property byte 0x02. */
  lemma {:induction false} ReadableInMembership(cs: seq<CharacteristicWrapper>, h: uint16)
    ensures h in ReadableIn(cs) <==>
      exists j :: 0 <= j < |cs| && cs[j].meta.charHandle == h && cs[j].meta.properties == 2
  {
    if cs != [] {
      var init := cs[..|cs| - 1];
      ReadableInMembership(init, h);
      ReadOnlyIsTwo(cs[|cs| - 1].meta.properties);
      if exists j :: 0 <= j < |cs| && cs[j].meta.charHandle == h && cs[j].meta.properties == 2 {
        var j :| 0 <= j < |cs| && cs[j].meta.charHandle == h && cs[j].meta.properties == 2;
        if j < |cs| - 1 {
          assert init[j] == cs[j];
        }
      }
      if exists j :: 0 <= j < |init| && init[j].meta.charHandle == h && init[j].meta.properties == 2 {
        var j :| 0 <= j < |init| && init[j].meta.charHandle == h && init[j].meta.properties == 2;
        assert cs[j] == init[j];
      }
    }
  }

  lemma {:induction false} ReadableHandlesMembership(ss: seq<ServiceWrapper>, h: uint16)
    ensures h in ReadableHandles(ss) <==>
      exists i, j :: 0 <= i < |ss| && 0 <= j < |ss[i].chars|
        && ss[i].chars[j].meta.charHandle == h && ss[i].chars[j].meta.properties == 2
  {
    if ss != [] {
      var init := ss[..|ss| - 1];
      var last := ss[|ss| - 1];
      ReadableHandlesMembership(init, h);
      ReadableInMembership(last.chars, h);
      if exists i, j :: 0 <= i < |ss| && 0 <= j < |ss[i].chars|
                           && ss[i].chars[j].meta.charHandle == h && ss[i].chars[j].meta.properties == 2
      {
        var i, j :| 0 <= i < |ss| && 0 <= j < |ss[i].chars|
          && ss[i].chars[j].meta.charHandle == h && ss[i].chars[j].meta.properties == 2;
        if i < |ss| - 1 {
          assert init[i] == ss[i];
        }
      }
      if exists i, j :: 0 <= i < |init| && 0 <= j < |init[i].chars|
                           && init[i].chars[j].meta.charHandle == h && init[i].chars[j].meta.properties == 2
      {
        var i, j :| 0 <= i < |init| && 0 <= j < |init[i].chars|
          && init[i].chars[j].meta.charHandle == h && init[i].chars[j].meta.properties == 2;
        assert ss[i] == init[i];
      }
    }
  }

  /** Service order is kept: the handles of a longer list follow those of
      its first services. */
  lemma {:induction false} ReadableHandlesAppend(a: seq<ServiceWrapper>, b: seq<ServiceWrapper>)
    ensures ReadableHandles(a + b) == ReadableHandles(a) + ReadableHandles(b)
    decreases |b|
  {
    if b == [] {
      assert a + b == a;
    } else {
      var init := b[..|b| - 1];
      assert (a + b)[..|a + b| - 1] == a + init;
      ReadableHandlesAppend(a, init);
      SeqAssoc(ReadableHandles(a), ReadableHandles(init), ReadableIn(b[|b| - 1].chars));
    }
  }

  /** No more handles than characteristics. */
  lemma {:induction false} ReadableInBound(cs: seq<CharacteristicWrapper>)
    ensures |ReadableIn(cs)| <= |cs|
  {
    if cs != [] {
      ReadableInBound(cs[..|cs| - 1]);
    }
  }

  /** The second loop's inner loop: the read-only handles of one service. */
  method QueueReadableIn(cs: seq<CharacteristicWrapper>, queue: seq<uint16>) returns (q: seq<uint16>)
    ensures q == queue + ReadableIn(cs)
  {
    q := queue;
    for i := 0 to |cs|
      invariant q == queue + ReadableIn(cs[..i])
    {
      assert cs[..i + 1][..i] == cs[..i];
      var props := cs[i].meta.properties as bv8;
      if (props & CHAR_PROP_BIT_READ) != 0 && (props & !CHAR_PROP_BIT_READ) == 0 {
        SeqAssoc(queue, ReadableIn(cs[..i]), [cs[i].meta.charHandle]);
        q := q + [cs[i].meta.charHandle];
      } else {
        assert ReadableIn(cs[..i + 1]) == ReadableIn(cs[..i]) + [];
      }
    }
    assert cs[..|cs|] == cs;
  }

  /** The second loop of `ESP_GATTC_SEARCH_CMPL_EVT`: every service in turn. */
  method QueueReadable(ss: seq<ServiceWrapper>, queue: seq<uint16>) returns (q: seq<uint16>)
    ensures q == queue + ReadableHandles(ss)
  {
    q := queue;
    for i := 0 to |ss|
      invariant q == queue + ReadableHandles(ss[..i])
    {
      assert ss[..i + 1][..i] == ss[..i];
      SeqAssoc(queue, ReadableHandles(ss[..i]), ReadableIn(ss[i].chars));
      q := QueueReadableIn(ss[i].chars, q);
    }
    assert ss[..|ss|] == ss;
  }

  // ---------------------------------------------------------------------
  // Sending the reads

  /** One pending entry per handle, all stamped `now`. */
  function Sent(hs: seq<uint16>, now: Tick): seq<PendingRequest>
  {
    if hs == [] then [] else Sent(hs[..|hs| - 1], now) + [PendingRequest(hs[|hs| - 1], now)]
  }

  /** One read call per handle, on the slot's connection. */
  function ReadCalls(gattcIf: uint8, connId: uint16, hs: seq<uint16>): seq<Action>
  {
    if hs == [] then [] else ReadCalls(gattcIf, connId, hs[..|hs| - 1]) + [ReadChar(gattcIf, connId, hs[|hs| - 1])]
  }

  lemma {:induction false} SentLayout(hs: seq<uint16>, now: Tick)
    ensures |Sent(hs, now)| == |hs|
    ensures forall j :: 0 <= j < |hs| ==> Sent(hs, now)[j] == PendingRequest(hs[j], now)
  {
    if hs != [] {
      SentLayout(hs[..|hs| - 1], now);
    }
  }

  lemma {:induction false} ReadCallsLayout(gattcIf: uint8, connId: uint16, hs: seq<uint16>)
    ensures |ReadCalls(gattcIf, connId, hs)| == |hs|
    ensures forall j :: 0 <= j < |hs| ==> ReadCalls(gattcIf, connId, hs)[j] == ReadChar(gattcIf, connId, hs[j])
  {
    if hs != [] {
      ReadCallsLayout(gattcIf, connId, hs[..|hs| - 1]);
    }
  }

  /** The slot after the first `k` queued handles are sent. */
  function Draining(p: Profile, k: nat, now: Tick): Profile
    requires k <= |p.readCharQueue|
  {
    p.(readCharQueue := p.readCharQueue[k..],
       pendingRequests := p.pendingRequests + Sent(p.readCharQueue[..k], now),
       isCharScheduled := p.isCharScheduled || k > 0)
  }

  /** The slot after the drain loop: the queue is empty, every handle is
      pending in queue order, and reads count as scheduled if any was sent. */
  function AfterDrain(p: Profile, now: Tick): Profile
  {
    p.(readCharQueue := [], pendingRequests := p.pendingRequests + Sent(p.readCharQueue, now),
       isCharScheduled := p.isCharScheduled || p.readCharQueue != [])
  }

  /** The drain loop of `ESP_GATTC_SEARCH_CMPL_EVT`. The semaphore take is
      not there, so every queued read is sent at once. */
  method DrainReadQueue(intr: Interrogator, app: nat, gattcIf: uint8, now: Tick)
    requires intr.Valid() && app < PROFILE_NUM
    modifies intr, intr.profileTabs
    ensures intr.Valid() && intr.queue == old(intr.queue) && intr.Flags() == old(intr.Flags())
    ensures intr.profileTabs[..] == old(intr.profileTabs[..])[app := AfterDrain(old(intr.profileTabs[app]), now)]
    ensures intr.actions == old(intr.actions)
      + ReadCalls(gattcIf, old(intr.profileTabs[app]).connId, old(intr.profileTabs[app]).readCharQueue)
  {
    ghost var p0 := intr.profileTabs[app];
    ghost var tabs0 := intr.profileTabs[..];
    ghost var hs := p0.readCharQueue;
    ghost var k: nat := 0;
    assert hs[..0] == [] && hs[0..] == hs && p0.pendingRequests + [] == p0.pendingRequests;
    assert Draining(p0, 0, now) == p0;
    while intr.profileTabs[app].readCharQueue != []
      invariant k <= |hs|
      invariant intr.Valid() && intr.queue == old(intr.queue) && intr.Flags() == old(intr.Flags())
      invariant intr.profileTabs[..] == tabs0[app := Draining(p0, k, now)]
      invariant intr.actions == old(intr.actions) + ReadCalls(gattcIf, p0.connId, hs[..k])
      decreases |hs| - k
    {
      var p := intr.profileTabs[app];
      var h := p.readCharQueue[0];
      assert hs[..k + 1][..k] == hs[..k] && hs[k] == h;
      SeqAssoc(p0.pendingRequests, Sent(hs[..k], now), [PendingRequest(h, now)]);
      SeqAssoc(old(intr.actions), ReadCalls(gattcIf, p0.connId, hs[..k]), [ReadChar(gattcIf, p0.connId, h)]);
      p := p.(pendingRequests := p.pendingRequests + [PendingRequest(h, now)]);
      p := p.(readCharQueue := p.readCharQueue[1..]);
      intr.actions := intr.actions + [ReadChar(gattcIf, p.connId, h)];
      p := p.(isCharScheduled := true);
      intr.profileTabs[app] := p;
      k := k + 1;
    }
    assert hs[..k] == hs;
  }

  // ---------------------------------------------------------------------
  // The end of the service search

  /** The slot once the characteristics are fetched and the read-only ones
      queued behind whatever was queued before. */
  function Enumerated(p: Profile, ds: seq<CharDiscovery>): Profile
    requires |ds| == |p.services|
  {
    var ss := DiscoveredAll(p.services, ds);
    p.(services := ss, readCharQueue := p.readCharQueue + ReadableHandles(ss))
  }

  /** The slot after a successful `ESP_GATTC_SEARCH_CMPL_EVT` with services. */
  function AfterSearch(p: Profile, ds: seq<CharDiscovery>, now: Tick): Profile
    requires |ds| == |p.services|
  {
    AfterDrain(Enumerated(p, ds), now)
  }

  /** After the search every read-only characteristic has exactly one read
      in flight, stamped now, in discovery order; the queue is empty; and
      while any read is outstanding the sweep cannot release the slot. */
  lemma SearchSendsEveryRead(p: Profile, ds: seq<CharDiscovery>, now: Tick)
    requires |ds| == |p.services| && p.readCharQueue == []
    ensures var q := AfterSearch(p, ds, now);
      var hs := ReadableHandles(DiscoveredAll(p.services, ds));
      q.readCharQueue == [] && q.services == DiscoveredAll(p.services, ds)
      && |q.pendingRequests| == |p.pendingRequests| + |hs|
      && q.pendingRequests[..|p.pendingRequests|] == p.pendingRequests
      && (forall j :: 0 <= j < |hs| ==> q.pendingRequests[|p.pendingRequests| + j] == PendingRequest(hs[j], now))
      && (q.isCharScheduled <==> p.isCharScheduled || hs != [])
      && (hs != [] ==> !ReadsDone(q))
  {
    var hs := ReadableHandles(DiscoveredAll(p.services, ds));
    assert [] + hs == hs;
    SentLayout(hs, now);
  }

  /** A read is sent for a handle exactly when a discovered characteristic
      with that handle has the property byte 0x02. */
  lemma SearchReadsExactlyReadOnly(p: Profile, ds: seq<CharDiscovery>, now: Tick, h: uint16)
    requires |ds| == |p.services| && p.readCharQueue == [] && p.pendingRequests == []
    ensures var ss := DiscoveredAll(p.services, ds);
      PendingRequest(h, now) in AfterSearch(p, ds, now).pendingRequests <==>
        exists i, j :: 0 <= i < |ss| && 0 <= j < |ss[i].chars|
          && ss[i].chars[j].meta.charHandle == h && ss[i].chars[j].meta.properties == 2
  {
    var ss := DiscoveredAll(p.services, ds);
    var hs := ReadableHandles(ss);
    assert [] + hs == hs;
    SentLayout(hs, now);
    ReadableHandlesMembership(ss, h);
    if h in hs {
      var j :| 0 <= j < |hs| && hs[j] == h;
      assert AfterSearch(p, ds, now).pendingRequests[j] == PendingRequest(h, now);
    }
  }

  // ---------------------------------------------------------------------
  // Read results

  /** `find_if` then `erase`: the first pending entry for the handle goes. */
  function WithoutFirst(ps: seq<PendingRequest>, h: uint16): seq<PendingRequest>
  {
    if ps == [] then []
    else if ps[0].handle == h then ps[1..]
    else [ps[0]] + WithoutFirst(ps[1..], h)
  }

  /** The value goes into the first characteristic with the handle. */
  function StoredIn(cs: seq<CharacteristicWrapper>, h: uint16, v: seq<uint8>): seq<CharacteristicWrapper>
  {
    if cs == [] then []
    else if cs[0].meta.charHandle == h then [cs[0].(value := v)] + cs[1..]
    else [cs[0]] + StoredIn(cs[1..], h, v)
  }

  function StoredValue(ss: seq<ServiceWrapper>, h: uint16, v: seq<uint8>): (r: seq<ServiceWrapper>)
    ensures |r| == |ss|
  {
    seq(|ss|, i requires 0 <= i < |ss| => ss[i].(chars := StoredIn(ss[i].chars, h, v)))
  }

  /** The slot after `ESP_GATTC_READ_CHAR_EVT`: the read is struck off
      whatever its status; the value is kept only on success. */
  function AfterRead(p: Profile, ok: bool, h: uint16, v: seq<uint8>): Profile
  {
    p.(pendingRequests := WithoutFirst(p.pendingRequests, h),
       services := if ok then StoredValue(p.services, h, v) else p.services)
  }

  /** Erasing at the first match, or nothing when there is none. */
  lemma {:induction false} WithoutFirstAt(ps: seq<PendingRequest>, h: uint16, k: nat)
    requires k <= |ps| && forall j :: 0 <= j < k ==> ps[j].handle != h
    ensures k < |ps| && ps[k].handle == h ==> WithoutFirst(ps, h) == ps[..k] + ps[k + 1..]
    ensures k == |ps| ==> WithoutFirst(ps, h) == ps
  {
    if k > 0 {
      WithoutFirstAt(ps[1..], h, k - 1);
      if k < |ps| && ps[k].handle == h {
        assert ps[..k] == [ps[0]] + ps[1..][..k - 1];
        assert ps[k + 1..] == ps[1..][k..];
        SeqAssoc([ps[0]], ps[1..][..k - 1], ps[1..][k..]);
      }
      if k == |ps| {
        assert [ps[0]] + ps[1..] == ps;
      }
    }
  }

  /** Storing at the first match, or nothing when there is none. */
  lemma {:induction false} StoredInAt(cs: seq<CharacteristicWrapper>, h: uint16, v: seq<uint8>, k: nat)
    requires k <= |cs| && forall j :: 0 <= j < k ==> cs[j].meta.charHandle != h
    ensures k < |cs| && cs[k].meta.charHandle == h ==> StoredIn(cs, h, v) == cs[k := cs[k].(value := v)]
    ensures k == |cs| ==> StoredIn(cs, h, v) == cs
  {
    if k > 0 {
      StoredInAt(cs[1..], h, v, k - 1);
      if k < |cs| && cs[k].meta.charHandle == h {
        assert [cs[0]] + cs[1..][k - 1 := cs[k].(value := v)] == cs[k := cs[k].(value := v)];
      }
      if k == |cs| {
        assert [cs[0]] + cs[1..] == cs;
      }
    } else if cs != [] && cs[0].meta.charHandle == h {
      assert [cs[0].(value := v)] + cs[1..] == cs[0 := cs[0].(value := v)];
    }
  }

  /** The erase loop: the first entry for the handle, if there is one. */
  method ErasePending(ps: seq<PendingRequest>, h: uint16) returns (kept: seq<PendingRequest>)
    ensures kept == WithoutFirst(ps, h)
  {
    var k := 0;
    while k < |ps| && ps[k].handle != h
      invariant k <= |ps| && forall j :: 0 <= j < k ==> ps[j].handle != h
    {
      k := k + 1;
    }
    WithoutFirstAt(ps, h, k);
    if k < |ps| {
      kept := ps[..k] + ps[k + 1..];
    } else {
      kept := ps;
    }
  }

  /** The inner store loop, which stops at the first match. */
  method StoreInChars(cs: seq<CharacteristicWrapper>, h: uint16, v: seq<uint8>) returns (out: seq<CharacteristicWrapper>)
    ensures out == StoredIn(cs, h, v)
  {
    out := cs;
    var k := 0;
    while k < |cs|
      invariant k <= |cs| && forall j :: 0 <= j < k ==> cs[j].meta.charHandle != h
    {
      if cs[k].meta.charHandle == h {
        out := cs[k := cs[k].(value := v)];
        break;
      }
      k := k + 1;
    }
    StoredInAt(cs, h, v, k);
  }

  /** The outer store loop: every service in turn. */
  method StoreInServices(ss: seq<ServiceWrapper>, h: uint16, v: seq<uint8>) returns (out: seq<ServiceWrapper>)
    ensures out == StoredValue(ss, h, v)
  {
    out := ss;
    for i := 0 to |ss|
      invariant |out| == |ss|
      invariant forall j :: 0 <= j < i ==> out[j] == ss[j].(chars := StoredIn(ss[j].chars, h, v))
      invariant forall j :: i <= j < |ss| ==> out[j] == ss[j]
    {
      var chars := StoreInChars(ss[i].chars, h, v);
      out := out[i := ss[i].(chars := chars)];
    }
  }

  /** A read result strikes off one pending entry when there is one for its
      handle, and otherwise none; only values change. */
  lemma ReadOutcome(p: Profile, ok: bool, h: uint16, v: seq<uint8>)
    ensures var q := AfterRead(p, ok, h, v);
      |q.pendingRequests| == |p.pendingRequests| - (if exists j :: 0 <= j < |p.pendingRequests| && p.pendingRequests[j].handle == h then 1 else 0)
      && |q.services| == |p.services|
      && (forall i :: 0 <= i < |p.services| ==>
            |q.services[i].chars| == |p.services[i].chars| && q.services[i].service == p.services[i].service
            && forall j :: 0 <= j < |p.services[i].chars| ==> q.services[i].chars[j].meta == p.services[i].chars[j].meta)
      && (!ok ==> q.services == p.services)
  {
    var ps := p.pendingRequests;
    var k := 0;
    while k < |ps| && ps[k].handle != h
      invariant k <= |ps| && forall j :: 0 <= j < k ==> ps[j].handle != h
    {
      k := k + 1;
    }
    WithoutFirstAt(ps, h, k);
    forall i | 0 <= i < |p.services|
      ensures |StoredIn(p.services[i].chars, h, v)| == |p.services[i].chars|
      ensures forall j :: 0 <= j < |p.services[i].chars| ==> StoredIn(p.services[i].chars, h, v)[j].meta == p.services[i].chars[j].meta
    {
      StoredInKeepsMetas(p.services[i].chars, h, v);
    }
  }

  lemma StoredInKeepsMetas(cs: seq<CharacteristicWrapper>, h: uint16, v: seq<uint8>)
    ensures |StoredIn(cs, h, v)| == |cs|
    ensures forall j :: 0 <= j < |cs| ==> StoredIn(cs, h, v)[j].meta == cs[j].meta
  {
    var k := 0;
    while k < |cs| && cs[k].meta.charHandle != h
      invariant k <= |cs| && forall j :: 0 <= j < k ==> cs[j].meta.charHandle != h
    {
      k := k + 1;
    }
    StoredInAt(cs, h, v, k);
  }

  /** The answer to the last outstanding read leaves the slot with all its
      reads done, so the next pending sweep releases it. */
  lemma LastReadCompletes(p: Profile, ok: bool, h: uint16, v: seq<uint8>, t: int)
    requires p.isCharScheduled && p.readCharQueue == [] && p.pendingRequests == [PendingRequest(h, t)]
    ensures ReadsDone(AfterRead(p, ok, h, v))
  {
  }

  // ---------------------------------------------------------------------
  // Disconnection

  /** A disconnect concerns the slot when both the connection id and the
      peer address are the slot's. */
  predicate DisconnectMatches(p: Profile, connId: uint16, remoteBda: seq<uint8>)
  {
    connId == p.connId && remoteBda == p.remoteBda
  }

  /** Once released, a slot matches no disconnect of a real connection. */
  lemma DisconnectOnce(p: Profile, connId: uint16, remoteBda: seq<uint8>)
    ensures DisconnectMatches(Cleared(p), connId, remoteBda) <==> connId == UNUSED_CONN_ID && remoteBda == ZERO_BDA
  {
  }

  // ---------------------------------------------------------------------
  // The handler

  /** `ESP_GATTC_OPEN_EVT`. */
  method OnOpen(intr: Interrogator, app: nat, gattcIf: uint8, ok: bool, connId: uint16)
    requires intr.Valid() && app < PROFILE_NUM
    modifies intr, intr.profileTabs, intr.connDevice, intr.getService
    ensures intr.Valid() && intr.queue == old(intr.queue) && intr.Flags() == old(intr.Flags())
    ensures intr.profileTabs[..] == old(intr.profileTabs[..])[app := AfterOpen(old(intr.profileTabs[app]), ok, connId)]
    ensures intr.actions == old(intr.actions) + OpenActions(app, old(intr.profileTabs[app]), gattcIf, ok, connId)
    ensures intr.connDevice[..] == old(intr.connDevice[..])[app := old(intr.connDevice[app]) && ok]
    ensures intr.getService[..] == old(intr.getService[..])[app := old(intr.getService[app]) && ok]
  {
    if !ok {
      var _ := intr.FinalProcedure(app, false);
      return;
    }
    var p := intr.profileTabs[app];
    intr.profileTabs[app] := p.(connId := connId);
    intr.actions := intr.actions + [MtuRequest(gattcIf, connId)];
  }

  /** `ESP_GATTC_CFG_MTU_EVT`: the service search starts whatever the MTU
      status. */
  method OnCfgMtu(intr: Interrogator, gattcIf: uint8, connId: uint16)
    modifies intr
    ensures intr.actions == old(intr.actions) + [SearchService(gattcIf, connId)]
    ensures intr.queue == old(intr.queue) && intr.Flags() == old(intr.Flags())
  {
    intr.actions := intr.actions + [SearchService(gattcIf, connId)];
  }

  /** `ESP_GATTC_SEARCH_RES_EVT`. */
  method OnSearchRes(intr: Interrogator, app: nat, srvcId: ServiceId, startHandle: uint16, endHandle: uint16)
    requires intr.Valid() && app < PROFILE_NUM
    modifies intr.profileTabs
    ensures intr.Valid()
    ensures intr.profileTabs[..] == old(intr.profileTabs[..])[app := AfterSearchResults(old(intr.profileTabs[app]), [FoundService(srvcId, startHandle, endHandle)])]
  {
    var p := intr.profileTabs[app];
    intr.profileTabs[app] := p.(services := p.services + [FoundService(srvcId, startHandle, endHandle)]);
  }

  /** `ESP_GATTC_SEARCH_CMPL_EVT`: a failed search releases the slot with a
      console dump; a search that found nothing changes nothing. */
  method OnSearchCmpl(intr: Interrogator, app: nat, gattcIf: uint8, ok: bool, ds: seq<CharDiscovery>, now: Tick)
    requires intr.Valid() && app < PROFILE_NUM
    requires |ds| == |intr.profileTabs[app].services|
    modifies intr, intr.profileTabs, intr.connDevice, intr.getService
    ensures intr.Valid() && intr.queue == old(intr.queue) && intr.Flags() == old(intr.Flags())
    ensures var p := old(intr.profileTabs[app]);
      if !ok then
        intr.profileTabs[..] == old(intr.profileTabs[..])[app := Cleared(p)]
        && intr.actions == old(intr.actions) + FinalActions(app, p, true)
        && intr.connDevice[..] == old(intr.connDevice[..])[app := false]
        && intr.getService[..] == old(intr.getService[..])[app := false]
      else if p.services == [] then
        intr.profileTabs[..] == old(intr.profileTabs[..]) && intr.actions == old(intr.actions)
        && intr.connDevice[..] == old(intr.connDevice[..]) && intr.getService[..] == old(intr.getService[..])
      else
        intr.profileTabs[..] == old(intr.profileTabs[..])[app := AfterSearch(p, ds, now)]
        && intr.actions == old(intr.actions) + ReadCalls(gattcIf, p.connId, Enumerated(p, ds).readCharQueue)
        && intr.connDevice[..] == old(intr.connDevice[..]) && intr.getService[..] == old(intr.getService[..])
  {
    if !ok {
      var _ := intr.FinalProcedure(app, true);
      return;
    }
    var p := intr.profileTabs[app];
    if p.services == [] {
      return;
    }
    var services := DiscoverChars(p.services, ds);
    var queue := QueueReadable(services, p.readCharQueue);
    intr.profileTabs[app] := p.(services := services, readCharQueue := queue);
    DrainReadQueue(intr, app, gattcIf, now);
  }

  /** `ESP_GATTC_READ_CHAR_EVT`. */
  method OnReadChar(intr: Interrogator, app: nat, ok: bool, handle: uint16, value: seq<uint8>)
    requires intr.Valid() && app < PROFILE_NUM
    modifies intr.profileTabs
    ensures intr.Valid()
    ensures intr.profileTabs[..] == old(intr.profileTabs[..])[app := AfterRead(old(intr.profileTabs[app]), ok, handle, value)]
  {
    var p := intr.profileTabs[app];
    var kept := ErasePending(p.pendingRequests, handle);
    p := p.(pendingRequests := kept);
    if ok {
      var services := StoreInServices(p.services, handle, value);
      p := p.(services := services);
    }
    intr.profileTabs[app] := p;
  }

  /** `ESP_GATTC_WRITE_CHAR_EVT`: whatever its status, the connecting and
      scan-stopped flags drop. */
  method OnWriteChar(intr: Interrogator)
    modifies intr
    ensures intr.Flags() == (false, false, old(intr.continueMonitorTask))
    ensures intr.queue == old(intr.queue) && intr.actions == old(intr.actions)
  {
    intr.stopScanDone := false;
    intr.isConnecting := false;
  }

  /** `ESP_GATTC_DISCONNECT_EVT`: only the slot's own connection to its own
      peer releases it, with a console dump. */
  method OnDisconnect(intr: Interrogator, app: nat, connId: uint16, remoteBda: seq<uint8>)
    requires intr.Valid() && app < PROFILE_NUM
    modifies intr, intr.profileTabs, intr.connDevice, intr.getService
    ensures intr.Valid() && intr.queue == old(intr.queue) && intr.Flags() == old(intr.Flags())
    ensures var p := old(intr.profileTabs[app]);
      var hit := DisconnectMatches(p, connId, remoteBda);
      intr.profileTabs[..] == old(intr.profileTabs[..])[app := if hit then Cleared(p) else p]
      && intr.actions == old(intr.actions) + (if hit then FinalActions(app, p, true) else [])
      && intr.connDevice[..] == old(intr.connDevice[..])[app := old(intr.connDevice[app]) && !hit]
      && intr.getService[..] == old(intr.getService[..])[app := old(intr.getService[app]) && !hit]
  {
    var p := intr.profileTabs[app];
    if connId == p.connId && remoteBda == p.remoteBda {
      var _ := intr.FinalProcedure(app, true);
    }
  }

  /** `gattc_profile_universal_event_handler`: one event on one slot. The
      answers `ds` are used by the end of the search only; registration,
      L2CAP connection, close and the remaining events are only logged. */
  method HandleEvent(intr: Interrogator, app: nat, event: GattcEvent, gattcIf: uint8, ds: seq<CharDiscovery>, now: Tick)
    requires intr.Valid() && app < PROFILE_NUM
    requires event.SearchCmplEvt? ==> |ds| == |intr.profileTabs[app].services|
    modifies intr, intr.profileTabs, intr.connDevice, intr.getService
    ensures intr.Valid() && intr.queue == old(intr.queue)
    ensures event.WriteCharEvt? ==> intr.Flags() == (false, false, old(intr.continueMonitorTask))
    ensures !event.WriteCharEvt? ==> intr.Flags() == old(intr.Flags())
    ensures var p := old(intr.profileTabs[app]);
      var tabs := old(intr.profileTabs[..]);
      var acts := old(intr.actions);
      var cd := old(intr.connDevice[..]);
      var gs := old(intr.getService[..]);
      match event
      case OpenEvt(ok, connId) =>
        intr.profileTabs[..] == tabs[app := AfterOpen(p, ok, connId)]
        && intr.actions == acts + OpenActions(app, p, gattcIf, ok, connId)
        && intr.connDevice[..] == cd[app := cd[app] && ok] && intr.getService[..] == gs[app := gs[app] && ok]
      case SearchResEvt(srvcId, s, e) =>
        intr.profileTabs[..] == tabs[app := p.(services := p.services + [FoundService(srvcId, s, e)])]
        && intr.actions == acts && intr.connDevice[..] == cd && intr.getService[..] == gs
      case SearchCmplEvt(ok, _) =>
        if !ok then
          intr.profileTabs[..] == tabs[app := Cleared(p)] && intr.actions == acts + FinalActions(app, p, true)
          && intr.connDevice[..] == cd[app := false] && intr.getService[..] == gs[app := false]
        else if p.services == [] then
          intr.profileTabs[..] == tabs && intr.actions == acts && intr.connDevice[..] == cd && intr.getService[..] == gs
        else
          intr.profileTabs[..] == tabs[app := AfterSearch(p, ds, now)]
          && intr.actions == acts + ReadCalls(gattcIf, p.connId, Enumerated(p, ds).readCharQueue)
          && intr.connDevice[..] == cd && intr.getService[..] == gs
      case ReadCharEvt(ok, h, v) =>
        intr.profileTabs[..] == tabs[app := AfterRead(p, ok, h, v)]
        && intr.actions == acts && intr.connDevice[..] == cd && intr.getService[..] == gs
      case DisconnectEvt(connId, bda) =>
        var hit := DisconnectMatches(p, connId, bda);
        intr.profileTabs[..] == tabs[app := if hit then Cleared(p) else p]
        && intr.actions == acts + (if hit then FinalActions(app, p, true) else [])
        && intr.connDevice[..] == cd[app := cd[app] && !hit] && intr.getService[..] == gs[app := gs[app] && !hit]
      case _ =>
        intr.profileTabs[..] == tabs && intr.connDevice[..] == cd && intr.getService[..] == gs
        && intr.actions == acts + (if event.CfgMtuEvt? then [SearchService(gattcIf, event.connId)] else [])
  {
    match event {
      case OpenEvt(ok, connId) =>
        OnOpen(intr, app, gattcIf, ok, connId);
      case CfgMtuEvt(_, connId) =>
        OnCfgMtu(intr, gattcIf, connId);
      case SearchResEvt(srvcId, s, e) =>
        OnSearchRes(intr, app, srvcId, s, e);
        assert AfterSearchResults(old(intr.profileTabs[app]), [FoundService(srvcId, s, e)]).services
          == old(intr.profileTabs[app]).services + [FoundService(srvcId, s, e)] by {
          SearchResultsAccumulate(old(intr.profileTabs[app]), [FoundService(srvcId, s, e)]);
        }
      case SearchCmplEvt(ok, _) =>
        OnSearchCmpl(intr, app, gattcIf, ok, ds, now);
      case ReadCharEvt(ok, h, v) =>
        OnReadChar(intr, app, ok, h, v);
      case WriteCharEvt(_) =>
        OnWriteChar(intr);
      case DisconnectEvt(connId, bda) =>
        OnDisconnect(intr, app, connId, bda);
      case _ =>
    }
  }
}
