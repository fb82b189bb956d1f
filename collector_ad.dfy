// The collector firmware's worker: an LE Advertising Report event
// (Bluetooth Core Specification v5.4, Vol 4, Part E, section 7.7.65.2,
// which lists each field as an array over the reports) read with those
// arrays one after the other (every event type, then every address type, every
// address, every data length, every data block, every RSSI), the local name
// picked out of each report's AD structures (Core Specification Supplement,
// Part A, sections 1.2 and 1.2.2), and one binary frame per report sent
// over UART.

module CollectorAd {
  import opened Bytes
  import opened Definitions
  import opened HciEventParser

  /** The only advertising channel the collector listens on. */
  const CHANNEL: uint8 := 39
  const BD_ADDR_LEN: nat := 6
  /** The first field of every frame, `"Adv:"`. */
  const FRAME_MAGIC: seq<uint8> := [0x41, 0x64, 0x76, 0x3A]
  /** Bytes of a frame before the name: magic, timestamp, address, address
      type, event type, channel, RSSI and name length. */
  const FRAME_FIXED: nat := 23
  const AD_SHORTENED_LOCAL_NAME: uint8 := 0x08
  const AD_COMPLETE_LOCAL_NAME: uint8 := 0x09
  /** Offset of the first event type: H4 indicator, event code, parameter
      length, subevent code and report count come first. */
  const GROUPS_OFFSET: nat := 5

  // ---------------------------------------------------------------------
  // Local names

  /** One AD structure: a complete name always replaces the name found so
      far, a shortened name only when none has been found yet. */
  function PickName(name: seq<uint8>, adType: uint8, value: seq<uint8>): seq<uint8>
  {
    if adType == AD_SHORTENED_LOCAL_NAME then (if |name| == 0 then value else name)
    else if adType == AD_COMPLETE_LOCAL_NAME then value
    else name
  }

  /** What the walk finds at `pos`: a zero length byte, a structure with
      its type and value, or a structure that would pass the end of `buf`. */
  datatype AdStep = Skip | Structure(adType: uint8, value: seq<uint8>) | Overrun

  function AdStepAt(buf: seq<uint8>, pos: nat): (s: AdStep)
    requires pos <= |buf|
    ensures s.Skip? ==> pos < |buf|
    ensures s.Structure? ==> pos + 2 + |s.value| <= |buf| && |s.value| < 0xFF
  {
    if pos == |buf| then Overrun
    else if buf[pos] == 0 then Skip
    else if pos + 1 + buf[pos] > |buf| then Overrun
    else Structure(buf[pos + 1], buf[pos + 2..pos + 1 + buf[pos]])
  }

  /** The bytes a step consumes: the length byte, and the type and value of
      a structure. */
  function StepLength(s: AdStep): nat
  {
    match s
    case Skip => 1
    case Structure(_, v) => 2 + |v|
    case Overrun => 0
  }

  /** The 8-bit `data_ptr` after a step: a zero length byte moves it by one;
      a structure of length `n` moves it by `n`, then by one more at the end
      of the loop body, each time modulo 256. */
  function StepPtr(ptr: nat, s: AdStep): nat
  {
    match s
    case Structure(_, v) => ((ptr + 1 + |v|) % 0x100 + 1) % 0x100
    case _ => (ptr + 1) % 0x100
  }

  function StepName(name: seq<uint8>, s: AdStep): seq<uint8>
  {
    if s.Structure? then PickName(name, s.adType, s.value) else name
  }

  /** The walk over one report's data from `pos`, with the 8-bit counter
      `ptr` compared against the declared length `len`. The result is the
      name and the position after the walk, or None when a structure would
      pass the end of `buf`. */
  function AdWalk(buf: seq<uint8>, pos: nat, ptr: nat, len: uint8, name: seq<uint8>): (r: Option<(seq<uint8>, nat)>)
    requires pos <= |buf|
    decreases |buf| - pos
  {
    if ptr >= len then Some((name, pos))
    else
      var s := AdStepAt(buf, pos);
      if s.Overrun? then None
      else AdWalk(buf, pos + StepLength(s), StepPtr(ptr, s), len, StepName(name, s))
  }

  /** The walk ends inside the buffer, and a name shorter than 256 bytes
      stays so. */
  lemma {:induction false} AdWalkBounds(buf: seq<uint8>, pos: nat, ptr: nat, len: uint8, name: seq<uint8>)
    requires pos <= |buf|
    ensures var r := AdWalk(buf, pos, ptr, len, name);
      r.Some? ==> pos <= r.value.1 <= |buf| && (|name| < 0x100 ==> |r.value.0| < 0x100)
    decreases |buf| - pos
  {
    if ptr < len {
      var s := AdStepAt(buf, pos);
      if !s.Overrun? {
        AdWalkBounds(buf, pos + StepLength(s), StepPtr(ptr, s), len, StepName(name, s));
      }
    }
  }

  lemma AdWalkNext(buf: seq<uint8>, pos: nat, ptr: nat, len: uint8, name: seq<uint8>, s: AdStep)
    requires pos <= |buf| && ptr < len && s == AdStepAt(buf, pos) && !s.Overrun?
    ensures AdWalk(buf, pos, ptr, len, name) == AdWalk(buf, pos + StepLength(s), StepPtr(ptr, s), len, StepName(name, s))
  {
  }

  lemma AdWalkSkip(buf: seq<uint8>, pos: nat, ptr: nat, len: uint8, name: seq<uint8>)
    requires pos < |buf| && buf[pos] == 0 && ptr < len
    ensures AdWalk(buf, pos, ptr, len, name) == AdWalk(buf, pos + 1, (ptr + 1) % 0x100, len, name)
  {
  }

  lemma AdWalkStructure(buf: seq<uint8>, pos: nat, ptr: nat, len: uint8, name: seq<uint8>)
    requires pos < |buf| && buf[pos] != 0 && pos + 1 + buf[pos] <= |buf| && ptr < len
    ensures AdWalk(buf, pos, ptr, len, name) == AdWalk(buf, pos + 1 + buf[pos], ((ptr + buf[pos]) % 0x100 + 1) % 0x100, len,
      PickName(name, buf[pos + 1], buf[pos + 2..pos + 1 + buf[pos]]))
  {
    assert AdStepAt(buf, pos) == Structure(buf[pos + 1], buf[pos + 2..pos + 1 + buf[pos]]);
  }

  /** One AD structure: its type and its value. */
  datatype AdStructure = AdStructure(adType: uint8, value: seq<uint8>)

  /** The structures the walk passes over, in order, with the position after
      them; zero length bytes carry nothing and are not listed. */
  function AdStructures(buf: seq<uint8>, pos: nat, ptr: nat, len: uint8): (r: Option<(seq<AdStructure>, nat)>)
    requires pos <= |buf|
    decreases |buf| - pos
  {
    if ptr >= len then Some(([], pos))
    else
      var s := AdStepAt(buf, pos);
      if s.Overrun? then None
      else
        var rest := AdStructures(buf, pos + StepLength(s), StepPtr(ptr, s), len);
        if rest.None? || s.Skip? then rest
        else Some(([AdStructure(s.adType, s.value)] + rest.value.0, rest.value.1))
  }

  /** The name rule applied to a list of structures, first to last. */
  function LocalName(ss: seq<AdStructure>, name: seq<uint8>): seq<uint8>
    decreases |ss|
  {
    if ss == [] then name else LocalName(ss[1..], PickName(name, ss[0].adType, ss[0].value))
  }

  predicate NoCompleteName(ss: seq<AdStructure>)
  {
    forall i :: 0 <= i < |ss| ==> ss[i].adType != AD_COMPLETE_LOCAL_NAME
  }

  /** The first non-empty shortened name, or none. */
  function FirstShortenedName(ss: seq<AdStructure>): seq<uint8>
    decreases |ss|
  {
    if ss == [] then []
    else if ss[0].adType == AD_SHORTENED_LOCAL_NAME && |ss[0].value| > 0 then ss[0].value
    else FirstShortenedName(ss[1..])
  }

  /** The walk is the name rule applied to the structures it passes over. */
  lemma {:induction false} WalkIsNameOfStructures(buf: seq<uint8>, pos: nat, ptr: nat, len: uint8, name: seq<uint8>)
    requires pos <= |buf|
    ensures var ss := AdStructures(buf, pos, ptr, len);
      AdWalk(buf, pos, ptr, len, name) == if ss.None? then None else Some((LocalName(ss.value.0, name), ss.value.1))
    decreases |buf| - pos
  {
    if ptr < len {
      var s := AdStepAt(buf, pos);
      if !s.Overrun? {
        WalkIsNameOfStructures(buf, pos + StepLength(s), StepPtr(ptr, s), len, StepName(name, s));
        var rest := AdStructures(buf, pos + StepLength(s), StepPtr(ptr, s), len);
        if rest.Some? && s.Structure? {
          assert ([AdStructure(s.adType, s.value)] + rest.value.0)[1..] == rest.value.0;
        }
      }
    }
  }

  lemma {:induction false} LocalNameAppend(a: seq<AdStructure>, b: seq<AdStructure>, name: seq<uint8>)
    ensures LocalName(a + b, name) == LocalName(b, LocalName(a, name))
    decreases |a|
  {
    if a == [] {
      assert a + b == b;
    } else {
      assert (a + b)[1..] == a[1..] + b;
      LocalNameAppend(a[1..], b, PickName(name, a[0].adType, a[0].value));
    }
  }

  /** Once a name is found, only a complete name can replace it. */
  lemma {:induction false} NamedStaysNamed(ss: seq<AdStructure>, name: seq<uint8>)
    requires |name| > 0 && NoCompleteName(ss)
    ensures LocalName(ss, name) == name
    decreases |ss|
  {
    if ss != [] {
      NamedStaysNamed(ss[1..], name);
    }
  }

  /** The last complete name wins when it is not empty, whatever shortened
      names come before or after it. */
  lemma CompleteNameWins(pre: seq<AdStructure>, v: seq<uint8>, post: seq<AdStructure>, name: seq<uint8>)
    requires |v| > 0 && NoCompleteName(post)
    ensures LocalName(pre + [AdStructure(AD_COMPLETE_LOCAL_NAME, v)] + post, name) == v
  {
    LocalNameAppend(pre + [AdStructure(AD_COMPLETE_LOCAL_NAME, v)], post, name);
    LocalNameAppend(pre, [AdStructure(AD_COMPLETE_LOCAL_NAME, v)], name);
    NamedStaysNamed(post, v);
  }

  /** Without a complete name, the first non-empty shortened name is kept. */
  lemma {:induction false} ShortenedNameWithoutComplete(ss: seq<AdStructure>)
    requires NoCompleteName(ss)
    ensures LocalName(ss, []) == FirstShortenedName(ss)
    decreases |ss|
  {
    if ss != [] {
      assert NoCompleteName(ss[1..]) by {
        forall i | 0 <= i < |ss[1..]| ensures ss[1..][i].adType != AD_COMPLETE_LOCAL_NAME {
          assert ss[1..][i] == ss[i + 1];
        }
      }
      if ss[0].adType == AD_SHORTENED_LOCAL_NAME && |ss[0].value| > 0 {
        NamedStaysNamed(ss[1..], ss[0].value);
      } else {
        ShortenedNameWithoutComplete(ss[1..]);
      }
    }
  }

  /** `d` lies in `buf` from `off` on. */
  predicate Embedded(buf: seq<uint8>, off: nat, d: seq<uint8>)
  {
    off + |d| <= |buf| && buf[off..off + |d|] == d
  }

  /** A walk that stays inside a block reads the same wherever the block
      lies in a larger buffer. */
  lemma {:induction false} AdWalkShift(buf: seq<uint8>, off: nat, d: seq<uint8>, q: nat, ptr: nat, len: uint8, name: seq<uint8>)
    requires Embedded(buf, off, d)
    requires q <= |d| && AdWalk(d, q, ptr, len, name).Some?
    ensures AdWalk(buf, off + q, ptr, len, name)
      == Some((AdWalk(d, q, ptr, len, name).value.0, off + AdWalk(d, q, ptr, len, name).value.1))
    decreases |d| - q
  {
    if ptr < len {
      var s := AdStepAt(d, q);
      var q2, ptr2, name2 := q + StepLength(s), StepPtr(ptr, s), StepName(name, s);
      AdWalkNext(d, q, ptr, len, name, s);
      AdStepShift(buf, off, d, q);
      AdWalkShift(buf, off, d, q2, ptr2, len, name2);
      AdWalkShiftStep(buf, off, d, q, ptr, len, name, s, q2, ptr2, name2);
    }
  }

  /** One step of the shift: both walks take the same step. */
  lemma AdWalkShiftStep(buf: seq<uint8>, off: nat, d: seq<uint8>, q: nat, ptr: nat, len: uint8, name: seq<uint8>,
                        s: AdStep, q2: nat, ptr2: nat, name2: seq<uint8>)
    requires off + q <= |buf| && q <= |d| && ptr < len
    requires s == AdStepAt(d, q) && s == AdStepAt(buf, off + q) && !s.Overrun?
    requires q2 == q + StepLength(s) && ptr2 == StepPtr(ptr, s) && name2 == StepName(name, s)
    requires AdWalk(d, q2, ptr2, len, name2).Some?
    requires AdWalk(buf, off + q2, ptr2, len, name2)
      == Some((AdWalk(d, q2, ptr2, len, name2).value.0, off + AdWalk(d, q2, ptr2, len, name2).value.1))
    ensures AdWalk(buf, off + q, ptr, len, name)
      == Some((AdWalk(d, q, ptr, len, name).value.0, off + AdWalk(d, q, ptr, len, name).value.1))
  {
    AdWalkNext(d, q, ptr, len, name, s);
    AdWalkNext(buf, off + q, ptr, len, name, s);
  }

  lemma AdStepShift(buf: seq<uint8>, off: nat, d: seq<uint8>, q: nat)
    requires Embedded(buf, off, d) && q <= |d| && !AdStepAt(d, q).Overrun?
    ensures AdStepAt(buf, off + q) == AdStepAt(d, q)
  {
    assert buf[off + q] == d[q];
    if d[q] != 0 {
      assert buf[off + q + 1] == d[q + 1];
      var v := d[q + 2..q + 1 + d[q]];
      forall k | 0 <= k < |v|
        ensures buf[off + q + 2..off + q + 1 + d[q]][k] == v[k]
      {
        assert v[k] == d[q + 2 + k] == buf[off..off + |d|][q + 2 + k];
      }
      assert buf[off + q + 2..off + q + 1 + d[q]] == v;
    }
  }

  // ---------------------------------------------------------------------
  // The grouped event layout

  /** The fields of an event, report by report, as the worker holds them in
      its per-report buffers. */
  datatype Packet = Packet(eventTypes: seq<uint8>, addrTypes: seq<uint8>, addrs: seq<seq<uint8>>,
                           names: seq<seq<uint8>>, rssis: seq<uint8>)

  predicate WellShaped(pk: Packet)
  {
    |pk.addrTypes| == |pk.eventTypes| && |pk.addrs| == |pk.eventTypes|
    && |pk.names| == |pk.eventTypes| && |pk.rssis| == |pk.eventTypes|
    && (forall i :: 0 <= i < |pk.addrs| ==> |pk.addrs[i]| == BD_ADDR_LEN)
    && (forall i :: 0 <= i < |pk.names| ==> |pk.names[i]| < 0x100)
  }

  /** `n` addresses of six bytes each, from `start`, in wire order. */
  function Addrs(buf: seq<uint8>, start: nat, n: nat): (r: seq<seq<uint8>>)
    requires start + BD_ADDR_LEN * n <= |buf|
    ensures |r| == n
    ensures forall i :: 0 <= i < n ==> r[i] == buf[start + BD_ADDR_LEN * i..start + BD_ADDR_LEN * i + BD_ADDR_LEN]
  {
    if n == 0 then [] else Addrs(buf, start, n - 1) + [buf[start + BD_ADDR_LEN * (n - 1)..start + BD_ADDR_LEN * (n - 1) + BD_ADDR_LEN]]
  }

  /** `report_data_total`: the data lengths summed in an 8-bit counter. */
  function DataTotal(lengths: seq<uint8>): uint8
  {
    if lengths == [] then 0 else (DataTotal(lengths[..|lengths| - 1]) + lengths[|lengths| - 1]) % 0x100
  }

  /** The names of the reports with the given data lengths, whose data
      blocks follow one another from `pos`: a report without data has no
      name, and the data of the others is walked for one. */
  function NamesWalk(buf: seq<uint8>, pos: nat, lengths: seq<uint8>): (r: Option<(seq<seq<uint8>>, nat)>)
    requires pos <= |buf|
    ensures r.Some? ==> |r.value.0| == |lengths| && pos <= r.value.1 <= |buf|
    ensures r.Some? ==> forall i :: 0 <= i < |lengths| ==> |r.value.0[i]| < 0x100
    decreases |lengths|
  {
    if lengths == [] then Some(([], pos))
    else
      var prev := NamesWalk(buf, pos, lengths[..|lengths| - 1]);
      if prev.None? then None
      else if lengths[|lengths| - 1] == 0 then Some((prev.value.0 + [[]], prev.value.1))
      else
        var walked := AdWalk(buf, prev.value.1, 0, lengths[|lengths| - 1], []);
        AdWalkBounds(buf, prev.value.1, 0, lengths[|lengths| - 1], []);
        if walked.None? then None else Some((prev.value.0 + [walked.value.0], walked.value.1))
  }

  /** The four leading groups of an event with `c` reports: event types,
      address types, addresses and data lengths; None when they pass the
      end of the packet. */
  datatype Groups = Groups(eventTypes: seq<uint8>, addrTypes: seq<uint8>, addrs: seq<seq<uint8>>, lengths: seq<uint8>)

  function GroupsAt(buf: seq<uint8>, c: nat): (r: Option<Groups>)
    ensures r.Some? <==> GROUPS_OFFSET + 9 * c <= |buf|
    ensures r.Some? ==> |r.value.eventTypes| == c && |r.value.addrTypes| == c && |r.value.lengths| == c
    ensures r.Some? ==> |r.value.addrs| == c && forall i :: 0 <= i < c ==> |r.value.addrs[i]| == BD_ADDR_LEN
  {
    if GROUPS_OFFSET + 9 * c > |buf| then None
    else Some(Groups(buf[GROUPS_OFFSET..GROUPS_OFFSET + c], buf[GROUPS_OFFSET + c..GROUPS_OFFSET + 2 * c],
                     Addrs(buf, GROUPS_OFFSET + 2 * c, c), buf[GROUPS_OFFSET + 8 * c..GROUPS_OFFSET + 9 * c]))
  }

  /** The names of the reports and the position of the RSSIs: the data is
      walked only when the 8-bit data total is not zero; otherwise the names
      left in the table are taken and nothing is skipped. */
  function NamesAt(buf: seq<uint8>, pos: nat, lengths: seq<uint8>, stored: seq<seq<uint8>>): (r: Option<(seq<seq<uint8>>, nat)>)
    requires pos <= |buf| && |lengths| <= |stored|
    ensures r.Some? ==> |r.value.0| == |lengths| && pos <= r.value.1 <= |buf|
    ensures r.Some? && (forall e :: 0 <= e < |stored| ==> |stored[e]| < 0x100) ==>
      forall i :: 0 <= i < |lengths| ==> |r.value.0[i]| < 0x100
  {
    if DataTotal(lengths) > 0 then NamesWalk(buf, pos, lengths) else Some((stored[..|lengths|], pos))
  }

  /** The worker's reading of one event whose markers match: the groups,
      the names, then the RSSIs. None when a read would pass the end of the
      packet. */
  function ParseGrouped(buf: seq<uint8>, stored: seq<seq<uint8>>): (r: Option<Packet>)
    requires MarkersMatch(buf) && |buf| >= GROUPS_OFFSET && buf[4] as nat <= |stored|
    ensures r.Some? && (forall e :: 0 <= e < |stored| ==> |stored[e]| < 0x100) ==> WellShaped(r.value)
    ensures r.Some? ==> |r.value.eventTypes| == buf[4] && GROUPS_OFFSET + 10 * (buf[4] as nat) <= |buf|
  {
    var c := buf[4] as nat;
    var g := GroupsAt(buf, c);
    if g.None? then None
    else
      var named := NamesAt(buf, GROUPS_OFFSET + 9 * c, g.value.lengths, stored);
      if named.None? || named.value.1 + c > |buf| then None
      else Some(Packet(g.value.eventTypes, g.value.addrTypes, g.value.addrs, named.value.0, buf[named.value.1..named.value.1 + c]))
  }

  /** The parse put together from its parts. */
  lemma ParsedFrom(buf: seq<uint8>, stored: seq<seq<uint8>>, g: Groups, names: seq<seq<uint8>>, after: nat)
    requires MarkersMatch(buf) && |buf| >= GROUPS_OFFSET && buf[4] as nat <= |stored|
    requires GroupsAt(buf, buf[4] as nat) == Some(g)
    requires NamesAt(buf, GROUPS_OFFSET + 9 * (buf[4] as nat), g.lengths, stored) == Some((names, after))
    requires after + buf[4] as nat <= |buf|
    ensures ParseGrouped(buf, stored) == Some(Packet(g.eventTypes, g.addrTypes, g.addrs, names, buf[after..after + buf[4] as nat]))
  {
  }

  /** The lengths of a packet's groups. */
  function DataLengths(buf: seq<uint8>): (r: seq<uint8>)
    requires |buf| >= GROUPS_OFFSET && GROUPS_OFFSET + 9 * (buf[4] as nat) <= |buf|
    ensures |r| == buf[4]
  {
    buf[GROUPS_OFFSET + 8 * (buf[4] as nat)..GROUPS_OFFSET + 9 * (buf[4] as nat)]
  }

  /** A report whose data length is zero gets no name from the walk. */
  lemma {:induction false} NoDataNoWalkedName(buf: seq<uint8>, pos: nat, lengths: seq<uint8>, i: nat)
    requires pos <= |buf| && NamesWalk(buf, pos, lengths).Some?
    requires i < |lengths| && lengths[i] == 0
    ensures NamesWalk(buf, pos, lengths).value.0[i] == []
    decreases |lengths|
  {
    var prefix := lengths[..|lengths| - 1];
    if i < |lengths| - 1 {
      assert prefix[i] == lengths[i];
      NoDataNoWalkedName(buf, pos, prefix, i);
    }
  }

  /** When the 8-bit total wraps to zero, the data is not walked at all and
      the RSSIs are read from the first data bytes. No event that fits the
      255 parameter bytes of an HCI event can wrap the total. */
  lemma WrappedTotalSkipsData(buf: seq<uint8>, stored: seq<seq<uint8>>)
    requires MarkersMatch(buf) && |buf| >= GROUPS_OFFSET && buf[4] as nat <= |stored|
    requires GROUPS_OFFSET + 10 * (buf[4] as nat) <= |buf| && DataTotal(DataLengths(buf)) == 0
    ensures ParseGrouped(buf, stored).Some?
    ensures ParseGrouped(buf, stored).value.rssis == buf[GROUPS_OFFSET + 9 * (buf[4] as nat)..GROUPS_OFFSET + 10 * (buf[4] as nat)]
    ensures ParseGrouped(buf, stored).value.names == stored[..buf[4]]
  {
  }

  // ---------------------------------------------------------------------
  // Frames

  /** One report on the wire: `"Adv:"`, the 64-bit timestamp least
      significant byte first, the address in wire order, the address type,
      the event type, the channel, the RSSI byte, the name length and the
      name. */
  function Frame(timestamp: int, addr: seq<uint8>, addrType: uint8, eventType: uint8, rssi: uint8, name: seq<uint8>): (f: seq<uint8>)
    requires |addr| == BD_ADDR_LEN && |name| < 0x100
    ensures |f| == FRAME_FIXED + |name|
  {
    FRAME_MAGIC + LittleEndian(timestamp, 8) + addr + [addrType, eventType, CHANNEL, rssi, |name| as uint8] + name
  }

  function ReportFrame(timestamp: int, pk: Packet, i: nat): seq<uint8>
    requires WellShaped(pk) && i < |pk.eventTypes|
  {
    Frame(timestamp, pk.addrs[i], pk.addrTypes[i], pk.eventTypes[i], pk.rssis[i], pk.names[i])
  }

  /** The frames of reports `i` to `k - 1`, in order. */
  function FramesRange(timestamp: int, pk: Packet, i: nat, k: nat): seq<uint8>
    requires WellShaped(pk) && i <= k <= |pk.eventTypes|
    decreases k - i
  {
    if i == k then [] else ReportFrame(timestamp, pk, i) + FramesRange(timestamp, pk, i + 1, k)
  }

  /** Everything sent for one event. */
  function Emitted(timestamp: int, pk: Packet): seq<uint8>
    requires WellShaped(pk)
  {
    FramesRange(timestamp, pk, 0, |pk.eventTypes|)
  }

  lemma {:induction false} FramesSnoc(timestamp: int, pk: Packet, i: nat, k: nat)
    requires WellShaped(pk) && i <= k < |pk.eventTypes|
    ensures FramesRange(timestamp, pk, i, k + 1) == FramesRange(timestamp, pk, i, k) + ReportFrame(timestamp, pk, k)
    decreases k - i
  {
    if i < k {
      FramesSnoc(timestamp, pk, i + 1, k);
      assert ReportFrame(timestamp, pk, i) + (FramesRange(timestamp, pk, i + 1, k) + ReportFrame(timestamp, pk, k))
        == (ReportFrame(timestamp, pk, i) + FramesRange(timestamp, pk, i + 1, k)) + ReportFrame(timestamp, pk, k);
    } else {
      assert FramesRange(timestamp, pk, k + 1, k + 1) == [];
    }
  }

  /** A frame as a reader of the UART stream sees it. */
  datatype FrameRecord = FrameRecord(timestamp: nat, addr: seq<uint8>, addrType: uint8, eventType: uint8,
                                     channel: uint8, rssi: uint8, name: seq<uint8>)

  /** Reads one frame from the front of `s`, with its length. */
  function DecodeFrame(s: seq<uint8>): (r: Option<(FrameRecord, nat)>)
    ensures r.Some? ==> 0 < r.value.1 <= |s|
  {
    if |s| < FRAME_FIXED || s[..4] != FRAME_MAGIC || |s| < FRAME_FIXED + s[22] then None
    else Some((FrameRecord(FromLittleEndian(s[4..12]), s[12..18], s[18], s[19], s[20], s[21], s[FRAME_FIXED..FRAME_FIXED + s[22]]),
               FRAME_FIXED + s[22]))
  }

  /** Reads frames until the stream ends or stops being one. */
  function DecodeStream(s: seq<uint8>): seq<FrameRecord>
    decreases |s|
  {
    if s == [] then []
    else
      var f := DecodeFrame(s);
      if f.None? then [] else [f.value.0] + DecodeStream(s[f.value.1..])
  }

  function Record(timestamp: int, pk: Packet, i: nat): FrameRecord
    requires WellShaped(pk) && i < |pk.eventTypes|
  {
    FrameRecord(timestamp % Pow256(8), pk.addrs[i], pk.addrTypes[i], pk.eventTypes[i], CHANNEL, pk.rssis[i], pk.names[i])
  }

  function Records(timestamp: int, pk: Packet, i: nat, k: nat): seq<FrameRecord>
    requires WellShaped(pk) && i <= k <= |pk.eventTypes|
    decreases k - i
  {
    if i == k then [] else [Record(timestamp, pk, i)] + Records(timestamp, pk, i + 1, k)
  }

  /** A frame reads back as the fields it was made of, with the timestamp
      modulo 2^64, and the reader stops right after it. */
  lemma FrameRoundTrip(timestamp: int, addr: seq<uint8>, addrType: uint8, eventType: uint8, rssi: uint8, name: seq<uint8>, rest: seq<uint8>)
    requires |addr| == BD_ADDR_LEN && |name| < 0x100
    ensures DecodeFrame(Frame(timestamp, addr, addrType, eventType, rssi, name) + rest)
      == Some((FrameRecord(timestamp % Pow256(8), addr, addrType, eventType, CHANNEL, rssi, name), FRAME_FIXED + |name|))
  {
    var head := FRAME_MAGIC + LittleEndian(timestamp, 8) + addr + [addrType, eventType, CHANNEL, rssi, |name| as uint8];
    var s := Frame(timestamp, addr, addrType, eventType, rssi, name) + rest;
    assert s == head + (name + rest) by {
      SeqAssoc(head, name, rest);
    }
    FrameHeadLayout(timestamp, addr, [addrType, eventType, CHANNEL, rssi, |name| as uint8]);
    HeadThenRest(head, name + rest);
    LittleEndianRoundTrip(timestamp, 8);
    assert (name + rest)[..|name|] == name;
  }

  /** Where the fixed fields sit in a frame's head. */
  lemma FrameHeadLayout(timestamp: int, addr: seq<uint8>, fields: seq<uint8>)
    requires |addr| == BD_ADDR_LEN && |fields| == 5
    ensures var head := FRAME_MAGIC + LittleEndian(timestamp, 8) + addr + fields;
      |head| == FRAME_FIXED && head[..4] == FRAME_MAGIC && head[4..12] == LittleEndian(timestamp, 8)
      && head[12..18] == addr && head[18..] == fields
  {
    var p1 := FRAME_MAGIC + LittleEndian(timestamp, 8);
    var p2 := p1 + addr;
    assert p1[..4] == FRAME_MAGIC && p1[4..] == LittleEndian(timestamp, 8);
    assert p2[..12] == p1 && p2[12..] == addr;
    assert (p2 + fields)[..18] == p2 && (p2 + fields)[18..] == fields;
  }

  /** Slices that end inside the head are slices of the head. */
  lemma HeadThenRest(head: seq<uint8>, tail: seq<uint8>)
    requires |head| == FRAME_FIXED
    ensures var s := head + tail;
      s[..4] == head[..4] && s[4..12] == head[4..12] && s[12..18] == head[12..18]
      && s[18] == head[18] && s[19] == head[19] && s[20] == head[20] && s[21] == head[21] && s[22] == head[22]
      && s[FRAME_FIXED..] == tail
  {
  }

  /** The frames of an event read back as its reports, in order. */
  lemma {:induction false} StreamRoundTrip(timestamp: int, pk: Packet, i: nat, k: nat)
    requires WellShaped(pk) && i <= k <= |pk.eventTypes|
    ensures DecodeStream(FramesRange(timestamp, pk, i, k)) == Records(timestamp, pk, i, k)
    decreases k - i
  {
    if i < k {
      var f := ReportFrame(timestamp, pk, i);
      var rest := FramesRange(timestamp, pk, i + 1, k);
      ReportFrameRoundTrip(timestamp, pk, i, rest);
      DecodeStreamCons(f, rest, Record(timestamp, pk, i));
      StreamRoundTrip(timestamp, pk, i + 1, k);
    }
  }

  lemma ReportFrameRoundTrip(timestamp: int, pk: Packet, i: nat, rest: seq<uint8>)
    requires WellShaped(pk) && i < |pk.eventTypes|
    ensures var f := ReportFrame(timestamp, pk, i);
      f != [] && DecodeFrame(f + rest) == Some((Record(timestamp, pk, i), |f|))
  {
    FrameRoundTrip(timestamp, pk.addrs[i], pk.addrTypes[i], pk.eventTypes[i], pk.rssis[i], pk.names[i], rest);
  }

  lemma DecodeStreamCons(f: seq<uint8>, rest: seq<uint8>, rec: FrameRecord)
    requires f != [] && DecodeFrame(f + rest) == Some((rec, |f|))
    ensures DecodeStream(f + rest) == [rec] + DecodeStream(rest)
  {
    assert (f + rest)[|f|..] == rest;
  }

  // ---------------------------------------------------------------------
  // The worker's state

  /** The name table (one entry per report slot, as many as the largest
      count seen) and the bytes sent over UART. */
  datatype CollectorState = CollectorState(maxReportCount: nat, names: seq<seq<uint8>>, uart: seq<uint8>)

  function Cleared(n: nat): (r: seq<seq<uint8>>)
    ensures |r| == n && forall e :: 0 <= e < n ==> r[e] == []
  {
    seq(n, _ => [])
  }

  /** Between events every slot of the name table is empty. */
  ghost predicate ValidState(st: CollectorState)
  {
    1 <= st.maxReportCount < 0x100 && st.names == Cleared(st.maxReportCount)
  }

  /** The largest report count seen, `MAX_REPORT_COUNT`. */
  function Grown(max: nat, count: uint8): (m: nat)
    ensures m >= max && m >= count
    ensures m == max || m == count
  {
    if count as nat > max then count else max
  }

  /** One event through the worker: anything but an LE Advertising Report
      changes nothing; otherwise the tables grow to the report count, and
      when the whole event could be read its frames are sent and the name
      table is cleared. */
  function Step(st: CollectorState, buf: seq<uint8>, timestamp: int): (r: CollectorState)
    requires ValidState(st)
    ensures ValidState(r)
    ensures !(MarkersMatch(buf) && |buf| >= GROUPS_OFFSET) ==> r == st
    ensures MarkersMatch(buf) && |buf| >= GROUPS_OFFSET ==> r.maxReportCount == Grown(st.maxReportCount, buf[4])
    ensures |st.uart| <= |r.uart| && r.uart[..|st.uart|] == st.uart
  {
    if !(MarkersMatch(buf) && |buf| >= GROUPS_OFFSET) then st
    else
      var max := Grown(st.maxReportCount, buf[4]);
      var pk := ParseGrouped(buf, Cleared(max));
      if pk.None? then CollectorState(max, Cleared(max), st.uart)
      else CollectorState(max, Cleared(max), st.uart + Emitted(timestamp, pk.value))
  }

  /** What one event sends reads back as its reports. */
  lemma StepSendsReports(st: CollectorState, buf: seq<uint8>, timestamp: int)
    requires ValidState(st) && MarkersMatch(buf) && |buf| >= GROUPS_OFFSET
    requires ParseGrouped(buf, Cleared(Grown(st.maxReportCount, buf[4]))).Some?
    ensures var pk := ParseGrouped(buf, Cleared(Grown(st.maxReportCount, buf[4]))).value;
      DecodeStream(Step(st, buf, timestamp).uart[|st.uart|..]) == Records(timestamp, pk, 0, buf[4])
  {
    var pk := ParseGrouped(buf, Cleared(Grown(st.maxReportCount, buf[4]))).value;
    var r := Step(st, buf, timestamp);
    assert r.uart[|st.uart|..] == Emitted(timestamp, pk);
    StreamRoundTrip(timestamp, pk, 0, buf[4]);
  }

  /** A report without data is sent with the name the table holds for
      it, which between events is none. */
  lemma DataLessReportIsNameless(buf: seq<uint8>, stored: seq<seq<uint8>>, i: nat)
    requires MarkersMatch(buf) && |buf| >= GROUPS_OFFSET && buf[4] as nat <= |stored|
    requires ParseGrouped(buf, stored).Some?
    requires i < buf[4] && DataLengths(buf)[i] == 0 && stored[i] == []
    ensures ParseGrouped(buf, stored).value.names[i] == []
  {
    var c := buf[4] as nat;
    var lengths := GroupsAt(buf, c).value.lengths;
    ParsedNames(buf, stored);
    assert lengths == DataLengths(buf);
    if DataTotal(lengths) > 0 {
      NoDataNoWalkedName(buf, GROUPS_OFFSET + 9 * c, lengths, i);
    }
  }

  /** The names of a parsed event are the ones `NamesAt` gives. */
  lemma ParsedNames(buf: seq<uint8>, stored: seq<seq<uint8>>)
    requires MarkersMatch(buf) && |buf| >= GROUPS_OFFSET && buf[4] as nat <= |stored|
    requires ParseGrouped(buf, stored).Some?
    ensures var c := buf[4] as nat;
      GroupsAt(buf, c).Some?
      && NamesAt(buf, GROUPS_OFFSET + 9 * c, GroupsAt(buf, c).value.lengths, stored).Some?
      && ParseGrouped(buf, stored).value.names == NamesAt(buf, GROUPS_OFFSET + 9 * c, GroupsAt(buf, c).value.lengths, stored).value.0
  {
  }

  // ---------------------------------------------------------------------
  // The name table reset as written

  /** `memset(names, 0, sizeof(char*) * MAX_REPORT_COUNT)`: the size of a
      pointer, not of a table entry, so only half the table is cleared. An
      entry holds a one-byte length padded to four bytes and a 32-bit
      pointer: the length of entry `e` lies in the cleared bytes exactly
      when `2 * e < MAX_REPORT_COUNT`. */
  function ResetAsWritten(table: seq<seq<uint8>>, max: nat): (r: seq<seq<uint8>>)
    ensures |r| == |table|
  {
    seq(|table|, e requires 0 <= e < |table| => if 2 * e < max then [] else table[e])
  }

  /** One event through the worker as written: the names it finds stay in
      the table, and the reset clears only part of it. */
  function StepAsWritten(st: CollectorState, buf: seq<uint8>, timestamp: int): (r: CollectorState)
    requires |st.names| == st.maxReportCount
    requires forall e :: 0 <= e < |st.names| ==> |st.names[e]| < 0x100
    ensures |r.names| == r.maxReportCount
    ensures forall e :: 0 <= e < |r.names| ==> |r.names[e]| < 0x100
  {
    if !(MarkersMatch(buf) && |buf| >= GROUPS_OFFSET) then st
    else
      var max := Grown(st.maxReportCount, buf[4]);
      var table := st.names + Cleared(max - |st.names|);
      var pk := ParseGrouped(buf, table);
      if pk.None? then CollectorState(max, table, st.uart)
      else CollectorState(max, ResetAsWritten(pk.value.names + table[buf[4]..], max), st.uart + Emitted(timestamp, pk.value))
  }

  lemma DataTotalPair(a: uint8, b: uint8)
    ensures DataTotal([a, b]) == (a + b) % 0x100
  {
    var one: seq<uint8> := [a];
    var two: seq<uint8> := [a, b];
    assert two[..1] == one && one[..0] == [];
    assert DataTotal(one) == a;
  }

  // ---------------------------------------------------------------------
  // Agreement with the scanner's decoder

  /** An event with one report, as the controller sends it. */
  function OneReportEvent(eventType: uint8, addrType: uint8, raw: seq<uint8>, data: seq<uint8>, rssiByte: uint8): (e: seq<uint8>)
    requires |raw| == BD_ADDR_LEN && |data| <= 31
    ensures |e| == 15 + |data| && MarkersMatch(e) && e[4] == 1
  {
    [H4_TYPE_EVENT, LE_META_EVENTS, 12 + |data|, HCI_LE_ADV_REPORT, 1, eventType, addrType] + raw + [|data|] + data + [rssiByte]
  }

  /** With one report the two layouts coincide: the collector reads the
      event type, address type, address and RSSI byte that the scanner's
      decoder reads, and the name its data's AD structures give. */
  lemma OneReportAgrees(eventType: uint8, addrType: uint8, raw: seq<uint8>, data: seq<uint8>, rssiByte: uint8, name: seq<uint8>, m: nat)
    requires |raw| == BD_ADDR_LEN && |data| <= 31 && m >= 1
    requires |data| == 0 ==> name == []
    requires |data| > 0 ==> AdWalk(data, 0, 0, |data|, []) == Some((name, |data|))
    ensures ParseGrouped(OneReportEvent(eventType, addrType, raw, data, rssiByte), Cleared(m))
      == Some(Packet([eventType], [addrType], [raw], [name], [rssiByte]))
    ensures Decode(OneReportEvent(eventType, addrType, raw, data, rssiByte)).decoded
      == [SingleReport(eventType, addrType, FormatBdaddr(raw), raw, |data|, data, AsInt8(rssiByte))]
  {
    OneReportCollected(eventType, addrType, raw, data, rssiByte, name, m);
    SingleReportEvent(eventType, addrType, raw, data, rssiByte);
  }

  lemma OneReportCollected(eventType: uint8, addrType: uint8, raw: seq<uint8>, data: seq<uint8>, rssiByte: uint8, name: seq<uint8>, m: nat)
    requires |raw| == BD_ADDR_LEN && |data| <= 31 && m >= 1
    requires |data| == 0 ==> name == []
    requires |data| > 0 ==> AdWalk(data, 0, 0, |data|, []) == Some((name, |data|))
    ensures ParseGrouped(OneReportEvent(eventType, addrType, raw, data, rssiByte), Cleared(m))
      == Some(Packet([eventType], [addrType], [raw], [name], [rssiByte]))
  {
    var buf := OneReportEvent(eventType, addrType, raw, data, rssiByte);
    OneReportLayout(eventType, addrType, raw, data, rssiByte);
    OneReportGroups(eventType, addrType, raw, data, rssiByte);
    OneNamesAt(buf, data, name, Cleared(m));
    var after: nat := 14 + |data|;
    ParsedFrom(buf, Cleared(m), Groups([eventType], [addrType], [raw], [|data|]), [name], after);
  }

  lemma OneReportLayout(eventType: uint8, addrType: uint8, raw: seq<uint8>, data: seq<uint8>, rssiByte: uint8)
    requires |raw| == BD_ADDR_LEN && |data| <= 31
    ensures var buf := OneReportEvent(eventType, addrType, raw, data, rssiByte);
      buf[5..6] == [eventType] && buf[6..7] == [addrType] && buf[7..13] == raw && buf[13..14] == [|data| as uint8]
      && Embedded(buf, 14, data) && buf[14 + |data|..15 + |data|] == [rssiByte]
  {
    var head: seq<uint8> := [H4_TYPE_EVENT, LE_META_EVENTS, 12 + |data|, HCI_LE_ADV_REPORT, 1, eventType, addrType];
    var len: seq<uint8> := [|data|];
    var tail: seq<uint8> := [rssiByte];
    var buf := OneReportEvent(eventType, addrType, raw, data, rssiByte);
    assert buf == head + raw + len + data + tail;
    assert buf[..7] == head;
    assert buf[7..13] == raw;
    assert buf[13..14] == len;
    assert buf[14..14 + |data|] == data;
    assert buf[14 + |data|..15 + |data|] == tail;
  }

  lemma OneReportGroups(eventType: uint8, addrType: uint8, raw: seq<uint8>, data: seq<uint8>, rssiByte: uint8)
    requires |raw| == BD_ADDR_LEN && |data| <= 31
    ensures GroupsAt(OneReportEvent(eventType, addrType, raw, data, rssiByte), 1)
      == Some(Groups([eventType], [addrType], [raw], [|data| as uint8]))
  {
    var buf := OneReportEvent(eventType, addrType, raw, data, rssiByte);
    OneReportLayout(eventType, addrType, raw, data, rssiByte);
    assert Addrs(buf, 7, 1) == [raw];
  }

  /** The name of a lone report. */
  lemma OneNamesAt(buf: seq<uint8>, data: seq<uint8>, name: seq<uint8>, stored: seq<seq<uint8>>)
    requires Embedded(buf, 14, data) && |data| < 0x100 && |stored| >= 1
    requires |data| == 0 ==> name == [] && stored[0] == []
    requires |data| > 0 ==> AdWalk(data, 0, 0, |data|, []) == Some((name, |data|))
    ensures var after: nat := 14 + |data|;
      NamesAt(buf, 14, [|data| as uint8], stored) == Some(([name], after))
  {
    if |data| > 0 {
      AdWalkShift(buf, 14, data, 0, 0, |data|, []);
      OnlyNamed(buf, |data| as uint8, name, 14 + |data|, stored);
    } else {
      NoneNamedOne(buf, stored);
    }
  }

  lemma NoneNamedOne(buf: seq<uint8>, stored: seq<seq<uint8>>)
    requires 14 <= |buf| && |stored| >= 1 && stored[0] == []
    ensures NamesAt(buf, 14, [0], stored) == Some(([[]], 14))
  {
    DataTotalOne(0);
    assert stored[..1] == [[]];
  }

  lemma OnlyNamed(buf: seq<uint8>, n: uint8, name: seq<uint8>, after: nat, stored: seq<seq<uint8>>)
    requires 14 <= |buf| && |stored| >= 1 && n > 0
    requires AdWalk(buf, 14, 0, n, []) == Some((name, after))
    ensures NamesAt(buf, 14, [n], stored) == Some(([name], after))
  {
    var one: seq<uint8> := [n];
    var none: seq<seq<uint8>> := [];
    assert one[..0] == [];
    assert NamesWalk(buf, 14, one[..0]) == Some((none, 14));
    assert NamesWalk(buf, 14, one) == Some((none + [name], after));
    assert none + [name] == [name];
    DataTotalOne(n);
  }

  lemma DataTotalOne(a: uint8)
    ensures DataTotal([a]) == a
  {
    var one: seq<uint8> := [a];
    assert one[..0] == [];
  }

  // ---------------------------------------------------------------------
  // Events of two reports

  /** An event of two reports as the worker expects it: the first without
      data, the second with `data`. */
  function TwoReportEvent(t1: uint8, t2: uint8, a1: uint8, a2: uint8, addr1: seq<uint8>, addr2: seq<uint8>,
                          data: seq<uint8>, r1: uint8, r2: uint8): (e: seq<uint8>)
    requires |addr1| == BD_ADDR_LEN && |addr2| == BD_ADDR_LEN && |data| <= 31
    ensures |e| == 25 + |data| && MarkersMatch(e) && e[4] == 2
  {
    [H4_TYPE_EVENT, LE_META_EVENTS, 22 + |data|, HCI_LE_ADV_REPORT, 2, t1, t2, a1, a2]
      + addr1 + addr2 + [0, |data|] + data + [r1, r2]
  }

  lemma TwoReportLayout(t1: uint8, t2: uint8, a1: uint8, a2: uint8, addr1: seq<uint8>, addr2: seq<uint8>,
                        data: seq<uint8>, r1: uint8, r2: uint8)
    requires |addr1| == BD_ADDR_LEN && |addr2| == BD_ADDR_LEN && |data| <= 31
    ensures var buf := TwoReportEvent(t1, t2, a1, a2, addr1, addr2, data, r1, r2);
      |buf| == 25 + |data| && MarkersMatch(buf) && buf[4] == 2
      && buf[5..7] == [t1, t2] && buf[7..9] == [a1, a2] && buf[9..15] == addr1 && buf[15..21] == addr2
      && buf[21..23] == [0, |data| as uint8] && Embedded(buf, 23, data) && buf[23 + |data|..25 + |data|] == [r1, r2]
  {
    var head: seq<uint8> := [H4_TYPE_EVENT, LE_META_EVENTS, 22 + |data|, HCI_LE_ADV_REPORT, 2, t1, t2, a1, a2];
    var lens: seq<uint8> := [0, |data|];
    var tail: seq<uint8> := [r1, r2];
    var buf := TwoReportEvent(t1, t2, a1, a2, addr1, addr2, data, r1, r2);
    assert buf == head + addr1 + addr2 + lens + data + tail;
    assert buf[..9] == head;
    assert buf[9..15] == addr1;
    assert buf[15..21] == addr2;
    assert buf[21..23] == lens;
    assert buf[23..23 + |data|] == data;
    assert buf[23 + |data|..25 + |data|] == tail;
  }

  lemma TwoReportGroups(t1: uint8, t2: uint8, a1: uint8, a2: uint8, addr1: seq<uint8>, addr2: seq<uint8>,
                        data: seq<uint8>, r1: uint8, r2: uint8)
    requires |addr1| == BD_ADDR_LEN && |addr2| == BD_ADDR_LEN && |data| <= 31
    ensures GroupsAt(TwoReportEvent(t1, t2, a1, a2, addr1, addr2, data, r1, r2), 2)
      == Some(Groups([t1, t2], [a1, a2], [addr1, addr2], [0, |data| as uint8]))
  {
    var buf := TwoReportEvent(t1, t2, a1, a2, addr1, addr2, data, r1, r2);
    TwoReportLayout(t1, t2, a1, a2, addr1, addr2, data, r1, r2);
    var addrs := Addrs(buf, 9, 2);
    assert addrs == [addr1, addr2];
  }

  /** The worker reads the two reports' fields where it expects them; the
      first report's name comes from the table when no data follows, and
      otherwise is empty while the second's is walked from the data. */
  lemma TwoReportParse(t1: uint8, t2: uint8, a1: uint8, a2: uint8, addr1: seq<uint8>, addr2: seq<uint8>,
                       data: seq<uint8>, r1: uint8, r2: uint8, name: seq<uint8>, stored: seq<seq<uint8>>)
    requires |addr1| == BD_ADDR_LEN && |addr2| == BD_ADDR_LEN && |data| <= 31 && |stored| >= 2
    requires |data| > 0 ==> AdWalk(data, 0, 0, |data|, []) == Some((name, |data|))
    ensures var buf := TwoReportEvent(t1, t2, a1, a2, addr1, addr2, data, r1, r2);
      MarkersMatch(buf) && |buf| >= GROUPS_OFFSET && buf[4] == 2
      && ParseGrouped(buf, stored) == Some(Packet([t1, t2], [a1, a2], [addr1, addr2],
           if |data| == 0 then stored[..2] else [[], name], [r1, r2]))
  {
    var buf := TwoReportEvent(t1, t2, a1, a2, addr1, addr2, data, r1, r2);
    TwoReportLayout(t1, t2, a1, a2, addr1, addr2, data, r1, r2);
    TwoReportGroups(t1, t2, a1, a2, addr1, addr2, data, r1, r2);
    TwoNamesAt(buf, data, name, stored);
    var after: nat := 23 + |data|;
    ParsedFrom(buf, stored, Groups([t1, t2], [a1, a2], [addr1, addr2], [0, |data| as uint8]),
      if |data| == 0 then stored[..2] else [[], name], after);
  }

  /** The names of two reports of which only the second has data. */
  lemma TwoNamesAt(buf: seq<uint8>, data: seq<uint8>, name: seq<uint8>, stored: seq<seq<uint8>>)
    requires Embedded(buf, 23, data) && |data| < 0x100 && |stored| >= 2
    requires |data| > 0 ==> AdWalk(data, 0, 0, |data|, []) == Some((name, |data|))
    ensures var after: nat := 23 + |data|;
      NamesAt(buf, 23, [0, |data| as uint8], stored) == Some((if |data| == 0 then stored[..2] else [[], name], after))
  {
    if |data| > 0 {
      SecondWalkedIn(buf, data, name, stored);
    } else {
      NoneNamed(buf, stored);
    }
  }

  lemma SecondWalkedIn(buf: seq<uint8>, data: seq<uint8>, name: seq<uint8>, stored: seq<seq<uint8>>)
    requires Embedded(buf, 23, data) && 0 < |data| < 0x100 && |stored| >= 2
    requires AdWalk(data, 0, 0, |data|, []) == Some((name, |data|))
    ensures var after: nat := 23 + |data|;
      NamesAt(buf, 23, [0, |data| as uint8], stored) == Some(([[], name], after))
  {
    AdWalkShift(buf, 23, data, 0, 0, |data|, []);
    SecondNamed(buf, |data| as uint8, name, 23 + |data|, stored);
  }

  lemma NoneNamed(buf: seq<uint8>, stored: seq<seq<uint8>>)
    requires 23 <= |buf| && |stored| >= 2
    ensures NamesAt(buf, 23, [0, 0], stored) == Some((stored[..2], 23))
  {
    DataTotalPair(0, 0);
  }

  lemma SecondNamed(buf: seq<uint8>, n: uint8, name: seq<uint8>, after: nat, stored: seq<seq<uint8>>)
    requires 23 <= |buf| && |stored| >= 2 && n > 0
    requires AdWalk(buf, 23, 0, n, []) == Some((name, after))
    ensures NamesAt(buf, 23, [0, n], stored) == Some(([[], name], after))
  {
    SecondWalked(buf, n, name, after);
    DataTotalPair(0, n);
  }

  lemma SecondWalked(buf: seq<uint8>, n: uint8, name: seq<uint8>, after: nat)
    requires 23 <= |buf| && n > 0
    requires AdWalk(buf, 23, 0, n, []) == Some((name, after))
    ensures NamesWalk(buf, 23, [0, n]) == Some(([[], name], after))
  {
    var two: seq<uint8> := [0, n];
    var one: seq<uint8> := [0];
    var none: seq<seq<uint8>> := [];
    assert two[..1] == one && one[..0] == [];
    assert NamesWalk(buf, 23, one[..0]) == Some((none, 23));
    assert NamesWalk(buf, 23, one) == Some((none + [[]], 23));
    assert none + [[]] == [[]];
    assert NamesWalk(buf, 23, two) == Some(([[]] + [name], after));
    assert [[]] + [name] == [[], name];
  }

  /** As written, a report without data in a later event is sent with the
      name an earlier event's report in the same slot had: the first event
      names its second report `x`, the second event carries no data at all,
      and the half reset leaves `x` in the second slot. With the whole table
      cleared it is sent without a name. */
  lemma AsWrittenResendsStaleName(addr1: seq<uint8>, addr2: seq<uint8>, x: uint8, r1: uint8, r2: uint8, ts: int)
    requires |addr1| == BD_ADDR_LEN && |addr2| == BD_ADDR_LEN
    ensures var first := TwoReportEvent(0, 0, 0, 0, addr1, addr2, [2, AD_COMPLETE_LOCAL_NAME, x], r1, r2);
      var second := TwoReportEvent(0, 0, 0, 0, addr1, addr2, [], r1, r2);
      var s := StepAsWritten(CollectorState(1, [[]], []), first, ts);
      |s.names| == 2 && ParseGrouped(second, s.names).Some? && ParseGrouped(second, s.names).value.names[1] == [x]
    ensures var first := TwoReportEvent(0, 0, 0, 0, addr1, addr2, [2, AD_COMPLETE_LOCAL_NAME, x], r1, r2);
      var second := TwoReportEvent(0, 0, 0, 0, addr1, addr2, [], r1, r2);
      var s := Step(CollectorState(1, [[]], []), first, ts);
      |s.names| == 2 && ParseGrouped(second, s.names).Some? && ParseGrouped(second, s.names).value.names[1] == []
  {
    var data: seq<uint8> := [2, AD_COMPLETE_LOCAL_NAME, x];
    var first := TwoReportEvent(0, 0, 0, 0, addr1, addr2, data, r1, r2);
    assert AdWalk(data, 0, 0, 3, []) == Some(([x], 3)) by {
      AdWalkStructure(data, 0, 0, 3, []);
      assert data[2..3] == [x];
    }
    var table: seq<seq<uint8>> := [[]] + Cleared(1);
    assert table == [[], []];
    TwoReportParse(0, 0, 0, 0, addr1, addr2, data, r1, r2, [x], table);
    var s := StepAsWritten(CollectorState(1, [[]], []), first, ts);
    var found: seq<seq<uint8>> := [[], [x]];
    assert table[2..] == [];
    assert ResetAsWritten(found + table[2..], 2) == found;
    assert s.names == found;
    TwoReportParse(0, 0, 0, 0, addr1, addr2, [], r1, r2, [], s.names);
    TwoReportParse(0, 0, 0, 0, addr1, addr2, data, r1, r2, [x], Cleared(2));
    var c := Step(CollectorState(1, [[]], []), first, ts);
    TwoReportParse(0, 0, 0, 0, addr1, addr2, [], r1, r2, [], c.names);
  }

  /** With two reports the layouts part: for an event of two reports
      without data the worker reads the address type `a1` and the address
      `addr1` for the first report, while the scanner's decoder reads the
      second event type `t2` as its address type and an address that starts
      with both address types. */
  lemma TwoReportsDisagree(t1: uint8, t2: uint8, a1: uint8, a2: uint8, addr1: seq<uint8>, addr2: seq<uint8>, r1: uint8, r2: uint8, m: nat)
    requires |addr1| == BD_ADDR_LEN && |addr2| == BD_ADDR_LEN && addr1[4] == 0 && m >= 2
    ensures var buf := TwoReportEvent(t1, t2, a1, a2, addr1, addr2, [], r1, r2);
      ParseGrouped(buf, Cleared(m)) == Some(Packet([t1, t2], [a1, a2], [addr1, addr2], [[], []], [r1, r2]))
      && |Decode(buf).decoded| >= 1
      && Decode(buf).decoded[0].addrType == t2
      && Decode(buf).decoded[0].rawBdaddr == [a1, a2] + addr1[..4]
  {
    TwoReportParse(t1, t2, a1, a2, addr1, addr2, [], r1, r2, [], Cleared(m));
    assert Cleared(m)[..2] == [[], []];
    TwoReportScannerView(t1, t2, a1, a2, addr1, addr2, r1, r2);
  }

  lemma TwoReportScannerView(t1: uint8, t2: uint8, a1: uint8, a2: uint8, addr1: seq<uint8>, addr2: seq<uint8>, r1: uint8, r2: uint8)
    requires |addr1| == BD_ADDR_LEN && |addr2| == BD_ADDR_LEN && addr1[4] == 0
    ensures var buf := TwoReportEvent(t1, t2, a1, a2, addr1, addr2, [], r1, r2);
      |Decode(buf).decoded| >= 1
      && Decode(buf).decoded[0].addrType == t2
      && Decode(buf).decoded[0].rawBdaddr == [a1, a2] + addr1[..4]
  {
    var buf := TwoReportEvent(t1, t2, a1, a2, addr1, addr2, [], r1, r2);
    TwoReportLayout(t1, t2, a1, a2, addr1, addr2, [], r1, r2);
    assert |buf| == 25 && buf[13] == addr1[4] == 0 && buf[6] == t2 && buf[2] == 22;
    assert buf[7..13] == [a1, a2] + addr1[..4];
    assert ReportFits(buf, 5, true);
    var first := ReportsFrom(buf, REPORTS_OFFSET, 1, true);
    assert ReportsFrom(buf, REPORTS_OFFSET, 0, true) == ([], Some(5));
    assert first.0 == [ReportBody(buf, 5).0];
    assert ReportsFrom(buf, REPORTS_OFFSET, 2, true).0[0] == ReportBody(buf, 5).0;
  }

  // ---------------------------------------------------------------------
  // The worker

  class Collector {
    var maxReportCount: nat
    var names: seq<seq<uint8>>
    var uart: seq<uint8>

    function State(): CollectorState
      reads this
    {
      CollectorState(maxReportCount, names, uart)
    }

    ghost predicate Valid()
      reads this
    {
      ValidState(State())
    }

    /** Tables for one report; a fresh table entry is modelled as empty. */
    constructor ()
      ensures Valid() && maxReportCount == 1 && uart == []
    {
      maxReportCount := 1;
      names := [[]];
      uart := [];
    }

    /** `hci_evt_process`, one event taken from the queue. */
    method HciEvtProcess(buf: seq<uint8>, timestamp: int)
      requires Valid()
      modifies this
      ensures Valid()
      ensures State() == Step(old(State()), buf, timestamp)
    {
      if |buf| < 1 || buf[0] != H4_TYPE_EVENT {
        return;
      }
      if |buf| < 2 || buf[1] != LE_META_EVENTS {
        return;
      }
      if |buf| < 4 || buf[3] != HCI_LE_ADV_REPORT {
        return;
      }
      if |buf| < GROUPS_OFFSET {
        return;
      }
      var count := buf[4];
      if count as nat > maxReportCount {
        names := names + Cleared(count as nat - maxReportCount);
        maxReportCount := count;
      }
      assert names == Cleared(maxReportCount);
      var pk := ReadPacket(buf, names);
      if pk.None? {
        return;
      }
      Emit(timestamp, pk.value);
      ClearNames();
    }

    /** The reports of one event onto UART, one frame each. */
    method Emit(timestamp: int, pk: Packet)
      requires WellShaped(pk)
      modifies this
      ensures uart == old(uart) + Emitted(timestamp, pk)
      ensures maxReportCount == old(maxReportCount) && names == old(names)
    {
      var i := 0;
      while i < |pk.eventTypes|
        invariant i <= |pk.eventTypes|
        invariant uart == old(uart) + FramesRange(timestamp, pk, 0, i)
        invariant maxReportCount == old(maxReportCount) && names == old(names)
      {
        ghost var u0 := uart;
        var head := FRAME_MAGIC + LittleEndian(timestamp, 8) + pk.addrs[i];
        var fields := [pk.addrTypes[i], pk.eventTypes[i], CHANNEL, pk.rssis[i], |pk.names[i]| as uint8];
        uart := uart + head;
        uart := uart + fields;
        uart := uart + pk.names[i];
        SeqAssoc(u0, head, fields);
        SeqAssoc(u0, head + fields, pk.names[i]);
        assert head + fields + pk.names[i] == ReportFrame(timestamp, pk, i);
        FramesSnoc(timestamp, pk, 0, i);
        SeqAssoc(old(uart), FramesRange(timestamp, pk, 0, i), ReportFrame(timestamp, pk, i));
        i := i + 1;
      }
    }

    /** The reset of the name table after an event, every entry cleared. */
    method ClearNames()
      modifies this
      ensures names == Cleared(|old(names)|)
      ensures maxReportCount == old(maxReportCount) && uart == old(uart)
    {
      var e := 0;
      while e < |names|
        invariant e <= |names| == |old(names)|
        invariant forall j :: 0 <= j < e ==> names[j] == []
        invariant maxReportCount == old(maxReportCount) && uart == old(uart)
      {
        names := names[e := []];
        e := e + 1;
      }
    }
  }

  // ---------------------------------------------------------------------
  // Reading an event

  /** Reads an event whose markers match, in the worker's order. */
  method ReadPacket(buf: seq<uint8>, stored: seq<seq<uint8>>) returns (pk: Option<Packet>)
    requires MarkersMatch(buf) && |buf| >= GROUPS_OFFSET && buf[4] as nat <= |stored|
    ensures pk == ParseGrouped(buf, stored)
  {
    var count := buf[4] as nat;
    var groups := ReadGroups(buf, count);
    if groups.None? {
      return None;
    }
    var names := ReadNames(buf, GROUPS_OFFSET + 9 * count, groups.value.lengths, stored);
    if names.None? {
      return None;
    }
    var rssis := ReadBytes(buf, names.value.1, count);
    if rssis.None? {
      return None;
    }
    var g := groups.value;
    return Some(Packet(g.eventTypes, g.addrTypes, g.addrs, names.value.0, rssis.value));
  }

  /** The event types, address types, addresses and data lengths, one group
      after the other. */
  method ReadGroups(buf: seq<uint8>, count: nat) returns (r: Option<Groups>)
    requires GROUPS_OFFSET <= |buf|
    ensures r == GroupsAt(buf, count)
  {
    var cursor := GROUPS_OFFSET;
    var eventTypes := ReadBytes(buf, cursor, count);
    if eventTypes.None? {
      return None;
    }
    cursor := cursor + count;
    var addrTypes := ReadBytes(buf, cursor, count);
    if addrTypes.None? {
      return None;
    }
    cursor := cursor + count;
    var addrs := ReadAddrs(buf, cursor, count);
    if addrs.None? {
      return None;
    }
    cursor := cursor + BD_ADDR_LEN * count;
    var lengths := ReadBytes(buf, cursor, count);
    if lengths.None? {
      return None;
    }
    return Some(Groups(eventTypes.value, addrTypes.value, addrs.value, lengths.value));
  }

  /** The names, walked when the 8-bit data total is not zero. */
  method ReadNames(buf: seq<uint8>, pos: nat, lengths: seq<uint8>, stored: seq<seq<uint8>>) returns (r: Option<(seq<seq<uint8>>, nat)>)
    requires pos <= |buf| && |lengths| <= |stored|
    ensures r == NamesAt(buf, pos, lengths, stored)
  {
    var total := SumLengths(lengths);
    if total > 0 {
      r := ScanNames(buf, pos, lengths);
    } else {
      r := Some((stored[..|lengths|], pos));
    }
  }

  /** `n` bytes from `pos`, one at a time; None when that passes the end. */
  method ReadBytes(buf: seq<uint8>, pos: nat, n: nat) returns (r: Option<seq<uint8>>)
    requires pos <= |buf|
    ensures r == if pos + n <= |buf| then Some(buf[pos..pos + n]) else None
  {
    var bytes := [];
    var i := 0;
    while i < n
      invariant i <= n && pos + i <= |buf| && bytes == buf[pos..pos + i]
    {
      if pos + i == |buf| {
        return None;
      }
      bytes := bytes + [buf[pos + i]];
      i := i + 1;
    }
    return Some(bytes);
  }

  /** `n` addresses of six bytes each from `pos`. */
  method ReadAddrs(buf: seq<uint8>, pos: nat, n: nat) returns (r: Option<seq<seq<uint8>>>)
    requires pos <= |buf|
    ensures r == if pos + BD_ADDR_LEN * n <= |buf| then Some(Addrs(buf, pos, n)) else None
  {
    var addrs := [];
    var i := 0;
    while i < n
      invariant i <= n && pos + BD_ADDR_LEN * i <= |buf| && addrs == Addrs(buf, pos, i)
    {
      var addr := ReadBytes(buf, pos + BD_ADDR_LEN * i, BD_ADDR_LEN);
      if addr.None? {
        return None;
      }
      addrs := addrs + [addr.value];
      i := i + 1;
    }
    return Some(addrs);
  }

  /** The data lengths summed in an 8-bit counter. */
  method SumLengths(lengths: seq<uint8>) returns (total: uint8)
    ensures total == DataTotal(lengths)
  {
    total := 0;
    var i := 0;
    while i < |lengths|
      invariant i <= |lengths| && total == DataTotal(lengths[..i])
    {
      assert lengths[..i + 1][..i] == lengths[..i];
      total := (total + lengths[i]) % 0x100;
      i := i + 1;
    }
    assert lengths[..|lengths|] == lengths;
  }

  /** The names of the reports with the given data lengths. */
  method ScanNames(buf: seq<uint8>, pos: nat, lengths: seq<uint8>) returns (r: Option<(seq<seq<uint8>>, nat)>)
    requires pos <= |buf|
    ensures r == NamesWalk(buf, pos, lengths)
  {
    var names := [];
    var cursor := pos;
    var i := 0;
    while i < |lengths|
      invariant i <= |lengths| && NamesWalk(buf, pos, lengths[..i]) == Some((names, cursor))
    {
      assert lengths[..i + 1][..i] == lengths[..i];
      if lengths[i] == 0 {
        names := names + [[]];
      } else {
        var walked := ScanName(buf, cursor, lengths[i]);
        if walked.None? {
          NamesWalkStaysFailed(buf, pos, lengths, i + 1);
          return None;
        }
        names, cursor := names + [walked.value.0], walked.value.1;
      }
      i := i + 1;
    }
    assert lengths[..|lengths|] == lengths;
    return Some((names, cursor));
  }

  lemma {:induction false} NamesWalkStaysFailed(buf: seq<uint8>, pos: nat, lengths: seq<uint8>, i: nat)
    requires pos <= |buf| && i <= |lengths| && NamesWalk(buf, pos, lengths[..i]).None?
    ensures NamesWalk(buf, pos, lengths).None?
    decreases |lengths| - i
  {
    if i < |lengths| {
      assert lengths[..i + 1][..i] == lengths[..i];
      NamesWalkStaysFailed(buf, pos, lengths, i + 1);
    } else {
      assert lengths[..i] == lengths;
    }
  }

  /** The local name in one report's data. */
  method ScanName(buf: seq<uint8>, start: nat, len: uint8) returns (r: Option<(seq<uint8>, nat)>)
    requires start <= |buf|
    ensures r == AdWalk(buf, start, 0, len, [])
  {
    var name: seq<uint8> := [];
    var pos := start;
    var ptr: nat := 0;
    while ptr < len
      invariant pos <= |buf| && AdWalk(buf, pos, ptr, len, name) == AdWalk(buf, start, 0, len, [])
      decreases |buf| - pos
    {
      if pos == |buf| {
        return None;
      }
      var adLen := buf[pos];
      if adLen == 0 {
        AdWalkSkip(buf, pos, ptr, len, name);
        pos, ptr := pos + 1, (ptr + 1) % 0x100;
        continue;
      }
      if pos + 1 + adLen > |buf| {
        return None;
      }
      var adType := buf[pos + 1];
      var value := buf[pos + 2..pos + 1 + adLen];
      AdWalkStructure(buf, pos, ptr, len, name);
      ghost var picked := PickName(name, adType, value);
      if adType == AD_SHORTENED_LOCAL_NAME {
        if |name| == 0 {
          name := value;
        }
      } else if adType == AD_COMPLETE_LOCAL_NAME {
        name := value;
      }
      pos := pos + 1 + adLen;
      ptr := ((ptr + adLen) % 0x100 + 1) % 0x100;
      assert name == picked;
    }
    return Some((name, pos));
  }
}
