// The layout the scanner's decoder reads an LE Advertising Report event in
// (Bluetooth Core Specification v5.4, Vol 4, Part E, section 7.7.65.2):
// each report's fields together, one report after the other. This is the
// decoder's reading of that section; the collector reads the same section's
// per-field arrays one after the other. Decoding an event laid out this way
// gives its reports back.

module HciEventLayout {
  import opened Bytes
  import opened Definitions
  import opened HciEventParser

  /** The bytes of one report as the controller interleaves them: event
      type, address type, the six address bytes in wire order, the data
      length, the data and the RSSI byte. */
  function ReportBytes(r: SingleReport): (b: seq<uint8>)
    ensures |b| == 4 + |r.rawBdaddr| + |r.advData|
  {
    [r.advEventType, r.addrType] + r.rawBdaddr + [r.advDataLength] + r.advData + [ToUint8(r.rssi)]
  }

  /** The reports of an event, one after the other. */
  function ReportsBytes(rs: seq<SingleReport>): (b: seq<uint8>)
  {
    if rs == [] then [] else ReportsBytes(rs[..|rs| - 1]) + ReportBytes(rs[|rs| - 1])
  }

  /** An LE Advertising Report event carrying `rs`, each report's fields
      together: the layout `fillAdvReport` walks. */
  function InterleavedEvent(rs: seq<SingleReport>): (buf: seq<uint8>)
    requires 1 <= |rs| <= MAX_NUM_REPORTS
  {
    var body := ReportsBytes(rs);
    [H4_TYPE_EVENT, LE_META_EVENTS, ToUint8(2 + |body|), HCI_LE_ADV_REPORT, |rs|] + body
  }

  /** Where each field of a report sits among its bytes. */
  lemma ReportBytesFields(r: SingleReport)
    requires |r.rawBdaddr| == 6 && |r.advData| == r.advDataLength
    ensures var b := ReportBytes(r);
      |b| == 10 + r.advDataLength && b[0] == r.advEventType && b[1] == r.addrType
      && b[2..8] == r.rawBdaddr && b[8] == r.advDataLength
      && b[9..9 + r.advDataLength] == r.advData && b[9 + r.advDataLength] == ToUint8(r.rssi)
  {
    var b := ReportBytes(r);
    var n := r.advDataLength;
    assert b == [r.advEventType, r.addrType] + r.rawBdaddr + [n] + r.advData + [ToUint8(r.rssi)];
    assert b[2..8] == r.rawBdaddr;
    assert b[9..9 + n] == r.advData;
  }

  /** A report's bytes at `p` read back as the report, with the position
      just after them. */
  lemma ReportAtBytes(buf: seq<uint8>, p: nat, r: SingleReport)
    requires WellDecoded(r)
    requires p + 10 + r.advDataLength <= |buf| && buf[p..p + 10 + r.advDataLength] == ReportBytes(r)
    ensures ReportAt(buf, p, true) == Some((r, p + 10 + r.advDataLength))
  {
    var n := r.advDataLength;
    var b := ReportBytes(r);
    ReportBytesFields(r);
    SubSlice(buf, p, 10 + n, 2, 8);
    SubSlice(buf, p, 10 + n, 9, 9 + n);
    assert buf[p] == b[0] && buf[p + 1] == b[1] && buf[p + 8] == b[8] && buf[p + 9 + n] == b[9 + n];
    Int8RoundTrip(r.rssi);
  }

  /** A slice of a slice is a slice. */
  lemma SubSlice<T>(buf: seq<T>, p: nat, m: nat, i: nat, j: nat)
    requires p + m <= |buf| && i <= j <= m
    ensures buf[p..p + m][i..j] == buf[p + i..p + j]
  {
    var x, y := buf[p..p + m][i..j], buf[p + i..p + j];
    forall k | 0 <= k < |x| ensures x[k] == y[k] {
      assert x[k] == buf[p + i + k];
    }
  }

  /** The bytes of all but the last report, then the last report's. */
  lemma ReportsBytesLast(s: seq<SingleReport>)
    requires s != []
    ensures ReportsBytes(s) == ReportsBytes(s[..|s| - 1]) + ReportBytes(s[|s| - 1])
  {
  }

  /** The bytes of the reports of `s` lie in `buf` one after the other from
      `p` on. */
  ghost predicate Laid(buf: seq<uint8>, p: nat, s: seq<SingleReport>)
    decreases |s|
  {
    if s == [] then p <= |buf|
    else
      Laid(buf, p, s[..|s| - 1])
      && p + |ReportsBytes(s)| <= |buf|
      && buf[p + |ReportsBytes(s[..|s| - 1])|..p + |ReportsBytes(s)|] == ReportBytes(s[|s| - 1])
  }

  /** A buffer made of `head`, the reports' bytes and anything after them
      holds the reports from the end of `head` on. */
  lemma {:induction false} LaidOf(head: seq<uint8>, s: seq<SingleReport>, tail: seq<uint8>)
    ensures Laid(head + ReportsBytes(s) + tail, |head|, s)
    decreases |s|
  {
    if s != [] {
      var w, a, b := ReportsBytes(s), ReportsBytes(s[..|s| - 1]), ReportBytes(s[|s| - 1]);
      LaidOf(head, s[..|s| - 1], b + tail);
      ReportsBytesLast(s);
      Regroup(head, w, a, b, tail);
    }
  }

  /** `h + w + t`, where `w` is `a` then `b`, is `h + a` followed by `b + t`,
      and `b` lies right after `h + a`. */
  lemma Regroup<T>(h: seq<T>, w: seq<T>, a: seq<T>, b: seq<T>, t: seq<T>)
    requires w == a + b
    ensures h + w + t == h + a + (b + t)
    ensures |h| + |a| + |b| <= |h + w + t|
    ensures (h + w + t)[|h| + |a|..|h| + |a| + |b|] == b
    ensures |w| == |a| + |b|
  {
    assert h + w + t == (h + a) + b + t;
    assert ((h + a) + b + t)[|h + a|..|h + a| + |b|] == b;
  }

  /** Reports laid out from `p` on include the first `k` of them. */
  lemma {:induction false} LaidPrefix(buf: seq<uint8>, p: nat, s: seq<SingleReport>, k: nat)
    requires k <= |s| && Laid(buf, p, s)
    ensures Laid(buf, p, s[..k])
    decreases |s| - k
  {
    if k < |s| {
      LaidPrefix(buf, p, s[..|s| - 1], k);
      assert s[..|s| - 1][..k] == s[..k];
    } else {
      assert s[..k] == s;
    }
  }

  /** Where the bytes of report `j` of `s` start, with `s` laid out from `p`. */
  function Pos(p: nat, s: seq<SingleReport>, j: nat): (q: nat)
    requires j <= |s|
    ensures q >= p
  {
    p + |ReportsBytes(s[..j])|
  }

  /** Each report of `s` reads back where the bytes of those before it end,
      up to where its own bytes end. */
  ghost predicate ReadsAll(buf: seq<uint8>, p: nat, s: seq<SingleReport>)
  {
    forall j {:trigger Pos(p, s, j)} :: 0 <= j < |s| ==> ReportAt(buf, Pos(p, s, j), true) == Some((s[j], Pos(p, s, j + 1)))
  }

  /** The bytes of report `j` of laid-out reports lie between its position
      and the next. */
  lemma LaidAt(buf: seq<uint8>, p: nat, s: seq<SingleReport>, j: nat)
    requires j < |s| && Laid(buf, p, s)
    ensures Pos(p, s, j) + |ReportBytes(s[j])| == Pos(p, s, j + 1) <= |buf|
    ensures buf[Pos(p, s, j)..Pos(p, s, j + 1)] == ReportBytes(s[j])
  {
    LaidPrefix(buf, p, s, j + 1);
    LaidOfTake(buf, p, s, j);
  }

  /** `LaidLast` for the first `j + 1` reports. */
  lemma LaidOfTake(buf: seq<uint8>, p: nat, s: seq<SingleReport>, j: nat)
    requires j < |s| && Laid(buf, p, s[..j + 1])
    ensures Pos(p, s, j) + |ReportBytes(s[j])| == Pos(p, s, j + 1) <= |buf|
    ensures buf[Pos(p, s, j)..Pos(p, s, j + 1)] == ReportBytes(s[j])
  {
    LaidLast(buf, p, s[..j + 1]);
    TakeLast(s, j);
  }

  /** The first `j + 1` elements, without their last, are the first `j`. */
  lemma TakeLast<T>(s: seq<T>, j: nat)
    requires j < |s|
    ensures s[..j + 1][..|s[..j + 1]| - 1] == s[..j] && s[..j + 1][|s[..j + 1]| - 1] == s[j]
  {
  }

  /** The bytes of the last of laid-out reports lie right after the others'. */
  lemma LaidLast(buf: seq<uint8>, p: nat, t: seq<SingleReport>)
    requires t != [] && Laid(buf, p, t)
    ensures p + |ReportsBytes(t[..|t| - 1])| + |ReportBytes(t[|t| - 1])| == p + |ReportsBytes(t)| <= |buf|
    ensures buf[p + |ReportsBytes(t[..|t| - 1])|..p + |ReportsBytes(t)|] == ReportBytes(t[|t| - 1])
  {
    ReportsBytesLast(t);
  }

  /** Report `j` of laid-out decodable reports reads back. */
  lemma ReadsOne(buf: seq<uint8>, p: nat, s: seq<SingleReport>, j: nat)
    requires j < |s| && WellDecoded(s[j]) && Laid(buf, p, s)
    ensures ReportAt(buf, Pos(p, s, j), true) == Some((s[j], Pos(p, s, j + 1)))
  {
    LaidAt(buf, p, s, j);
    ReportAtLast(buf, Pos(p, s, j), Pos(p, s, j + 1), s[j]);
  }

  /** Laid-out decodable reports all read back. */
  lemma ReadsAllOf(buf: seq<uint8>, p: nat, s: seq<SingleReport>)
    requires forall j :: 0 <= j < |s| ==> WellDecoded(s[j])
    requires Laid(buf, p, s)
    ensures ReadsAll(buf, p, s)
  {
    forall j | 0 <= j < |s|
      ensures ReportAt(buf, Pos(p, s, j), true) == Some((s[j], Pos(p, s, j + 1)))
    {
      ReadsOne(buf, p, s, j);
    }
  }

  /** `ReportAtBytes` with the end given by the encoded length. */
  lemma ReportAtLast(buf: seq<uint8>, q: nat, e: nat, r: SingleReport)
    requires WellDecoded(r) && e == q + |ReportBytes(r)|
    requires q <= e <= |buf| && buf[q..e] == ReportBytes(r)
    ensures ReportAt(buf, q, true) == Some((r, e))
  {
    ReportAtBytes(buf, q, r);
  }

  /** Walking reports that all read back gives, after `k` of them, the first
      `k` reports and the end of their bytes. */
  lemma {:induction false} WalkPrefix(buf: seq<uint8>, p: nat, s: seq<SingleReport>, k: nat)
    requires k <= |s| && ReadsAll(buf, p, s)
    ensures ReportsFrom(buf, p, k, true) == (s[..k], Some(Pos(p, s, k)))
    decreases k
  {
    if k == 0 {
      assert s[..0] == [];
    } else {
      WalkPrefix(buf, p, s, k - 1);
      StepAt(buf, p, s, k, ReportsFrom(buf, p, k - 1, true));
    }
  }

  /** One more step of such a walk reads the next report. */
  lemma StepAt(buf: seq<uint8>, p: nat, s: seq<SingleReport>, k: nat, c: (seq<SingleReport>, Option<nat>))
    requires 0 < k <= |s| && ReadsAll(buf, p, s)
    requires c == (s[..k - 1], Some(Pos(p, s, k - 1)))
    requires ReportsFrom(buf, p, k - 1, true) == c
    ensures ReportsFrom(buf, p, k, true) == (s[..k], Some(Pos(p, s, k)))
  {
    assert ReportAt(buf, Pos(p, s, k - 1), true) == Some((s[k - 1], Pos(p, s, k)));
    assert s[..k - 1] + [s[k - 1]] == s[..k];
  }

  /** An interleaved event holds its reports from the first report's offset
      on. */
  lemma InterleavedLaid(rs: seq<SingleReport>)
    requires 1 <= |rs| <= MAX_NUM_REPORTS
    ensures Laid(InterleavedEvent(rs), REPORTS_OFFSET, rs)
    ensures |InterleavedEvent(rs)| == REPORTS_OFFSET + |ReportsBytes(rs)|
    ensures MarkersMatch(InterleavedEvent(rs)) && InterleavedEvent(rs)[4] == |rs|
  {
    var body := ReportsBytes(rs);
    var head: seq<uint8> := [H4_TYPE_EVENT, LE_META_EVENTS, ToUint8(2 + |body|), HCI_LE_ADV_REPORT, |rs|];
    assert InterleavedEvent(rs) == head + body + [];
    LaidOf(head, rs, []);
  }

  /** Walking laid-out decodable reports reads all of them, to the end of
      their bytes. */
  lemma WalkOfLaid(buf: seq<uint8>, p: nat, rs: seq<SingleReport>)
    requires forall j :: 0 <= j < |rs| ==> WellDecoded(rs[j])
    requires Laid(buf, p, rs)
    ensures ReportsFrom(buf, p, |rs|, true) == (rs, Some((p + |ReportsBytes(rs)|) as nat))
  {
    ReadsAllOf(buf, p, rs);
    WalkPrefix(buf, p, rs, |rs|);
    WalkAll(buf, p, rs);
  }

  /** The walk over all the reports, with the prefix written as the whole. */
  lemma WalkAll(buf: seq<uint8>, p: nat, rs: seq<SingleReport>)
    requires ReportsFrom(buf, p, |rs|, true) == (rs[..|rs|], Some(Pos(p, rs, |rs|)))
    ensures ReportsFrom(buf, p, |rs|, true) == (rs, Some((p + |ReportsBytes(rs)|) as nat))
  {
    TakeAll(rs);
  }

  lemma TakeAll<T>(s: seq<T>)
    ensures s[..|s|] == s
  {
  }

  /** An event whose markers and count are right and whose reports all read
      back decodes with ESP_OK to those reports. */
  lemma DecodeOfWalk(buf: seq<uint8>, rs: seq<SingleReport>, e: nat)
    requires e == |buf| >= REPORTS_OFFSET && MarkersMatch(buf) && buf[4] == |rs| && 1 <= |rs| <= MAX_NUM_REPORTS
    requires ReportsFrom(buf, REPORTS_OFFSET, |rs|, true) == (rs, Some(e))
    ensures Decode(buf) == Outcome(Ok, true, Some(|rs|), rs)
  {
  }

  /** An event whose markers and count are right and that holds decodable
      reports from the first report's offset to its end decodes with ESP_OK
      to those reports. */
  lemma DecodeOfLaid(buf: seq<uint8>, rs: seq<SingleReport>)
    requires 1 <= |rs| <= MAX_NUM_REPORTS
    requires forall j :: 0 <= j < |rs| ==> WellDecoded(rs[j])
    requires Laid(buf, REPORTS_OFFSET, rs)
    requires |buf| == REPORTS_OFFSET + |ReportsBytes(rs)|
    requires MarkersMatch(buf) && buf[4] == |rs|
    ensures Decode(buf) == Outcome(Ok, true, Some(|rs|), rs)
  {
    WalkOfLaid(buf, REPORTS_OFFSET, rs);
    DecodeOfWalk(buf, rs, REPORTS_OFFSET + |ReportsBytes(rs)|);
  }

  /** Any event of one to 25 reports, laid out as the controller sends them,
      decodes with ESP_OK to exactly those reports in order. */
  lemma InterleavedEventDecodes(rs: seq<SingleReport>)
    requires 1 <= |rs| <= MAX_NUM_REPORTS
    requires forall j :: 0 <= j < |rs| ==> WellDecoded(rs[j])
    ensures Decode(InterleavedEvent(rs)) == Outcome(Ok, true, Some(|rs|), rs)
  {
    InterleavedLaid(rs);
    DecodeOfLaid(InterleavedEvent(rs), rs);
  }
}
