// The JSON document the interrogator writes for every finished profile. The
// file sink and the console sink lay it out identically; they differ only in
// how a 16-bit UUID is printed (`"0x%04x"` in the file, `"0x"` and unpadded
// hexadecimal on the console).

module GattJson {
  import opened Bytes
  import opened Text
  import opened Definitions

  /** `ESP_UUID_LEN_16`. */
  const UUID_LEN_16: nat := 2

  /** How a 16-bit UUID is rendered: zero-padded to four digits, or not. */
  datatype UuidStyle = Padded | Unpadded

  /** The 16-bit UUID held in the first two bytes of the union. */
  function Uuid16(u: BtUuid): (v: nat)
    requires u.WellFormed()
    ensures v < 0x1_0000
  {
    var lo: nat := u.bytes[0];
    var hi: nat := u.bytes[1];
    lo + 0x100 * hi
  }

  /** `%04x`: at least four lower-case hexadecimal digits. */
  function PaddedHex(n: nat): (s: string)
  {
    var h := NatToHex(n);
    if |h| < 4 then seq(4 - |h|, _ => '0') + h else h
  }

  /** The "%d" items of a list, each followed by ", " except the last;
      `n` items are written. */
  function DecimalItems(bs: seq<uint8>, n: nat): string
    requires n <= |bs|
  {
    if n == 0 then ""
    else DecimalItems(bs, n - 1) + NatToDecimal(bs[n - 1]) + (if n < |bs| then ", " else "")
  }

  /** The UUID line of a service or characteristic, at the given indent. */
  function UuidJson(u: BtUuid, indent: string, style: UuidStyle): string
    requires u.WellFormed()
  {
    if u.len == UUID_LEN_16 then
      var digits := if style == Padded then PaddedHex(Uuid16(u)) else NatToHex(Uuid16(u));
      indent + "\"uuid\": \"0x" + digits + "\",\n"
    else
      indent + "\"uuid128\": [" + DecimalItems(u.bytes, 16) + "],\n"
  }

  predicate CharWellFormed(c: CharacteristicWrapper)
  {
    c.meta.uuid.WellFormed()
  }

  predicate ServiceWellFormed(s: ServiceWrapper)
  {
    s.service.uuid.WellFormed() && forall j :: 0 <= j < |s.chars| ==> CharWellFormed(s.chars[j])
  }

  /** A characteristic object around its UUID line; `last` drops the
      comma that separates it from the next one. */
  function CharText(c: CharacteristicWrapper, uuidLine: string, last: bool): string
  {
    "        {\n"
      + uuidLine
      + "          \"handle\": " + NatToDecimal(c.meta.charHandle) + ",\n"
      + "          \"properties\": " + NatToDecimal(c.meta.properties) + ",\n"
      + "          \"value\": [" + DecimalItems(c.value, |c.value|) + "]\n"
      + "        }" + (if last then "" else ",") + "\n"
  }

  /** The UUID lines of the characteristics. */
  function CharUuidLines(cs: seq<CharacteristicWrapper>, style: UuidStyle): (lines: seq<string>)
    requires forall j :: 0 <= j < |cs| ==> CharWellFormed(cs[j])
    ensures |lines| == |cs|
  {
    seq(|cs|, i requires 0 <= i < |cs| && CharWellFormed(cs[i]) => UuidJson(cs[i].meta.uuid, "          ", style))
  }

  /** The first `n` characteristics, each followed by a comma except the last
      of the list. */
  function CharItems(cs: seq<CharacteristicWrapper>, lines: seq<string>, n: nat): string
    requires n <= |cs| == |lines|
  {
    if n == 0 then ""
    else CharItems(cs, lines, n - 1) + CharText(cs[n - 1], lines[n - 1], n == |cs|)
  }

  /** The characteristics list of a service. */
  function CharsJson(cs: seq<CharacteristicWrapper>, style: UuidStyle): string
    requires forall j :: 0 <= j < |cs| ==> CharWellFormed(cs[j])
  {
    CharItems(cs, CharUuidLines(cs, style), |cs|)
  }

  /** A service object around its UUID line and its characteristics. */
  function ServiceText(s: ServiceWrapper, uuidLine: string, chars: string, last: bool): string
  {
    "    {\n"
      + uuidLine
      + "      \"start_handle\": " + NatToDecimal(s.startHandle) + ",\n"
      + "      \"end_handle\": " + NatToDecimal(s.endHandle) + ",\n"
      + "      \"characteristics\": [\n"
      + chars
      + "      ]\n"
      + "    }" + (if last then "" else ",") + "\n"
  }

  function ServiceUuidLines(ss: seq<ServiceWrapper>, style: UuidStyle): (lines: seq<string>)
    requires forall j :: 0 <= j < |ss| ==> ServiceWellFormed(ss[j])
    ensures |lines| == |ss|
  {
    seq(|ss|, i requires 0 <= i < |ss| && ServiceWellFormed(ss[i]) => UuidJson(ss[i].service.uuid, "      ", style))
  }

  function ServiceCharTexts(ss: seq<ServiceWrapper>, style: UuidStyle): (texts: seq<string>)
    requires forall j :: 0 <= j < |ss| ==> ServiceWellFormed(ss[j])
    ensures |texts| == |ss|
  {
    seq(|ss|, i requires 0 <= i < |ss| && ServiceWellFormed(ss[i]) => CharsJson(ss[i].chars, style))
  }

  function ServiceItems(ss: seq<ServiceWrapper>, lines: seq<string>, chars: seq<string>, n: nat): string
    requires n <= |ss| == |lines| == |chars|
  {
    if n == 0 then ""
    else ServiceItems(ss, lines, chars, n - 1) + ServiceText(ss[n - 1], lines[n - 1], chars[n - 1], n == |ss|)
  }

  /** The services list. */
  function ServicesJson(ss: seq<ServiceWrapper>, style: UuidStyle): string
    requires forall j :: 0 <= j < |ss| ==> ServiceWellFormed(ss[j])
  {
    ServiceItems(ss, ServiceUuidLines(ss, style), ServiceCharTexts(ss, style), |ss|)
  }

  /** Everything before the list of services. */
  function JsonHead(remoteBda: seq<uint8>, request: InterrogationRequest): string
  {
    "{\n"
      + "  \"remote_bda\": \"" + HexPairs(remoteBda, false) + "\",\n"
      + "  \"advertisement_filename\": \"" + request.advertisementFilename + "\",\n"
      + "  \"interrogation_timestamp\": " + IntToDecimal(request.timestamp) + ",\n"
      + "  \"services\": [\n"
  }

  const JSON_TAIL := "  ]\n}\n"

  /** The whole document. */
  function ProfileJson(remoteBda: seq<uint8>, request: InterrogationRequest, services: seq<ServiceWrapper>, style: UuidStyle): string
  {
    if forall j :: 0 <= j < |services| ==> ServiceWellFormed(services[j]) then
      JsonHead(remoteBda, request) + ServicesJson(services, style) + JSON_TAIL
    else
      JsonHead(remoteBda, request) + JSON_TAIL
  }

  // ---------------------------------------------------------------------
  // Properties

  /** `%04x` of a 16-bit value is exactly four hexadecimal digits that read
      back as the value. */
  lemma PaddedHexRoundTrip(n: nat)
    requires n < 0x1_0000
    ensures |PaddedHex(n)| == 4 && AllHexDigits(PaddedHex(n))
    ensures HexDigitsValue(PaddedHex(n)) == n
  {
    var h := NatToHex(n);
    HexRoundTrip(n);
    HexLength(n);
    if |h| < 4 {
      var z := seq(4 - |h|, _ => '0');
      LeadingZeros(z, h);
    }
  }

  /** A value below 16^4 takes at most four hexadecimal digits. */
  lemma HexLength(n: nat)
    requires n < 0x1_0000
    ensures |NatToHex(n)| <= 4
  {
    HexDigitsBound(n, 4);
  }

  function Pow16(k: nat): (p: nat)
    ensures p >= 1
  {
    if k == 0 then 1 else 16 * Pow16(k - 1)
  }

  lemma {:induction false} HexDigitsBound(n: nat, k: nat)
    requires 1 <= k && n < Pow16(k)
    ensures |NatToHex(n)| <= k
    decreases k
  {
    if n >= 16 {
      assert k >= 2;
      HexDigitsBound(n / 16, k - 1);
    }
  }

  /** Leading zeros do not change the value of a hexadecimal numeral. */
  lemma {:induction false} LeadingZeros(z: string, h: string)
    requires forall i :: 0 <= i < |z| ==> z[i] == '0'
    requires AllHexDigits(h)
    ensures AllHexDigits(z + h) && HexDigitsValue(z + h) == HexDigitsValue(h)
    decreases |h|
  {
    var s := z + h;
    assert AllHexDigits(s) by {
      forall i | 0 <= i < |s| ensures IsHexDigit(s[i]) {
        if i < |z| {
          assert s[i] == '0';
        } else {
          assert s[i] == h[i - |z|];
        }
      }
    }
    if h == [] {
      assert s == z;
      ZerosValue(z);
    } else {
      assert s[..|s| - 1] == z + h[..|h| - 1];
      LeadingZeros(z, h[..|h| - 1]);
    }
  }

  lemma {:induction false} ZerosValue(z: string)
    requires forall i :: 0 <= i < |z| ==> z[i] == '0'
    ensures AllHexDigits(z) && HexDigitsValue(z) == 0
    decreases |z|
  {
    if z != [] {
      ZerosValue(z[..|z| - 1]);
    }
  }

  /** From 0x1000 up, `%04x` adds no zeros: the two sinks print the UUID the
      same way. */
  lemma PaddingOnlyBelow0x1000(n: nat)
    requires n < 0x1_0000
    ensures PaddedHex(n) == NatToHex(n) <==> n >= 0x1000
  {
    PaddedHexRoundTrip(n);
    HexLength(n);
    HexRoundTrip(n);
    var h := NatToHex(n);
    if n >= 0x1000 {
      if |h| < 4 {
        HexBelow(h);
        assert false;
      }
    } else if |h| == 4 {
      HexAtLeast(h);
    }
  }

  /** Fewer than four hexadecimal digits are worth less than 0x1000. */
  lemma {:induction false} HexBelow(h: string)
    requires AllHexDigits(h) && |h| < 4
    ensures HexDigitsValue(h) < 0x1000
    decreases |h|
  {
    if h != [] {
      HexBelow(h[..|h| - 1]);
      assert HexDigitsValue(h[..|h| - 1]) < (if |h| == 1 then 1 else if |h| == 2 then 16 else 0x100) by {
        if |h| <= 3 {
          HexWidth(h[..|h| - 1]);
        }
      }
    }
  }

  /** `k` hexadecimal digits are worth less than 16^k. */
  lemma {:induction false} HexWidth(h: string)
    requires AllHexDigits(h) && |h| <= 2
    ensures HexDigitsValue(h) < (if |h| == 0 then 1 else if |h| == 1 then 16 else 0x100)
    decreases |h|
  {
    if h != [] {
      HexWidth(h[..|h| - 1]);
    }
  }

  /** Four digits with no leading zero, as `%x` writes them, are worth at
      least 0x1000. */
  lemma HexAtLeast(h: string)
    requires h == NatToHex(NatValue(h)) && |h| == 4
    ensures HexDigitsValue(h) >= 0x1000
  {
    var n := NatValue(h);
    HexRoundTrip(n);
    if n < 0x1000 {
      HexShort(n);
    }
  }

  function NatValue(h: string): nat
  {
    if AllHexDigits(h) then HexDigitsValue(h) else 0
  }

  lemma HexShort(n: nat)
    requires n < 0x1000
    ensures |NatToHex(n)| <= 3
  {
    HexDigitsBound(n, 3);
  }

  /** Every 16-bit UUID of the profile is at least 0x1000. */
  predicate WideUuid(u: BtUuid)
  {
    u.WellFormed() && u.len == UUID_LEN_16 ==> Uuid16(u) >= 0x1000
  }

  predicate WideProfile(services: seq<ServiceWrapper>)
  {
    forall j :: 0 <= j < |services| ==>
      WideUuid(services[j].service.uuid) && forall k :: 0 <= k < |services[j].chars| ==> WideUuid(services[j].chars[k].meta.uuid)
  }

  /** When no 16-bit UUID is below 0x1000 the file and the console get the
      same document. */
  lemma SinksAgreeOnWideUuids(remoteBda: seq<uint8>, request: InterrogationRequest, services: seq<ServiceWrapper>)
    requires forall j :: 0 <= j < |services| ==> ServiceWellFormed(services[j])
    requires WideProfile(services)
    ensures ProfileJson(remoteBda, request, services, Padded) == ProfileJson(remoteBda, request, services, Unpadded)
  {
    ServicesAgree(services);
  }

  lemma ServicesAgree(ss: seq<ServiceWrapper>)
    requires forall j :: 0 <= j < |ss| ==> ServiceWellFormed(ss[j])
    requires WideProfile(ss)
    ensures ServicesJson(ss, Padded) == ServicesJson(ss, Unpadded)
  {
    forall i | 0 <= i < |ss|
      ensures ServiceUuidLines(ss, Padded)[i] == ServiceUuidLines(ss, Unpadded)[i]
      ensures ServiceCharTexts(ss, Padded)[i] == ServiceCharTexts(ss, Unpadded)[i]
    {
      UuidAgrees(ss[i].service.uuid, "      ");
      CharsAgree(ss[i].chars);
    }
    assert ServiceUuidLines(ss, Padded) == ServiceUuidLines(ss, Unpadded);
    assert ServiceCharTexts(ss, Padded) == ServiceCharTexts(ss, Unpadded);
  }

  lemma CharsAgree(cs: seq<CharacteristicWrapper>)
    requires forall j :: 0 <= j < |cs| ==> CharWellFormed(cs[j])
    requires forall j :: 0 <= j < |cs| ==> WideUuid(cs[j].meta.uuid)
    ensures CharsJson(cs, Padded) == CharsJson(cs, Unpadded)
  {
    forall i | 0 <= i < |cs| ensures CharUuidLines(cs, Padded)[i] == CharUuidLines(cs, Unpadded)[i] {
      UuidAgrees(cs[i].meta.uuid, "          ");
    }
    assert CharUuidLines(cs, Padded) == CharUuidLines(cs, Unpadded);
  }

  lemma UuidAgrees(u: BtUuid, indent: string)
    requires u.WellFormed() && WideUuid(u)
    ensures UuidJson(u, indent, Padded) == UuidJson(u, indent, Unpadded)
  {
    if u.len == UUID_LEN_16 {
      PaddingOnlyBelow0x1000(Uuid16(u));
    }
  }

  /** Below 0x1000 they differ: the file gets `0x0180`, the console `0x180`. */
  lemma SinksDifferBelow0x1000(u: BtUuid, indent: string)
    requires u.WellFormed() && u.len == UUID_LEN_16 && Uuid16(u) < 0x1000
    ensures UuidJson(u, indent, Padded) != UuidJson(u, indent, Unpadded)
  {
    PaddingOnlyBelow0x1000(Uuid16(u));
    var p := indent + "\"uuid\": \"0x";
    var a := PaddedHex(Uuid16(u));
    var b := NatToHex(Uuid16(u));
    PaddedHexRoundTrip(Uuid16(u));
    HexShort(Uuid16(u));
    assert |UuidJson(u, indent, Padded)| == |p| + |a| + 3;
    assert |UuidJson(u, indent, Unpadded)| == |p| + |b| + 3;
  }
}
