// The offline reader of interrogation results: how it prints a UUID given as
// 16 bytes, decodes a characteristic's property byte, and turns a service or
// characteristic UUID into a name. The name tables (Bluetooth SIG services,
// characteristics and companies, and the project's own custom UUIDs) are
// parameters.

module ProcessInterrogatorFiles {
  import opened Bytes
  import opened Text

  // ---------------------------------------------------------------------
  // UUID text

  /** `''.join(f'{b:02x}' for b in bs)`. */
  function HexString(bs: seq<uint8>): (s: string)
    ensures |s| == 2 * |bs|
  {
    if bs == [] then "" else HexString(bs[..|bs| - 1]) + Hex2(bs[|bs| - 1], false)
  }

  /** Python's `s[a:b]` for non-negative bounds: clipped to the string. */
  function Slice(s: string, a: nat, b: nat): string
  {
    if a >= |s| || b <= a then "" else s[a..if b < |s| then b else |s|]
  }

  /** `bytes_to_uuid`: the hexadecimal digits cut 8-4-4-4-12. */
  function BytesToUuid(bs: seq<uint8>): string
  {
    var h := HexString(bs);
    Slice(h, 0, 8) + "-" + Slice(h, 8, 12) + "-" + Slice(h, 12, 16) + "-" + Slice(h, 16, 20) + "-" + Slice(h, 20, 32)
  }

  /** The byte a pair of hexadecimal digits stands for. */
  function PairValue(hi: char, lo: char): uint8
  {
    if IsHexDigit(hi) && IsHexDigit(lo) then HexValue(hi) * 16 + HexValue(lo) else 0
  }

  /** The bytes of a run of hexadecimal digit pairs. */
  function HexBytes(h: string): seq<uint8>
  {
    if |h| < 2 then [] else HexBytes(h[..|h| - 2]) + [PairValue(h[|h| - 2], h[|h| - 1])]
  }

  /** The text without its hyphens. */
  function RemoveHyphens(s: string): (t: string)
    ensures |t| <= |s|
  {
    if s == [] then [] else (if s[0] == '-' then [] else [s[0]]) + RemoveHyphens(s[1..])
  }

  lemma {:induction false} RemoveHyphensAppend(a: string, b: string)
    ensures RemoveHyphens(a + b) == RemoveHyphens(a) + RemoveHyphens(b)
    decreases |a|
  {
    if a != [] {
      assert (a + b)[1..] == a[1..] + b;
      RemoveHyphensAppend(a[1..], b);
    } else {
      assert a + b == b;
    }
  }

  lemma {:induction false} RemoveHyphensOfHex(s: string)
    requires AllHexDigits(s)
    ensures RemoveHyphens(s) == s
    decreases |s|
  {
    if s != [] {
      RemoveHyphensOfHex(s[1..]);
      assert [s[0]] + s[1..] == s;
    }
  }

  lemma {:induction false} HexStringLowerHex(bs: seq<uint8>)
    ensures AllHexDigits(HexString(bs)) && NoUpper(HexString(bs))
    decreases |bs|
  {
    if bs != [] {
      HexStringLowerHex(bs[..|bs| - 1]);
    }
  }

  /** The digit pairs read back are the bytes. */
  lemma {:induction false} HexBytesRoundTrip(bs: seq<uint8>)
    ensures HexBytes(HexString(bs)) == bs
    decreases |bs|
  {
    if bs != [] {
      var init, last := bs[..|bs| - 1], bs[|bs| - 1];
      assert init + [last] == bs;
      HexBytesRoundTrip(init);
      HexBytesStep(HexString(init), last);
    }
  }

  lemma HexBytesStep(hi: string, last: uint8)
    ensures HexBytes(hi + Hex2(last, false)) == HexBytes(hi) + [last]
  {
    var p := Hex2(last, false);
    var h := hi + p;
    assert h[..|h| - 2] == hi && h[|h| - 2] == p[0] && h[|h| - 1] == p[1];
  }

  /** Lower-case hexadecimal digits and hyphens only. */
  predicate UuidChars(s: string)
  {
    forall i :: 0 <= i < |s| ==> s[i] == '-' || '0' <= s[i] <= '9' || 'a' <= s[i] <= 'f'
  }

  lemma UuidCharsAppend(a: string, b: string)
    requires UuidChars(a) && UuidChars(b)
    ensures UuidChars(a + b)
  {
  }

  lemma UuidCharsOfHexString(bs: seq<uint8>, a: nat, b: nat)
    ensures UuidChars(Slice(HexString(bs), a, b))
  {
    HexStringLowerHex(bs);
  }

  /** Whatever the length, the text holds only lower-case hexadecimal digits
      and hyphens: no colon, no upper-case letter. */
  lemma BytesToUuidChars(bs: seq<uint8>)
    ensures UuidChars(BytesToUuid(bs))
    ensures ':' !in BytesToUuid(bs) && NoUpper(BytesToUuid(bs))
  {
    var h := HexString(bs);
    UuidCharsOfHexString(bs, 0, 8);
    UuidCharsOfHexString(bs, 8, 12);
    UuidCharsOfHexString(bs, 12, 16);
    UuidCharsOfHexString(bs, 16, 20);
    UuidCharsOfHexString(bs, 20, 32);
    var p1 := Slice(h, 0, 8) + "-";
    UuidCharsAppend(Slice(h, 0, 8), "-");
    var p2 := p1 + Slice(h, 8, 12) + "-";
    UuidCharsAppend(p1, Slice(h, 8, 12));
    UuidCharsAppend(p1 + Slice(h, 8, 12), "-");
    var p3 := p2 + Slice(h, 12, 16) + "-";
    UuidCharsAppend(p2, Slice(h, 12, 16));
    UuidCharsAppend(p2 + Slice(h, 12, 16), "-");
    var p4 := p3 + Slice(h, 16, 20) + "-";
    UuidCharsAppend(p3, Slice(h, 16, 20));
    UuidCharsAppend(p3 + Slice(h, 16, 20), "-");
    UuidCharsAppend(p4, Slice(h, 20, 32));
    assert BytesToUuid(bs) == p4 + Slice(h, 20, 32);
  }

  /** Removing the hyphen between two parts. */
  lemma HyphenStep(a: string, b: string)
    ensures RemoveHyphens(a + "-" + b) == RemoveHyphens(a) + RemoveHyphens(b)
  {
    RemoveHyphensAppend(a + "-", b);
    RemoveHyphensAppend(a, "-");
  }

  /** The five groups of 32 digits, rejoined. */
  lemma GroupsRejoin(h: string)
    requires |h| == 32
    ensures h[..8] + h[8..12] + h[12..16] + h[16..20] + h[20..] == h
  {
  }

  /** The text of 16 bytes, cut into its five groups. */
  lemma BytesToUuidGroups(bs: seq<uint8>)
    requires |bs| == 16
    ensures var h := HexString(bs);
      BytesToUuid(bs) == h[..8] + "-" + h[8..12] + "-" + h[12..16] + "-" + h[16..20] + "-" + h[20..]
  {
    var h := HexString(bs);
    assert Slice(h, 0, 8) == h[..8] && Slice(h, 8, 12) == h[8..12] && Slice(h, 12, 16) == h[12..16];
    assert Slice(h, 16, 20) == h[16..20] && Slice(h, 20, 32) == h[20..];
  }

  /** The text of 16 bytes: 36 characters, hyphens at offsets 8, 13, 18 and
      23, and the hexadecimal digits once the hyphens are removed. */
  lemma BytesToUuidLayout(bs: seq<uint8>)
    requires |bs| == 16
    ensures var u := BytesToUuid(bs);
      |u| == 36 && u[8] == u[13] == u[18] == u[23] == '-'
      && RemoveHyphens(u) == HexString(bs)
  {
    var h := HexString(bs);
    HexStringLowerHex(bs);
    BytesToUuidGroups(bs);
    var g1, g2, g3, g4, g5 := h[..8], h[8..12], h[12..16], h[16..20], h[20..];
    var p1 := g1 + "-" + g2;
    var p2 := p1 + "-" + g3;
    var p3 := p2 + "-" + g4;
    var u := p3 + "-" + g5;
    assert u[23] == '-';
    assert u[18] == p3[18] == '-';
    assert u[13] == p3[13] == p2[13] == '-';
    assert u[8] == p3[8] == p2[8] == p1[8] == '-';
    assert AllHexDigits(g1) && AllHexDigits(g2) && AllHexDigits(g3) && AllHexDigits(g4) && AllHexDigits(g5);
    RemoveHyphensOfHex(g1);
    RemoveHyphensOfHex(g2);
    RemoveHyphensOfHex(g3);
    RemoveHyphensOfHex(g4);
    RemoveHyphensOfHex(g5);
    HyphenStep(p3, g5);
    HyphenStep(p2, g4);
    HyphenStep(p1, g3);
    HyphenStep(g1, g2);
    GroupsRejoin(h);
  }

  /** A printed UUID parses back, as Python's `UUID` reads it, to the digits
      of the same 16 bytes, and those digits read back are the bytes. */
  lemma BytesToUuidRoundTrip(bs: seq<uint8>)
    requires |bs| == 16
    ensures ParseUuid(BytesToUuid(bs)) == Some(HexString(bs))
    ensures HexBytes(HexString(bs)) == bs
  {
    var u := BytesToUuid(bs);
    var h := HexString(bs);
    BytesToUuidLayout(bs);
    BytesToUuidChars(bs);
    HexBytesRoundTrip(bs);
    HexStringLowerHex(bs);
    assert StripBraces(u) == u by {
      assert u[0] != '{' && u[0] != '}' && u[35] != '{' && u[35] != '}';
    }
    assert RemoveHyphens(StripBraces(u)) == h;
    LowerFixed(h);
    assert Lower(h) == h;
  }

  // ---------------------------------------------------------------------
  // Property bits (Bluetooth Core Specification, Vol 3, Part G, section 3.3.1.1)

  /** The eight characteristic properties, in bit order. */
  datatype Flag = Broadcast | Read | WriteWithoutResponse | Write | Notify | Indicate
                | AuthenticatedSignedWrites | ExtendedProperties

  /** The bit of the property byte a property stands for. */
  function Mask(f: Flag): (m: nat)
    ensures m >= 1
  {
    match f
    case Broadcast => 0x01
    case Read => 0x02
    case WriteWithoutResponse => 0x04
    case Write => 0x08
    case Notify => 0x10
    case Indicate => 0x20
    case AuthenticatedSignedWrites => 0x40
    case ExtendedProperties => 0x80
  }

  /** The name `decode_properties` prints for a property. */
  function FlagName(f: Flag): string
  {
    match f
    case Broadcast => "Broadcast"
    case Read => "Read"
    case WriteWithoutResponse => "Write Without Response"
    case Write => "Write"
    case Notify => "Notify"
    case Indicate => "Indicate"
    case AuthenticatedSignedWrites => "Authenticated Signed Writes"
    case ExtendedProperties => "Extended Properties"
  }

  /** `props & mask` is non-zero, the mask written out for each property. */
  predicate IsSet(props: nat, f: Flag)
  {
    match f
    case Broadcast => (props / 0x01) % 2 == 1
    case Read => (props / 0x02) % 2 == 1
    case WriteWithoutResponse => (props / 0x04) % 2 == 1
    case Write => (props / 0x08) % 2 == 1
    case Notify => (props / 0x10) % 2 == 1
    case Indicate => (props / 0x20) % 2 == 1
    case AuthenticatedSignedWrites => (props / 0x40) % 2 == 1
    case ExtendedProperties => (props / 0x80) % 2 == 1
  }

  lemma IsSetMask(props: nat, f: Flag)
    ensures IsSet(props, f) <==> (props / Mask(f)) % 2 == 1
  {
  }

  /** The property, when its bit is set. */
  function Opt(props: nat, f: Flag): seq<Flag>
  {
    if IsSet(props, f) then [f] else []
  }

  /** The set properties, in bit order. */
  function Flags(props: nat): seq<Flag>
  {
    Opt(props, Broadcast) + Opt(props, Read) + Opt(props, WriteWithoutResponse) + Opt(props, Write)
    + Opt(props, Notify) + Opt(props, Indicate) + Opt(props, AuthenticatedSignedWrites) + Opt(props, ExtendedProperties)
  }

  function Names(fs: seq<Flag>): (ns: seq<string>)
    ensures |ns| == |fs|
  {
    if fs == [] then [] else [FlagName(fs[0])] + Names(fs[1..])
  }

  lemma {:induction false} NamesAppend(a: seq<Flag>, b: seq<Flag>)
    ensures Names(a + b) == Names(a) + Names(b)
    decreases |a|
  {
    if a != [] {
      assert (a + b)[1..] == a[1..] + b;
      NamesAppend(a[1..], b);
    } else {
      assert a + b == b;
    }
  }

  /** What `decode_properties` returns. */
  function PropertiesText(props: nat): string
  {
    if Flags(props) == [] then "None" else Join(Names(Flags(props)), "|")
  }

  /** `decode_properties`: eight tests in bit order, each appending a name. */
  method DecodeProperties(props: nat) returns (s: string)
    ensures s == PropertiesText(props)
  {
    var flags := AppendIfSet(props, [], Broadcast);
    assert [] + Names(Opt(props, Broadcast)) == Names(Opt(props, Broadcast));
    ghost var fs := Opt(props, Broadcast);
    NamesAppend(fs, Opt(props, Read));
    flags := AppendIfSet(props, flags, Read);
    fs := fs + Opt(props, Read);
    NamesAppend(fs, Opt(props, WriteWithoutResponse));
    flags := AppendIfSet(props, flags, WriteWithoutResponse);
    fs := fs + Opt(props, WriteWithoutResponse);
    NamesAppend(fs, Opt(props, Write));
    flags := AppendIfSet(props, flags, Write);
    fs := fs + Opt(props, Write);
    NamesAppend(fs, Opt(props, Notify));
    flags := AppendIfSet(props, flags, Notify);
    fs := fs + Opt(props, Notify);
    NamesAppend(fs, Opt(props, Indicate));
    flags := AppendIfSet(props, flags, Indicate);
    fs := fs + Opt(props, Indicate);
    NamesAppend(fs, Opt(props, AuthenticatedSignedWrites));
    flags := AppendIfSet(props, flags, AuthenticatedSignedWrites);
    fs := fs + Opt(props, AuthenticatedSignedWrites);
    NamesAppend(fs, Opt(props, ExtendedProperties));
    flags := AppendIfSet(props, flags, ExtendedProperties);
    fs := fs + Opt(props, ExtendedProperties);
    assert flags == Names(Flags(props));
    s := if flags != [] then Join(flags, "|") else "None";
  }

  /** One test: `if props & mask: flags.append(name)`. */
  method AppendIfSet(props: nat, flags: seq<string>, f: Flag) returns (r: seq<string>)
    ensures r == flags + Names(Opt(props, f))
  {
    IsSetMask(props, f);
    r := flags;
    if (props / Mask(f)) % 2 == 1 {
      r := r + [FlagName(f)];
    }
  }
  /** The property byte a list of properties describes. */
  function FlagsValue(fs: seq<Flag>): nat
  {
    if fs == [] then 0 else Mask(fs[0]) + FlagsValue(fs[1..])
  }

  lemma {:induction false} FlagsValueAppend(a: seq<Flag>, b: seq<Flag>)
    ensures FlagsValue(a + b) == FlagsValue(a) + FlagsValue(b)
    decreases |a|
  {
    if a != [] {
      assert (a + b)[1..] == a[1..] + b;
      FlagsValueAppend(a[1..], b);
    } else {
      assert a + b == b;
    }
  }

  /** Bit `f` of the byte, as a value. */
  function BitValue(props: nat, f: Flag): nat
  {
    ((props / Mask(f)) % 2) * Mask(f)
  }

  lemma OptValue(props: nat, f: Flag)
    ensures FlagsValue(Opt(props, f)) == BitValue(props, f)
  {
    IsSetMask(props, f);
  }

  lemma FlagsValueBits(props: nat)
    ensures FlagsValue(Flags(props))
      == BitValue(props, Broadcast) + BitValue(props, Read) + BitValue(props, WriteWithoutResponse) + BitValue(props, Write)
       + BitValue(props, Notify) + BitValue(props, Indicate) + BitValue(props, AuthenticatedSignedWrites)
       + BitValue(props, ExtendedProperties)
  {
    OptValue(props, Broadcast);
    OptValue(props, Read);
    OptValue(props, WriteWithoutResponse);
    OptValue(props, Write);
    OptValue(props, Notify);
    OptValue(props, Indicate);
    OptValue(props, AuthenticatedSignedWrites);
    OptValue(props, ExtendedProperties);
    FlagsValueAppend(Opt(props, Broadcast), Opt(props, Read));
    FlagsValueAppend(Opt(props, Broadcast) + Opt(props, Read), Opt(props, WriteWithoutResponse));
    FlagsValueAppend(Opt(props, Broadcast) + Opt(props, Read) + Opt(props, WriteWithoutResponse), Opt(props, Write));
    FlagsValueAppend(Opt(props, Broadcast) + Opt(props, Read) + Opt(props, WriteWithoutResponse) + Opt(props, Write), Opt(props, Notify));
    FlagsValueAppend(Opt(props, Broadcast) + Opt(props, Read) + Opt(props, WriteWithoutResponse) + Opt(props, Write) + Opt(props, Notify), Opt(props, Indicate));
    FlagsValueAppend(Opt(props, Broadcast) + Opt(props, Read) + Opt(props, WriteWithoutResponse) + Opt(props, Write) + Opt(props, Notify) + Opt(props, Indicate), Opt(props, AuthenticatedSignedWrites));
    FlagsValueAppend(Opt(props, Broadcast) + Opt(props, Read) + Opt(props, WriteWithoutResponse) + Opt(props, Write) + Opt(props, Notify) + Opt(props, Indicate) + Opt(props, AuthenticatedSignedWrites), Opt(props, ExtendedProperties));
  }

  lemma LowBits2(x: nat)
    ensures x % 2 == x % 1 + ((x / 1) % 2) * 1
  {
  }

  lemma LowBits4(x: nat)
    ensures x % 4 == x % 2 + ((x / 2) % 2) * 2
  {
  }

  lemma LowBits8(x: nat)
    ensures x % 8 == x % 4 + ((x / 4) % 2) * 4
  {
  }

  lemma LowBits16(x: nat)
    ensures x % 16 == x % 8 + ((x / 8) % 2) * 8
  {
  }

  lemma LowBits32(x: nat)
    ensures x % 32 == x % 16 + ((x / 16) % 2) * 16
  {
  }

  lemma LowBits64(x: nat)
    ensures x % 64 == x % 32 + ((x / 32) % 2) * 32
  {
  }

  lemma LowBits128(x: nat)
    ensures x % 128 == x % 64 + ((x / 64) % 2) * 64
  {
  }

  lemma LowBits256(x: nat)
    ensures x % 256 == x % 128 + ((x / 128) % 2) * 128
  {
  }

  /** The properties read back give the property byte (bits above the
      eighth are not shown). */
  lemma FlagsRoundTrip(props: nat)
    ensures FlagsValue(Flags(props)) == props % 256
  {
    FlagsValueBits(props);
    LowBits2(props);
    LowBits4(props);
    LowBits8(props);
    LowBits16(props);
    LowBits32(props);
    LowBits64(props);
    LowBits128(props);
    LowBits256(props);
  }

  /** Every property is listed exactly when its bit is set. */
  lemma FlagListed(props: nat, f: Flag)
    ensures f in Flags(props) <==> IsSet(props, f)
  {
    InFlags(props, f);
    InOpt(props, Broadcast, f);
    InOpt(props, Read, f);
    InOpt(props, WriteWithoutResponse, f);
    InOpt(props, Write, f);
    InOpt(props, Notify, f);
    InOpt(props, Indicate, f);
    InOpt(props, AuthenticatedSignedWrites, f);
    InOpt(props, ExtendedProperties, f);
  }

  lemma InFlags(props: nat, f: Flag)
    ensures f in Flags(props) <==>
              f in Opt(props, Broadcast) || f in Opt(props, Read) || f in Opt(props, WriteWithoutResponse)
              || f in Opt(props, Write) || f in Opt(props, Notify) || f in Opt(props, Indicate)
              || f in Opt(props, AuthenticatedSignedWrites) || f in Opt(props, ExtendedProperties)
  {
  }

  lemma InOpt(props: nat, g: Flag, f: Flag)
    ensures f in Opt(props, g) <==> f == g && IsSet(props, g)
  {
  }

  /** Letters and spaces only. */
  predicate Plain(s: string)
  {
    forall i :: 0 <= i < |s| ==> s[i] == ' ' || 'A' <= s[i] <= 'Z' || 'a' <= s[i] <= 'z'
  }

  /** The names of three words. */
  predicate LongName(f: Flag)
  {
    f == WriteWithoutResponse || f == AuthenticatedSignedWrites || f == ExtendedProperties
  }

  lemma WithoutResponseIsPlain()
    ensures Plain(FlagName(WriteWithoutResponse))
  {
  }

  lemma SignedWritesIsPlain()
    ensures Plain(FlagName(AuthenticatedSignedWrites))
  {
  }

  lemma ExtendedIsPlain()
    ensures Plain(FlagName(ExtendedProperties))
  {
  }

  lemma ShortNameIsPlain(f: Flag)
    requires !LongName(f)
    ensures Plain(FlagName(f))
  {
  }

  /** No name contains a separator. */
  lemma FlagNamePlain(f: Flag)
    ensures '|' !in FlagName(f) && ':' !in FlagName(f)
  {
    if f == WriteWithoutResponse {
      WithoutResponseIsPlain();
    } else if f == AuthenticatedSignedWrites {
      SignedWritesIsPlain();
    } else if f == ExtendedProperties {
      ExtendedIsPlain();
    } else {
      ShortNameIsPlain(f);
    }
  }

  /** No name could be mistaken for "None". */
  lemma FlagNameNotNone(f: Flag)
    ensures |FlagName(f)| >= 4 && (FlagName(f)[0] != 'N' || FlagName(f)[2] != 'n')
  {
  }

  lemma JoinStartsWith(items: seq<string>, sep: string)
    requires items != []
    ensures |items[0]| <= |Join(items, sep)| && Join(items, sep)[..|items[0]|] == items[0]
  {
    if |items| > 1 {
      assert Join(items, sep) == items[0] + (sep + Join(items[1..], sep));
    }
  }

  /** "None" exactly for a byte with no bit set. */
  lemma PropertiesNone(props: nat)
    ensures PropertiesText(props) == "None" <==> props % 256 == 0
  {
    FlagsRoundTrip(props);
    var fs := Flags(props);
    if fs != [] {
      var ns := Names(fs);
      FlagNameNotNone(fs[0]);
      JoinStartsWith(ns, "|");
      assert PropertiesText(props)[0] == ns[0][0] && PropertiesText(props)[2] == ns[0][2];
    }
  }

  /** Python's reading of a flag name back into its mask. */
  function MaskOfName(name: string): nat
  {
    if name == "Broadcast" then 0x01
    else if name == "Read" then 0x02
    else if name == "Write Without Response" then 0x04
    else if name == "Write" then 0x08
    else if name == "Notify" then 0x10
    else if name == "Indicate" then 0x20
    else if name == "Authenticated Signed Writes" then 0x40
    else if name == "Extended Properties" then 0x80
    else 0
  }

  function NamesValue(ns: seq<string>): nat
  {
    if ns == [] then 0 else MaskOfName(ns[0]) + NamesValue(ns[1..])
  }

  lemma MaskOfFlagName(f: Flag)
    ensures MaskOfName(FlagName(f)) == Mask(f)
  {
  }

  lemma {:induction false} NamesValueOfFlags(fs: seq<Flag>)
    ensures NamesValue(Names(fs)) == FlagsValue(fs)
    decreases |fs|
  {
    if fs != [] {
      NamesValueOfFlags(fs[1..]);
      MaskOfFlagName(fs[0]);
    }
  }

  lemma NamesPlain(fs: seq<Flag>)
    ensures forall j :: 0 <= j < |fs| ==> '|' !in Names(fs)[j]
  {
    forall j | 0 <= j < |fs| ensures '|' !in Names(fs)[j] {
      NamesAt(fs, j);
      FlagNamePlain(fs[j]);
    }
  }

  lemma {:induction false} NamesAt(fs: seq<Flag>, j: nat)
    requires j < |fs|
    ensures Names(fs)[j] == FlagName(fs[j])
    decreases j
  {
    if j > 0 {
      NamesAt(fs[1..], j - 1);
    }
  }

  /** The decoded properties never hold a colon. */
  lemma PropertiesTextPlain(props: nat)
    ensures ':' !in PropertiesText(props)
  {
    var fs := Flags(props);
    if fs != [] {
      forall j | 0 <= j < |fs| ensures ':' !in Names(fs)[j] {
        NamesAt(fs, j);
        FlagNamePlain(fs[j]);
      }
      JoinLacks(Names(fs), "|", ':');
    }
  }

  /** The text `decode_properties` prints reads back as the property byte. */
  lemma PropertiesTextRoundTrip(props: nat)
    requires props % 256 != 0
    ensures NamesValue(Split(PropertiesText(props), '|')) == props % 256
  {
    FlagsRoundTrip(props);
    PropertiesNone(props);
    var fs := Flags(props);
    NamesPlain(fs);
    SplitJoin(Names(fs), '|');
    NamesValueOfFlags(fs);
  }

  // ---------------------------------------------------------------------
  // Custom UUIDs and the Bluetooth Base UUID (Core Specification, Vol 3,
  // Part B, section 2.5.1)

  /** The groups of the Bluetooth Base UUID after its first eight digits. */
  const BASE_GROUPS: seq<string> := ["0000", "1000", "8000", "00805f9b34fb"]
  /** `-0000-1000-8000-00805f9b34fb`. */
  const BASE_UUID_TAIL: string := ("-" + BASE_GROUPS[0]) + ("-" + BASE_GROUPS[1]) + ("-" + BASE_GROUPS[2]) + ("-" + BASE_GROUPS[3])
  /** The same, without hyphens. */
  const BASE_UUID_TAIL_HEX: string := BASE_GROUPS[0] + BASE_GROUPS[1] + BASE_GROUPS[2] + BASE_GROUPS[3]

  /** Removing the hyphens of a full UUID in the Base UUID form. */
  lemma BaseFormDigits(d: string, tail: string, g2: string, g3: string, g4: string, g5: string)
    requires AllHexDigits(d) && AllHexDigits(g2) && AllHexDigits(g3) && AllHexDigits(g4) && AllHexDigits(g5)
    requires tail == ("-" + g2) + ("-" + g3) + ("-" + g4) + ("-" + g5)
    ensures RemoveHyphens("0000" + d + tail) == "0000" + d + (g2 + g3 + g4 + g5)
  {
    HyphenGroup(g2);
    HyphenGroup(g3);
    HyphenGroup(g4);
    HyphenGroup(g5);
    RemoveHyphensAppend(("-" + g2) + ("-" + g3) + ("-" + g4), "-" + g5);
    RemoveHyphensAppend(("-" + g2) + ("-" + g3), "-" + g4);
    RemoveHyphensAppend("-" + g2, "-" + g3);
    RemoveHyphensAppend("0000" + d, tail);
    RemoveHyphensAppend("0000", d);
    RemoveHyphensOfHex("0000");
    RemoveHyphensOfHex(d);
  }

  lemma HyphenGroup(g: string)
    requires AllHexDigits(g)
    ensures RemoveHyphens("-" + g) == g
  {
    assert ("-" + g)[1..] == g;
    RemoveHyphensOfHex(g);
  }
  predicate StartsWith(s: string, p: string)
  {
    |p| <= |s| && s[..|p|] == p
  }

  /** Python's `s.rjust(width, fill)`. */
  function RJust(s: string, width: nat, fill: char): (t: string)
    ensures |t| == if |s| >= width then |s| else width
  {
    if |s| >= width then s else seq(width - |s|, _ => fill) + s
  }

  /** The key `decode_custom_uuid` looks up: the lower-cased text, with a
      `0x` short form padded to four digits, upper-cased and placed in the
      Base UUID. */
  function CustomKey(entry: string): string
  {
    var e := Lower(entry);
    if StartsWith(e, "0x") then "0000" + Upper(RJust(e[2..], 4, '0')) + BASE_UUID_TAIL else e
  }

  /** `decode_custom_uuid`: the custom name under the key, if any. */
  function DecodeCustomUuid(entry: string, custom: map<string, string>): Option<string>
  {
    var key := CustomKey(entry);
    if key in custom then Some(custom[key]) else None
  }

  /** A short form becomes a 36-character key in the Base UUID; anything
      else is only lower-cased. */
  lemma CustomKeyShape(entry: string)
    ensures StartsWith(Lower(entry), "0x") && |entry| <= 6 ==>
      var key := CustomKey(entry);
      |key| == 36 && key[..4] == "0000" && key[8..] == BASE_UUID_TAIL
    ensures !StartsWith(Lower(entry), "0x") ==> CustomKey(entry) == Lower(entry)
  {
  }

  /** The short form and the full Base UUID form of one 16-bit UUID give the
      same key exactly when its four digits hold no letter: the short form's
      digits are upper-cased and the full form's are lower-cased. */
  lemma ShortAndFullKeys(d: string)
    requires |d| == 4 && AllHexDigits(d) && NoUpper(d)
    ensures CustomKey("0x" + d) == CustomKey("0000" + d + BASE_UUID_TAIL) <==> NoLower(d)
  {
    var full := "0000" + d + BASE_UUID_TAIL;
    ShortKey(d);
    FullKey(d);
    UpperFixed(d);
    if CustomKey("0x" + d) == CustomKey(full) {
      assert Upper(d) == CustomKey("0x" + d)[4..8] == full[4..8] == d;
    }
  }

  lemma ShortKey(d: string)
    requires |d| == 4 && NoUpper(d)
    ensures CustomKey("0x" + d) == "0000" + Upper(d) + BASE_UUID_TAIL
  {
    var short := "0x" + d;
    LowerFixed(d);
    LowerAppend("0x", d);
    assert Lower("0x") == "0x";
    assert Lower(short) == short;
    assert short[2..] == d;
  }

  lemma FullKey(d: string)
    requires |d| == 4 && NoUpper(d)
    ensures CustomKey("0000" + d + BASE_UUID_TAIL) == "0000" + d + BASE_UUID_TAIL
  {
    var full := "0000" + d + BASE_UUID_TAIL;
    BaseTailLower();
    NoUpperAppend("0000", d);
    NoUpperAppend("0000" + d, BASE_UUID_TAIL);
    LowerFixed(full);
    assert full[1] == '0';
  }

  lemma NoUpperAppend(a: string, b: string)
    requires NoUpper(a) && NoUpper(b)
    ensures NoUpper(a + b)
  {
  }

  lemma BaseTailLower()
    ensures |BASE_UUID_TAIL| == 28 && NoUpper(BASE_UUID_TAIL)
  {
  }

  // ---------------------------------------------------------------------
  // Names

  /** A JSON value that is, or is not, a string. */
  datatype UuidEntry = Str(s: string) | NotStr

  /** The name tables: Bluetooth SIG services, characteristics and
      companies by 16-bit number, and custom names by full UUID text. */
  datatype Tables = Tables(
    services: map<nat, string>,
    characteristics: map<nat, string>,
    company: map<nat, string>,
    custom: map<string, string>)

  /** `int(s, 16)` for a text starting with `0x`: one or more hexadecimal
      digits must follow. */
  function ParseShort(s: string): Option<nat>
    requires StartsWith(s, "0x")
  {
    var d := s[2..];
    if d != [] && AllHexDigits(d) then Some(HexDigitsValue(d)) else None
  }

  /** Python's `s.strip('{}')`. */
  function StripBraces(s: string): string
    decreases |s|
  {
    if s != [] && (s[0] == '{' || s[0] == '}') then StripBraces(s[1..])
    else if s != [] && (s[|s| - 1] == '{' || s[|s| - 1] == '}') then StripBraces(s[..|s| - 1])
    else s
  }

  /** `UUID(s).hex`: without braces and hyphens there must be 32 hexadecimal
      digits, which come back in lower case. */
  function ParseUuid(s: string): (r: Option<string>)
  {
    var t := RemoveHyphens(StripBraces(s));
    if |t| == 32 && AllHexDigits(t) then Some(Lower(t)) else None
  }

  lemma {:induction false} LowerHex(t: string)
    requires AllHexDigits(t)
    ensures AllHexDigits(Lower(t))
    decreases |t|
  {
    if t != [] {
      LowerHex(t[1..]);
    }
  }

  /** A truthy `m.get(k)`: present and not empty. */
  predicate Named<K>(m: map<K, string>, k: K)
  {
    k in m && m[k] != ""
  }

  /** `decode_uuid`. */
  function DecodeUuid(e: UuidEntry, t: Tables): string
  {
    match e
    case NotStr => "Custom Service"
    case Str(s) =>
      if StartsWith(s, "0x") then
        match ParseShort(s)
        case None => s
        case Some(uid) =>
          if Named(t.services, uid) then t.services[uid]
          else if Named(t.company, uid) then t.company[uid]
          else
            var c := DecodeCustomUuid(s, t.custom);
            if c.Some? && c.value != "" then c.value else s
      else
        match ParseUuid(s)
        case None => s
        case Some(h) =>
          LowerHex(RemoveHyphens(StripBraces(s)));
          if h[..4] == "0000" && h[8..] == BASE_UUID_TAIL_HEX then
            var short := HexDigitsValue(h[4..8]);
            if short in t.services then t.services[short] else "Custom Service"
          else
            var c := DecodeCustomUuid(s, t.custom);
            if c.Some? && c.value != "" then c.value else "Custom Service"
  }

  /** `decode_characteristic`. */
  function DecodeCharacteristic(e: UuidEntry, t: Tables): string
  {
    match e
    case NotStr => "Custom Characteristic"
    case Str(s) =>
      if !StartsWith(s, "0x") then "Custom Characteristic"
      else
        match ParseShort(s)
        case None => s
        case Some(uid) => if uid in t.characteristics then t.characteristics[uid] else s
  }

  /** Anything that is not a string names a custom service; a `0x` text
      that is not a number is returned as it is. */
  lemma DecodeUuidFallbacks(s: string, t: Tables)
    ensures DecodeUuid(NotStr, t) == "Custom Service"
    ensures StartsWith(s, "0x") && (s[2..] == [] || !AllHexDigits(s[2..])) ==> DecodeUuid(Str(s), t) == s
  {
  }

  /** `decode_characteristic` names a custom characteristic for anything
      but a `0x` text. */
  lemma DecodeCharacteristicFallbacks(e: UuidEntry, t: Tables)
    ensures !(e.Str? && StartsWith(e.s, "0x")) ==> DecodeCharacteristic(e, t) == "Custom Characteristic"
  {
  }

  /** Four lower-case digits of a 16-bit number. */
  function Hex4(x: nat): (s: string)
    requires x < 0x1_0000
  {
    Hex2(x / 256, false) + Hex2(x % 256, false)
  }

  /** A 16-bit UUID in the Bluetooth Base UUID. */
  function BaseUuid(x: nat): string
    requires x < 0x1_0000
  {
    "0000" + Hex4(x) + BASE_UUID_TAIL
  }

  lemma Hex4Value(x: nat)
    requires x < 0x1_0000
    ensures AllHexDigits(Hex4(x)) && NoUpper(Hex4(x)) && HexDigitsValue(Hex4(x)) == x
  {
    var h := Hex4(x);
    var hi := Hex2(x / 256, false);
    var lo := Hex2(x % 256, false);
    ValueOfHex2(x / 256);
    assert h[..3][..2] == hi && h[..2] == hi;
    assert HexDigitsValue(h[..3]) == HexDigitsValue(hi) * 16 + HexValue(lo[0]);
    assert HexDigitsValue(h) == HexDigitsValue(h[..3]) * 16 + HexValue(lo[1]);
  }

  /** A full UUID in the Base UUID is reduced to its 16-bit number and
      named from the service table, or is a custom service. */
  lemma BaseUuidReduced(x: nat, t: Tables)
    requires x < 0x1_0000
    ensures DecodeUuid(Str(BaseUuid(x)), t) == if x in t.services then t.services[x] else "Custom Service"
  {
    var d := Hex4(x);
    var h := "0000" + d + BASE_UUID_TAIL_HEX;
    Hex4Value(x);
    BaseUuidParsed(d);
    assert h[..4] == "0000" && h[8..] == BASE_UUID_TAIL_HEX && h[4..8] == d;
  }

  /** The Base UUID form of four lower-case digits parses to its 32 digits. */
  lemma BaseUuidParsed(d: string)
    requires |d| == 4 && AllHexDigits(d) && NoUpper(d)
    ensures !StartsWith("0000" + d + BASE_UUID_TAIL, "0x")
    ensures ParseUuid("0000" + d + BASE_UUID_TAIL) == Some("0000" + d + BASE_UUID_TAIL_HEX)
  {
    var s := "0000" + d + BASE_UUID_TAIL;
    var h := "0000" + d + BASE_UUID_TAIL_HEX;
    assert s[1] == '0';
    assert StripBraces(s) == s by {
      assert s[0] == '0' && s[|s| - 1] == 'b';
    }
    BaseTailHex();
    BaseFormDigits(d, BASE_UUID_TAIL, BASE_GROUPS[0], BASE_GROUPS[1], BASE_GROUPS[2], BASE_GROUPS[3]);
    assert AllHexDigits(h) && NoUpper(h);
    LowerFixed(h);
  }

  lemma BaseTailHex()
    ensures AllHexDigits(BASE_GROUPS[0]) && AllHexDigits(BASE_GROUPS[1])
    ensures AllHexDigits(BASE_GROUPS[2]) && AllHexDigits(BASE_GROUPS[3])
    ensures |BASE_UUID_TAIL_HEX| == 24 && AllHexDigits(BASE_UUID_TAIL_HEX) && NoUpper(BASE_UUID_TAIL_HEX)
  {
  }

  /** A characteristic's short form, as `%x` prints it, is named from the
      table, or comes back as it is. */
  lemma CharacteristicShortForm(x: nat, t: Tables)
    ensures DecodeCharacteristic(Str("0x" + NatToHex(x)), t)
      == if x in t.characteristics then t.characteristics[x] else "0x" + NatToHex(x)
  {
    var s := "0x" + NatToHex(x);
    assert s[2..] == NatToHex(x) && s[..2] == "0x";
    HexRoundTrip(x);
  }
}
