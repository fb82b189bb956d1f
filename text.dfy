// Character-level rendering and scanning shared by the firmware's printers
// and parsers: the printf conversions `%d`, `%x`, `%02x`, `%02X`, C's
// `atoi`, and the `%x` conversion of `sscanf`.

module Text {
  import opened Bytes

  predicate IsDigit(c: char) { '0' <= c <= '9' }

  predicate IsHexDigit(c: char) { IsDigit(c) || 'a' <= c <= 'f' || 'A' <= c <= 'F' }

  /** The characters C's `isspace` accepts in the "C" locale. */
  predicate IsSpace(c: char) { c == ' ' || 9 <= c as int <= 13 }

  predicate AllDigits(s: string) { forall i :: 0 <= i < |s| ==> IsDigit(s[i]) }

  predicate AllHexDigits(s: string) { forall i :: 0 <= i < |s| ==> IsHexDigit(s[i]) }

  function DigitChar(d: nat): (c: char)
    requires d < 10
    ensures IsDigit(c) && c as int - '0' as int == d
  {
    ('0' as int + d) as char
  }

  function HexValue(c: char): (v: nat)
    requires IsHexDigit(c)
    ensures v < 16
  {
    if IsDigit(c) then c as int - '0' as int
    else if 'a' <= c <= 'f' then c as int - 'a' as int + 10
    else c as int - 'A' as int + 10
  }

  /** One hexadecimal digit, lower- or upper-case. */
  function HexChar(n: nat, upper: bool): (c: char)
    requires n < 16
    ensures IsHexDigit(c) && HexValue(c) == n
    ensures upper ==> !('a' <= c <= 'f')
    ensures !upper ==> !('A' <= c <= 'F')
  {
    if n < 10 then DigitChar(n)
    else if upper then ('A' as int + n - 10) as char
    else ('a' as int + n - 10) as char
  }

  /** `%02x` (lower case) or `%02X` (upper case) of one byte. */
  function Hex2(b: uint8, upper: bool): (s: string)
    ensures |s| == 2 && AllHexDigits(s)
    ensures HexValue(s[0]) * 16 + HexValue(s[1]) == b
  {
    [HexChar(b / 16, upper), HexChar(b % 16, upper)]
  }

  /** The value of a run of decimal digits. */
  function DigitsValue(s: string): nat
    requires AllDigits(s)
  {
    if s == [] then 0 else DigitsValue(s[..|s| - 1]) * 10 + (s[|s| - 1] as int - '0' as int)
  }

  /** The value of a run of hexadecimal digits. */
  function HexDigitsValue(s: string): nat
    requires AllHexDigits(s)
  {
    if s == [] then 0 else HexDigitsValue(s[..|s| - 1]) * 16 + HexValue(s[|s| - 1])
  }

  /** `%u` of a natural number: shortest decimal form. */
  function NatToDecimal(n: nat): (s: string)
    ensures 1 <= |s| && AllDigits(s)
    ensures |s| > 1 ==> s[0] != '0'
  {
    if n < 10 then [DigitChar(n)] else NatToDecimal(n / 10) + [DigitChar(n % 10)]
  }

  /** `%d` / `%lld`. */
  function IntToDecimal(i: int): (s: string)
    ensures 1 <= |s| && (IsDigit(s[0]) || s[0] == '-')
    ensures forall k :: 1 <= k < |s| ==> IsDigit(s[k])
    ensures s[0] == '-' <==> i < 0
  {
    if i < 0 then "-" + NatToDecimal(-i) else NatToDecimal(i)
  }

  /** `%x` of a natural number: shortest lower-case hexadecimal form. */
  function NatToHex(n: nat): (s: string)
    ensures 1 <= |s| && AllHexDigits(s)
    ensures forall k :: 0 <= k < |s| ==> !('A' <= s[k] <= 'F')
  {
    if n < 16 then [HexChar(n, false)] else NatToHex(n / 16) + [HexChar(n % 16, false)]
  }

  lemma {:induction false} DecimalRoundTrip(n: nat)
    ensures DigitsValue(NatToDecimal(n)) == n
    decreases n
  {
    if n >= 10 {
      var s := NatToDecimal(n);
      assert s[..|s| - 1] == NatToDecimal(n / 10);
      DecimalRoundTrip(n / 10);
    }
  }

  lemma {:induction false} HexRoundTrip(n: nat)
    ensures HexDigitsValue(NatToHex(n)) == n
    decreases n
  {
    if n >= 16 {
      var s := NatToHex(n);
      assert s[..|s| - 1] == NatToHex(n / 16);
      HexRoundTrip(n / 16);
    }
  }

  function Pow10(k: nat): (p: nat)
    ensures p >= 1
  {
    if k == 0 then 1 else 10 * Pow10(k - 1)
  }

  /** A number below 10^k takes at most k digits. */
  lemma {:induction false} DecimalLength(n: nat, k: nat)
    requires 1 <= k && n < Pow10(k)
    ensures |NatToDecimal(n)| <= k
    decreases k
  {
    if n >= 10 {
      assert k >= 2;
      DecimalLength(n / 10, k - 1);
    }
  }

  /** Items separated by `sep` (Python's `sep.join(items)`). */
  function Join(items: seq<string>, sep: string): string
  {
    if |items| == 0 then "" else if |items| == 1 then items[0] else items[0] + sep + Join(items[1..], sep)
  }

  /** A character in neither the parts nor the separator is not in the
      joined text. */
  lemma {:induction false} JoinLacks(items: seq<string>, sep: string, c: char)
    requires c !in sep && forall i :: 0 <= i < |items| ==> c !in items[i]
    ensures c !in Join(items, sep)
    decreases |items|
  {
    if |items| > 1 {
      JoinLacks(items[1..], sep, c);
    }
  }

  /** Bytes as two-digit hexadecimal pairs separated by colons: the
      `%02x:%02x:...` form of a Bluetooth device address. */
  function HexPairs(bs: seq<uint8>, upper: bool): (s: string)
    ensures bs != [] ==> |s| == 3 * |bs| - 1
  {
    if |bs| == 0 then "" else if |bs| == 1 then Hex2(bs[0], upper) else Hex2(bs[0], upper) + ":" + HexPairs(bs[1..], upper)
  }

  /** The first pair, then the separator and the remaining pairs. */
  lemma HexPairsSplit(bs: seq<uint8>, upper: bool)
    requires |bs| > 1
    ensures HexPairs(bs, upper) == Hex2(bs[0], upper) + (":" + HexPairs(bs[1..], upper))
  {
  }

  /** Length of the longest prefix of decimal digits. */
  function DigitRun(s: string): (n: nat)
    ensures n <= |s| && AllDigits(s[..n])
    ensures n < |s| ==> !IsDigit(s[n])
  {
    if s == [] || !IsDigit(s[0]) then 0 else 1 + DigitRun(s[1..])
  }

  /** Length of the longest prefix of hexadecimal digits. */
  function HexRun(s: string): (n: nat)
    ensures n <= |s| && AllHexDigits(s[..n])
    ensures n < |s| ==> !IsHexDigit(s[n])
  {
    if s == [] || !IsHexDigit(s[0]) then 0 else 1 + HexRun(s[1..])
  }

  function SkipSpace(s: string): (t: string)
    ensures |t| <= |s| && t == s[|s| - |t|..]
    ensures t != [] ==> !IsSpace(t[0])
  {
    if s != [] && IsSpace(s[0]) then SkipSpace(s[1..]) else s
  }

  /** C's `atoi` / `atoll`: leading white space, an optional sign, then the
      longest run of decimal digits; 0 when there are none. */
  function Atoi(s: string): int
  {
    var t := SkipSpace(s);
    if t != [] && (t[0] == '-' || t[0] == '+') then
      var u := t[1..];
      var v: int := DigitsValue(u[..DigitRun(u)]);
      if t[0] == '-' then -v else v
    else
      DigitsValue(t[..DigitRun(t)])
  }

  lemma {:induction false} DigitRunOfDigits(a: string, rest: string)
    requires AllDigits(a)
    requires rest == [] || !IsDigit(rest[0])
    ensures DigitRun(a + rest) == |a|
    decreases |a|
  {
    if a != [] {
      assert (a + rest)[1..] == a[1..] + rest;
      DigitRunOfDigits(a[1..], rest);
    }
  }

  lemma {:induction false} HexRunOfHexDigits(a: string, rest: string)
    requires AllHexDigits(a)
    requires rest == [] || !IsHexDigit(rest[0])
    ensures HexRun(a + rest) == |a|
    decreases |a|
  {
    if a != [] {
      assert (a + rest)[1..] == a[1..] + rest;
      HexRunOfHexDigits(a[1..], rest);
    }
  }

  /** `atoi` reads back what `%d` wrote, whatever follows that is not a digit. */
  lemma AtoiOfDecimal(i: int, rest: string)
    requires rest == [] || !IsDigit(rest[0])
    ensures Atoi(IntToDecimal(i) + rest) == i
  {
    var n: nat := if i < 0 then -i else i;
    var d := NatToDecimal(n);
    DecimalRoundTrip(n);
    DigitRunOfDigits(d, rest);
    ConcatSplit(d, rest);
    assert (d + rest)[0] == d[0];
    if i < 0 {
      SeqAssoc("-", d, rest);
      AtoiNegative(d + rest);
    } else {
      AtoiUnsigned(d + rest);
    }
  }

  lemma AtoiUnsigned(u: string)
    requires u != [] && IsDigit(u[0])
    ensures Atoi(u) == DigitsValue(u[..DigitRun(u)])
  {
    NoSpace(u);
  }

  lemma AtoiNegative(u: string)
    requires u != [] && IsDigit(u[0])
    ensures Atoi("-" + u) == -(DigitsValue(u[..DigitRun(u)]) as int)
  {
    var s := "-" + u;
    NoSpace(s);
    assert s[1..] == u;
  }

  /** `a` is what remains of `b` once a prefix of it has been read. */
  predicate IsSuffix(a: string, b: string)
  {
    |a| <= |b| && a == b[|b| - |a|..]
  }

  lemma SuffixTrans(a: string, b: string, c: string)
    requires IsSuffix(a, b) && IsSuffix(b, c)
    ensures IsSuffix(a, c)
  {
  }

  /** The text after an optional sign. */
  function SkipSign(t: string): (u: string)
    ensures IsSuffix(u, t)
  {
    if t != [] && (t[0] == '-' || t[0] == '+') then t[1..] else t
  }

  /** The text after a `0x`/`0X` prefix, when a hexadecimal digit follows it. */
  function SkipHexPrefix(u: string): (w: string)
    ensures IsSuffix(w, u)
  {
    if |u| >= 3 && u[0] == '0' && (u[1] == 'x' || u[1] == 'X') && IsHexDigit(u[2]) then u[2..] else u
  }

  /** One `%x` conversion of `sscanf`: white space is skipped, an optional
      sign and an optional `0x`/`0X` prefix are accepted, then at least one
      hexadecimal digit. Yields the value and the unread rest. */
  function ScanHex(s: string): (r: Option<(int, string)>)
    ensures r.Some? ==> |r.value.1| < |s| && IsSuffix(r.value.1, s)
  {
    var t := SkipSpace(s);
    var u := SkipSign(t);
    var w := SkipHexPrefix(u);
    var n := HexRun(w);
    if n == 0 then None
    else
      var v: int := HexDigitsValue(w[..n]);
      SuffixTrans(w, u, t);
      SuffixTrans(w, t, s);
      SuffixTrans(w[n..], w, s);
      Some((if t != [] && t[0] == '-' then -v else v, w[n..]))
  }

  lemma ScanHexOfHex2(b: uint8, rest: string)
    requires rest == [] || rest[0] == ':'
    ensures ScanHex(Hex2(b, false) + rest) == Some((b, rest))
  {
    Hex2Scanned(b, rest);
    ValueOfHex2(b);
  }

  /** Nothing to skip in front of a pair, and its two digits are the run. */
  lemma Hex2Scanned(b: uint8, rest: string)
    requires rest == [] || rest[0] == ':'
    ensures var s := Hex2(b, false) + rest;
      SkipSpace(s) == s && SkipSign(s) == s && SkipHexPrefix(s) == s
      && HexRun(s) == 2 && s[..2] == Hex2(b, false) && s[2..] == rest
  {
    PairScanned(Hex2(b, false), rest);
  }

  lemma PairScanned(h: string, rest: string)
    requires |h| == 2 && AllHexDigits(h)
    requires rest == [] || rest[0] == ':'
    ensures var s := h + rest;
      SkipSpace(s) == s && SkipSign(s) == s && SkipHexPrefix(s) == s
      && HexRun(s) == 2 && s[..2] == h && s[2..] == rest
  {
    NothingSkipped(h + rest);
    HexRunOfHexDigits(h, rest);
    ConcatSplit(h, rest);
  }

  /** Text starting with two hexadecimal digits has no space, sign or
      `0x` prefix to skip. */
  lemma NothingSkipped(s: string)
    requires |s| >= 2 && IsHexDigit(s[0]) && IsHexDigit(s[1])
    ensures SkipSpace(s) == s && SkipSign(s) == s && SkipHexPrefix(s) == s
  {
    NoSpace(s);
    NoSign(s);
    NoHexPrefix(s);
  }

  lemma NoSpace(s: string)
    requires s != [] && (IsHexDigit(s[0]) || s[0] == '-')
    ensures SkipSpace(s) == s
  {
  }

  lemma NoSign(s: string)
    requires s != [] && IsHexDigit(s[0])
    ensures SkipSign(s) == s
  {
  }

  lemma NoHexPrefix(s: string)
    requires |s| >= 2 && IsHexDigit(s[1])
    ensures SkipHexPrefix(s) == s
  {
  }

  /** A concatenation splits back into its two parts. */
  lemma ConcatSplit(h: string, rest: string)
    ensures (h + rest)[..|h|] == h && (h + rest)[|h|..] == rest
  {
  }

  lemma ValueOfHex2(b: uint8)
    ensures HexDigitsValue(Hex2(b, false)) == b
  {
    var h := Hex2(b, false);
    assert h[..1][..0] == [];
    assert HexDigitsValue(h[..1]) == HexValue(h[0]);
    assert HexDigitsValue(h) == HexDigitsValue(h[..1]) * 16 + HexValue(h[1]);
  }

  // ---------------------------------------------------------------------
  // Python's ASCII case mapping

  /** Python's `str.upper`, on ASCII letters. */
  function Upper(s: string): (t: string)
    ensures |t| == |s|
  {
    if s == [] then [] else [if 'a' <= s[0] <= 'z' then (s[0] as int - 32) as char else s[0]] + Upper(s[1..])
  }

  lemma {:induction false} UpperAppend(a: string, b: string)
    ensures Upper(a + b) == Upper(a) + Upper(b)
    decreases |a|
  {
    if a != [] {
      assert (a + b)[1..] == a[1..] + b;
      UpperAppend(a[1..], b);
    } else {
      assert a + b == b;
    }
  }

  /** Python's `str.lower`, on ASCII letters. */
  function Lower(s: string): (t: string)
    ensures |t| == |s|
  {
    if s == [] then [] else [if 'A' <= s[0] <= 'Z' then (s[0] as int + 32) as char else s[0]] + Lower(s[1..])
  }

  lemma {:induction false} LowerAppend(a: string, b: string)
    ensures Lower(a + b) == Lower(a) + Lower(b)
    decreases |a|
  {
    if a != [] {
      assert (a + b)[1..] == a[1..] + b;
      LowerAppend(a[1..], b);
    } else {
      assert a + b == b;
    }
  }

  /** No upper-case ASCII letter. */
  predicate NoUpper(s: string)
  {
    forall i :: 0 <= i < |s| ==> !('A' <= s[i] <= 'Z')
  }

  /** No lower-case ASCII letter. */
  predicate NoLower(s: string)
  {
    forall i :: 0 <= i < |s| ==> !('a' <= s[i] <= 'z')
  }

  /** Lower-casing leaves a string without capitals alone, and only such a
      string. */
  lemma {:induction false} LowerFixed(s: string)
    ensures Lower(s) == s <==> NoUpper(s)
    decreases |s|
  {
    if s != [] {
      LowerFixed(s[1..]);
      if Lower(s) == s {
        assert Lower(s)[1..] == Lower(s[1..]);
      }
    }
  }

  /** Upper-casing leaves a string without small letters alone, and only
      such a string. */
  lemma {:induction false} UpperFixed(s: string)
    ensures Upper(s) == s <==> NoLower(s)
    decreases |s|
  {
    if s != [] {
      UpperFixed(s[1..]);
      if Upper(s) == s {
        assert Upper(s)[1..] == Upper(s[1..]);
      }
    }
  }

  /** Python's `s.split(sep)` with a one-character separator. */
  function Split(s: string, sep: char): (parts: seq<string>)
    ensures |parts| >= 1
    decreases |s|
  {
    if s == [] then [""]
    else
      var rest := Split(s[1..], sep);
      if s[0] == sep then [""] + rest else [[s[0]] + rest[0]] + rest[1..]
  }

  /** How often `c` occurs in `s`. */
  function Count(s: string, c: char): nat
  {
    if s == [] then 0 else (if s[0] == c then 1 else 0) + Count(s[1..], c)
  }

  lemma {:induction false} CountAppend(a: string, b: string, c: char)
    ensures Count(a + b, c) == Count(a, c) + Count(b, c)
    decreases |a|
  {
    if a == [] {
      assert a + b == b;
    } else {
      assert (a + b)[1..] == a[1..] + b;
      CountAppend(a[1..], b, c);
    }
  }

  /** A character occurs in `s` exactly when it is counted there. */
  lemma {:induction false} CountPositive(s: string, c: char)
    ensures Count(s, c) > 0 <==> c in s
    decreases |s|
  {
    if s != [] {
      CountPositive(s[1..], c);
      assert s == [s[0]] + s[1..];
    }
  }

  /** A string without the separator is one part. */
  lemma {:induction false} SplitWithoutSep(s: string, sep: char)
    requires sep !in s
    ensures Split(s, sep) == [s]
    decreases |s|
  {
    if s != [] {
      SplitWithoutSep(s[1..], sep);
      assert [s[0]] + s[1..] == s;
    }
  }

  /** Splitting at the first separator. */
  lemma {:induction false} SplitAtSep(a: string, sep: char, b: string)
    requires sep !in a
    ensures Split(a + [sep] + b, sep) == [a] + Split(b, sep)
    decreases |a|
  {
    if a == [] {
      assert a + [sep] + b == [sep] + b && ([sep] + b)[1..] == b;
    } else {
      var s := a + [sep] + b;
      assert s[0] == a[0] && s[1..] == a[1..] + [sep] + b;
      SplitAtSep(a[1..], sep, b);
      assert [a[0]] + a[1..] == a;
    }
  }

  /** There is one part more than there are separators. */
  lemma {:induction false} SplitCount(s: string, sep: char)
    ensures |Split(s, sep)| == 1 + Count(s, sep)
    decreases |s|
  {
    if s != [] {
      SplitCount(s[1..], sep);
    }
  }

  /** Joining parts that do not contain the separator and splitting again
      gives the parts back. */
  lemma {:induction false} SplitJoin(items: seq<string>, sep: char)
    requires items != [] && forall i :: 0 <= i < |items| ==> sep !in items[i]
    ensures Split(Join(items, [sep]), sep) == items
    decreases |items|
  {
    if |items| == 1 {
      SplitWithoutSep(items[0], sep);
    } else {
      SplitJoin(items[1..], sep);
      SplitAtSep(items[0], sep, Join(items[1..], [sep]));
      assert [items[0]] + items[1..] == items;
    }
  }
}
