/**
 The text form of IPv4 networks as Python's `ipaddress` reads and writes it:
 `IPv4Network(s)` with its default `strict=True`, and the `compressed`
 property that prints a network back.

 `IPv4Network(s)` reads `address[/mask]`. The address is four decimal octets
 with no leading zeros; the mask is a prefix length in decimal (leading zeros
 allowed), or a dotted netmask or hostmask, and is `/32` when absent. A
 malformed address raises `AddressValueError`, a malformed mask
 `NetmaskValueError`, and a base with host bits set `ValueError`.
 */
module Ipv4Text {
  import opened Cidr
  import opened Text
  import opened Results

  // ---------------------------------------------------------------------------
  // Decimal numbers

  predicate IsDigit(c: char)
  {
    '0' <= c <= '9'
  }

  /** Python's `s.isascii() and s.isdigit()`, save that it holds of the empty string. */
  predicate AllDigits(s: string)
  {
    forall i :: 0 <= i < |s| ==> IsDigit(s[i])
  }

  function DigitValue(c: char): nat
    requires IsDigit(c)
  {
    c as int - '0' as int
  }

  function DigitChar(d: nat): (c: char)
    requires d < 10
    ensures IsDigit(c) && DigitValue(c) == d
  {
    ('0' as int + d) as char
  }

  /** Python's `int(s)` for a string of ASCII digits. */
  function DecimalValue(s: string): nat
    requires AllDigits(s)
  {
    if s == [] then 0 else 10 * DecimalValue(s[..|s| - 1]) + DigitValue(s[|s| - 1])
  }

  /** Python's `str(n)`: the decimal digits of `n`, with no leading zero. */
  function Decimal(n: nat): (r: string)
    ensures |r| >= 1 && AllDigits(r)
    ensures DecimalValue(r) == n
    ensures r[0] == '0' ==> n == 0
    ensures n < 10 ==> |r| == 1
    ensures n < 100 ==> |r| <= 2
    ensures n < 1000 ==> |r| <= 3
  {
    if n < 10 then [DigitChar(n)]
    else
      var r := Decimal(n / 10) + [DigitChar(n % 10)];
      assert r[..|r| - 1] == Decimal(n / 10);
      r
  }

  /** A digit string with a leading digit other than zero has a value of at least one. */
  lemma {:induction false} DecimalValuePositive(s: string)
    requires |s| >= 1 && AllDigits(s) && s[0] != '0'
    ensures DecimalValue(s) >= 1
  {
    if |s| > 1 {
      DecimalValuePositive(s[..|s| - 1]);
    }
  }

  /** A digit string without a leading zero is the decimal text of its value. */
  lemma {:induction false} DecimalCanonical(s: string)
    requires |s| >= 1 && AllDigits(s) && (s[0] != '0' || s == "0")
    ensures Decimal(DecimalValue(s)) == s
  {
    if |s| > 1 {
      var init := s[..|s| - 1];
      DecimalValuePositive(init);
      DecimalCanonical(init);
      var v := DecimalValue(s);
      assert v / 10 == DecimalValue(init) && v % 10 == DigitValue(s[|s| - 1]);
      assert DigitChar(DigitValue(s[|s| - 1])) == s[|s| - 1];
      assert s == init + [s[|s| - 1]];
    } else {
      assert DigitChar(DigitValue(s[0])) == s[0];
    }
  }

  // ---------------------------------------------------------------------------
  // Addresses

  /** `IPv4Address._parse_octet`: one to three digits, no leading zero, at most 255. */
  function ParseOctet(s: string): (r: Option<nat>)
    ensures r.Some? ==> r.value <= 255 && Decimal(r.value) == s
  {
    if s == [] then None
    else if !AllDigits(s) then None
    else if |s| > 3 then None
    else if s != "0" && s[0] == '0' then None
    else if DecimalValue(s) > 255 then None
    else DecimalCanonical(s); Some(DecimalValue(s))
  }

  /** The four bytes of an address, most significant first (`packed`). */
  function Octets(a: nat): seq<nat>
  {
    [a / 0x100 / 0x100 / 0x100 % 0x100, a / 0x100 / 0x100 % 0x100, a / 0x100 % 0x100, a % 0x100]
  }

  function FromOctets(o0: nat, o1: nat, o2: nat, o3: nat): nat
  {
    ((o0 * 0x100 + o1) * 0x100 + o2) * 0x100 + o3
  }

  /** Python's `str(IPv4Address(a))`: the dotted quad. */
  function AddressText(a: nat): string
  {
    var o := Octets(a);
    Join(".", [Decimal(o[0]), Decimal(o[1]), Decimal(o[2]), Decimal(o[3])])
  }

  /**
   `IPv4Address._ip_int_from_string`: exactly four dot-separated octets. The
   only texts it accepts are the dotted quads it would print.
   */
  function ParseAddress(s: string): (r: Option<nat>)
    ensures r.Some? ==> r.value < AddressSpace && AddressText(r.value) == s
  {
    if s == [] then None
    else
      var octets := Split(s, '.');
      if |octets| != 4 then None
      else match (ParseOctet(octets[0]), ParseOctet(octets[1]), ParseOctet(octets[2]), ParseOctet(octets[3]))
        case (Some(o0), Some(o1), Some(o2), Some(o3)) =>
          var a := FromOctets(o0, o1, o2, o3);
          OctetsOfFromOctets(o0, o1, o2, o3);
          assert octets == [octets[0], octets[1], octets[2], octets[3]];
          Some(a)
        case _ => None
  }

  /** One byte appended below `hi`, and recovered by `/` and `%`. */
  lemma ByteShift(hi: nat, lo: nat)
    requires lo < 0x100
    ensures (hi * 0x100 + lo) / 0x100 == hi && (hi * 0x100 + lo) % 0x100 == lo
  {
  }

  lemma OctetsOfFromOctets(o0: nat, o1: nat, o2: nat, o3: nat)
    requires o0 <= 255 && o1 <= 255 && o2 <= 255 && o3 <= 255
    ensures FromOctets(o0, o1, o2, o3) < AddressSpace
    ensures Octets(FromOctets(o0, o1, o2, o3)) == [o0, o1, o2, o3]
  {
    var a1 := o0 * 0x100 + o1;
    var a2 := a1 * 0x100 + o2;
    var a := a2 * 0x100 + o3;
    ByteShift(a2, o3);
    ByteShift(a1, o2);
    ByteShift(o0, o1);
    ByteShift(0, o0);
  }

  lemma FromOctetsOfOctets(a: nat)
    requires a < AddressSpace
    ensures var o := Octets(a); FromOctets(o[0], o[1], o[2], o[3]) == a
  {
    var q1 := a / 0x100;
    var q2 := q1 / 0x100;
    var q3 := q2 / 0x100;
    assert q3 < 0x100;
  }

  /** Python's `str(IPv4Address(a))` is read back as `a`. */
  lemma AddressRoundTrip(a: nat)
    requires a < AddressSpace
    ensures ParseAddress(AddressText(a)) == Some(a)
  {
    var o := Octets(a);
    var parts := [Decimal(o[0]), Decimal(o[1]), Decimal(o[2]), Decimal(o[3])];
    forall i | 0 <= i < 4
      ensures '.' !in parts[i]
    {
      NoDotInDecimal(o[i]);
    }
    SplitJoin(parts, '.');
    FromOctetsOfOctets(a);
    ParseDottedQuad(AddressText(a), o[0], o[1], o[2], o[3]);
  }

  /** A text that splits into the decimal texts of four bytes parses as their address. */
  lemma ParseDottedQuad(s: string, o0: nat, o1: nat, o2: nat, o3: nat)
    requires o0 <= 255 && o1 <= 255 && o2 <= 255 && o3 <= 255
    requires Split(s, '.') == [Decimal(o0), Decimal(o1), Decimal(o2), Decimal(o3)]
    ensures ParseAddress(s) == Some(FromOctets(o0, o1, o2, o3))
  {
    OctetRoundTrip(o0);
    OctetRoundTrip(o1);
    OctetRoundTrip(o2);
    OctetRoundTrip(o3);
  }

  /** The decimal text of a byte parses back as the byte. */
  lemma OctetRoundTrip(o: nat)
    requires o <= 255
    ensures ParseOctet(Decimal(o)) == Some(o)
  {
    DecimalCanonical(Decimal(o));
  }

  lemma NoDotInDecimal(n: nat)
    ensures '.' !in Decimal(n) && '/' !in Decimal(n)
  {
    var d := Decimal(n);
    assert forall i :: 0 <= i < |d| ==> IsDigit(d[i]);
  }

  // ---------------------------------------------------------------------------
  // Masks

  /** The netmask of prefix length `p`: `p` one bits, then zero bits. */
  function Netmask(p: Prefix): int
  {
    AddressSpace - Pow2(HostBits(p))
  }

  /** The hostmask of prefix length `p`: `32 - p` low one bits. */
  function Hostmask(p: Prefix): int
  {
    Pow2(HostBits(p)) - 1
  }

  function Mask(p: Prefix, host: bool): int
  {
    if host then Hostmask(p) else Netmask(p)
  }

  /** The least prefix length from `p` on whose netmask (or hostmask) is `v`, as `_prefix_from_ip_int` finds it. */
  function FindMaskPrefix(v: nat, p: nat, host: bool): (r: Option<Prefix>)
    requires p <= 33
    ensures r.Some? ==> p <= r.value && Mask(r.value, host) == v
    ensures r.None? ==> forall q: Prefix :: p <= q ==> Mask(q, host) != v
    decreases 33 - p
  {
    if p > 32 then None
    else if Mask(p, host) == v then Some(p)
    else FindMaskPrefix(v, p + 1, host)
  }

  /**
   `_prefix_from_ip_string`: a dotted mask is read as a netmask, or failing
   that as a hostmask.
   */
  function MaskPrefix(v: nat): Option<Prefix>
  {
    match FindMaskPrefix(v, 0, false)
    case Some(p) => Some(p)
    case None => FindMaskPrefix(v, 0, true)
  }

  /**
   `_make_netmask` on the text after `/`: a prefix length in ASCII digits no
   greater than 32, or else a dotted netmask or hostmask; `None` stands for
   `NetmaskValueError`.
   */
  function ParsePrefixLength(m: string): (r: Option<Prefix>)
    ensures r.Some? ==>
      || (m != [] && AllDigits(m) && DecimalValue(m) == r.value)
      || (ParseAddress(m).Some? && ParseAddress(m).value == Netmask(r.value))
      || (ParseAddress(m).Some? && ParseAddress(m).value == Hostmask(r.value))
  {
    if m != [] && AllDigits(m) && DecimalValue(m) <= 32 then Some(DecimalValue(m))
    else match ParseAddress(m)
      case None => None
      case Some(v) => MaskPrefix(v)
  }

  // ---------------------------------------------------------------------------
  // Networks

  /** The result of `IPv4Network(s)`: a network, or the exception it raises. */
  datatype V4Parse =
    | V4(net: Net)
    | NotV4        // `AddressValueError`
    | BadNetmask   // `NetmaskValueError`
    | HostBitsNotZero // `ValueError`: host bits set

  /** `IPv4Network(s)`; every network it returns is valid. */
  function Parse4(s: string): (r: V4Parse)
    ensures r.V4? ==> Valid(r.net)
  {
    var parts := Split(s, '/');
    if |parts| > 2 then NotV4
    else match ParseAddress(parts[0])
      case None => NotV4
      case Some(a) =>
        var prefix := if |parts| == 1 then Some(32) else ParsePrefixLength(parts[1]);
        match prefix
        case None => BadNetmask
        case Some(p) =>
          if LowBitsZero(a, HostBits(p)) then V4(Net(a, p)) else HostBitsNotZero
  }

  /** `IPv4Network.compressed`: the dotted quad of the base, `/`, the prefix length. */
  function Show4(n: Net): string
  {
    Join("/", [AddressText(n.base), Decimal(n.prefix)])
  }

  /** A character `Show4` may print. */
  predicate V4TextChar(c: char)
  {
    IsDigit(c) || c == '.' || c == '/'
  }

  // ---------------------------------------------------------------------------
  // Properties

  /** Printing a valid network and reading the text back gives the same network. */
  lemma Show4RoundTrip(n: Net)
    requires Valid(n)
    ensures Parse4(Show4(n)) == V4(n)
  {
    var addr, pfx := AddressText(n.base), Decimal(n.prefix);
    AddressDigitsAndDots(n.base);
    NoDotInDecimal(n.prefix);
    SplitJoin([addr, pfx], '/');
    AddressRoundTrip(n.base);
    assert ParsePrefixLength(pfx) == Some(n.prefix);
  }

  lemma AddressDigitsAndDots(a: nat)
    ensures forall i :: 0 <= i < |AddressText(a)| ==> IsDigit(AddressText(a)[i]) || AddressText(a)[i] == '.'
  {
    var o := Octets(a);
    var parts := [Decimal(o[0]), Decimal(o[1]), Decimal(o[2]), Decimal(o[3])];
    forall i | 0 <= i < |AddressText(a)|
      ensures IsDigit(AddressText(a)[i]) || AddressText(a)[i] == '.'
    {
      var c := AddressText(a)[i];
      if c != '.' {
        JoinChars(".", parts, c);
        var j :| 0 <= j < 4 && c in parts[j];
      }
    }
  }

  /** `Show4` prints only digits, dots and the slash. */
  lemma Show4Chars(n: Net)
    ensures |Show4(n)| >= 1
    ensures forall i :: 0 <= i < |Show4(n)| ==> V4TextChar(Show4(n)[i])
  {
    var addr, pfx := AddressText(n.base), Decimal(n.prefix);
    AddressDigitsAndDots(n.base);
    assert [addr, pfx][1..] == [pfx];
    assert Join("/", [pfx]) == pfx;
    assert Show4(n) == addr + "/" + pfx;
    SlashedChars(addr, pfx);
  }

  lemma SlashedChars(addr: string, pfx: string)
    requires forall i :: 0 <= i < |addr| ==> IsDigit(addr[i]) || addr[i] == '.'
    requires AllDigits(pfx)
    ensures forall i :: 0 <= i < |addr + "/" + pfx| ==> V4TextChar((addr + "/" + pfx)[i])
  {
    var s := addr + "/" + pfx;
    forall i | 0 <= i < |s|
      ensures V4TextChar(s[i])
    {
      if i < |addr| {
        assert s[i] == addr[i];
      } else if i > |addr| {
        assert s[i] == pfx[i - |addr| - 1];
      }
    }
  }

  /** A text whose address part holds a colon (as every IPv6 text does) is not an IPv4 address. */
  lemma ColonIsNotV4(s: string)
    requires ':' in Split(s, '/')[0]
    ensures Parse4(s) == NotV4
  {
    var addr := Split(s, '/')[0];
    if ParseAddress(addr).Some? {
      AddressDigitsAndDots(ParseAddress(addr).value);
    }
  }

  /** An address, a slash and a decimal number split on `/` into the two texts. */
  lemma SlashedSplit(a: nat, q: nat)
    ensures Split(Join("/", [AddressText(a), Decimal(q)]), '/') == [AddressText(a), Decimal(q)]
  {
    AddressDigitsAndDots(a);
    NoDotInDecimal(q);
    SplitJoin([AddressText(a), Decimal(q)], '/');
  }

  /** An address with a host bit below a decimal prefix length raises the host-bits `ValueError`. */
  lemma HostBitsRaise(a: nat, p: Prefix)
    requires a < AddressSpace && !LowBitsZero(a, HostBits(p))
    ensures Parse4(Join("/", [AddressText(a), Decimal(p)])) == HostBitsNotZero
  {
    SlashedSplit(a, p);
    AddressRoundTrip(a);
    assert ParsePrefixLength(Decimal(p)) == Some(p);
  }

  /** A decimal prefix length above 32 raises `NetmaskValueError`. */
  lemma PrefixOver32(a: nat, q: nat)
    requires a < AddressSpace && q > 32
    ensures Parse4(Join("/", [AddressText(a), Decimal(q)])) == BadNetmask
  {
    SlashedSplit(a, q);
    AddressRoundTrip(a);
    NoDotInDecimal(q);
    SplitWithoutSeparator(Decimal(q), '.');
    assert ParsePrefixLength(Decimal(q)) == None;
  }

  /** A bare address without a mask is the single-address network `/32`. */
  lemma BareAddressIsHost(s: string)
    requires '/' !in s && ParseAddress(s).Some?
    ensures Parse4(s) == V4(Net(ParseAddress(s).value, 32))
  {
    SplitWithoutSeparator(s, '/');
  }
}
