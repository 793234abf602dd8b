/**
 * The address-part parsers of internal/server/ip.go. Each takes labels
 * already split off a host name and builds an address byte by byte:
 * `ParseIPv4` wants exactly four decimal octets, `ParseIPv6` exactly eight
 * hexadecimal 16-bit groups, stored big-endian (the uncompressed
 * x:x:x:x:x:x:x:x text form of section 2.2 of RFC 4291; no "::").
 * Both stop at the first part strconv.ParseUint rejects and return its error.
 */
module IP {
  import opened Wrappers
  import opened Strconv

  newtype uint8 = x: int | 0 <= x < 0x100

  /** A net.IP: the address bytes, most significant first. */
  type Address = seq<uint8>

  const IPv4Parts: nat := 4
  const IPv6Parts: nat := 8

  datatype ParseError =
    | PartCount(want: nat)      // "IPv4 addresses must have 4 parts" and its IPv6 twin
    | BadPart(cause: NumError)  // the error strconv.ParseUint gave for the first bad part

  /** Go's byte(x) conversion: keeps the low eight bits. */
  function Byte(x: nat): uint8 {
    (x % 0x100) as uint8
  }

  /**
   * ParseUint applied to every part in order, stopping at the first failure:
   * the values of all parts, or the error of the first part that fails.
   */
  function ParseParts(parts: seq<string>, base: nat, bitSize: nat): (r: Result<seq<nat>, NumError>)
    requires 2 <= base <= 36 && 1 <= bitSize <= 64
    ensures r.Success? <==> forall i :: 0 <= i < |parts| ==> ParseUint(parts[i], base, bitSize).Success?
    ensures r.Success? ==> |r.value| == |parts|
    ensures r.Success? ==> forall i :: 0 <= i < |parts| ==> ParseUint(parts[i], base, bitSize) == Success(r.value[i])
    decreases |parts|
  {
    if parts == [] then Success([])
    else
      match ParseUint(parts[0], base, bitSize)
      case Failure(e) => Failure(e)
      case Success(v) =>
        match ParseParts(parts[1..], base, bitSize)
        case Failure(e) => Failure(e)
        case Success(vs) =>
          assert forall i :: 1 <= i < |parts| ==> parts[i] == parts[1..][i - 1];
          Success([v] + vs)
  }

  /** A failing ParseParts reports the error of the first part that fails. */
  lemma {:induction false} ParsePartsFailure(parts: seq<string>, base: nat, bitSize: nat)
    requires 2 <= base <= 36 && 1 <= bitSize <= 64
    requires ParseParts(parts, base, bitSize).Failure?
    ensures exists k ::
      && 0 <= k < |parts|
      && ParseUint(parts[k], base, bitSize) == Failure(ParseParts(parts, base, bitSize).error)
      && forall j :: 0 <= j < k ==> ParseUint(parts[j], base, bitSize).Success?
    decreases |parts|
  {
    if ParseUint(parts[0], base, bitSize).Success? {
      var rest := parts[1..];
      ParsePartsFailure(rest, base, bitSize);
      var k :| 0 <= k < |rest| && ParseUint(rest[k], base, bitSize) == Failure(ParseParts(rest, base, bitSize).error)
               && forall j :: 0 <= j < k ==> ParseUint(rest[j], base, bitSize).Success?;
      assert parts[k + 1] == rest[k];
      forall j | 0 <= j < k + 1
        ensures ParseUint(parts[j], base, bitSize).Success?
      {
        if j > 0 {
          assert parts[j] == rest[j - 1];
        }
      }
    }
  }

  /** What parseIPv4 returns for `parts`. */
  function IPv4FromParts(parts: seq<string>): Result<Address, ParseError> {
    if |parts| != IPv4Parts then Failure(PartCount(IPv4Parts))
    else
      match ParseParts(parts, 10, 8)
      case Failure(e) => Failure(BadPart(e))
      case Success(octets) => Success(seq(4, i requires 0 <= i < 4 => Byte(octets[i])))
  }

  /** Each 16-bit group as two bytes, high byte first, in order. */
  function GroupBytes(groups: seq<nat>): (bytes: seq<uint8>)
    ensures |bytes| == 2 * |groups|
  {
    if groups == [] then []
    else
      var g := groups[|groups| - 1];
      GroupBytes(groups[..|groups| - 1]) + [Byte(g / 0x100), Byte(g)]
  }

  /** Bytes 2k and 2k+1 of GroupBytes are the high and low byte of group k. */
  lemma {:induction false} GroupBytesAt(groups: seq<nat>, k: nat)
    requires k < |groups|
    ensures GroupBytes(groups)[2 * k] == Byte(groups[k] / 0x100)
    ensures GroupBytes(groups)[2 * k + 1] == Byte(groups[k])
  {
    var init := groups[..|groups| - 1];
    if k < |init| {
      GroupBytesAt(init, k);
      assert init[k] == groups[k];
    }
  }

  /** What parseIPv6 returns for `parts`: group i fills bytes 2i (high) and 2i+1 (low). */
  function IPv6FromParts(parts: seq<string>): Result<Address, ParseError> {
    if |parts| != IPv6Parts then Failure(PartCount(IPv6Parts))
    else
      match ParseParts(parts, 16, 16)
      case Failure(e) => Failure(BadPart(e))
      case Success(groups) => Success(GroupBytes(groups))
  }

  /** parseIPv4: fills a fresh 4-byte array from the four decimal parts. */
  method ParseIPv4(parts: seq<string>) returns (r: Result<Address, ParseError>)
    ensures r == IPv4FromParts(parts)
  {
    if |parts| != IPv4Parts {
      return Failure(PartCount(IPv4Parts));
    }
    var address := new uint8[4];
    for i := 0 to |parts|
      invariant forall j :: 0 <= j < i ==> ParseUint(parts[j], 10, 8).Success?
      invariant forall j :: 0 <= j < i ==> address[j] == Byte(ParseUint(parts[j], 10, 8).value)
    {
      var octet := ParseUint(parts[i], 10, 8);
      if octet.Failure? {
        FirstFailure(parts, 10, 8, i);
        return Failure(BadPart(octet.error));
      }
      address[i] := Byte(octet.value);
    }
    var octets := ParseParts(parts, 10, 8).value;
    assert address[..] == seq(4, i requires 0 <= i < 4 => Byte(octets[i]));
    return Success(address[..]);
  }

  /** parseIPv6: fills a fresh 16-byte array from the eight hexadecimal groups. */
  method ParseIPv6(parts: seq<string>) returns (r: Result<Address, ParseError>)
    ensures r == IPv6FromParts(parts)
  {
    if |parts| != IPv6Parts {
      return Failure(PartCount(IPv6Parts));
    }
    var address := new uint8[16];
    ghost var groups: seq<nat> := [];
    for i := 0 to |parts|
      invariant |groups| == i
      invariant forall j :: 0 <= j < i ==> ParseUint(parts[j], 16, 16) == Success(groups[j])
      invariant address[..2 * i] == GroupBytes(groups)
    {
      var group := ParseUint(parts[i], 16, 16);
      if group.Failure? {
        FirstFailure(parts, 16, 16, i);
        return Failure(BadPart(group.error));
      }
      StoreGroup(address, i, group.value);
      ghost var before := groups;
      groups := groups + [group.value];
      assert groups[..|groups| - 1] == before;
    }
    GroupsParsed(parts, groups);
    assert address[..] == address[..16];
    return Success(address[..]);
  }

  /** Eight parts that each parse to the matching group give the bytes of those groups. */
  lemma GroupsParsed(parts: seq<string>, groups: seq<nat>)
    requires |parts| == |groups| == IPv6Parts
    requires forall j :: 0 <= j < |parts| ==> ParseUint(parts[j], 16, 16) == Success(groups[j])
    ensures IPv6FromParts(parts) == Success(GroupBytes(groups))
  {
    assert groups == ParseParts(parts, 16, 16).value;
  }

  /** Stores group `g` at bytes 2i (high) and 2i+1 (low), leaving the bytes before them alone. */
  method StoreGroup(address: array<uint8>, i: nat, g: nat)
    requires 2 * i + 1 < address.Length
    modifies address
    ensures address[..2 * i + 2] == old(address[..2 * i]) + [Byte(g / 0x100), Byte(g)]
    ensures forall j :: 0 <= j < address.Length && j != 2 * i && j != 2 * i + 1 ==> address[j] == old(address[j])
  {
    address[2 * i] := Byte(g / 0x100);
    address[2 * i + 1] := Byte(g);
    assert address[..2 * i + 2] == address[..2 * i] + [Byte(g / 0x100), Byte(g)];
  }

  /**
   * When every part before `i` parses and part `i` does not, ParseParts
   * fails with the error of part `i`.
   */
  lemma FirstFailure(parts: seq<string>, base: nat, bitSize: nat, i: nat)
    requires 2 <= base <= 36 && 1 <= bitSize <= 64
    requires i < |parts| && ParseUint(parts[i], base, bitSize).Failure?
    requires forall j :: 0 <= j < i ==> ParseUint(parts[j], base, bitSize).Success?
    ensures ParseParts(parts, base, bitSize) == Failure(ParseUint(parts[i], base, bitSize).error)
  {
    var r := ParseParts(parts, base, bitSize);
    ParsePartsFailure(parts, base, bitSize);
    var k :| 0 <= k < |parts| && ParseUint(parts[k], base, bitSize) == Failure(r.error)
         && forall j :: 0 <= j < k ==> ParseUint(parts[j], base, bitSize).Success?;
    if k < i {
      assert ParseUint(parts[k], base, bitSize).Success?;
    }
  }

  /** A part parseIPv4 accepts: non-empty, decimal digits only (no sign), at most 255. */
  predicate IsDecimalOctet(s: string) {
    s != [] && AllDigits(s, 10) && Value(s, 10) <= 0xFF
  }

  /** A part parseIPv6 accepts: non-empty, hexadecimal digits of either case only, at most 0xFFFF. */
  predicate IsHexGroup(s: string) {
    s != [] && AllDigits(s, 16) && Value(s, 16) <= 0xFFFF
  }

  lemma MaxUintValues()
    ensures MaxUint(8) == 0xFF && MaxUint(16) == 0xFFFF
  {
    assert MaxUint(1) == 1;
    assert MaxUint(2) == 3;
    assert MaxUint(4) == 0xF;
    assert MaxUint(8) == 0xFF;
  }

  /** strconv.ParseUint(p, 10, 8) accepts exactly the decimal octets, with their value. */
  lemma OctetParse(p: string)
    ensures ParseUint(p, 10, 8).Success? <==> IsDecimalOctet(p)
    ensures ParseUint(p, 10, 8).Success? ==> ParseUint(p, 10, 8).value == Value(p, 10)
    ensures ParseUint(p, 10, 8).Failure? ==> ParseUint(p, 10, 8).error.num == p
  {
    MaxUintValues();
    ParseUintMeaning(p, 10, 8);
  }

  /** strconv.ParseUint(p, 16, 16) accepts exactly the hexadecimal groups, with their value. */
  lemma HexGroupParse(p: string)
    ensures ParseUint(p, 16, 16).Success? <==> IsHexGroup(p)
    ensures ParseUint(p, 16, 16).Success? ==> ParseUint(p, 16, 16).value == Value(p, 16)
    ensures ParseUint(p, 16, 16).Failure? ==> ParseUint(p, 16, 16).error.num == p
  {
    MaxUintValues();
    ParseUintMeaning(p, 16, 16);
  }

  /**
   * parseIPv4 rejects anything but four parts; it succeeds exactly when all
   * four are decimal octets, and then byte i is the value of part i;
   * otherwise it reports the error of the first part that is not one.
   */
  lemma IPv4FromPartsMeaning(parts: seq<string>)
    ensures |parts| != 4 ==> IPv4FromParts(parts) == Failure(PartCount(4))
    ensures IPv4FromParts(parts).Success?
        <==> |parts| == 4 && forall i :: 0 <= i < 4 ==> IsDecimalOctet(parts[i])
    ensures IPv4FromParts(parts).Success? ==>
      var a := IPv4FromParts(parts).value;
      |a| == 4 && forall i :: 0 <= i < 4 ==> a[i] as nat == Value(parts[i], 10)
    ensures |parts| == 4 && IPv4FromParts(parts).Failure? ==>
      exists k :: 0 <= k < 4 && !IsDecimalOctet(parts[k])
        && (forall j :: 0 <= j < k ==> IsDecimalOctet(parts[j]))
        && IPv4FromParts(parts).error.BadPart?
        && ParseUint(parts[k], 10, 8) == Failure(IPv4FromParts(parts).error.cause)
        && IPv4FromParts(parts).error.cause.num == parts[k]
  {
    forall i | 0 <= i < |parts| {
      OctetParse(parts[i]);
    }
    if |parts| == 4 && ParseParts(parts, 10, 8).Failure? {
      ParsePartsFailure(parts, 10, 8);
    }
  }

  /**
   * parseIPv6 rejects anything but eight parts; it succeeds exactly when all
   * eight are hexadecimal groups, and then bytes 2i and 2i+1 hold the value
   * of part i, high byte first; otherwise it reports the error of the first
   * part that is not one.
   */
  lemma IPv6FromPartsMeaning(parts: seq<string>)
    ensures |parts| != 8 ==> IPv6FromParts(parts) == Failure(PartCount(8))
    ensures IPv6FromParts(parts).Success?
        <==> |parts| == 8 && forall i :: 0 <= i < 8 ==> IsHexGroup(parts[i])
    ensures IPv6FromParts(parts).Success? ==>
      var a := IPv6FromParts(parts).value;
      |a| == 16 && forall i :: 0 <= i < 8 ==> a[2 * i] as nat * 0x100 + a[2 * i + 1] as nat == Value(parts[i], 16)
    ensures |parts| == 8 && IPv6FromParts(parts).Failure? ==>
      exists k :: 0 <= k < 8 && !IsHexGroup(parts[k])
        && (forall j :: 0 <= j < k ==> IsHexGroup(parts[j]))
        && IPv6FromParts(parts).error.BadPart?
        && ParseUint(parts[k], 16, 16) == Failure(IPv6FromParts(parts).error.cause)
        && IPv6FromParts(parts).error.cause.num == parts[k]
  {
    forall i | 0 <= i < |parts| {
      HexGroupParse(parts[i]);
    }
    if |parts| == 8 && ParseParts(parts, 16, 16).Failure? {
      ParsePartsFailure(parts, 16, 16);
    }
    if IPv6FromParts(parts).Success? {
      IPv6GroupValues(parts);
    }
  }

  /** Bytes 2i and 2i+1 of a parsed IPv6 address put group i back together. */
  lemma IPv6GroupValues(parts: seq<string>)
    requires |parts| == 8 && forall i :: 0 <= i < |parts| ==> IsHexGroup(parts[i])
    ensures IPv6FromParts(parts).Success?
    ensures var a := IPv6FromParts(parts).value;
      |a| == 16 && forall i :: 0 <= i < 8 ==> AllDigits(parts[i], 16) && a[2 * i] as nat * 0x100 + a[2 * i + 1] as nat == Value(parts[i], 16)
  {
    forall i | 0 <= i < 8 {
      HexGroupParse(parts[i]);
    }
    var groups := ParseParts(parts, 16, 16).value;
    var a := IPv6FromParts(parts).value;
    forall i | 0 <= i < 8
      ensures a[2 * i] as nat * 0x100 + a[2 * i + 1] as nat == Value(parts[i], 16)
    {
      GroupBytesAt(groups, i);
      SplitGroup(groups[i]);
    }
  }

  /** The two bytes parseIPv6 stores for a group put the group back together. */
  lemma SplitGroup(g: nat)
    requires g <= 0xFFFF
    ensures Byte(g / 0x100) as nat * 0x100 + Byte(g) as nat == g
  {
  }

  /** A group built from two bytes gives them back as its high and low byte. */
  lemma JoinGroup(hi: uint8, lo: uint8)
    ensures Byte((hi as nat * 0x100 + lo as nat) / 0x100) == hi
    ensures Byte(hi as nat * 0x100 + lo as nat) == lo
  {
  }

  /** Each byte of an address written in decimal, one part per byte. */
  function FormatIPv4(a: Address): (parts: seq<string>)
    requires |a| == 4
  {
    seq(4, i requires 0 <= i < 4 => FormatUint(a[i] as nat, 10))
  }

  /** The 16-bit group i of an address: bytes 2i and 2i+1, high byte first. */
  function Group(a: Address, i: nat): nat
    requires 2 * i + 1 < |a|
  {
    a[2 * i] as nat * 0x100 + a[2 * i + 1] as nat
  }

  /** Each 16-bit group of an address written in hexadecimal, one part per group. */
  function FormatIPv6(a: Address): (parts: seq<string>)
    requires |a| == 16
  {
    seq(8, i requires 0 <= i < 8 => FormatUint(Group(a, i), 16))
  }

  /** Round trip: parseIPv4 reads back every 4-byte address written in decimal. */
  lemma IPv4RoundTrip(a: Address)
    requires |a| == 4
    ensures IPv4FromParts(FormatIPv4(a)) == Success(a)
  {
    var parts := FormatIPv4(a);
    MaxUintValues();
    forall i | 0 <= i < 4
      ensures ParseUint(parts[i], 10, 8) == Success(a[i] as nat)
    {
      FormatParseRoundTrip(a[i] as nat, 10, 8);
    }
    assert ParseParts(parts, 10, 8).Success?;
    IPv4Bytes(ParseParts(parts, 10, 8).value, a);
  }

  /** Octet values that are the bytes of `a` lay out as `a` again. */
  lemma IPv4Bytes(octets: seq<nat>, a: Address)
    requires |octets| == |a| == 4 && forall i :: 0 <= i < 4 ==> octets[i] == a[i] as nat
    ensures seq(4, i requires 0 <= i < 4 => Byte(octets[i])) == a
  {
  }

  /** Round trip: parseIPv6 reads back every 16-byte address written as hexadecimal groups. */
  lemma IPv6RoundTrip(a: Address)
    requires |a| == 16
    ensures IPv6FromParts(FormatIPv6(a)) == Success(a)
  {
    var parts := FormatIPv6(a);
    MaxUintValues();
    forall i | 0 <= i < 8
      ensures ParseUint(parts[i], 16, 16) == Success(Group(a, i))
    {
      FormatParseRoundTrip(Group(a, i), 16, 16);
    }
    assert ParseParts(parts, 16, 16).Success?;
    var groups := ParseParts(parts, 16, 16).value;
    forall k | 0 <= k < 8
      ensures a[2 * k] == Byte(groups[k] / 0x100) && a[2 * k + 1] == Byte(groups[k])
    {
      JoinGroup(a[2 * k], a[2 * k + 1]);
    }
    GroupBytesOf(a, groups);
  }

  /** Bytes holding the high and low byte of each group, in order, are GroupBytes of the groups. */
  lemma GroupBytesOf(bytes: seq<uint8>, groups: seq<nat>)
    requires |bytes| == 2 * |groups|
    requires forall k :: 0 <= k < |groups| ==> bytes[2 * k] == Byte(groups[k] / 0x100) && bytes[2 * k + 1] == Byte(groups[k])
    ensures bytes == GroupBytes(groups)
  {
    forall j | 0 <= j < |bytes|
      ensures bytes[j] == GroupBytes(groups)[j]
    {
      var k := j / 2;
      GroupBytesAt(groups, k);
      assert j == 2 * k || j == 2 * k + 1;
    }
  }

  /** Every part upper-cased. */
  function UpperParts(parts: seq<string>): seq<string> {
    seq(|parts|, i requires 0 <= i < |parts| => Strings.ToUpper(parts[i]))
  }

  /** Hexadecimal groups are read in either case: upper-casing them does not change the address. */
  lemma IPv6IgnoresCase(parts: seq<string>)
    ensures IPv6FromParts(UpperParts(parts)).Success? == IPv6FromParts(parts).Success?
    ensures IPv6FromParts(parts).Success? ==> IPv6FromParts(UpperParts(parts)) == IPv6FromParts(parts)
  {
    var upper := UpperParts(parts);
    forall i | 0 <= i < |parts|
      ensures ParseUint(upper[i], 16, 16).Success? == ParseUint(parts[i], 16, 16).Success?
      ensures ParseUint(parts[i], 16, 16).Success? ==> ParseUint(upper[i], 16, 16) == ParseUint(parts[i], 16, 16)
    {
      ParseUintIgnoresCase(parts[i], 16, 16);
    }
    if IPv6FromParts(parts).Success? {
      var g, h := ParseParts(parts, 16, 16).value, ParseParts(upper, 16, 16).value;
      assert g == h;
    }
  }
}
