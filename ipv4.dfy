/**
  IPv4 addresses as the blocker handles them: four octets, packed into a
  32-bit word most significant octet first (`ipToUint32`, main.go), unpacked
  by `binary.BigEndian.PutUint32` (GetMapStats), and CIDR lines
  "a.b.c.d/len" (prefix notation, section 3.1 of RFC 4632) as `net.ParseCIDR`
  reads them for an IPv4 address.
 */
module Ipv4 {

  import opened Wrappers
  import opened Text

  /** A 4-byte IPv4 address (`net.IP` after `To4`). */
  type Octets = b: seq<bv8> | |b| == 4 witness [0, 0, 0, 0]

  /** `binary.BigEndian.PutUint32`: the four bytes of `n`, most significant first. */
  function PutUint32(n: bv32): (b: Octets)
    ensures b[0] as bv32 == n >> 24 && b[3] as bv32 == n & 0xFF
  {
    [(n >> 24) as bv8, ((n >> 16) & 0xFF) as bv8, ((n >> 8) & 0xFF) as bv8, (n & 0xFF) as bv8]
  }

  /** `ipToUint32`: packs the octets big-endian; unpacking gives them back. */
  function IpToUint32(ip: Octets): (n: bv32)
    ensures PutUint32(n) == ip
  {
    ((ip[0] as bv32) << 24) | ((ip[1] as bv32) << 16) | ((ip[2] as bv32) << 8) | (ip[3] as bv32)
  }

  /** Packing the bytes of a word gives back the word. */
  lemma PackUnpack(n: bv32)
    ensures IpToUint32(PutUint32(n)) == n
  {
  }

  /** The 32-bit network mask with `len` leading one-bits. */
  function NetMask(len: nat): bv32
    requires len <= 32
  {
    if len == 0 then 0 else (NetMask(len - 1) >> 1) | 0x8000_0000
  }

  /** `net.CIDRMask(len, 32)`: the mask as four bytes. */
  function CidrMask(len: nat): Octets
    requires len <= 32
  {
    PutUint32(NetMask(len))
  }

  /** `net.IP.Mask`: byte-wise and. */
  function MaskOctets(ip: Octets, mask: Octets): Octets
  {
    [ip[0] & mask[0], ip[1] & mask[1], ip[2] & mask[2], ip[3] & mask[3]]
  }

  /** A parsed CIDR line: the address as written and the prefix length. */
  datatype Cidr = Cidr(ip: Octets, len: nat)

  /** The network address of a CIDR (`network.IP` of `net.ParseCIDR`): the
      address with its host bits cleared. Packed, it is the packed address
      under the prefix's mask. */
  function Network(c: Cidr): (net: Octets)
    requires c.len <= 32
    ensures IpToUint32(net) == IpToUint32(c.ip) & NetMask(c.len)
  {
    MaskOctets(c.ip, CidrMask(c.len))
  }

  /** `uint8(n)`: the byte whose value is `n`, counted up one at a time so
      that `b as int == n` is proved without the solver's integer-to-bit-vector
      conversion. */
  function ToByte(n: nat): (b: bv8)
    requires n < 256
    ensures b as int == n
  {
    if n == 0 then 0 else ToByte(n - 1) + 1
  }

  /** One dotted-quad field: one to three digits, no leading zero, at most 255. */
  function ParseOctet(s: string): (r: Option<bv8>)
    ensures s == [] ==> r.None?
    ensures |s| > 1 && s[0] == '0' ==> r.None?
    ensures r.Some? ==> AllDigits(s) && r.value as int == DecimalValue(s)
    ensures s != [] && AllDigits(s) && (|s| > 1 ==> s[0] != '0') && DecimalValue(s) <= 255 ==> r.Some?
  {
    if s == [] || !AllDigits(s) || (|s| > 1 && s[0] == '0') then None
    else if DecimalValue(s) > 255 then None
    else Some(ToByte(DecimalValue(s)))
  }

  /** An IPv4 address in dotted-quad form: exactly four fields separated by '.'. */
  function ParseIPv4(s: string): (r: Option<Octets>)
  {
    var fields := Split(s, '.');
    if |fields| != 4 then None
    else match (ParseOctet(fields[0]), ParseOctet(fields[1]), ParseOctet(fields[2]), ParseOctet(fields[3]))
      case (Some(a), Some(b), Some(c), Some(d)) => Some([a, b, c, d])
      case _ => None
  }

  /** The prefix length after '/': decimal digits (leading zeros allowed),
      at most 32. */
  function ParsePrefixLen(s: string): (r: Option<nat>)
    ensures r.Some? ==> s != [] && AllDigits(s) && r.value == DecimalValue(s) && r.value <= 32
    ensures s != [] && AllDigits(s) && DecimalValue(s) <= 32 ==> r.Some?
  {
    if s == [] || !AllDigits(s) then None
    else if DecimalValue(s) > 32 then None
    else Some(DecimalValue(s))
  }

  /** `net.ParseCIDR` on a line: an IPv4 address, '/', a prefix length. Any
      other line is refused (`None`), and the caller skips it. */
  function ParseCidr(line: string): (r: Option<Cidr>)
    ensures r.Some? ==> r.value.len <= 32
    ensures r.Some? ==> '/' in line
  {
    match Cut(line, '/')
    case None => None
    case Some((addr, bits)) =>
      match (ParseIPv4(addr), ParsePrefixLen(bits))
      case (Some(ip), Some(len)) => Some(Cidr(ip, len))
      case _ => None
  }

  /** The dotted-quad spelling of an address. */
  function FormatIPv4(ip: Octets): string
  {
    Join(OctetFields(ip), '.')
  }

  function OctetFields(ip: Octets): seq<string>
  {
    [Decimal(ip[0] as nat), Decimal(ip[1] as nat), Decimal(ip[2] as nat), Decimal(ip[3] as nat)]
  }

  /** The canonical spelling "a.b.c.d/len" of a CIDR. */
  function FormatCidr(c: Cidr): string
  {
    FormatIPv4(c.ip) + "/" + Decimal(c.len)
  }

  lemma DecimalHasNo(n: nat, c: char)
    requires !IsDigit(c)
    ensures c !in Decimal(n)
  {
  }

  lemma ToByteOf(b: bv8)
    ensures ToByte(b as nat) == b
  {
  }

  lemma ParseOctetDecimal(b: bv8)
    ensures ParseOctet(Decimal(b as nat)) == Some(b)
  {
    var s := Decimal(b as nat);
    assert DecimalValue(s) == b as nat && DecimalValue(s) <= 255;
    ToByteOf(b);
  }

  lemma FieldsAvoid(ip: Octets, c: char)
    requires !IsDigit(c)
    ensures forall i :: 0 <= i < 4 ==> c !in OctetFields(ip)[i]
  {
    forall i | 0 <= i < 4 ensures c !in OctetFields(ip)[i] {
      DecimalHasNo(ip[i] as nat, c);
    }
  }

  /** Every address reads back from its dotted-quad spelling. */
  lemma ParseFormatIPv4(ip: Octets)
    ensures ParseIPv4(FormatIPv4(ip)) == Some(ip)
  {
    var parts := OctetFields(ip);
    FieldsAvoid(ip, '.');
    SplitJoin(parts, '.');
    var fields := Split(FormatIPv4(ip), '.');
    assert fields == parts;
    ParseOctetDecimal(ip[0]);
    ParseOctetDecimal(ip[1]);
    ParseOctetDecimal(ip[2]);
    ParseOctetDecimal(ip[3]);
    assert ParseOctet(fields[0]) == Some(ip[0]) && ParseOctet(fields[1]) == Some(ip[1]);
    assert ParseOctet(fields[2]) == Some(ip[2]) && ParseOctet(fields[3]) == Some(ip[3]);
    assert [ip[0], ip[1], ip[2], ip[3]] == ip;
  }

  /** Every CIDR with a valid prefix length reads back from its spelling. */
  lemma ParseFormatCidr(c: Cidr)
    requires c.len <= 32
    ensures ParseCidr(FormatCidr(c)) == Some(c)
  {
    FieldsAvoid(c.ip, '/');
    NotInJoin(OctetFields(c.ip), '.', '/');
    CutAt(FormatIPv4(c.ip), '/', Decimal(c.len));
    ParseFormatIPv4(c.ip);
    assert ParsePrefixLen(Decimal(c.len)) == Some(c.len);
  }

  /** An accepted field is the shortest decimal spelling of its byte. */
  lemma ParseOctetSpelling(s: string, b: bv8)
    requires ParseOctet(s) == Some(b)
    ensures s == Decimal(b as nat)
  {
    DecimalCanonical(s);
  }

  /** An accepted address is spelled exactly as `FormatIPv4` spells it. */
  lemma ParseIPv4Spelling(s: string, ip: Octets)
    requires ParseIPv4(s) == Some(ip)
    ensures s == FormatIPv4(ip)
  {
    var fields := Split(s, '.');
    assert |fields| == 4;
    assert ParseOctet(fields[0]) == Some(ip[0]) && ParseOctet(fields[1]) == Some(ip[1]);
    assert ParseOctet(fields[2]) == Some(ip[2]) && ParseOctet(fields[3]) == Some(ip[3]);
    ParseOctetSpelling(fields[0], ip[0]);
    ParseOctetSpelling(fields[1], ip[1]);
    ParseOctetSpelling(fields[2], ip[2]);
    ParseOctetSpelling(fields[3], ip[3]);
    assert fields == OctetFields(ip);
    JoinSplit(s, '.');
  }

  /** An accepted line spells the CIDR it yields: the address in dotted
      quad, '/', and digits whose value is the prefix length (leading zeros
      allowed). */
  lemma ParseCidrSpelling(s: string, c: Cidr)
    requires ParseCidr(s) == Some(c)
    ensures exists d :: d != "" && AllDigits(d) && DecimalValue(d) == c.len && s == FormatIPv4(c.ip) + "/" + d
  {
    var (addr, bits) := Cut(s, '/').value;
    assert ParseIPv4(addr) == Some(c.ip) && ParsePrefixLen(bits) == Some(c.len);
    ParseIPv4Spelling(addr, c.ip);
    assert s == FormatIPv4(c.ip) + "/" + bits;
  }

  /** Two CIDRs of the same length whose addresses differ only in host bits
      have the same network address. */
  lemma SameNetwork(c1: Cidr, c2: Cidr)
    requires c1.len == c2.len <= 32
    requires IpToUint32(c1.ip) & NetMask(c1.len) == IpToUint32(c2.ip) & NetMask(c2.len)
    ensures Network(c1) == Network(c2)
  {
    calc {
      Network(c1);
      PutUint32(IpToUint32(Network(c1)));
      PutUint32(IpToUint32(c1.ip) & NetMask(c1.len));
      PutUint32(IpToUint32(Network(c2)));
      Network(c2);
    }
  }
}
