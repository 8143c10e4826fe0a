/**
  `ip_filter` (xdp_filter.c): the verdict the XDP program gives a received
  frame. The frame is its bytes; `ip_map` is the map the loader fills. A
  frame too short for an Ethernet header, not carrying IPv4, or too short
  for an IPv4 header passes; otherwise the source address is looked up with
  a full-length key, a hit with value 0 drops the frame, any other hit and
  a miss pass it.
 */
module XdpFilter {

  import opened Wrappers
  import opened Ipv4
  import opened Lpm

  /** `sizeof(struct ethhdr)`. */
  const EthHdrLen: nat := 14
  /** `sizeof(struct iphdr)`: the header without options. */
  const IpHdrLen: nat := 20
  /** `ETH_P_IP`. */
  const EthPIp: bv16 := 0x0800
  /** Offset of `saddr` within `struct iphdr`. */
  const SaddrOffset: nat := 12

  datatype Verdict = XdpPass | XdpDrop

  /** `h_proto`, read in network byte order. */
  function EtherType(p: seq<bv8>): bv16
    requires |p| >= EthHdrLen
  {
    ((p[12] as bv16) << 8) | (p[13] as bv16)
  }

  /** A frame that reaches the map lookup: both headers fit and the
      ethertype is IPv4. */
  predicate IsIPv4Frame(p: seq<bv8>)
  {
    |p| >= EthHdrLen + IpHdrLen && EtherType(p) == EthPIp
  }

  /** The four bytes of `ip->saddr`. */
  function SourceBytes(p: seq<bv8>): (b: Octets)
    requires |p| >= EthHdrLen + IpHdrLen
    ensures b == p[EthHdrLen + SaddrOffset..EthHdrLen + SaddrOffset + 4]
  {
    p[26..30]
  }

  function SourceAddr(p: seq<bv8>): bv32
    requires |p| >= EthHdrLen + IpHdrLen
  {
    IpToUint32(SourceBytes(p))
  }

  /** The `lpm_key` built for the lookup: full length, the source address. */
  function LookupKey(p: seq<bv8>): (k: MapKey)
    requires |p| >= EthHdrLen + IpHdrLen
    ensures k.prefixLen == 32
    ensures PutUint32(k.ip) == p[EthHdrLen + SaddrOffset..EthHdrLen + SaddrOffset + 4]
  {
    MapKey(32, SourceAddr(p))
  }

  /** `ip_filter`. */
  function IpFilter(p: seq<bv8>, m: map<MapKey, bv8>): (v: Verdict)
    ensures |p| < EthHdrLen ==> v == XdpPass
    ensures |p| >= EthHdrLen && EtherType(p) != EthPIp ==> v == XdpPass
    ensures |p| < EthHdrLen + IpHdrLen ==> v == XdpPass
    ensures v == XdpDrop ==> IsIPv4Frame(p) && exists k :: k in m && Matches(k, SourceAddr(p)) && m[k] == 0
    ensures IsIPv4Frame(p) && NormalizedMap(m) && (forall k :: k in m ==> !Matches(k, SourceAddr(p))) ==> v == XdpPass
  {
    if |p| < EthHdrLen then XdpPass
    else if EtherType(p) != EthPIp then XdpPass
    else if |p| < EthHdrLen + IpHdrLen then XdpPass
    else
      match Lookup(m, LookupKey(p))
      case Some(value) => if value != 0 then XdpPass else XdpDrop
      case None => XdpPass
  }

  /** Over a map of normalized keys, a frame is dropped exactly when it is an
      IPv4 frame and the longest stored prefix containing its source address
      holds 0. */
  lemma DropIff(p: seq<bv8>, m: map<MapKey, bv8>)
    requires NormalizedMap(m)
    ensures IpFilter(p, m) == XdpDrop <==>
      IsIPv4Frame(p) && exists k :: LongestMatch(m, SourceAddr(p), k) && m[k] == 0
  {
    if IsIPv4Frame(p) {
      LookupLongestValue(m, SourceAddr(p));
    }
  }
}
