/**
  What the loader and the XDP program enforce together: the verdict a frame
  gets from the map a refresh pass leaves behind. Both sides pack addresses
  most significant octet first here; the program writes keys in host order
  (main.go:239) and looks up `saddr` in network order (xdp_filter.c:56), so
  these results describe the intended agreement of the two byte orders, not
  the program on a real host.
 */
module Enforcement {

  import opened Wrappers
  import opened Ipv4
  import opened Lpm
  import opened Flags
  import opened Blocker
  import opened XdpFilter

  /** Some line of the feeds parses to a CIDR that contains `addr`. */
  predicate Listed(feeds: seq<seq<string>>, addr: bv32)
  {
    exists i, j :: 0 <= i < |feeds| && 0 <= j < |feeds[i]| && ParseCidr(feeds[i][j]).Some?
                   && InCidr(ParseCidr(feeds[i][j]).value, addr)
  }

  /** The prefixes the feeds ask for contain `addr` exactly when `addr` is
      listed, and they are all normalized. */
  lemma ListedIff(feeds: seq<seq<string>>, addr: bv32)
    ensures (exists k :: k in FeedsKeys(feeds) && Matches(k, addr)) <==> Listed(feeds, addr)
    ensures forall k :: k in FeedsKeys(feeds) ==> Normalized(k)
  {
    forall k | k in FeedsKeys(feeds) ensures Normalized(k) {
      var i, j := FeedsKeysWitness(feeds, k);
    }
    if k :| k in FeedsKeys(feeds) && Matches(k, addr) {
      var i, j := FeedsKeysWitness(feeds, k);
      KeyOfMatches(ParseCidr(feeds[i][j]).value, addr);
    }
    if Listed(feeds, addr) {
      var i, j :| 0 <= i < |feeds| && 0 <= j < |feeds[i]| && ParseCidr(feeds[i][j]).Some?
                  && InCidr(ParseCidr(feeds[i][j]).value, addr);
      KeyOfMatches(ParseCidr(feeds[i][j]).value, addr);
      FeedsKeysHas(feeds, i, j);
    }
  }

  /** Over a map whose values are all `v`, a frame is dropped exactly when it
      is an IPv4 frame, `v` is 0 and some stored prefix contains its source. */
  lemma UniformVerdict(p: seq<bv8>, m: map<MapKey, bv8>, v: bv8)
    requires NormalizedMap(m) && forall k :: k in m ==> m[k] == v
    ensures IpFilter(p, m) == XdpDrop <==>
      IsIPv4Frame(p) && v == 0 && exists k :: k in m && Matches(k, SourceAddr(p))
  {
    if IsIPv4Frame(p) {
      LookupMissIff(m, SourceAddr(p), 32);
    }
  }

  /** In allow mode `ip_filter` never drops a frame, whatever the map a pass
      left: every stored value is 1, a hit with 1 passes, and a miss passes. */
  lemma AllowModeNeverDrops(p: seq<bv8>, m: map<MapKey, bv8>, cfg: Config)
    requires ValidConfig(cfg) && cfg.allowMode
    requires StoreInvariant(m, ModeValue(cfg))
    ensures IpFilter(p, m) == XdpPass
  {
    UniformVerdict(p, m, ModeValue(cfg));
  }

  /** In deny mode, after a pass without refusals and within capacity, a
      frame is dropped exactly when it is an IPv4 frame whose source lies in a CIDR of the feeds the
      pass read. */
  lemma DenyDropsListed(m: map<MapKey, bv8>, cfg: Config, feeds: seq<Option<seq<string>>>, p: seq<bv8>)
    requires ValidConfig(cfg) && cfg.denyMode
    requires |feeds| == |cfg.countries|
    requires |FeedsKeys(Fetched(feeds))| <= MaxEntries
    ensures IpFilter(p, Refresh(m, cfg, feeds, NoFaults).entries) == XdpDrop <==>
      IsIPv4Frame(p) && Listed(Fetched(feeds), SourceAddr(p))
  {
    PassIsDesired(m, cfg, feeds);
    var keys := FeedsKeys(Fetched(feeds));
    ListedIff(Fetched(feeds), if |p| >= EthHdrLen + IpHdrLen then SourceAddr(p) else 0);
    UniformVerdict(p, Const(keys, 0), 0);
  }

  /** Between the clear phase and the load phase the map is empty (when no
      deletion is refused), and every frame passes: in deny mode the listed
      sources are not blocked during a pass. */
  lemma ClearedMapPassesAll(p: seq<bv8>, m: map<MapKey, bv8>)
    ensures IpFilter(p, ClearPhase(m, {})) == XdpPass
  {
    assert ClearPhase(m, {}) == map[];
  }

  // ---------------------------------------------------------------------
  // The verdict allow mode calls for

  /** `ip_filter` as allow mode needs it: a lookup miss drops the frame in
      allow mode and passes it in deny mode; everything else is unchanged. */
  function IntendedFilter(p: seq<bv8>, m: map<MapKey, bv8>, allowMode: bool): (v: Verdict)
    ensures !allowMode ==> v == IpFilter(p, m)
    ensures !IsIPv4Frame(p) ==> v == XdpPass
  {
    if |p| < EthHdrLen then XdpPass
    else if EtherType(p) != EthPIp then XdpPass
    else if |p| < EthHdrLen + IpHdrLen then XdpPass
    else
      match Lookup(m, LookupKey(p))
      case Some(value) => if value != 0 then XdpPass else XdpDrop
      case None => if allowMode then XdpDrop else XdpPass
  }

  lemma IntendedUniform(p: seq<bv8>, m: map<MapKey, bv8>, allowMode: bool)
    requires NormalizedMap(m) && forall k :: k in m ==> m[k] == (if allowMode then 1 else 0)
    ensures IntendedFilter(p, m, allowMode) == XdpDrop <==>
      IsIPv4Frame(p) && ((exists k :: k in m && Matches(k, SourceAddr(p))) <==> !allowMode)
  {
    if IsIPv4Frame(p) {
      LookupMissIff(m, SourceAddr(p), 32);
    }
  }

  /** After a pass without refusals and within capacity, the intended verdict drops exactly the
      IPv4 frames whose source is not listed in allow mode, and exactly those
      whose source is listed in deny mode. */
  lemma IntendedEnforces(m: map<MapKey, bv8>, cfg: Config, feeds: seq<Option<seq<string>>>, p: seq<bv8>)
    requires ValidConfig(cfg)
    requires |feeds| == |cfg.countries|
    requires |FeedsKeys(Fetched(feeds))| <= MaxEntries
    ensures IntendedFilter(p, Refresh(m, cfg, feeds, NoFaults).entries, cfg.allowMode) == XdpDrop <==>
      IsIPv4Frame(p) && (Listed(Fetched(feeds), SourceAddr(p)) <==> cfg.denyMode)
  {
    PassIsDesired(m, cfg, feeds);
    var keys := FeedsKeys(Fetched(feeds));
    ListedIff(Fetched(feeds), if |p| >= EthHdrLen + IpHdrLen then SourceAddr(p) else 0);
    IntendedUniform(p, Const(keys, ModeValue(cfg)), cfg.allowMode);
  }
}
