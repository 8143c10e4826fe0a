/**
  `IPBlocker.updateIPList` (main.go): one refresh pass over the kernel map.
  It deletes every key the map holds, then, country by country, reads the
  fetched feed line by line, parses each line as an IPv4 CIDR and writes
  the key `{prefix length, network address}` with value 1 in allow mode and
  0 in deny mode. It does not compute a difference against the old state,
  and a fetch error ends the pass at once with the map holding only the
  countries before it. `GetMapStats` counts the entries.

  Fetching is an input: `feeds[i]` is the text of country `i` split into
  lines, or `None` when `http.Get` failed. What the kernel refuses is an
  input as well (`Faults`); a full map refuses new keys by itself.
 */
module Blocker {

  import opened Wrappers
  import opened Ipv4
  import opened Lpm
  import opened Flags
  import opened Interfaces
  import Text

  /** Keys the kernel refuses to delete or to update during a pass. */
  datatype Faults = Faults(deleteRefused: set<MapKey>, updateRefused: set<MapKey>)

  const NoFaults := Faults({}, {})

  /** The error `http.Get` returned for a country's feed. */
  datatype FetchError = FetchError(country: string)

  /** The map after a pass, and the error the pass returned. */
  datatype Pass = Pass(entries: map<MapKey, bv8>, err: Option<FetchError>)

  /** The value stored for every prefix: 1 in allow mode, 0 in deny mode. */
  function ModeValue(cfg: Config): (v: bv8)
    ensures ValidConfig(cfg) ==> (v == 1 <==> cfg.allowMode)
    ensures ValidConfig(cfg) ==> (v == 0 <==> cfg.denyMode)
  {
    if cfg.denyMode then 0 else 1
  }

  /** The `mapKey` written for a parsed CIDR: its mask length and its network
      address packed by `ipToUint32`. It is the prefix of the written address
      of that length, so host bits never reach the key. */
  function KeyOf(c: Cidr): (k: MapKey)
    requires c.len <= 32
    ensures k == PrefixOf(IpToUint32(c.ip), c.len)
    ensures Normalized(k) && k.prefixLen == c.len
  {
    PrefixIdempotent(IpToUint32(c.ip), c.len);
    MapKey(c.len, IpToUint32(Network(c)))
  }

  /** The key a feed line produces, or `None` for a line that does not parse. */
  function LineKey(line: string): (r: Option<MapKey>)
    ensures r.Some? ==> Normalized(r.value)
  {
    match ParseCidr(line)
    case None => None
    case Some(c) => Some(KeyOf(c))
  }

  /** Whether `addr` lies inside the block `c` names: it agrees with the
      written address on the first `c.len` bits. */
  predicate InCidr(c: Cidr, addr: bv32)
    requires c.len <= 32
  {
    PrefixOf(addr, c.len) == PrefixOf(IpToUint32(c.ip), c.len)
  }

  /** The key of a CIDR matches exactly the addresses inside the CIDR. */
  lemma KeyOfMatches(c: Cidr, addr: bv32)
    requires c.len <= 32
    ensures Matches(KeyOf(c), addr) <==> InCidr(c, addr)
  {
    PrefixIdempotent(IpToUint32(c.ip), c.len);
  }

  /** Two lines with the same mask length whose addresses differ only in
      host bits write the same key. */
  lemma HostBitsIgnored(line1: string, line2: string)
    requires ParseCidr(line1).Some? && ParseCidr(line2).Some?
    requires ParseCidr(line1).value.len == ParseCidr(line2).value.len
    requires InCidr(ParseCidr(line1).value, IpToUint32(ParseCidr(line2).value.ip))
    ensures LineKey(line1) == LineKey(line2)
  {
  }

  /** Stores a pass keeps: normalized keys, every value the mode value,
      within the map's capacity. */
  predicate StoreInvariant(m: map<MapKey, bv8>, v: bv8)
  {
    NormalizedMap(m) && (forall k :: k in m ==> m[k] == v) && |m| <= MaxEntries
  }

  // ---------------------------------------------------------------------
  // One pass, as functions of the old map and the inputs

  /** The clear phase: every key present at the start is deleted; the ones
      the kernel refuses to delete stay, and the pass goes on. */
  function ClearPhase(m: map<MapKey, bv8>, refused: set<MapKey>): (r: map<MapKey, bv8>)
    ensures r.Keys == m.Keys * refused
    ensures forall k :: k in r ==> r[k] == m[k]
  {
    map k | k in m && k in refused :: m[k]
  }

  /** The key each line of a feed produces, in order: `None` for a line that
      does not parse. */
  function ParseFeed(lines: seq<string>): (r: seq<Option<MapKey>>)
    ensures |r| == |lines|
    decreases |lines|
  {
    if lines == [] then [] else ParseFeed(lines[..|lines| - 1]) + [LineKey(lines[|lines| - 1])]
  }

  /** One feed line, once parsed: a line that did not parse is skipped;
      otherwise its key is written with `UpdateAny`, and a refused update is
      skipped. */
  function StoreKey(m: map<MapKey, bv8>, key: Option<MapKey>, v: bv8, faults: Faults): map<MapKey, bv8>
  {
    match key
    case None => m
    case Some(k) => if UpdateFails(m, k, k in faults.updateRefused) then m else m[k := v]
  }

  /** The parsed lines of one feed, in order. */
  function LoadKeys(m: map<MapKey, bv8>, keys: seq<Option<MapKey>>, v: bv8, faults: Faults): map<MapKey, bv8>
    decreases |keys|
  {
    if keys == [] then m
    else StoreKey(LoadKeys(m, keys[..|keys| - 1], v, faults), keys[|keys| - 1], v, faults)
  }

  /** One feed: each line parsed and stored in turn. */
  function LoadFeed(m: map<MapKey, bv8>, lines: seq<string>, v: bv8, faults: Faults): map<MapKey, bv8>
  {
    LoadKeys(m, ParseFeed(lines), v, faults)
  }

  /** Several fetched feeds, in order. */
  function LoadFeeds(m: map<MapKey, bv8>, feeds: seq<seq<string>>, v: bv8, faults: Faults): map<MapKey, bv8>
    decreases |feeds|
  {
    if feeds == [] then m
    else LoadFeeds(LoadFeed(m, feeds[0], v, faults), feeds[1..], v, faults)
  }

  /** The country loop: the first country whose fetch failed ends the pass
      with its error. */
  function LoadCountries(m: map<MapKey, bv8>, countries: seq<string>, feeds: seq<Option<seq<string>>>,
                         v: bv8, faults: Faults): Pass
    requires |countries| == |feeds|
    decreases |feeds|
  {
    if feeds == [] then Pass(m, None)
    else match feeds[0]
      case None => Pass(m, Some(FetchError(countries[0])))
      case Some(lines) => LoadCountries(LoadFeed(m, lines, v, faults), countries[1..], feeds[1..], v, faults)
  }

  /** `updateIPList` as a function: clear, then load the countries. */
  function Refresh(m: map<MapKey, bv8>, cfg: Config, feeds: seq<Option<seq<string>>>, faults: Faults): Pass
    requires |feeds| == |cfg.countries|
  {
    LoadCountries(ClearPhase(m, faults.deleteRefused), cfg.countries, feeds, ModeValue(cfg), faults)
  }

  // ---------------------------------------------------------------------
  // The reference: which feeds a pass reads, and what they ask for

  /** The feeds a pass reads: those before the first failed fetch. */
  function Fetched(feeds: seq<Option<seq<string>>>): (r: seq<seq<string>>)
    ensures |r| <= |feeds|
    ensures forall i :: 0 <= i < |r| ==> feeds[i] == Some(r[i])
    ensures |r| < |feeds| ==> feeds[|r|].None?
  {
    if feeds == [] then []
    else match feeds[0]
      case None => []
      case Some(lines) => [lines] + Fetched(feeds[1..])
  }

  /** The error of the first failed fetch, if any. */
  function FirstFailure(countries: seq<string>, feeds: seq<Option<seq<string>>>): (r: Option<FetchError>)
    requires |countries| == |feeds|
    ensures r.None? <==> forall i :: 0 <= i < |feeds| ==> feeds[i].Some?
    ensures r.Some? ==> |Fetched(feeds)| < |feeds| && r.value == FetchError(countries[|Fetched(feeds)|])
  {
    if feeds == [] then None
    else match feeds[0]
      case None => Some(FetchError(countries[0]))
      case Some(lines) =>
        var r := FirstFailure(countries[1..], feeds[1..]);
        assert r.None? <==> forall i :: 0 <= i < |feeds| ==> feeds[i].Some? by {
          if r.None? {
            forall i | 0 <= i < |feeds| ensures feeds[i].Some? {
              if i > 0 {
                assert feeds[i] == feeds[1..][i - 1];
              }
            }
          } else {
            var j :| 0 <= j < |feeds| - 1 && feeds[1..][j].None?;
            assert feeds[j + 1].None?;
          }
        }
        r
  }

  /** The keys present in a sequence of parsed lines. */
  function KeysIn(keys: seq<Option<MapKey>>): set<MapKey>
    decreases |keys|
  {
    if keys == [] then {} else KeysIn(keys[..|keys| - 1]) + KeySet(keys[|keys| - 1])
  }

  /** The keys a feed asks for: one per line that parses. */
  function FeedKeys(lines: seq<string>): set<MapKey>
  {
    KeysIn(ParseFeed(lines))
  }

  /** The keys several feeds ask for. */
  function FeedsKeys(feeds: seq<seq<string>>): set<MapKey>
    decreases |feeds|
  {
    if feeds == [] then {} else FeedKeys(feeds[0]) + FeedsKeys(feeds[1..])
  }

  /** `m` with every key of `keys` set to `v`. */
  function Overwrite(m: map<MapKey, bv8>, keys: set<MapKey>, v: bv8): map<MapKey, bv8>
  {
    map k | k in m.Keys + keys :: if k in keys then v else m[k]
  }

  /** The map holding exactly `keys`, each with value `v`. */
  function Const(keys: set<MapKey>, v: bv8): map<MapKey, bv8>
  {
    map k | k in keys :: v
  }

  /** The key of a parsed line, as a set. */
  function KeySet(key: Option<MapKey>): set<MapKey>
  {
    match key
    case None => {}
    case Some(k) => {k}
  }

  lemma {:induction false} KeysInMember(keys: seq<Option<MapKey>>, k: MapKey)
    ensures k in KeysIn(keys) <==> Some(k) in keys
    decreases |keys|
  {
    if keys != [] {
      var pre := keys[..|keys| - 1];
      KeysInMember(pre, k);
      assert keys == pre + [keys[|keys| - 1]];
    }
  }

  /** The key of every line that parses is asked for by its feed. */
  lemma FeedKeysHas(lines: seq<string>, j: nat)
    requires j < |lines| && LineKey(lines[j]).Some?
    ensures LineKey(lines[j]).value in FeedKeys(lines)
  {
    ParseFeedAt(lines, j);
    KeysInMember(ParseFeed(lines), LineKey(lines[j]).value);
  }

  /** Every key a feed asks for comes from one of its lines. */
  lemma FeedKeysWitness(lines: seq<string>, k: MapKey) returns (j: nat)
    requires k in FeedKeys(lines)
    ensures j < |lines| && LineKey(lines[j]) == Some(k)
  {
    var keys := ParseFeed(lines);
    KeysInMember(keys, k);
    j :| 0 <= j < |keys| && keys[j] == Some(k);
    ParseFeedAt(lines, j);
  }

  /** The key of every line that parses, in any of the feeds, is asked for. */
  lemma {:induction false} FeedsKeysHas(feeds: seq<seq<string>>, i: nat, j: nat)
    requires i < |feeds| && j < |feeds[i]| && LineKey(feeds[i][j]).Some?
    ensures LineKey(feeds[i][j]).value in FeedsKeys(feeds)
    decreases i
  {
    if i == 0 {
      FeedKeysHas(feeds[0], j);
    } else {
      assert feeds[1..][i - 1] == feeds[i];
      FeedsKeysHas(feeds[1..], i - 1, j);
    }
  }

  /** Every key several feeds ask for comes from a line of one of them. */
  lemma {:induction false} FeedsKeysWitness(feeds: seq<seq<string>>, k: MapKey) returns (i: nat, j: nat)
    requires k in FeedsKeys(feeds)
    ensures i < |feeds| && j < |feeds[i]| && LineKey(feeds[i][j]) == Some(k)
    decreases |feeds|
  {
    if k in FeedKeys(feeds[0]) {
      i := 0;
      j := FeedKeysWitness(feeds[0], k);
    } else {
      var i';
      i', j := FeedsKeysWitness(feeds[1..], k);
      i := i' + 1;
      assert feeds[i] == feeds[1..][i'];
    }
  }

  // ---------------------------------------------------------------------
  // What a pass preserves

  lemma SubsetCard(a: set<MapKey>, b: set<MapKey>)
    requires a <= b
    ensures |a| <= |b|
  {
    assert b == a + (b - a);
  }

  /** Every key present in a sequence of parsed lines is normalized. */
  predicate NormalizedKeys(keys: seq<Option<MapKey>>)
  {
    forall j :: 0 <= j < |keys| && keys[j].Some? ==> Normalized(keys[j].value)
  }

  lemma StoreKeyKeepsInvariant(m: map<MapKey, bv8>, key: Option<MapKey>, v: bv8, faults: Faults)
    requires StoreInvariant(m, v)
    requires key.Some? ==> Normalized(key.value)
    ensures StoreInvariant(StoreKey(m, key, v, faults), v)
  {
  }

  lemma {:induction false} LoadKeysKeepsInvariant(m: map<MapKey, bv8>, keys: seq<Option<MapKey>>, v: bv8, faults: Faults)
    requires StoreInvariant(m, v) && NormalizedKeys(keys)
    ensures StoreInvariant(LoadKeys(m, keys, v, faults), v)
    decreases |keys|
  {
    if keys != [] {
      var pre := keys[..|keys| - 1];
      assert NormalizedKeys(pre) by {
        forall j | 0 <= j < |pre| && pre[j].Some? ensures Normalized(pre[j].value) {
          assert pre[j] == keys[j];
        }
      }
      LoadKeysKeepsInvariant(m, pre, v, faults);
      StoreKeyKeepsInvariant(LoadKeys(m, pre, v, faults), keys[|keys| - 1], v, faults);
    }
  }

  /** Loading a feed keeps the store invariant, whatever the kernel refuses. */
  lemma LoadFeedKeepsInvariant(m: map<MapKey, bv8>, lines: seq<string>, v: bv8, faults: Faults)
    requires StoreInvariant(m, v)
    ensures StoreInvariant(LoadFeed(m, lines, v, faults), v)
  {
    var keys := ParseFeed(lines);
    forall j | 0 <= j < |keys| && keys[j].Some? ensures Normalized(keys[j].value) {
      ParseFeedAt(lines, j);
    }
    LoadKeysKeepsInvariant(m, keys, v, faults);
  }

  lemma {:induction false} LoadCountriesKeepsInvariant(m: map<MapKey, bv8>, countries: seq<string>,
                                                       feeds: seq<Option<seq<string>>>, v: bv8, faults: Faults)
    requires |countries| == |feeds|
    requires StoreInvariant(m, v)
    ensures StoreInvariant(LoadCountries(m, countries, feeds, v, faults).entries, v)
    decreases |feeds|
  {
    if feeds != [] && feeds[0].Some? {
      LoadFeedKeepsInvariant(m, feeds[0].value, v, faults);
      LoadCountriesKeepsInvariant(LoadFeed(m, feeds[0].value, v, faults), countries[1..], feeds[1..], v, faults);
    }
  }

  /** A pass keeps every key normalized, every value the mode value and the
      map within its capacity. */
  lemma RefreshKeepsInvariant(m: map<MapKey, bv8>, cfg: Config, feeds: seq<Option<seq<string>>>, faults: Faults)
    requires |feeds| == |cfg.countries|
    requires StoreInvariant(m, ModeValue(cfg))
    ensures StoreInvariant(Refresh(m, cfg, feeds, faults).entries, ModeValue(cfg))
  {
    var cleared := ClearPhase(m, faults.deleteRefused);
    SubsetCard(cleared.Keys, m.Keys);
    LoadCountriesKeepsInvariant(cleared, cfg.countries, feeds, ModeValue(cfg), faults);
  }

  // ---------------------------------------------------------------------
  // Per-line behaviour

  lemma {:induction false} ParseFeedAt(lines: seq<string>, j: nat)
    requires j < |lines|
    ensures ParseFeed(lines)[j] == LineKey(lines[j])
    decreases |lines|
  {
    if j < |lines| - 1 {
      ParseFeedAt(lines[..|lines| - 1], j);
    }
  }

  lemma {:induction false} ParseFeedAppend(x: seq<string>, y: seq<string>)
    ensures ParseFeed(x + y) == ParseFeed(x) + ParseFeed(y)
    decreases |y|
  {
    if y == [] {
      assert x + y == x;
    } else {
      var pre := y[..|y| - 1];
      ParseFeedAppend(x, pre);
      assert (x + y)[..|x + y| - 1] == x + pre;
      assert (x + y)[|x + y| - 1] == y[|y| - 1];
    }
  }

  lemma {:induction false} LoadKeysSkipsNone(m: map<MapKey, bv8>, before: seq<Option<MapKey>>,
                                             after: seq<Option<MapKey>>, v: bv8, faults: Faults)
    ensures LoadKeys(m, before + [None] + after, v, faults) == LoadKeys(m, before + after, v, faults)
    decreases |after|
  {
    var keys := before + [None] + after;
    var shorter := before + after;
    if after == [] {
      assert keys[..|keys| - 1] == before && keys[|keys| - 1] == None;
      assert shorter == before;
    } else {
      LoadKeysSkipsNone(m, before, after[..|after| - 1], v, faults);
      assert keys[..|keys| - 1] == before + [None] + after[..|after| - 1];
      assert shorter[..|shorter| - 1] == before + after[..|after| - 1];
      assert keys[|keys| - 1] == shorter[|shorter| - 1];
    }
  }

  /** A line that does not parse changes nothing: the lines after it are
      loaded as if it were absent. */
  lemma MalformedLineSkipped(m: map<MapKey, bv8>, before: seq<string>, bad: string,
                             after: seq<string>, v: bv8, faults: Faults)
    requires ParseCidr(bad).None?
    ensures LoadFeed(m, before + [bad] + after, v, faults) == LoadFeed(m, before + after, v, faults)
  {
    ParseFeedAppend(before + [bad], after);
    ParseFeedAppend(before, [bad]);
    ParseFeedAppend(before, after);
    assert ParseFeed([bad]) == [None];
    LoadKeysSkipsNone(m, ParseFeed(before), ParseFeed(after), v, faults);
  }

  // ---------------------------------------------------------------------
  // Without refusals, a pass loads exactly what the feeds ask for

  lemma OverwriteEmpty(m: map<MapKey, bv8>, v: bv8)
    ensures Overwrite(m, {}, v) == m
  {
  }

  lemma OverwriteTwice(m: map<MapKey, bv8>, a: set<MapKey>, b: set<MapKey>, v: bv8)
    ensures Overwrite(Overwrite(m, a, v), b, v) == Overwrite(m, a + b, v)
  {
  }

  /** Without refusals and within capacity, a feed writes `v` under every key
      its lines ask for and leaves the other keys as they were. */
  lemma {:induction false} LoadKeysExact(m: map<MapKey, bv8>, keys: seq<Option<MapKey>>, v: bv8)
    requires |m.Keys + KeysIn(keys)| <= MaxEntries
    ensures LoadKeys(m, keys, v, NoFaults) == Overwrite(m, KeysIn(keys), v)
    decreases |keys|
  {
    if keys == [] {
      OverwriteEmpty(m, v);
    } else {
      var pre := keys[..|keys| - 1];
      var key := keys[|keys| - 1];
      SubsetCard(m.Keys + KeysIn(pre), m.Keys + KeysIn(keys));
      LoadKeysExact(m, pre, v);
      assert m.Keys + KeysIn(pre) + KeySet(key) == m.Keys + KeysIn(keys);
      StoreKeyWithinCapacity(Overwrite(m, KeysIn(pre), v), m, KeysIn(pre), key, v);
    }
  }

  lemma StoreKeyWithinCapacity(loaded: map<MapKey, bv8>, m: map<MapKey, bv8>, keys: set<MapKey>,
                                key: Option<MapKey>, v: bv8)
    requires loaded == Overwrite(m, keys, v)
    requires |m.Keys + keys + KeySet(key)| <= MaxEntries
    ensures StoreKey(loaded, key, v, NoFaults) == Overwrite(m, keys + KeySet(key), v)
  {
    match key
    case None =>
      assert keys + KeySet(key) == keys;
    case Some(k) =>
      assert loaded.Keys + {k} == m.Keys + keys + KeySet(key);
      InsertFits(loaded, k);
      OverwriteInsert(m, keys, k, v);
  }

  /** A key fits when the map with that key stays within capacity. */
  lemma InsertFits(m: map<MapKey, bv8>, k: MapKey)
    requires |m.Keys + {k}| <= MaxEntries
    ensures !UpdateFails(m, k, false)
  {
    if k !in m {
      assert |m.Keys + {k}| == |m.Keys| + 1;
    }
  }

  lemma OverwriteInsert(m: map<MapKey, bv8>, keys: set<MapKey>, k: MapKey, v: bv8)
    ensures Overwrite(m, keys, v)[k := v] == Overwrite(m, keys + {k}, v)
  {
    var want := Overwrite(m, keys + {k}, v);
    var got := Overwrite(m, keys, v)[k := v];
    assert got.Keys == want.Keys;
    forall j | j in want ensures got[j] == want[j] {
      if j != k {
        assert j in keys <==> j in keys + {k};
      }
    }
  }

  lemma {:induction false} LoadFeedsExact(m: map<MapKey, bv8>, feeds: seq<seq<string>>, v: bv8)
    requires |m.Keys + FeedsKeys(feeds)| <= MaxEntries
    ensures LoadFeeds(m, feeds, v, NoFaults) == Overwrite(m, FeedsKeys(feeds), v)
    decreases |feeds|
  {
    if feeds == [] {
      assert FeedsKeys(feeds) == {};
      OverwriteEmpty(m, v);
    } else {
      SubsetCard(m.Keys + FeedKeys(feeds[0]), m.Keys + FeedsKeys(feeds));
      LoadKeysExact(m, ParseFeed(feeds[0]), v);
      var loaded := Overwrite(m, FeedKeys(feeds[0]), v);
      assert loaded.Keys + FeedsKeys(feeds[1..]) == m.Keys + FeedsKeys(feeds);
      LoadFeedsExact(loaded, feeds[1..], v);
      OverwriteTwice(m, FeedKeys(feeds[0]), FeedsKeys(feeds[1..]), v);
    }
  }

  /** The country loop loads the feeds before the first failed fetch and
      returns that fetch's error. */
  lemma {:induction false} CountriesOutcome(m: map<MapKey, bv8>, countries: seq<string>,
                                            feeds: seq<Option<seq<string>>>, v: bv8, faults: Faults)
    requires |countries| == |feeds|
    ensures LoadCountries(m, countries, feeds, v, faults)
         == Pass(LoadFeeds(m, Fetched(feeds), v, faults), FirstFailure(countries, feeds))
    decreases |feeds|
  {
    if feeds != [] && feeds[0].Some? {
      CountriesOutcome(LoadFeed(m, feeds[0].value, v, faults), countries[1..], feeds[1..], v, faults);
      var fetched := Fetched(feeds);
      assert fetched[0] == feeds[0].value && fetched[1..] == Fetched(feeds[1..]);
    }
  }

  /** Without kernel refusals and within capacity, a pass leaves the map
      holding exactly the prefixes of the feeds it read, each with the mode
      value: all of them when every fetch succeeded, and otherwise only the
      countries before the failed one, together with that fetch's error.
      Nothing of the map before the pass survives. */
  lemma PassIsDesired(m: map<MapKey, bv8>, cfg: Config, feeds: seq<Option<seq<string>>>)
    requires |feeds| == |cfg.countries|
    requires |FeedsKeys(Fetched(feeds))| <= MaxEntries
    ensures Refresh(m, cfg, feeds, NoFaults)
         == Pass(Const(FeedsKeys(Fetched(feeds)), ModeValue(cfg)), FirstFailure(cfg.countries, feeds))
  {
    var cleared := ClearPhase(m, NoFaults.deleteRefused);
    assert cleared == map[];
    CountriesOutcome(cleared, cfg.countries, feeds, ModeValue(cfg), NoFaults);
    assert cleared.Keys + FeedsKeys(Fetched(feeds)) == FeedsKeys(Fetched(feeds));
    LoadFeedsExact(cleared, Fetched(feeds), ModeValue(cfg));
    OverwriteNothing(FeedsKeys(Fetched(feeds)), ModeValue(cfg));
  }

  lemma OverwriteNothing(keys: set<MapKey>, v: bv8)
    ensures Overwrite(map[], keys, v) == Const(keys, v)
  {
  }

  /** Running the same pass again, without refusals and within capacity,
      changes nothing: the
      outcome does not depend on the map the pass starts from. */
  lemma RefreshIdempotent(m: map<MapKey, bv8>, cfg: Config, feeds: seq<Option<seq<string>>>)
    requires |feeds| == |cfg.countries|
    requires |FeedsKeys(Fetched(feeds))| <= MaxEntries
    ensures Refresh(Refresh(m, cfg, feeds, NoFaults).entries, cfg, feeds, NoFaults) == Refresh(m, cfg, feeds, NoFaults)
  {
    PassIsDesired(m, cfg, feeds);
    PassIsDesired(Refresh(m, cfg, feeds, NoFaults).entries, cfg, feeds);
  }

  // ---------------------------------------------------------------------
  // With refusals: what a pass can and must leave

  lemma StoreKeySound(m: map<MapKey, bv8>, key: Option<MapKey>, v: bv8, faults: Faults)
    ensures m.Keys <= StoreKey(m, key, v, faults).Keys <= m.Keys + KeySet(key)
    ensures key.Some? && key.value !in faults.updateRefused && |m.Keys + {key.value}| <= MaxEntries ==>
      key.value in StoreKey(m, key, v, faults)
  {
    if key.Some? && key.value !in faults.updateRefused && |m.Keys + {key.value}| <= MaxEntries {
      InsertFits(m, key.value);
    }
  }

  /** A feed only adds keys, and only keys its lines ask for. */
  lemma {:induction false} LoadKeysSound(m: map<MapKey, bv8>, keys: seq<Option<MapKey>>, v: bv8, faults: Faults)
    ensures m.Keys <= LoadKeys(m, keys, v, faults).Keys <= m.Keys + KeysIn(keys)
    decreases |keys|
  {
    if keys != [] {
      var pre := keys[..|keys| - 1];
      LoadKeysSound(m, pre, v, faults);
      StoreKeySound(LoadKeys(m, pre, v, faults), keys[|keys| - 1], v, faults);
    }
  }

  /** Within capacity, every key a feed asks for is present afterwards
      unless the kernel refused to write it: a refused update does not stop
      the lines after it. */
  lemma {:induction false} LoadKeysComplete(m: map<MapKey, bv8>, keys: seq<Option<MapKey>>, v: bv8, faults: Faults)
    requires |m.Keys + KeysIn(keys)| <= MaxEntries
    ensures KeysIn(keys) - faults.updateRefused <= LoadKeys(m, keys, v, faults).Keys
    decreases |keys|
  {
    if keys != [] {
      var pre := keys[..|keys| - 1];
      var key := keys[|keys| - 1];
      var loaded := LoadKeys(m, pre, v, faults);
      SubsetCard(m.Keys + KeysIn(pre), m.Keys + KeysIn(keys));
      LoadKeysComplete(m, pre, v, faults);
      LoadKeysSound(m, pre, v, faults);
      if key.Some? {
        SubsetCard(loaded.Keys + {key.value}, m.Keys + KeysIn(keys));
      }
      StoreKeySound(loaded, key, v, faults);
    }
  }

  lemma {:induction false} LoadFeedsSound(m: map<MapKey, bv8>, feeds: seq<seq<string>>, v: bv8, faults: Faults)
    ensures m.Keys <= LoadFeeds(m, feeds, v, faults).Keys <= m.Keys + FeedsKeys(feeds)
    decreases |feeds|
  {
    if feeds != [] {
      LoadKeysSound(m, ParseFeed(feeds[0]), v, faults);
      LoadFeedsSound(LoadFeed(m, feeds[0], v, faults), feeds[1..], v, faults);
    }
  }

  lemma {:induction false} LoadFeedsComplete(m: map<MapKey, bv8>, feeds: seq<seq<string>>, v: bv8, faults: Faults)
    requires |m.Keys + FeedsKeys(feeds)| <= MaxEntries
    ensures FeedsKeys(feeds) - faults.updateRefused <= LoadFeeds(m, feeds, v, faults).Keys
    decreases |feeds|
  {
    if feeds != [] {
      var loaded := LoadFeed(m, feeds[0], v, faults);
      SubsetCard(m.Keys + FeedKeys(feeds[0]), m.Keys + FeedsKeys(feeds));
      LoadKeysComplete(m, ParseFeed(feeds[0]), v, faults);
      LoadKeysSound(m, ParseFeed(feeds[0]), v, faults);
      SubsetCard(loaded.Keys + FeedsKeys(feeds[1..]), m.Keys + FeedsKeys(feeds));
      LoadFeedsComplete(loaded, feeds[1..], v, faults);
      LoadFeedsSound(loaded, feeds[1..], v, faults);
    }
  }

  /** Whatever the kernel refuses, after a pass the map holds only keys whose
      deletion was refused and keys the fetched feeds ask for; and, within
      capacity, every fetched key whose update was not refused. */
  lemma RefreshUnderFaults(m: map<MapKey, bv8>, cfg: Config, feeds: seq<Option<seq<string>>>, faults: Faults)
    requires |feeds| == |cfg.countries|
    ensures Refresh(m, cfg, feeds, faults).entries.Keys
         <= (m.Keys * faults.deleteRefused) + FeedsKeys(Fetched(feeds))
    ensures |(m.Keys * faults.deleteRefused) + FeedsKeys(Fetched(feeds))| <= MaxEntries ==>
      FeedsKeys(Fetched(feeds)) - faults.updateRefused <= Refresh(m, cfg, feeds, faults).entries.Keys
  {
    var cleared := ClearPhase(m, faults.deleteRefused);
    CountriesOutcome(cleared, cfg.countries, feeds, ModeValue(cfg), faults);
    LoadFeedsSound(cleared, Fetched(feeds), ModeValue(cfg), faults);
    if |cleared.Keys + FeedsKeys(Fetched(feeds))| <= MaxEntries {
      LoadFeedsComplete(cleared, Fetched(feeds), ModeValue(cfg), faults);
    }
  }

  // ---------------------------------------------------------------------
  // The loader

  lemma LoadFeedStep(m: map<MapKey, bv8>, lines: seq<string>, j: nat, v: bv8, faults: Faults)
    requires j < |lines|
    ensures LoadFeed(m, lines[..j + 1], v, faults) == StoreKey(LoadFeed(m, lines[..j], v, faults), LineKey(lines[j]), v, faults)
  {
    var pre := lines[..j + 1];
    assert pre[..|pre| - 1] == lines[..j];
    assert ParseFeed(pre) == ParseFeed(lines[..j]) + [LineKey(lines[j])];
    assert ParseFeed(pre)[..|pre| - 1] == ParseFeed(lines[..j]);
  }

  /** A character of an IPv6 address written in text: a hex digit, ':' or,
      for an embedded IPv4 tail, '.'. */
  predicate IPv6Char(ch: char)
  {
    ('0' <= ch <= '9') || ('a' <= ch <= 'f') || ('A' <= ch <= 'F') || ch == ':' || ch == '.'
  }

  /** A line that `net.ParseCIDR` could read as an IPv6 CIDR: before the
      first '/' a non-empty run of IPv6 characters holding a ':', after it a
      non-empty run of digits. Every IPv6 CIDR the parser accepts has this
      shape; lines of any other shape (a page of text, "http:", "12:00") are
      not of it. */
  predicate MaybeIPv6Cidr(line: string)
  {
    match Text.Cut(line, '/')
    case None => false
    case Some((addr, bits)) =>
      addr != [] && ':' in addr && (forall k :: 0 <= k < |addr| ==> IPv6Char(addr[k]))
      && bits != [] && Text.AllDigits(bits)
  }

  /** The precondition never turns away a line the model loads: an IPv4 CIDR
      line has no ':' before its '/'. */
  lemma IPv4LineAllowed(line: string)
    requires ParseCidr(line).Some?
    ensures !MaybeIPv6Cidr(line)
  {
    var (addr, bits) := Text.Cut(line, '/').value;
    var ip := ParseIPv4(addr).value;
    ParseIPv4Spelling(addr, ip);
    FieldsAvoid(ip, ':');
    Text.NotInJoin(OctetFields(ip), '.', ':');
  }

  /** No fetched line can be an IPv6 CIDR: on one, Go's `ipToUint32` would
      index the nil result of `To4`. */
  predicate IPv4Feeds(feeds: seq<Option<seq<string>>>)
  {
    forall i, j :: 0 <= i < |feeds| && feeds[i].Some? && 0 <= j < |feeds[i].value| ==> !MaybeIPv6Cidr(feeds[i].value[j])
  }

  /** `IPBlocker`: the kernel map and the configuration. */
  class IPBlocker {
    const ipMap: LpmMap
    const config: Config

    /** The map holds normalized keys, all with the mode value, within
        capacity. */
    ghost predicate Valid()
      reads this, ipMap
    {
      StoreInvariant(ipMap.entries, ModeValue(config))
    }

    /** A blocker over a freshly created, empty `ip_map`. */
    constructor (config: Config)
      ensures this.config == config && fresh(ipMap)
      ensures ipMap.entries == map[]
      ensures Valid()
    {
      this.config := config;
      ipMap := new LpmMap();
    }

    /** `updateIPList`: one refresh pass. */
    method UpdateIPList(feeds: seq<Option<seq<string>>>, faults: Faults) returns (err: Option<FetchError>)
      requires Valid()
      requires |feeds| == |config.countries|
      requires IPv4Feeds(feeds)
      modifies ipMap
      ensures Valid()
      ensures Pass(ipMap.entries, err) == Refresh(old(ipMap.entries), config, feeds, faults)
    {
      ghost var start := ipMap.entries;
      RefreshKeepsInvariant(start, config, feeds, faults);
      ClearAll(faults.deleteRefused);
      var value: bv8 := 1;
      if config.denyMode {
        value := 0;
      }
      var i := 0;
      while i < |feeds|
        invariant 0 <= i <= |feeds|
        invariant Refresh(start, config, feeds, faults)
               == LoadCountries(ipMap.entries, config.countries[i..], feeds[i..], value, faults)
      {
        if feeds[i].None? {
          return Some(FetchError(config.countries[i]));
        }
        LoadLines(feeds[i].value, value, faults);
        assert feeds[i..][1..] == feeds[i + 1..];
        assert config.countries[i..][1..] == config.countries[i + 1..];
        i := i + 1;
      }
      return None;
    }

    /** The clear phase of `updateIPList`: every key present at the start is
        deleted, unless the kernel refuses. */
    method ClearAll(refused: set<MapKey>)
      modifies ipMap
      ensures ipMap.entries == ClearPhase(old(ipMap.entries), refused)
    {
      ghost var start := ipMap.entries;
      var pending := ipMap.entries.Keys;
      while pending != {}
        invariant pending <= start.Keys
        invariant ipMap.entries == Surviving(start, pending, refused)
        decreases |pending|
      {
        var key :| key in pending;
        var ok := ipMap.Delete(key, key in refused);
        SurvivingStep(start, pending, key, refused);
        pending := pending - {key};
      }
      SurvivingDone(start, refused);
    }

    /** The scanner loop of `updateIPList` over one fetched feed. */
    method LoadLines(lines: seq<string>, value: bv8, faults: Faults)
      modifies ipMap
      ensures ipMap.entries == LoadFeed(old(ipMap.entries), lines, value, faults)
    {
      ghost var before := ipMap.entries;
      var j := 0;
      while j < |lines|
        invariant 0 <= j <= |lines|
        invariant ipMap.entries == LoadFeed(before, lines[..j], value, faults)
      {
        LoadFeedStep(before, lines, j, value, faults);
        var parsed := ParseCidr(lines[j]);
        if parsed.Some? {
          var key := KeyOf(parsed.value);
          var ok := ipMap.Update(key, value, key in faults.updateRefused);
        }
        j := j + 1;
      }
      assert lines[..|lines|] == lines;
    }

    /** `GetMapStats`: the number of entries; the map is not changed. */
    method GetMapStats() returns (count: nat)
      ensures count == |ipMap.entries|
    {
      count := 0;
      var pending := ipMap.entries.Keys;
      while pending != {}
        invariant pending <= ipMap.entries.Keys
        invariant count + |pending| == |ipMap.entries|
        decreases |pending|
      {
        var key :| key in pending;
        count := count + 1;
        pending := pending - {key};
      }
    }
  }

  /** What the clear phase has left while `pending` keys remain to visit:
      those still pending and those whose deletion was refused. */
  function Surviving(start: map<MapKey, bv8>, pending: set<MapKey>, refused: set<MapKey>): map<MapKey, bv8>
  {
    map k | k in start && (k in pending || k in refused) :: start[k]
  }

  lemma SurvivingStep(start: map<MapKey, bv8>, pending: set<MapKey>, key: MapKey, refused: set<MapKey>)
    requires key in pending && pending <= start.Keys
    ensures (if key !in refused then Surviving(start, pending, refused) - {key} else Surviving(start, pending, refused))
         == Surviving(start, pending - {key}, refused)
  {
  }

  lemma SurvivingDone(start: map<MapKey, bv8>, refused: set<MapKey>)
    ensures Surviving(start, {}, refused) == ClearPhase(start, refused)
  {
  }

  /** Errors `NewIPBlocker` reports. */
  datatype StartError = NoInterface | InitialUpdate(cause: FetchError)

  /** `NewIPBlocker`: choose the interface, build the blocker over a fresh
      map and run the first pass; an empty interface name or a failed first
      pass is an error and no blocker is returned. */
  method NewIPBlocker(config: Config, ifaces: Option<seq<Interface>>, feeds: seq<Option<seq<string>>>, faults: Faults)
    returns (b: IPBlocker?, err: Option<StartError>)
    requires |feeds| == |config.countries|
    requires IPv4Feeds(feeds)
    ensures (b != null) == err.None?
    ensures err == Some(NoInterface) <==> DefaultName(ifaces) == ""
    ensures DefaultName(ifaces) != "" ==>
      (err.Some? <==> FirstFailure(config.countries, feeds).Some?)
    ensures err.Some? && err.value.InitialUpdate? ==> FirstFailure(config.countries, feeds) == Some(err.value.cause)
    ensures b != null ==> fresh(b) && fresh(b.ipMap) && b.Valid() && b.config == config
    ensures b != null ==> Pass(b.ipMap.entries, None) == Refresh(map[], config, feeds, faults)
  {
    var iface := DefaultInterface(ifaces);
    if iface == "" {
      return null, Some(NoInterface);
    }
    var blocker := new IPBlocker(config);
    var e := blocker.UpdateIPList(feeds, faults);
    CountriesOutcome(map[], config.countries, feeds, ModeValue(config), faults);
    if e.Some? {
      return null, Some(InitialUpdate(e.value));
    }
    return blocker, None;
  }
}
