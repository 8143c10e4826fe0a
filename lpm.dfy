/**
  The kernel map `ip_map` shared by the loader and the XDP program
  (xdp_filter.c): a longest-prefix-match trie keyed by
  `struct lpm_key { prefixlen, ip }` with a one-byte value, holding at most
  500000 entries. Addresses are kept as abstract 32-bit words (most
  significant octet first).
 */
module Lpm {

  import opened Wrappers
  import opened Ipv4

  type Uint32 = x: int | 0 <= x < 0x1_0000_0000

  /** `struct lpm_key` / Go's `mapKey`. */
  datatype MapKey = MapKey(prefixLen: Uint32, ip: bv32)

  /** `.max_entries` of `ip_map`. */
  const MaxEntries: nat := 500000

  /** The key of length `len` that covers `addr`: the first `len` bits of
      `addr`, the rest cleared. */
  function PrefixOf(addr: bv32, len: nat): (k: MapKey)
    requires len <= 32
    ensures k.prefixLen == len
  {
    MapKey(len, addr & NetMask(len))
  }

  /** Clearing host bits twice changes nothing. */
  lemma PrefixIdempotent(addr: bv32, len: nat)
    requires len <= 32
    ensures PrefixOf(PrefixOf(addr, len).ip, len) == PrefixOf(addr, len)
  {
  }

  /** A key that names a prefix of at most 32 bits and carries no host bits. */
  predicate Normalized(k: MapKey)
  {
    k.prefixLen <= 32 && PrefixOf(k.ip, k.prefixLen) == k
  }

  predicate NormalizedMap(m: map<MapKey, bv8>)
  {
    forall k :: k in m ==> Normalized(k)
  }

  /** `addr` lies inside the prefix named by `k`: they agree on its first
      `k.prefixLen` bits. */
  predicate Matches(k: MapKey, addr: bv32)
  {
    k.prefixLen <= 32 && PrefixOf(addr, k.prefixLen) == PrefixOf(k.ip, k.prefixLen)
  }

  /** The prefix of an address is normalized and covers the address. */
  lemma PrefixCovers(addr: bv32, len: nat)
    requires len <= 32
    ensures Normalized(PrefixOf(addr, len)) && Matches(PrefixOf(addr, len), addr)
  {
    PrefixIdempotent(addr, len);
  }

  /** A normalized key that `addr` matches is the prefix of `addr` of its length. */
  lemma MatchIsPrefixOf(k: MapKey, addr: bv32)
    requires Normalized(k) && Matches(k, addr)
    ensures k == PrefixOf(addr, k.prefixLen)
  {
  }

  /** Longest-prefix match for `addr`, trying prefix lengths `len`, `len - 1`, ..., 0. */
  function LookupFrom(m: map<MapKey, bv8>, addr: bv32, len: nat): (r: Option<bv8>)
    requires len <= 32
    ensures r.Some? ==> exists k :: k in m && Matches(k, addr) && k.prefixLen <= len && m[k] == r.value
    ensures r.None? && NormalizedMap(m) ==>
      forall k :: k in m && k.prefixLen <= len ==> !Matches(k, addr)
    decreases len
  {
    var k := PrefixOf(addr, len);
    PrefixCovers(addr, len);
    if k in m then Some(m[k])
    else if len == 0 then None
    else
      var r := LookupFrom(m, addr, len - 1);
      assert r.None? && NormalizedMap(m) ==> forall k' :: k' in m && k'.prefixLen <= len ==> !Matches(k', addr) by {
        if r.None? && NormalizedMap(m) {
          forall k' | k' in m && k'.prefixLen == len ensures !Matches(k', addr) {
            if Matches(k', addr) {
              MatchIsPrefixOf(k', addr);
            }
          }
        }
      }
      r
  }

  /** `bpf_map_lookup_elem` on the trie: the value of the longest stored
      prefix, of at most `key.prefixLen` bits, that contains `key.ip`. */
  function Lookup(m: map<MapKey, bv8>, key: MapKey): Option<bv8>
    requires key.prefixLen <= 32
  {
    LookupFrom(m, key.ip, key.prefixLen)
  }

  /** A hit is the longest match: no stored normalized prefix that also
      contains the address is longer. */
  lemma {:induction false} LookupIsLongest(m: map<MapKey, bv8>, addr: bv32, len: nat) returns (k: MapKey)
    requires len <= 32
    requires LookupFrom(m, addr, len).Some?
    ensures k in m && Matches(k, addr) && k.prefixLen <= len
    ensures m[k] == LookupFrom(m, addr, len).value
    ensures forall k' :: k' in m && Normalized(k') && Matches(k', addr) && k'.prefixLen <= len ==>
      k'.prefixLen <= k.prefixLen
    decreases len
  {
    if PrefixOf(addr, len) in m {
      k := PrefixOf(addr, len);
      PrefixCovers(addr, len);
    } else {
      k := LookupIsLongest(m, addr, len - 1);
      forall k' | k' in m && Normalized(k') && Matches(k', addr) && k'.prefixLen <= len
        ensures k'.prefixLen <= k.prefixLen
      {
        MatchIsPrefixOf(k', addr);
      }
    }
  }

  /** A lookup misses exactly when no stored prefix contains the address. */
  lemma LookupMissIff(m: map<MapKey, bv8>, addr: bv32, len: nat)
    requires len <= 32 && NormalizedMap(m)
    ensures LookupFrom(m, addr, len).None? <==>
      forall k :: k in m && k.prefixLen <= len ==> !Matches(k, addr)
  {
  }

  /** `k` is the longest stored normalized prefix that contains `addr`. */
  predicate LongestMatch(m: map<MapKey, bv8>, addr: bv32, k: MapKey)
  {
    k in m && Normalized(k) && Matches(k, addr)
    && forall k' :: k' in m && Normalized(k') && Matches(k', addr) ==> k'.prefixLen <= k.prefixLen
  }

  /** A full-length lookup returns exactly the value of the longest stored
      prefix containing the address, and misses when there is none. */
  lemma LookupLongestValue(m: map<MapKey, bv8>, addr: bv32)
    requires NormalizedMap(m)
    ensures LookupFrom(m, addr, 32).Some? <==> exists k :: LongestMatch(m, addr, k)
    ensures forall k :: LongestMatch(m, addr, k) ==> LookupFrom(m, addr, 32) == Some(m[k])
  {
    if LookupFrom(m, addr, 32).Some? {
      var w := LookupIsLongest(m, addr, 32);
      assert LongestMatch(m, addr, w);
      forall k | LongestMatch(m, addr, k) ensures LookupFrom(m, addr, 32) == Some(m[k]) {
        MatchIsPrefixOf(k, addr);
        MatchIsPrefixOf(w, addr);
      }
    }
  }

  /** `BPF_MAP_UPDATE_ELEM` with `BPF_ANY` fails when the kernel refuses it
      (`refused`) or when the key is new and the map is full; an existing key
      is always overwritten. */
  predicate UpdateFails(m: map<MapKey, bv8>, key: MapKey, refused: bool)
  {
    refused || (key !in m && |m| >= MaxEntries)
  }

  /** The kernel object behind Go's `*ebpf.Map`. */
  class LpmMap {
    var entries: map<MapKey, bv8>

    /** A map freshly created from the ELF section is empty. */
    constructor ()
      ensures entries == map[]
    {
      entries := map[];
    }

    /** `Map.Update(&key, &value, ebpf.UpdateAny)`. */
    method Update(key: MapKey, value: bv8, refused: bool) returns (ok: bool)
      modifies this
      ensures ok == !UpdateFails(old(entries), key, refused)
      ensures entries == if ok then old(entries)[key := value] else old(entries)
    {
      ok := !UpdateFails(entries, key, refused);
      if ok {
        entries := entries[key := value];
      }
    }

    /** `Map.Delete(&key)`: fails on a missing key or when the kernel refuses it. */
    method Delete(key: MapKey, refused: bool) returns (ok: bool)
      modifies this
      ensures ok == (key in old(entries) && !refused)
      ensures entries == if ok then old(entries) - {key} else old(entries)
    {
      ok := key in entries && !refused;
      if ok {
        entries := entries - {key};
      }
    }
  }
}
