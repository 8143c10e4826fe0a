# KGB geo-IP blocker — a Dafny model

KGB blocks or admits network traffic by country. A Go loader (`main.go`)
downloads the aggregated CIDR lists of the configured countries and writes
one entry per CIDR into `ip_map`, a kernel longest-prefix-match map. An XDP
program (`xdp_filter.c`) looks up the source address of every received
frame in that map and passes or drops the frame.

This project models:

- **the command line** (`Flags`): exactly one of `--allow` / `--deny`, a
  non-empty `--countries` string split at commas, a one-hour period;
- **IPv4 addresses and CIDR lines** (`Ipv4`, with string helpers in
  `Text`): `ipToUint32` and its inverse `PutUint32`, and the IPv4 part of
  `net.ParseCIDR` (dotted quad without leading zeros, '/', a length of at
  most 32, host bits cleared);
- **the kernel map** (`Lpm`): keys `{prefix length, address}`, one-byte
  values, 500000 entries at most, `UpdateAny` and `Delete`, and the lookup
  as the longest-stored-prefix rule;
- **the refresh pass** `updateIPList` (`Blocker`): first as functions of
  the old map and the inputs (`ClearPhase`, `LoadFeed`, `LoadCountries`,
  `Refresh`), then as the class `IPBlocker` whose methods run the loops of
  the source against an `LpmMap` and are proved equal to those functions;
  `GetMapStats`; `NewIPBlocker` without the eBPF loading;
- **the interface choice** `getDefaultInterface` (`Interfaces`);
- **the verdict** `ip_filter` (`XdpFilter`);
- **what loader and filter enforce together** (`Enforcement`), under the
  single address packing described below; the program itself runs with two
  different byte orders (see "Left out").

Inputs stand in for the outside world. Each configured country's feed is
`Option<seq<string>>`: its lines after scanning, or `None` when `http.Get`
failed. The system's interface list is a value as well. So are the kernel's
refusals: `Faults` names the keys whose deletion or update the kernel
refuses. A full map refuses new keys by itself.

Addresses are 32-bit words with the first octet most significant, on both
sides. The real byte order is described under "Left out".

### Behaviour of the refresh pass worth knowing

- **Clear, then reload.** A pass deletes every key and then loads the
  feeds again (main.go:207-258). No entry is compared with what the feeds
  want. `Enforcement.ClearedMapPassesAll` shows what this leaves open:
  when no deletion is refused, every frame passes between the two phases,
  including frames from denied countries.
- **A failed fetch ends the pass.** When `http.Get` fails for a country,
  `updateIPList` returns that error at once (main.go:224-227). The map then
  holds the countries before the failed one and none after it
  (`Blocker.CountriesOutcome`, `Blocker.PassIsDesired`).
- **Any response is read as lines.** The status code is never looked at
  (main.go:228-232). The body of an error response is scanned like a feed.
  Its lines usually do not parse and are skipped.
- **The first pass.** Any failed fetch in the first pass makes
  `NewIPBlocker` fail (main.go:76-79), even when other countries loaded.
- **A second pass over unchanged feeds** deletes and re-adds every entry.
  Without refusals and within capacity, the map it leaves is the same
  (`Blocker.RefreshIdempotent`).

## Model

| member | source | states |
|---|---|---|
| Text.Split | main.go:167 | `strings.Split`: at least one piece, and no piece contains the separator |
| Text.JoinSplit | main.go:167 | joining the pieces with the separator gives back the split string |
| Text.SplitJoin | main.go:167 | splitting a join of separator-free pieces (at least one) gives back the pieces |
| Text.Cut | main.go:233 | the cut at the first '/': none exactly when the line has no '/'; otherwise the part before has no '/' and the parts with the '/' rebuild the line |
| Ipv4.IpToUint32 | main.go:291-294 | packing is big-endian: `PutUint32` of the packed word gives back the four octets |
| Ipv4.PackUnpack | main.go:271-272 | `binary.BigEndian.PutUint32` is the inverse of `ipToUint32`: packing the four bytes it produces gives back the word, so `GetMapStats` shows the key's address |
| Ipv4.Network | main.go:233 | the network address of a CIDR, packed, is the packed address under the mask of the prefix length |
| Ipv4.ParseOctet | main.go:233 | an empty field and a field with a leading zero are refused; an accepted field is all digits and has the value of its digits; every field of digits without a leading zero whose value is at most 255 is accepted |
| Ipv4.ParseOctetSpelling | main.go:233 | an accepted field is the shortest decimal spelling of its byte |
| Ipv4.ParsePrefixLen | main.go:233 | an accepted prefix length is a non-empty run of digits and is their decimal value, at most 32; every such run whose value is at most 32 is accepted |
| Ipv4.ParseCidr | main.go:233-236 | an accepted line contains '/' and has a prefix length of at most 32 |
| Ipv4.ParseFormatIPv4 | main.go:233 | every address reads back from its dotted-quad spelling |
| Ipv4.ParseIPv4Spelling | main.go:233 | conversely, an accepted address is spelled exactly as its dotted quad |
| Ipv4.ParseFormatCidr | main.go:233 | every CIDR with a length of at most 32 reads back from its "a.b.c.d/len" spelling |
| Ipv4.ParseCidrSpelling | main.go:233 | conversely, an accepted line is the dotted quad of its address, '/', and non-empty digits whose value is its prefix length |
| Ipv4.SameNetwork | main.go:239 | two CIDRs of one length whose addresses agree under the mask have the same network address |
| Lpm.PrefixCovers | xdp_filter.c:16-19 | the key of an address at a given length has no host bits and contains the address |
| Lpm.MatchIsPrefixOf | xdp_filter.c:16-19 | a key without host bits that contains an address is that address's key at the key's length, so one key per length has to be tried |
| Lpm.LookupFrom | xdp_filter.c:59 | a hit is the value of a stored prefix that contains the address; over normalized keys, a miss means that no stored prefix of at most the given length contains it |
| Lpm.LookupIsLongest | xdp_filter.c:59 | a hit comes from a stored prefix containing the address, and no longer normalized stored prefix contains it |
| Lpm.LookupMissIff | xdp_filter.c:59-64 | over normalized keys, the lookup misses exactly when no stored prefix contains the address |
| Lpm.LookupLongestValue | xdp_filter.c:59 | a full-length lookup hits exactly when a longest matching prefix exists, and returns that prefix's value |
| Lpm.LpmMap.constructor | xdp_filter.c:30-36 | the map starts empty |
| Lpm.LpmMap.Update | main.go:254-256 | `UpdateAny` overwrites an existing key, adds a new key unless the map holds 500000 entries, and fails when the kernel refuses; a failure changes nothing |
| Lpm.LpmMap.Delete | main.go:213-216 | deleting succeeds exactly for a present key the kernel does not refuse; a failure changes nothing |
| Flags.ParseFlags | main.go:154-169 | accepted exactly when one mode is set and the country string is not empty; the three rejections in the order of the source; an accepted configuration keeps the mode, has a one-hour period and a country list that rejoins to the flag string, with no piece containing ',' |
| Flags.ParseFlagsCountries | main.go:167 | a list of comma-free countries passed joined is accepted and read back piece for piece |
| Interfaces.To4 | main.go:126 | a 4-byte address is its own IPv4 form; a 16-byte address has one exactly when it starts with ten zero bytes and two 0xff bytes, and it is then its last four bytes; an address of any other length has none |
| Interfaces.To4OfMapped | main.go:292 | `To4` gives back the four bytes of an IPv4 address in its 16-byte form |
| Interfaces.FirstEligible | main.go:112-131 | the position of the first interface that is up, not loopback and has a usable address; every earlier one fails the test |
| Interfaces.DefaultNameChoice | main.go:106-133 | when names are never empty, the name is empty exactly when no interface qualifies, and otherwise it names the first interface that qualifies |
| Interfaces.DefaultInterface | main.go:106-133 | the loops return the name of the first qualifying interface, and "" when the list could not be read or nothing qualifies |
| Blocker.ModeValue | main.go:249-252 | for a valid configuration, the stored value is 1 exactly in allow mode and 0 exactly in deny mode |
| Blocker.KeyOf | main.go:239-245 | the key of a CIDR is the prefix of its address at its mask length: the length is kept and the key has no host bits |
| Blocker.LineKey | main.go:233-245 | every key a line produces is normalized |
| Blocker.KeyOfMatches | main.go:239-245 | the key of a CIDR contains exactly the addresses inside the CIDR |
| Blocker.HostBitsIgnored | main.go:233-245 | two lines with one length whose addresses differ only in host bits produce the same key |
| Blocker.ClearPhase | main.go:207-217 | after the clear phase exactly the keys whose deletion was refused remain, with their values |
| Blocker.Fetched | main.go:220-227 | the feeds read are a prefix of the feeds, and the feed after them failed |
| Blocker.FirstFailure | main.go:224-227 | the pass reports no error exactly when every fetch succeeded; otherwise it reports the country of the first failed fetch |
| Blocker.FeedKeysHas | main.go:231-245 | the key of every line of a feed that parses is among the feed's keys |
| Blocker.FeedKeysWitness | main.go:231-245 | every key of a feed comes from one of its lines |
| Blocker.FeedsKeysHas | main.go:220-245 | the key of every parsing line of any fetched feed is among the pass's keys |
| Blocker.FeedsKeysWitness | main.go:220-245 | every key of the pass comes from a line of one of the feeds |
| Blocker.LoadKeysKeepsInvariant | main.go:231-257 | loading parsed lines keeps keys normalized, values equal to the mode value and the map within capacity, whatever the kernel refuses |
| Blocker.LoadFeedKeepsInvariant | main.go:231-257 | loading a feed keeps that invariant |
| Blocker.RefreshKeepsInvariant | main.go:203-261 | a whole pass keeps that invariant |
| Blocker.MalformedLineSkipped | main.go:231-236 | a line that does not parse changes nothing, and the lines after it load as if it were absent |
| Blocker.LoadKeysExact | main.go:231-257 | without refusals and within capacity, a feed sets every key it asks for to the mode value and leaves other keys alone |
| Blocker.LoadFeedsExact | main.go:220-258 | the same for the feeds read, one after another |
| Blocker.CountriesOutcome | main.go:220-227 | the country loop loads exactly the feeds before the first failed fetch and returns that fetch's error |
| Blocker.PassIsDesired | main.go:203-261 | without refusals and within capacity, the map after a pass holds exactly the keys of the feeds read, each with the mode value; nothing from before the pass survives; the error names the first failed country |
| Blocker.RefreshIdempotent | main.go:203-261 | without refusals and within capacity, a second pass over the same feeds leaves the same map and error |
| Blocker.LoadKeysSound | main.go:254-256 | loading only adds keys, and only keys the lines ask for |
| Blocker.LoadKeysComplete | main.go:254-256 | within capacity, every key asked for is present afterwards unless its update was refused: one refused update does not stop the lines after it |
| Blocker.LoadFeedsSound | main.go:220-258 | the same soundness over the feeds read |
| Blocker.LoadFeedsComplete | main.go:220-258 | the same completeness over the feeds read |
| Blocker.RefreshUnderFaults | main.go:203-261 | with refusals, the map after a pass holds only keys whose deletion was refused and keys of the feeds read; within capacity, it holds every key of the feeds read whose update was not refused |
| Blocker.IPv4LineAllowed | main.go:233-239 | every line that parses as an IPv4 CIDR meets the precondition of `UpdateIPList`: it does not have the shape of an IPv6 CIDR |
| Blocker.IPBlocker.constructor | main.go:69-73 | a blocker starts over an empty, fresh map and keeps the configuration |
| Blocker.IPBlocker.UpdateIPList | main.go:203-261 | the method leaves the map and returns the error that `Refresh` computes from the old map, and it keeps the store invariant |
| Blocker.IPBlocker.ClearAll | main.go:207-217 | the delete loop leaves exactly what `ClearPhase` computes |
| Blocker.IPBlocker.LoadLines | main.go:230-257 | the scanner loop leaves exactly what `LoadFeed` computes |
| Blocker.IPBlocker.GetMapStats | main.go:263-277 | the count is the number of entries in the map, and the map is not modified |
| Blocker.NewIPBlocker | main.go:33-82 | no blocker exactly when there is an error; an empty interface name is that error; otherwise the first pass's fetch error is; a returned blocker is valid, fresh and holds what the first pass computes from an empty map |
| XdpFilter.LookupKey | xdp_filter.c:54-57 | the lookup key has prefix length 32 and unpacks to the `saddr` field: the four bytes at offset 12 of the IPv4 header, which follows the 14-byte Ethernet header |
| XdpFilter.IpFilter | xdp_filter.c:39-65 | a frame too short for Ethernet, not IPv4, or too short for an IPv4 header passes; a drop needs an IPv4 frame and a stored prefix with value 0 containing its source; over normalized keys, a source no stored prefix contains passes |
| XdpFilter.DropIff | xdp_filter.c:59-64 | over normalized keys, a frame is dropped exactly when it is an IPv4 frame and the longest stored prefix containing its source holds 0 |
| Enforcement.ListedIff | main.go:233-245 | the keys of the feeds contain an address exactly when some CIDR line of the feeds does, and all those keys are normalized |
| Enforcement.UniformVerdict | xdp_filter.c:59-64 | over normalized keys that all hold `v`, a frame is dropped exactly when it is IPv4, `v` is 0 and a stored prefix contains its source |
| Enforcement.AllowModeNeverDrops | xdp_filter.c:59-64 | in allow mode, over any map a pass can leave, every frame passes |
| Enforcement.DenyDropsListed | xdp_filter.c:54-64 | in deny mode, after a pass without refusals and within capacity, a frame is dropped exactly when it is IPv4 and its source lies in a CIDR of the feeds read |
| Enforcement.ClearedMapPassesAll | main.go:207-217 | after a clear phase with no refused deletion, every frame passes |
| Enforcement.IntendedFilter | xdp_filter.c:39-65 | the corrected verdict equals `ip_filter` in deny mode and passes every frame that is not IPv4 |
| Enforcement.IntendedUniform | xdp_filter.c:59-64 | over normalized keys holding the mode value, the corrected verdict drops an IPv4 frame exactly when whether a stored prefix contains its source differs from allow mode |
| Enforcement.IntendedEnforces | main.go:148-149 | after a pass without refusals and within capacity, the corrected verdict drops an IPv4 frame exactly when its source is listed in deny mode, or unlisted in allow mode |

## Left out

- Loading the eBPF object, attaching it with netlink, and `Close` (main.go:33-67, main.go:84-102, main.go:136-144). These are kernel and library calls. `Blocker.NewIPBlocker` keeps only the interface choice and the first pass.
- The download: the URL, `strings.ToLower`, `http.Get` and `bufio.Scanner` (main.go:221-232). Each feed is an input. The scanner's end-of-line handling and its token size limit are not modelled. A non-200 body is simply more lines.
- The `defer resp.Body.Close()` inside the loop (main.go:228). It is resource handling only.
- Goroutines, the statistics ticker, `periodicUpdate`, `select {}` and the `sync.RWMutex` (main.go:178-195, main.go:204-205, main.go:279-289). These are concurrency and scheduling. `GetMapStats` takes no lock, so a statistics read can see a pass half done; that is not modelled.
- Logging (`log.Printf`, `log.Fatal`). A `log.Fatal` in `main` is the `Err` result of `Flags.ParseFlags`.
- Byte order. Go writes `IP` as a host-order `uint32` (main.go:239, main.go:254), while the filter copies `ip->saddr` in network order (xdp_filter.c:56). On a little-endian host the two disagree byte for byte. `bpf_htons` swaps bytes unconditionally (xdp_filter.c:13), which is only right on a little-endian host. Both sides are modelled with one most-significant-octet-first packing. This hides what the mismatch does to the program: on a little-endian host the key stored for a.b.c.0/24 covers the sources 0.c.b.* rather than a.b.c.*, so deny mode blocks the wrong sources; on a big-endian host the ethertype test (xdp_filter.c:47) compares `h_proto` with the swapped value 0x0008, so every IPv4 frame passes (a frame whose type bytes are 00 08 still reaches the lookup). `Enforcement.DenyDropsListed` and `Enforcement.IntendedEnforces` therefore hold for the model's single packing, and for the program on neither byte order.
- Blocker.IPBlocker.UpdateIPList: requires that no fetched line has the shape of an IPv6 CIDR (`Blocker.MaybeIPv6Cidr`: hex digits, ':' and '.' with at least one ':' before the first '/', digits after it). Go's `ParseCIDR` accepts IPv6 lines, and the model reads only IPv4. On an IPv6 network `ipToUint32` calls `To4`. For an IPv4-mapped network of prefix length 96 or more, `To4` gives four bytes and the code attempts an update with a prefix length above 32. For any other IPv6 network, including a mapped one shorter than 96 bits whose mask clears the ffff bytes, `To4` is nil and the indexing panics. Neither case is modelled. Every line of any other shape is allowed, and every IPv4 CIDR line is (`Blocker.IPv4LineAllowed`).
- Blocker.NewIPBlocker: has the same requirement, for the same reason.
- Ipv4.ParseCidr: reads only the IPv4 form of `net.ParseCIDR`. Zones and IPv6 syntax are rejected rather than parsed.
- Blocker.IPBlocker.ClearAll: deletes the keys present at the start, in some order. The kernel iterator's behaviour while keys are deleted under it can skip keys; that is not modelled.
- Kernel refusals are an input (`Faults`) plus the capacity rule. The causes of a refusal (memory, permissions) are not modelled. A key in `Faults` is refused on every attempt during the whole pass, so a feed that lists a key twice with only the first write refused cannot be expressed; since a refused write changes nothing, no proved property depends on this.
- Blocker.IPBlocker.GetMapStats: returns only the count. Its error result is always nil in the source. Its log line is covered by `Ipv4.PackUnpack`.
- `Lpm`: the trie itself is not modelled. The lookup is the longest-stored-prefix rule, and its completeness is proved for maps whose keys have no host bits. The loader keeps every key that way (`Blocker.IPBlocker.Valid`).
- `XdpFilter`: the frame is a byte sequence, and `data`/`data_end` become its length. Like the source, the model ignores the IHL field and IP options.
- `Interfaces`: `net.Interfaces` and `Addrs` failures are `None`. Address kinds other than `*net.IPNet` are one case.

## Findings

| source | as written | input that shows it | evidently intended | confidence | as-written member | corrected member |
|---|---|---|---|---|---|---|
| xdp_filter.c:59-64 | allow mode stores 1 for every listed prefix, a hit on 1 passes and a lookup miss passes, so in allow mode no frame is ever dropped | allow mode with `1.2.0.0/16` loaded, and an IPv4 frame from `8.8.8.8`: the lookup misses and the frame passes | "Allow only specified countries" (main.go:148): in allow mode a miss drops the frame | not executed | Enforcement.AllowModeNeverDrops | Enforcement.IntendedEnforces |
