# Vermouth, verified

Vermouth is an HTTP gateway. A proxy listens on a port, maps path prefixes to groups of hosts behind a load balancer,
and turns away callers on a ban list. In a cluster every replica holds the same proxies, because raft delivers the same
log of changes to each. Hosts come and go through RPC calls or through service discovery.

This project models the parts of the gateway that compute: the ban list's binary trie, the consistent-hash ring and the
round-robin counter, the path matcher, the replicated state with its log, snapshots and guards, the discovery of
services, and the asynchronous logger. Code that works in place is modelled in place (classes, arrays and loops), and
each such method is proved to do what a function on values says; the theorems are about those functions.

| file | what it holds |
|---|---|
| `Text`, `Word`, `Sorting` | strings, decimal numbers, 32-bit words, sorted sequences |
| `Cidr`, `IpText` | IPv4 addresses, net masks, CIDR texts |
| `AclSpec`, `TrieShape`, `TrieLinks`, `TrieWalk`, `RadixTree`, `AclIndex`, `AclRuns` | what a ban list means; the trie, its free list, its loops and the search on damaged links, the text index, and whole runs |
| `ConsistentHash`, `RingList`, `RoundRobin`, `Balancer` | the two balancers, the ring against its host list, and their common interface |
| `HashPrefixer` | request path to prefix |
| `HostReconcile` | deleting hosts from the array a loop is ranging over |
| `Gateway`, `EntryLaws`, `Snapshot` | the replicated state as a value: log entries, what they and whole logs do, invariants, snapshots |
| `HttpProxy`, `StateContext` | the objects that hold that state |
| `Lifecycle`, `RequestLaws`, `StateManager`, `Namespace`, `Routing` | guards, RPC calls, discovery events, and where requests go after them |
| `Discovery`, `Channel` | diffing observed services; its goroutines and the channel to the gateway, in every interleaving |
| `AsyncLogger` | producers, writer and flushers |
| `LogEntry` | log entries as bytes, and their dispatch |

Longest match is that of section 5.1 of RFC 4632, the notation for networks that of section 3.1 of RFC 4632.

## Where the code and its intent part

The model keeps the code as committed and says exactly when it meets its intent; a flag switches to the mended form
where a theorem needs it.

- `newNode` leaves the free-list link in a recycled node (acl/radix_tree.go:60-63). `RadixTree.repaired` is false for
  the committed code. A run of additions and deletions keeps the tree well formed exactly when it is safe
  (`AclRuns.Play`), which can be told from the stored networks and the length of the free list; lookups are then right.
  One insert that is not safe need not harm the answers at once (`RadixTree.insert`, `CrookedHarms`), but the next one
  may: `RecyclingDamagesTheTree` is a run that turns away an address nobody banned, `HangingRun` one after which a
  lookup never ends. The proxies of `HttpProxy` hold trees with the link cleared.
- Deleting `/0` from a childless root follows the root's nil parent: `DeleteResult` is `Crashed` exactly then.
- The index is keyed by text, so a ban can come back when the list is rebuilt: `DeleteKeepsIndex`, `AliasResurrectsBan`;
  `RebuildAnswers` says exactly when the answers are the same.
- The round-robin counter wraps at 2^64, in the middle of a round unless the number of hosts divides it: `RotationAtWrap`,
  `FairIffDividing`.
- The ring's Add does not extend the host list: `Code.extendsList` is false for the committed code. Its Remove does not
  check that it found the point: `RemoveKeepsConsistent`, `RemoveKeepsBuild`, and `RemoveRunsOut` for when it panics.
- REMOVE_HOSTS ranges over the array that RoundRobin.Remove shifts: `LeftBehindMembers`, `ReconcileConverges`,
  `PassSettlesHosts`, `RightIffNoneSticks`; `copies` is false for the committed code.
- `removeHttpProxyHost` tests `HostExists` the wrong way round and so admits exactly the unlisted hosts, some of which
  make it panic (`RemovalsPanic`, `EmptyRingPanics`): `righted` is false for the committed code.
- A panic ends the process where log entries are applied, on every replica and again at every replay. In standalone mode
  the requests of administrators run under net/http (vermouth/http_server.go:69), which recovers it, and the process
  goes on with half a change: `RecoveredPrefix`, `RecoveredMode`.
- `addBlackList` and `removeBlackList` look for the proxy in standalone mode only: `BanRequestsPanic`.
- `HandleNamespaceEvent` creates a missing proxy on a throwaway context: `creates` is false for the committed code.
- The context's Restore adds bans to a tree without root and starts every proxy: `clean` is false for the committed code.
  It also keeps the proxies of ports that are not in the snapshot: `CleanRestore`, `CommittedRestore`.
- A prefixer hides an unknown algorithm, and AddPrefix then asks nil for its hosts: a panic, None in `WithPrefix`.
- The writer goroutine ends with the first flush, so a message sent later is never written and a second flush never
  returns: `StuckForever`, `SecondFlushBlocks`, `ReturnsIffDone`.
- A message announced while a flush is waking up makes its Wait panic: `QuietRunsDoNotCrash`, `AnnouncingCrashes`,
  `ReusedWaitGroup`.
- A service that comes back before its cancelled watcher has left is missed, and panics later: `SlowWatcherPanics`;
  `RightIffNoOldWatcher` and `ViewRightIffNeverSkips` say exactly which interleavings go right.
- A watcher looks at its cancellation only after a pass. A host that it sends after its service has been reported gone
  is added to a prefix that is not there, a panic, in cluster mode on every replica: `LateHostPanics`,
  `OvertakenPanics`; `StreamMirrors` and `Channel.GatewayMirrorsDiscovery` say exactly which streams and which
  interleavings get through.
- Numbers above 255 in an address spill over into the octets before it: `SpillsOver`; a text that does not read as an
  address is looked up as 0.0.0.0: `TextSearched`.
- The short form of an IPv6 address is taken for a host name and looked up: `IPv6Texts`.
- A node with a host name is reported by its name and registered by its addresses, so that every pass takes these out
  and puts them back: `NamedPass`.
- A comment in prefix/prefixer.go:17 says the matcher returns "/" when nothing matches; it does so only if "/" is mapped.

## Model

| member | source | states |
|---|---|---|
| AclRuns.SearchAfter | acl/radix_tree.go:58-232 | for every sequence of Add, with any values but empty ones, and of Delete, runs through recycled nodes included: every lookup equals a scan of the prefix table that the same sequence leaves, and finds something exactly when a stored network covers the address (links of recycled nodes cleared) |
| AclRuns.Play | acl/radix_tree.go:58-232 | the same sequences in either variant of newNode: the tree stays well formed up to the end exactly when the run is safe, a condition on what is stored and on the length of the free list alone; then it stores what the sequence leaves |
| AclRuns.SearchSafely | acl/radix_tree.go:58-232 | after a safe run of the committed code every lookup equals the scan of the table, too |
| AclRuns.CallOne | acl/radix_tree.go:116-188 | one call on a well-formed tree: it stays well formed exactly when the call is safe; the new table and the new length of the free list |
| AclRuns.DepthIs | acl/radix_tree.go:71-94 | how far down a way there are nodes can be told from the stored networks |
| AclSpec.LongestMatchIsLongest | acl/radix_tree.go:143-160 | the scan used as reference returns the value of the longest stored network around the address, and nothing exactly when there is none |
| AclSpec.ForbiddenIffCovered | acl/radix_tree.go:243-252 | an address is turned away exactly when some stored network covers it |
| AclSpec.BlanketedMeans | acl/radix_tree.go:243-252 | every address of a network is turned away exactly when a stored network covers it, or both its halves are so turned away |
| AclSpec.RefusedTexts | acl/radix_tree.go:116-141 | texts without mask, with a mask that is no number, and with one out of range: what Add and Delete answer; what follows a second slash does not count |
| AclSpec.RefusedAddresses | acl/radix_tree.go:116-188 | the same for an address that is no number or reads past its fourth |
| RadixTree.RadixTree.constructor | acl/radix_tree.go:48-56 | a new tree is well formed and stores nothing |
| RadixTree.RadixTree.newNode | acl/radix_tree.go:58-66 | on any tree: pops the head of the free list or allocates, and changes nothing else; the recycled node keeps or loses its right link as the variant says |
| RadixTree.RadixTree.insert | acl/radix_tree.go:69-114 | on any tree, damaged ones included, the links become those that a sequential reading of the loops gives. On a well-formed one: the value is stored at the network's path and nowhere else; the tree is well formed afterwards exactly when the free list was used up and each recycled link pointed where the new child went, and damaged otherwise; all answers are right after this call exactly under a condition read off the tree before it; exactly as many nodes leave the free list as the path was short of |
| RadixTree.RadixTree.search | acl/radix_tree.go:143-160 | on any links on which the way down ends, damaged ones included, the last value on the way; on a proper tree that is the longest match among what the tree stores |
| TrieWalk.ProperFinds | acl/radix_tree.go:143-160 | on a proper tree every search ends, with what the scan of the table gives |
| TrieWalk.CrookedForbids | acl/radix_tree.go:58-66 | after an insert that reused freed nodes badly every search still ends, and turns away whom the stored networks cover and besides them just the addresses that agree with the inserted network except where a broken node has its child on both sides |
| TrieWalk.CrookedHarms | acl/radix_tree.go:58-114 | for one insert into a well-formed tree: all answers are right after it exactly when no recycled node but the last gets its child on the left, or a network stored before covers the node the new path starts from |
| RadixTree.RadixTree.delete | acl/radix_tree.go:190-232 | on any tree on which the climb ends the links become those that a sequential reading gives. On a well-formed one it ends; it removes exactly the network's value; says exactly when the root's nil parent is followed; the tree stays well formed and pruned; the free list grows by exactly the nodes that left the tree |
| RadixTree.RadixTree.Climb | acl/radix_tree.go:211-230 | the climbing loop, on any tree on which it ends, frees node after node until one has a child, a value or no parent, each freed node becoming the head of the free list |
| RadixTree.RadixTree.Add | acl/radix_tree.go:116-141 | on any tree: the error for each kind of bad text, and otherwise the links after the insert and the index with the text; on a well-formed one the table with the network added, exactly when the tree is well formed afterwards and exactly when all answers are right after this call |
| RadixTree.RadixTree.Delete | acl/radix_tree.go:167-188 | on any tree on which it ends: the outcome for each kind of text and state, panic included, the links and the index; on a well-formed and pruned one the table without the network |
| RadixTree.RadixTree.AccessControl | acl/radix_tree.go:243-252 | turns a caller away exactly when the search for its address finds a value, on damaged trees too; on a proper one a caller `quad:port`, whatever the port, exactly when a stored network covers its address |
| RadixTree.CallerSearched | acl/radix_tree.go:243-252 | for every address and every port text: the port is cut off and the address is the one looked up |
| RadixTree.TextSearched | acl/radix_tree.go:162-165 | any other text: only what comes before the first colon counts; a panic exactly for five numeric segments in a row; what does not read as an address is looked up as 0.0.0.0 |
| RadixTree.RecyclingDamagesTheTree | acl/radix_tree.go:58-66 | the committed newNode: 0.0.0.0/2 banned, admitted and banned again leaves a damaged tree, which turns 64.0.0.0 away though no stored network covers it |
| RadixTree.HangingRun | acl/radix_tree.go:58-160 | the committed newNode: 0.0.0.0/2 banned, admitted, 0.0.0.0/1 and 64.0.0.0/3 banned links a node to itself, and no search for 64.0.0.0 ends |
| TrieLinks.InsertsAs | acl/radix_tree.go:69-114 | on a well-formed tree the sequential reading of insert does what hanging path nodes one by one does |
| TrieLinks.DeletesAs | acl/radix_tree.go:190-232 | on a well-formed tree the sequential reading of delete ends within 33 turns and leads to a well-formed tree with that outcome |
| TrieLinks.DeletedIs | acl/radix_tree.go:211-230 | what delete comes to does not depend on how long one watches the climb |
| TrieShape.HangKeeps | acl/radix_tree.go:98-111 | hanging one new node keeps paths, links, free list and the account of all nodes, but for the link a recycled node brought along |
| TrieShape.GrowEnd | acl/radix_tree.go:95-114 | at the end of insert the tree is proper exactly when every recycled link was overwritten or right, and damaged otherwise |
| TrieShape.FreedKeeps | acl/radix_tree.go:211-230 | one turn of the climbing loop leads from a proper tree to a proper tree, storing the same |
| TrieShape.ShapeIsCanonical | acl/radix_tree.go:33-45 | in a well-formed pruned tree the nodes are exactly the networks around stored ones, so what is stored determines the tree |
| AclIndex.IndexCoversOverRuns | acl/radix_tree.go:116-141 | over every run the index denotes at least the stored networks |
| AclIndex.DeleteKeepsIndex | acl/radix_tree.go:181-187 | deleting a text keeps the index exact exactly when no other text of the index denotes the same network |
| AclIndex.IndexAgreesOverRuns | acl/radix_tree.go:167-188 | over every run that writes each network in one way the index denotes exactly the stored networks |
| AclIndex.CanonicalIsUnambiguous | acl/radix_tree.go:116-141 | canonical CIDR texts write each network in one way |
| AclIndex.RebuildAnswers | vermouth/http_proxy.go:163-169 | a list rebuilt from its index in any order turns away at least the same addresses; it stores the same networks exactly when the index is exact; it answers alike for every address exactly when the live list turns away as a whole each network that the index still names |
| AclIndex.AliasResurrectsBan | acl/radix_tree.go:138-139 | two spellings of a network added, one deleted: the live list admits the network and the rebuilt list bans it |
| AclIndex.TwoSpellings | acl/radix_tree.go:116-141 | every two addresses of a network are two such spellings |
| Cidr.NetMaskValue | acl/radix_tree.go:137 | the wrapping mask expression is the number with cidr leading ones, for all 33 lengths |
| Cidr.MaskSelectsPrefix | acl/radix_tree.go:75-88 | the loop guard holds exactly for the first cidr bits |
| Cidr.SameNetwork | acl/radix_tree.go:75-88 | two (address, length) pairs reach the same node exactly when lengths and masked addresses agree |
| Cidr.InetToi | utils/net.go:69-87 | the reading loop computes the address function below, segment by segment |
| Cidr.ReadOutcomes | utils/net.go:69-87 | exactly which texts give an address, an error, or a negative shift |
| Cidr.QuadValue | utils/net.go:69-87 | four octets give their base-256 sum |
| Cidr.QuadsAreInjective | utils/net.go:69-87 | two quads give the same address exactly when they are the same quad |
| Cidr.LoneNumber | utils/net.go:69-87 | a number alone, of either sign, is the first octet as far as it fits there |
| Cidr.SpillsOver | utils/net.go:69-87 | what a later number has too much spills over into the octets before it |
| Cidr.CanonicalRoundTrip | acl/radix_tree.go:116-141 | printing a network canonically and reading it back gives the same trie path |
| IpText.ValidIPAddress | utils/net.go:121-145 | the classification of a text, for both address families |
| IpText.IPv4Texts | utils/net.go:122-132 | the unsigned texts classified as IPv4 are exactly the printed quads of octets |
| IpText.NegativeOctetPasses | utils/net.go:127-129 | a text with a negative octet is classified as IPv4 |
| IpText.IPv6Texts | utils/net.go:133-143 | the texts classified as IPv6 are exactly those of eight written-out groups; the short form with two colons in a row is none of them |
| IpText.WrittenOutPasses | utils/net.go:133-143 | an address written out is one |
| ConsistentHash.ConsistenceHash.constructor | balancer/consist-hash.go:39-52 | builds the ring of its hosts and lists them in order |
| ConsistentHash.ConsistenceHash.Add | balancer/consist-hash.go:54-63 | the ring with the host's points merged in; the list is not extended |
| ConsistentHash.ConsistenceHash.Remove | balancer/consist-hash.go:65-80 | the ring without the keys the search lands on and without the owners of the host's points, the list without the host; false exactly where the slice expression panics |
| ConsistentHash.ConsistenceHash.Balance | balancer/consist-hash.go:82-100 | the owner found by binary search with wrap-around |
| ConsistentHash.AddKeepsConsistent | balancer/consist-hash.go:54-63 | adding keeps keys sorted, distinct and equal to the owned points exactly when the new points are distinct and free |
| ConsistentHash.RemoveKeepsConsistent | balancer/consist-hash.go:65-80 | removing succeeds and keeps the ring consistent exactly when all its points are distinct and on the ring |
| ConsistentHash.AddExtendsRing | balancer/consist-hash.go:54-63 | adding a new host gives the ring of the larger host set exactly when its points are distinct and free |
| ConsistentHash.RemoveShrinksRing | balancer/consist-hash.go:65-80 | removing a member gives the ring of the smaller set |
| ConsistentHash.RingIsUnique | balancer/consist-hash.go:19-26 | a set of hosts has one ring |
| ConsistentHash.BuildIgnoresOrder | balancer/consist-hash.go:39-52 | the ring depends on the set of hosts, not on their order |
| ConsistentHash.RemoveUndoesAdd | balancer/consist-hash.go:65-80 | Remove after Add gives back the very ring |
| ConsistentHash.AddUndoesRemove | balancer/consist-hash.go:54-63 | putting back the points of one owner after removing them gives back the very ring |
| ConsistentHash.OwnerIsSuccessor | balancer/consist-hash.go:95-99 | on any sorted ring, colliding points included, Balance names the owner of the clockwise successor of the request, or the empty text where that key has lost its owner |
| ConsistentHash.AddDisturbsLittle | balancer/consist-hash.go:54-63 | adding a host moves requests only to it |
| ConsistentHash.RemoveDisturbsLittle | balancer/consist-hash.go:65-80 | removing a host moves only the requests it served |
| ConsistentHash.InjectiveIffCollisionFree | balancer/consist-hash.go:54-63 | hosts are free of collisions exactly when the hash tells apart the texts hashed for them, each host led by 0, 1 and 2 |
| ConsistentHash.RingSize | balancer/consist-hash.go:39-63 | a ring has three keys for each entry of its list |
| RoundRobin.RoundRobin.Add | balancer/round_robin.go:36-46 | appends the host unless it is there |
| RoundRobin.RoundRobin.Remove | balancer/round_robin.go:48-57 | drops the first occurrence |
| RoundRobin.RoundRobin.Balance | balancer/round_robin.go:59-68 | the answer and the counter that make this call the first of any longer run of calls |
| RoundRobin.ServedInOrder | balancer/round_robin.go:27-33 | from a fresh counter the hosts are named in the order of the list |
| RoundRobin.ShareWithoutWrap | balancer/round_robin.go:59-68 | each host's exact number of turns in any window without wrap |
| RoundRobin.FairWithoutWrap | balancer/round_robin.go:59-68 | shares differ by at most one, and whole rounds serve every host alike |
| RoundRobin.FairAcrossWrap | balancer/round_robin.go:59-68 | across one wrap of the 64-bit counter shares differ by at most two |
| RoundRobin.RotationAtWrap | balancer/round_robin.go:65-66 | the rotation carries on at the wrap exactly when the number of hosts divides 2^64 |
| RoundRobin.FairIffDividing | balancer/round_robin.go:59-68 | shares stay within one in every window with one wrap, and in every window whatever, exactly when the number of hosts divides 2^64 |
| RoundRobin.UnfairWindow | balancer/round_robin.go:59-68 | with r calls more than whole rounds in the counter's range, the last r before the wrap and the first r after it serve the first host twice and host r never |
| RoundRobin.WrapRepeatsFirstHost | balancer/round_robin.go:65-66 | an instance: at the wrap three hosts are not served in turn |
| Balancer.BalanceServes | balancer/balancer.go:11-20 | the answer of either balancer: the next of the rotation, or the owner of the clockwise successor (the empty text if that key has no owner left), or none exactly for an empty one; hosts and mode stay |
| Balancer.BuiltStartsOver | balancer/balancer.go:28-34 | a balancer that is built starts with the first host of its list |
| HashPrefixer.HashPrefixer.Add | prefix/hash_prefixer.go:40-49 | maps the prefix, or silently does nothing for an unknown algorithm |
| HashPrefixer.HashPrefixer.FindPrefix | prefix/hash_prefixer.go:80-90 | the loop finds the longest mapped prefix that ends at a segment boundary of the path |
| HashPrefixer.HashPrefixer.MappingPath | prefix/hash_prefixer.go:76-111 | prefix, rest and address for the best match, the root prefix without one, and both errors; only the chosen balancer moves on |
| HashPrefixer.PrefixAndRest | prefix/hash_prefixer.go:92-110 | prefix plus rest is the path exactly when something matched; the rest is empty or starts with a slash; otherwise the root prefix gets the whole path |
| HashPrefixer.LongerPrefixWins | prefix/hash_prefixer.go:80-90 | with a prefix and a longer one below it mapped, the longer one takes the paths under it |
| HashPrefixer.WholeSegmentsOnly | prefix/hash_prefixer.go:80-90 | a prefix does not match in the middle of a segment |
| HashPrefixer.AnswersAre | prefix/hash_prefixer.go:76-111 | no path exactly if neither a prefix at a boundary nor the root prefix is mapped, no host exactly if the best prefix's balancer has none, otherwise its host with the rest of the path behind it; only that balancer moves on |
| HostReconcile.RemoveInPlace | balancer/round_robin.go:48-57 | deleting in the shared backing array: the later hosts move down, the last place keeps its value |
| HostReconcile.RemoveHosts | vermouth/http_proxy.go:522-530 | for any list, repetitions included, what the REMOVE_HOSTS loop really leaves when it ranges over the array it deletes from |
| HostReconcile.LeftBehindMembers | vermouth/http_proxy.go:522-530 | each host that stays keeps its entries, and all departing hosts go exactly when the loop passes over none of them but the last host of the list; without repetition that is when no two neighbours depart, except at the end of the list |
| HostReconcile.ReconcileConverges | vermouth/http_proxy.go:511-530 | for any list REMOVE_HOSTS and one ADD_HOST a child converge to the children exactly under that condition |
| HostReconcile.SkippedHostStays | vermouth/http_proxy.go:526-529 | three departing hosts: the middle one stays |
| HostReconcile.CopyConverges | vermouth/http_proxy.go:526-530 | over a copy of the list the reconciliation always converges, for any list and any children |
| HostReconcile.WiredConverges | vermouth/vermouth_state_manager.go:249-263 | through the inverted guard it converges exactly when no host departs |
| HttpProxy.HttpReverseProxy.constructor | vermouth/http_proxy.go:55-85 | a proxy without prefixes, available, with an empty ban list |
| HttpProxy.HttpReverseProxy.AddPrefix | vermouth/http_proxy.go:265-281 | all maps change together as `Gateway.WithPrefix` says; false where Hosts() is called on nil, and then the type and the flag have been set |
| HttpProxy.HttpReverseProxy.RemovePrefix | vermouth/http_proxy.go:283-291 | the prefix leaves paths, types and mapping; the static flag stays |
| HttpProxy.HttpReverseProxy.AddHost | vermouth/http_proxy.go:300-305 | the balancer takes the host and the paths follow; false for an unmapped prefix, and nothing changes |
| HttpProxy.HttpReverseProxy.RemoveHost | vermouth/http_proxy.go:307-312 | the balancer gives up the host and the paths follow; false where it panics |
| HttpProxy.HttpReverseProxy.HostExists | vermouth/http_proxy.go:319-327 | true exactly for a listed host |
| HttpProxy.HttpReverseProxy.AddBlackList | vermouth/http_proxy.go:397-405 | the texts are added one after the other; false where one panics |
| HttpProxy.HttpReverseProxy.RemoveBlackList | vermouth/http_proxy.go:406-414 | the texts are deleted one after the other; false where one panics |
| HttpProxy.HttpReverseProxy.changeStatic | vermouth/http_proxy.go:479-484 | the flag is flipped, a missing one to true |
| HttpProxy.HttpReverseProxy.changeLb | vermouth/http_proxy.go:487-493 | delete and create with saved hosts and flag; false for an unmapped prefix, or for an algorithm there is not, and then the prefix and its hosts are gone |
| HttpProxy.HttpReverseProxy.Restore | vermouth/http_proxy.go:149-169 | the proxy after its maps were ranged over in the given order and its ban list rebuilt, or an error and no change for a prefixer type there is not |
| HttpProxy.HttpReverseProxy.Do | vermouth/log_entry_handler.go:44-160 | every handler does to its proxy what the entry means |
| StateContext.StateContext.AddHttpReverseProxy | vermouth/context.go:177-190 | a port in use keeps its proxy |
| StateContext.StateContext.Apply | vermouth/context.go:69-114 | from the bytes of a committed entry to the new state of all proxies together: header, dispatch, decoded body and change as `LogEntry.ApplyBytes` says; false exactly where it panics |
| StateContext.StateContext.ApplyEntry | vermouth/log_entry_handler.go:29-160 | the handlers together make the change `Gateway.Apply` gives; objects of other ports are untouched |
| StateContext.StateContext.UnMarshal | vermouth/context.go:169-174 | the proxies of a snapshot replace those at their ports, and the others stay |
| StateContext.StateContext.Restore | vermouth/context.go:141-161 | restoring object by object over whatever context there is, in any order of ports and maps, gives `Snapshot.RestoredContext`, or panics exactly where that does; a proxy that cannot be restored is passed over |
| Gateway.ReplayKeepsCoherent | vermouth/log_entry_handler.go:29-160 | over every log: paths, types and mapping have the same keys, modes and hosts agree with the balancers, every stored ban is indexed |
| Gateway.EditIsLocal | vermouth/log_entry_handler.go:44-160 | each entry changes one prefix, or the ban list, or the availability, and how |
| Gateway.ApplyIsLocal | vermouth/context.go:69-114 | an entry changes nothing at another port |
| Gateway.ChangeLbKeepsHosts | vermouth/http_proxy.go:487-493 | changing the mode works exactly for a mapped prefix and a supported mode, and keeps hosts, flags and all other prefixes |
| Gateway.RecoveredPrefix | vermouth/http_proxy.go:265-281 | an AddPrefix that panics and is recovered leaves maps that disagree; adding the prefix again with an algorithm there is comes to the same as if it had not happened |
| Gateway.RecoveredMode | vermouth/http_proxy.go:487-493 | a change to an algorithm there is not, recovered, has taken the prefix and its hosts away and leaves maps that disagree |
| Gateway.EditLike | vermouth/log_entry_handler.go:44-160 | proxies that differ in counters and stored ban texts only stay so under every edit, or panic together |
| Gateway.ReplayLike | vermouth/context.go:69-114 | the same for whole contexts over every log |
| Gateway.LikeForbids | acl/radix_tree.go:243-252 | such proxies turn away the same addresses |
| EntryLaws.BanningBans | vermouth/http_proxy.go:397-405 | for every list of texts, from any ban list: afterwards exactly the networks are stored that were stored or that a text denotes, the others with their values, and exactly the denoting texts are new in the index |
| EntryLaws.LiftingLifts | vermouth/http_proxy.go:406-414 | for every list of texts, from any ban list: exactly the networks go that a text denotes, and the others keep their values |
| EntryLaws.CallersBanned | vermouth/http_proxy.go:397-405 | after banning, the callers are turned away that were before or that a denoted network covers |
| EntryLaws.CallersLifted | vermouth/http_proxy.go:406-414 | after lifting, the callers that a stored network covers which no text denotes |
| EntryLaws.LiftingPanics | vermouth/http_proxy.go:406-414 | lifting panics exactly at a text that reads past its fourth number, or that denotes /0 when all other networks have gone before it |
| EntryLaws.NewIsOpen | vermouth/http_proxy.go:55-85 | a new proxy is available, maps nothing and turns nobody away |
| EntryLaws.StatesDo | vermouth/http_proxy.go:495-504 | state 1 starts a proxy and state 2 stops it; any other takes it away |
| EntryLaws.EntryPanics | vermouth/log_entry_handler.go:29-160 | exactly which entries panic, kind by kind, on a coherent context |
| EntryLaws.FollowsLog | vermouth/context.go:69-114 | an induction over logs: a fact that each entry does, undoes or leaves alone holds after a replay exactly if some entry did it and none after it undid it |
| EntryLaws.ProxyFollowsLog | vermouth/context.go:69-114 | after every log a proxy is there exactly if it was made and nothing has ended it since |
| EntryLaws.StopFollowsLog | vermouth/http_proxy.go:495-504 | after every log a proxy is unavailable exactly if it was stopped and has been neither started nor ended since |
| EntryLaws.BanFollowsLog | vermouth/http_proxy.go:397-414 | after every log a network is banned at a port exactly if an entry banned it and none since has lifted it or ended the proxy |
| EntryLaws.PrefixFollowsLog | vermouth/http_proxy.go:265-291 | after every log a prefix has paths exactly if an entry added it and none since has removed it or ended the proxy |
| Snapshot.RestoredIsLike | vermouth/http_proxy.go:151-169 | restoring a saved proxy, in any map order, never fails, and gives a like proxy exactly when each ring fits its list and the index its bans |
| Snapshot.CleanRestore | vermouth/context.go:141-161 | with a clean Restore, over any earlier context, a replica is like the one that made the snapshot exactly when no old proxy lingers at a port without proxy in the snapshot, and rings and bans are in step |
| Snapshot.CommittedRestore | vermouth/context.go:149-159 | the committed Restore panics exactly when the snapshot holds a banned text; otherwise the replica is like the original exactly when no old proxy lingers, rings are in step and no proxy had been stopped |
| Snapshot.UnknownIsPassedOver | vermouth/context.go:154-157 | a proxy of an unknown prefixer type spoils nothing: it stays as decoded, and the others are restored |
| Snapshot.CommittedAddLosesStep | balancer/consist-hash.go:54-63 | the committed Add takes every ring out of step with its list: a snapshot loses the host |
| RingList.RemoveKeepsBuild | balancer/consist-hash.go:65-80 | Remove takes the ring of a list to the ring of the shorter list exactly when the host is listed and no other entry, a second one of its own included, has a point in common with it |
| RingList.CollisionFreeRemovable | balancer/consist-hash.go:65-80 | among hosts whose points do not collide every listed host is removable |
| RingList.RemoveRunsOut | balancer/consist-hash.go:65-80 | on sorted keys Remove panics exactly when above some bound the host has more points than the ring has keys, counted with repetition |
| Snapshot.RemoveKeepsRing | balancer/consist-hash.go:65-80 | for either balancer, removing succeeds and keeps it as a snapshot would rebuild it exactly under that condition |
| Snapshot.ReplayKeepsStep | vermouth/log_entry_handler.go:29-160 | over every proper log rings, lists, bans and index stay in step; proper is a log that takes only removable hosts off a ring, adds hosts to a ring only if Add extends the list, and writes each network in one way |
| Snapshot.CarefulLogIsProper | vermouth/log_entry_handler.go:29-160 | for hosts whose points do not collide, a log that adds to a ring only new hosts and removes only listed ones is proper, whatever else it holds |
| Snapshot.SnapshotThenReplay | vermouth/context.go:69-174 | snapshot and replay agree: for every log and every cut after a proper part, restoring in any map order, into an empty context or over one without other ports, and applying the rest ends like applying the whole log, or both panic |
| Snapshot.SomeEnumeration | vermouth/http_proxy.go:159-168 | every saved map has an order to be ranged over |
| Lifecycle.GuardsAdmitPanics | vermouth/vermouth_state_manager.go:16-217 | exactly which requests for prefixes, added hosts, static flags and modes get past their guards and panic |
| Lifecycle.ProxyRequestsPanic | vermouth/vermouth_state_manager.go:141-217 | the same for new proxies, by prefixer type, and for states |
| Lifecycle.RemovalsPanic | vermouth/vermouth_state_manager.go:55-72 | the same for removals: through the committed guard an unlisted host panics exactly when the prefix is not mapped or, above some bound, the host has more points than the ring has keys; through the righted one only the latter, for a listed host |
| Lifecycle.EmptyRingPanics | vermouth/vermouth_state_manager.go:55-72 | an instance: removing any host from a consistent-hash prefix without hosts |
| Lifecycle.BanRequestsPanic | vermouth/vermouth_state_manager.go:93-123 | the same for ban lists: in cluster mode a missing proxy is a panic and no refusal |
| Lifecycle.ListingPanics | vermouth/http_proxy.go:397-414 | the loop over banned texts panics exactly when the step of some text does, on the list as it then is |
| Lifecycle.BanningPanics | vermouth/http_proxy.go:397-405 | for additions that is a matter of the texts alone |
| Lifecycle.RemovalGuard | vermouth/vermouth_state_manager.go:55-72 | the righted guard lets exactly the listed hosts go for whose points the ring has keys enough; the committed one refuses exactly the listed ones, and no list ever gets shorter |
| Lifecycle.RegisterEffect | vermouth/rpc_server.go:31-85 | when a registration succeeds, the host list after it, and that nothing else changes |
| Lifecycle.CancelEffect | vermouth/rpc_server.go:88-109 | a cancellation succeeds exactly for a listed host for whose points the ring has keys enough; the host list after it, and that nothing else changes; the prefix is there afterwards exactly when a host is left |
| Lifecycle.RegisterKeepsBook | vermouth/rpc_server.go:52-60 | a registration keeps lists and books in agreement exactly when, on a ring, the list grows just for a new host |
| Lifecycle.CancelKeepsBook | vermouth/rpc_server.go:88-109 | a cancellation keeps them in agreement |
| Lifecycle.LifecycleHolds | vermouth/rpc_server.go:31-109 | over every sequence of calls the lists hold exactly the registered hosts |
| Lifecycle.PrefixIffRegistered | vermouth/rpc_server.go:97-107 | a prefix exists exactly when it has a registered host |
| Lifecycle.RegisterThenCancel | vermouth/rpc_server.go:31-109 | registering a new host at a prefix and cancelling it gives back the whole state |
| Lifecycle.FirstRegisterThenCancel | vermouth/rpc_server.go:31-109 | registering the first host of a prefix and cancelling it gives back all prefixes and host lists |
| Lifecycle.CommittedCancelRefuses | vermouth/vermouth_state_manager.go:60-62 | the committed guard refuses to cancel any listed host |
| Lifecycle.CancelsPanic | vermouth/rpc_server.go:88-109 | a cancellation panics exactly when the removal in it does |
| RequestLaws.NewProxyEffect | vermouth/vermouth_state_manager.go:141-162 | a port without proxy gets an available one that maps nothing; a used port is refused |
| RequestLaws.NewPrefixEffect | vermouth/vermouth_state_manager.go:16-34 | when a new prefix succeeds; it gets the given hosts, mode and flag, and no other prefix changes |
| RequestLaws.RemovedPrefixEffect | vermouth/vermouth_state_manager.go:36-53 | when a removal succeeds; the prefix is gone but for its flag |
| RequestLaws.NewHostEffect | vermouth/vermouth_state_manager.go:74-91 | when a new host succeeds, the list after it, and that nothing else changes |
| RequestLaws.ModeEffect | vermouth/vermouth_state_manager.go:180-201 | when a change of mode succeeds; hosts and flag stay, and asking for the mode that is set changes nothing |
| RequestLaws.FlipEffect | vermouth/vermouth_state_manager.go:164-178 | the flag is flipped, a missing one becomes true, and nothing else changes |
| RequestLaws.AvailableEffect | vermouth/vermouth_state_manager.go:203-217 | state 1 makes the proxy available, 2 unavailable, any other takes it away |
| RequestLaws.BansEffect | vermouth/vermouth_state_manager.go:93-123 | whom a port turns away after a request about its bans, and that nothing else changes |
| RequestLaws.OpenedEffect | vermouth/rpc_server.go:31-52 | the proxy that a registration or an event finds missing is a new one, available and empty, and nothing else changes |
| RequestLaws.RegisteredIsAvailable | vermouth/rpc_server.go:31-85 | a registration leaves the availability and the bans of a proxy alone, and a proxy it makes is available |
| RequestLaws.RegisteredFlag | vermouth/rpc_server.go:31-85 | a registration that makes a prefix gives it the mode and the flag it asks for; one that joins leaves the flag alone |
| StateManager.Vermouth.MakeChange | vermouth/vermouth_state_manager.go:24-32 | either mode reaches the outcome of the entry. In cluster mode the request is encoded, appended, decoded and dispatched; both modes then end in the same methods on the proxy, so their agreement says that the bytes lose nothing and reach the right handler |
| StateManager.Vermouth.ChangeDirectly | vermouth/vermouth_state_manager.go:24-27 | the change made on the proxy itself is that of the log entry; the methods are those the handlers call |
| StateManager.Vermouth.addHttpProxy | vermouth/vermouth_state_manager.go:141-162 | the guard of a new proxy |
| StateManager.Vermouth.addHttpProxyPrefix | vermouth/vermouth_state_manager.go:16-34 | refusals and change of a new prefix |
| StateManager.Vermouth.removeHttpProxyPrefix | vermouth/vermouth_state_manager.go:36-53 | refusals and change of a prefix that goes |
| StateManager.Vermouth.addHttpProxyHost | vermouth/vermouth_state_manager.go:74-91 | refusals and change of a new host |
| StateManager.Vermouth.removeHttpProxyHost | vermouth/vermouth_state_manager.go:55-72 | refusals, inverted or righted, and change of a host that goes |
| StateManager.Vermouth.addBlackList | vermouth/vermouth_state_manager.go:93-107 | bans; a missing proxy is noticed in standalone mode only |
| StateManager.Vermouth.removeBlackList | vermouth/vermouth_state_manager.go:109-123 | the same for lifting bans |
| StateManager.Vermouth.changeStatic | vermouth/vermouth_state_manager.go:164-178 | refusal and change of a static flag |
| StateManager.Vermouth.changeLb | vermouth/vermouth_state_manager.go:180-201 | refusals, the mode that is set already, and change of a mode |
| StateManager.Vermouth.changeProxyAvailable | vermouth/vermouth_state_manager.go:203-217 | refusal and change of a state, closing included |
| StateManager.Vermouth.RegisterToProxy | vermouth/rpc_server.go:31-85 | the call reaches the outcome the lifecycle is proved of |
| StateManager.Vermouth.Cancel | vermouth/rpc_server.go:88-109 | the call reaches the outcome the lifecycle is proved of |
| StateManager.Vermouth.HandleEvent | vermouth/vermouth_state_manager.go:219-266 | each discovery event reaches the outcome the event loop is proved of |
| StateManager.Vermouth.RemoveLive | vermouth/vermouth_state_manager.go:255-263 | the loop of REMOVE_HOSTS over the array the list shares with the balancer |
| StateManager.Vermouth.RemoveAbsent | vermouth/vermouth_state_manager.go:255-263 | the same loop over a copy of the list |
| Namespace.MissingPort | vermouth/vermouth_state_manager.go:224-238 | without a proxy on the port the committed loop drops services and hosts and panics at the first pass; creating the proxy mends it |
| Namespace.CommittedKeepsHosts | vermouth/vermouth_state_manager.go:249-263 | with the committed guard REMOVE_HOSTS changes nothing, whatever the children |
| Namespace.TurnsRemoveLive | vermouth/vermouth_state_manager.go:255-263 | through the righted guard the loop over the shared array takes a prefix's list to what `HostReconcile.LeftBehind` gives |
| Namespace.PassReachesState | vermouth/vermouth_state_manager.go:219-266 | a whole pass of events takes a round-robin prefix to the pass's result, over the shared list or over a copy, and touches no other |
| Namespace.PassSettlesHosts | vermouth/vermouth_state_manager.go:219-266 | with IPv4 nodes the prefix ends with exactly the reported hosts: always over a copy, over the shared list exactly when no departing host strays |
| Namespace.StreamMirrors | vermouth/vermouth_state_manager.go:219-266 | over every stream of events, for every manager: the loop gets through without panic exactly when each host comes while its service is announced and departed hosts not before there is a proxy; then the port's prefixes are the announced services, each with the list its events add up to |
| Namespace.LateHostPanics | vermouth/http_proxy.go:300-305 | a service reported gone between two events of a pass over it: the next host is a panic |
| Namespace.RoundMirrors | vermouth/vermouth_state_manager.go:240-248 | handling a round's events makes the port's prefixes those that discovery has in view after the round, from any state of it |
| Namespace.MirrorsAtStart | vermouth/vermouth_state_manager.go:219-223 | that holds at the start |
| Routing.ServiceIsReached | prefix/hash_prefixer.go:76-111 | a request under the name of a known service goes to one of its hosts with the rest of the path, or finds no host if it has none; under any other name it finds no path |
| Routing.EventsToRequest | vermouth/vermouth_state_manager.go:219-266 | the same after any stream of discovery events that the loop gets through, with the lists those events add up to |
| Routing.NewServiceIs | vermouth/vermouth_state_manager.go:240-244 | a new service gets a round-robin prefix under its name, without hosts and not static |
| Channel.GatewayMirrorsDiscovery | discovery/zookeeper_client.go:105-235 | discovery and gateway together, over every interleaving of the observer, the watchers and the channel: no panic exactly when no watcher sends a host after its service has been reported gone, and then the prefixes are the announced services, each with the list its events add up to |
| Channel.OvertakenPanics | discovery/zookeeper_client.go:133-141 | from every state between two rounds that the program can get to and where a watcher has a host to send, its service departing is a run that panics |
| Channel.LateIsCancelled | discovery/zookeeper_client.go:229-235 | only a watcher that has been cancelled is ever late |
| Channel.RunKeeps | discovery/zookeeper_client.go:105-235 | every interleaving keeps: a running watcher has its entry, speaks of its own service, and what has been sent about that since it read, with what is pending, is one whole pass |
| Channel.InterleavingsAgree | discovery/zookeeper_client.go:151-227 | streams that agree on the events of each service lead to the same lists, however the services are interleaved |
| Channel.PassSettles | discovery/zookeeper_client.go:171-227 | when a pass is over, whatever was sent in between, the service's list is the pass's result, and holds exactly the reported hosts exactly when no departing host sticks |
| Channel.RightIffNoneSticks | discovery/zookeeper_client.go:171-227 | over every interleaving the hosts are right throughout exactly when no departing host sticks at any pass, which never happens over a copy of the list |
| Channel.ViewRightIffNeverSkips | discovery/zookeeper_client.go:117-159 | over every interleaving what is announced agrees with what is observed, and the observer does not crash, exactly when it never passes over a new service because the old watcher has not left |
| Channel.ListsAreServices | discovery/zookeeper_client.go:117-159 | and then, between rounds, the lists are those of the observed services |
| Discovery.ZookeeperDiscovery.watchServices | discovery/zookeeper_client.go:120-154 | one round, in any map order: panic exactly when a departed service has no watcher entry; new services and watchers; the events sent take any consumer's view to the next view |
| Discovery.ZookeeperDiscovery.DropDeparted | discovery/zookeeper_client.go:133-141 | one removal event for each departed service, whose watcher is cancelled |
| Discovery.ZookeeperDiscovery.AddNew | discovery/zookeeper_client.go:143-153 | one addition event for each service without watcher entry |
| Discovery.ZookeeperDiscovery.WatcherLeaves | discovery/zookeeper_client.go:232-235 | a cancelled watcher takes its entry away |
| Discovery.ZookeeperDiscovery.watchNode | discovery/zookeeper_client.go:171-227 | the events of one pass over a service's nodes, the children in any map order |
| Discovery.ChildrenAreReported | discovery/zookeeper_client.go:186-196 | whatever the order, the children are the addresses of the readable nodes |
| Discovery.EventsTell | discovery/zookeeper_client.go:133-153 | folding a round's events gives the next view whatever the map orders |
| Discovery.RoundExact | discovery/zookeeper_client.go:133-154 | the folded view is the observed set exactly when no newcomer has an old watcher entry |
| Discovery.ExitsOneByOne | discovery/zookeeper_client.go:232-235 | cancelled watchers may leave in any order |
| Discovery.PromptRunsExact | discovery/zookeeper_client.go:117-159 | over every sequence of observed sets with prompt watchers: no panic, and view, services and watcher entries agree |
| Discovery.RightIffNoOldWatcher | discovery/zookeeper_client.go:117-159 | over every interleaving of rounds and leaving watchers: no panic and a right view throughout exactly when at each round no newcomer has an old watcher entry |
| Discovery.RightFromStart | discovery/zookeeper_client.go:117-159 | the same for every run of the program from its start |
| Discovery.SlowWatcherPanics | discovery/zookeeper_client.go:133-141 | a watcher that leaves late: the service is missed, unwatched, and panics when it departs again |
| Discovery.PassReconciles | discovery/zookeeper_client.go:186-227 | one pass over a copy keeps of a host list what is reported and adds what is registered; with IPv4 nodes it ends with exactly the reported hosts |
| Discovery.LivePassReconciles | discovery/zookeeper_client.go:186-227 | one pass over the shared list, with IPv4 nodes, ends with exactly the reported hosts just when no departing host strays |
| Discovery.AddedExactly | discovery/zookeeper_client.go:199-227 | a pass registers exactly: each IPv4 node with itself, each name with every answer of the lookup, no IPv6 node |
| Discovery.NamesResolve | discovery/zookeeper_client.go:211-225 | if the lookup answers with IPv4 addresses, every registered host is one with the port of a readable node |
| Discovery.NamedPass | discovery/zookeeper_client.go:186-227 | a pass with names among the nodes, over a copy of the list, leaves exactly the hosts that are registered now |
| Discovery.NamedPasses | discovery/zookeeper_client.go:186-227 | the same after every run of passes, with lookups that change their answers |
| Discovery.HostTextTells | discovery/zookeeper_client.go:190 | a host text names its address and its port |
| AsyncLogger.InvHolds | logger/logger.go:251-305 | in every interleaving: the wait count is what is announced, queued and in hand; the channel is first in, first out; each message is at one place and written at most once; every output holds exactly what its level lets through; a blocked flush has something to wait for |
| AsyncLogger.FlushLosesNothing | logger/logger.go:323-347 | when a flush returns, every message announced before the call is written, once, in channel order, and on exactly those outputs whose level lets it through |
| AsyncLogger.StuckForever | logger/logger.go:296-301 | with messages on their way when the writer ends, no flush returns ever after and nothing more is written |
| AsyncLogger.ReturnsIffDone | logger/logger.go:323-328 | after the writer has ended a flush whose signal was taken can return exactly when nothing is on its way |
| AsyncLogger.SecondFlushBlocks | logger/logger.go:323-326 | after the writer has ended another flush waits for ever |
| AsyncLogger.LateSendIsStuck | logger/logger.go:254-257 | one producer that announces before the flush and sends after it is enough |
| AsyncLogger.QuietRunsDoNotCrash | logger/logger.go:251-328 | no run panics in which no message is announced while a released flush has still to run |
| AsyncLogger.AnnouncingCrashes | logger/logger.go:255-328 | in any reachable state with a released flush one more message makes its Wait panic, the wait group being reused |
| AsyncLogger.ReusedWaitGroup | logger/logger.go:255-341 | a run from the start that comes to that |
| AsyncLogger.Logger.writeToOutputs | logger/logger.go:281-289 | each output takes the message exactly if its level lets it through |
| AsyncLogger.Logger.flush | logger/logger.go:332-347 | the draining loop is a run of the machine that empties the channel |
| LogEntry.LogEntry.Encode | vermouth/log_entry.go:22-27 | two bytes of option, two zero bytes, the body; and it decodes to the entry |
| LogEntry.LogEntry.Decode | vermouth/log_entry.go:29-33 | the option and the body, or a panic for a slice shorter than its header |
| LogEntry.EncodedIsInjective | vermouth/log_entry.go:22-27 | different entries have different bytes |
| LogEntry.DecodedEncodes | vermouth/log_entry.go:22-33 | bytes are an encoding exactly when they have a header with two zero bytes, and encoding what they decode to gives them back |
| LogEntry.RequestIsHandled | vermouth/context.go:78-107 | for every change: the option the state manager sends with it selects the handler that reads the struct it was sent with and makes that very change |
| LogEntry.RequestArrives | vermouth/raft_info.go:21-45 | from request to effect: applying the appended bytes makes the change, for every body format that reads back what it wrote |
| LogEntry.OtherOptions | vermouth/context.go:78-107 | exactly which options have a handler; limiters and all others change nothing |
| LogEntry.BytesReplay | vermouth/context.go:69-114 | replaying the appended bytes does what the requests ask for, for every log and every such format |
| LogEntry.OnTheWire | vermouth/context.go:17-28 | the header bytes of each kind of request |
| LogEntry.UnreadableBytes | vermouth/context.go:69-114 | bytes too short for a header are a panic; a body that cannot be read changes nothing |

## Left out

- Limiters: the token bucket is an external library; SetRateLimit deadlocks on a missing limiter, and limiters are created by requests outside the log, so SET_RATE_LIMITER has a handler that changes nothing and `RateLimiterType` is not part of the state; `setRateLimiter` is not among the requests, and that Restore appends every limiter record again is not modelled either.
- Locks: every operation is atomic. A literal model would stop at ConsistenceHash.Balance, which never gives its read lock back.
- Listeners and Close: closing a proxy takes it off the list at once. In the code a goroutine does so later, and blocks if the proxy never listened or came from a snapshot.
- Raft: elections, storage and transport; the log is taken as agreed, and in cluster mode a request returns after its entry has been applied.
- gob and JSON: a body format is any pair of functions that reads back what it wrote (`LogEntry.Faithful`), and the errors of encoding are not modelled; a snapshot is the record of the exported fields, and decoding one over a context is taken to replace the proxies at its ports and to keep the others, as a decoder that fills an existing map does.
- CRC-32: the hash is any function from texts to 32-bit numbers; where the points of different hosts must not collide a theorem says so.
- Serving HTTP: forwarding, headers and the client's address; the balancing key of a request is a parameter of `HashPrefixer.MappingPath`.
- Slices shared between objects: the array that a host list shares with its balancer is modelled where it matters, in `HostReconcile` and in the REMOVE_HOSTS loops of `Namespace` and `StateManager`; elsewhere host lists are values, and `HttpProxy` keeps balancers as values in its prefix mapping.
- Host names: DNS answers are a parameter; the payload of a node is an address and a port, or unreadable. ZooKeeper sessions and errors of the connection are not modelled.
- REMOVE_HOST: the single-host removal event has a handler but no sender; the event type leaves it out.
- A watcher that is cancelled while it has a notification pending may send one more pass of events; `Discovery` lets a cancelled watcher only leave, `Channel` lets it send any number of passes more. `Channel` also lets a watcher leave before its first pass, which it does not do in the code.
- RPC calls and requests of administrators that change the port of discovery while events are handled: `Namespace` and `Channel` take that port to be discovery's own.
- Data races: two goroutines write the watcher map without a lock (discovery/zookeeper_client.go:147 and 234), which Go may stop with a fatal error; each access is a step of its own in `Channel`.
- Building proxies from the configuration file, log formatting, file rotation and the adapters behind a log output.
- A round-robin window with more than one wrap of the 64-bit counter: `RoundRobin.FairAcrossWrap` covers one; `RoundRobin.FairIffDividing` covers all when the number of hosts divides 2^64.
- HashPrefixer.HashPrefixer.Update: stands for a method call on the balancer object stored at a prefix.
- RadixTree.RadixTree.insert: is told the mask of some number of leading ones, which is all Add and Delete ever pass. On a damaged tree it says what the links become; what the searches then answer is left to `RadixTree.search`, link by link.
- RadixTree.RadixTree.delete: on a damaged tree asks that the climb over the parents ends; where it does not, there is no state afterwards to speak of.
- RadixTree.RadixTree.Delete: asks the same. Its clause about the table is for pruned trees, as all are whose additions carry a value; `RadixTree.delete` covers the others.
- RadixTree.RadixTree.search: asks that the way down ends; it does on proper trees and after one damaging insert (`TrieWalk.CrookedForbids`), but not always after two (`RadixTree.HangingRun`), and a search without end has no result to speak of.
- RadixTree.RadixTree.AccessControl: asks the same of the address that is looked up.
- AclRuns.Play: stops at the first call that damages the tree; calls after that are covered one by one, by the clauses about links.
- AsyncLogger.Logger.flush: messages that producers send while the loop drains are left to the machine, where every interleaving is covered (`AsyncLogger.InvHolds`, `AsyncLogger.FlushLosesNothing`).
- HttpProxy.HttpReverseProxy.Unmarshalled: a proxy read from a snapshot has neither prefix mapping nor tree until it is restored; here it has empty ones. It shows only for a proxy of an unknown prefixer type, which stays that way; none is ever created (`Lifecycle.ProxyRequestsPanic`).
- StateContext.StateContext.Apply: after a panic says only that the object is still well formed, because applying entries is not recovered and the process ends.
- Snapshot.SnapshotThenReplay: asks the first part of the log to be proper, which is exact for each entry that changes a ring (`Snapshot.RemoveKeepsRing`, `Snapshot.CommittedAddLosesStep`; `Snapshot.CarefulLogIsProper` gives a condition callers can see to) but asks of all texts together that they write each network in one way.
