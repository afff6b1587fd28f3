# LocalNetwork Ecosystem: verified model

A Dafny model of the virtual-LAN mediation server, the peer-to-peer client and the reverse proxy, with proofs of what
their small stateful algorithms guarantee over whole runs.

* **Hole punching, key agreement and the tunnel** (`Frames`, `Crypto`, `Handshake`, `Tunnel`). Two clients exchange PUNCH
  and PUNCH_ACK datagrams, as packed bytes, over a network that loses, duplicates and reorders. The X25519, HKDF and
  AES-GCM primitives are parameters with stated laws (`Crypto.Suite.Lawful`).
* **Relay and membership** (`Relay`, `Membership`, `Server`). The relay's shared queues are proved to behave as one
  independent channel per ordered pair of clients; the two stored copies of the membership relation are proved to agree,
  with the exact condition under which each operation keeps them in agreement.
* **Proxy algorithms** (`RateLimiter`, `DiskCache`, `Balancers`, `Health`, `Status`).
* **Wire formats** (`Messages`, `Chunked`, `Http`, `WebSocket`, `Stun`).

An object whose methods update its fields is a class with a `View()` (its fields as one value); each method states its new
view as a function of the old one, and the theorems are about those functions over arbitrary sequences of operations. Clocks,
random numbers, socket results, file-system failures, dictionary order and foreign codecs are parameters, so each theorem
holds for every choice of them. Where a parameter has laws, `Instances` gives one that meets them (`SomeSuite`, `SomeCodec`,
`SomeEnv`). Python floats are modelled as reals (clock ticks in the cache, whose metadata must keep them exactly), and
dictionaries and sets as maps and sets.

Check the project with `dafny verify dfyconfig.toml`.

## Model

| member | source | states |
|---|---|---|
| `Frames.PackFrame` | common/frame.py:78-116 | packing succeeds exactly when the payload fits 16 bits, the version is 1 and a given tag has 16 bytes; the frame is header, payload and tag long |
| `Frames.UnpackPacked` | common/frame.py:78-155 | every packed frame is read back field for field, sequence number modulo 2^32, whatever bytes follow |
| `Frames.PackUnpacked` | common/frame.py:119-155 | every buffer that unpacks re-packs to its own first 24 + length bytes |
| `Frames.AcceptsExactly` | common/frame.py:119-155 | a buffer is accepted if and only if it has 24 bytes, version 1 and the payload it announces; otherwise the first failing test is reported |
| `Frames.PunchFrame` | common/frame.py:158-160 | the PUNCH frame reads back as type 2 with the given payload |
| `Frames.PunchAckFrame` | common/frame.py:163-165 | the PUNCH_ACK frame reads back as type 6 with the given payload |
| `Crypto.SessionKey` | client/encryption.py:58-85 | a key is derived exactly from 32-byte peer keys |
| `Crypto.SessionKeysAgree` | client/encryption.py:65-85 | both ends of an exchange of public keys derive the same 32-byte key |
| `Crypto.SessionKeysDiffer` | client/encryption.py:65-85 | ends whose exchanges derive different keys have different session keys |
| `Crypto.DecryptEncrypted` | client/encryption.py:101-131 | nonce and tag slicing: decryption under the same key undoes encryption, and the ciphertext is 12 bytes longer than the plaintext |
| `Crypto.EncryptsExactly` | client/encryption.py:101-114 | what goes out is the nonce and then the sealed plaintext, cut before its 16-byte tag |
| `Crypto.DecryptsExactly` | client/encryption.py:116-131 | what comes in is opened under its first 12 bytes as nonce, and refused if shorter |
| `Handshake.PunchPeer` | client/nat_traversal.py:122-169 | the wait ends with a datagram exactly when one it waits for arrives before the deadline and before an error; what is returned, or raised when the reply cannot be sent; in every case one PUNCH salvo per time-out plus the first, and the key-less reply to a PUNCH |
| `Handshake.AcceptPunch` | client/nat_traversal.py:186-212 | the same for the passive wait, which ends at the first time-out; its reply carries our key |
| `Handshake.ErrorsEndWait` | client/nat_traversal.py:150-158 | nothing is heard after an error, nor, passively, after a time-out |
| `Handshake.ReactsToFrames` | client/nat_traversal.py:159-212 | how the active and the passive wait answer PUNCH and PUNCH_ACK frames, for every key |
| `Handshake.InvStep` | client/nat_traversal.py:150-169 | every step of either end keeps the protocol invariant: what each datagram in flight says about its sender, and what each end's phase says about its cipher |
| `Handshake.KeysAgree` | client/tunnel_manager.py:180-191 | in every interleaving with loss, duplication and reordering, two ciphers are equal, and any cipher carries the one shared key |
| `Handshake.KeysTellPairsApart` | client/encryption.py:65-85 | if two pairs' secrets derive different keys, no cipher of any run of one equals a cipher of any run of the other |
| `Handshake.InstallsExactly` | client/tunnel_manager.py:181-191 | a 32-byte key gives the cipher derived from it, no key gives none, anything else an error |
| `Handshake.BothGetCipher` | client/tunnel_manager.py:140-246 | an active and a passive end can both come out connected with the same cipher |
| `Handshake.EndsRightly` | client/tunnel_manager.py:192-207 | in every run an end is relayed only if active with a control channel, failed only if not, closed only on demand, idle exactly until started |
| `Handshake.GivesUpExactly` | client/tunnel_manager.py:193-207 | giving up leads to the relay exactly if active with a control channel |
| `Handshake.ClosesOnDemand` | client/tunnel_manager.py:334-337 | a CLOSE frame, or its user, closes a connected or relayed end |
| `Handshake.CipherlessExactly` | client/tunnel_manager.py:181-190 | an end connected over P2P has no cipher if and only if an empty-payload PUNCH_ACK ended its wait |
| `Handshake.CipherlessOnlyActive` | client/tunnel_manager.py:235-244 | such an end is an active one whose peer had already left its wait |
| `Handshake.NeverRaises` | client/encryption.py:58-62 | the key-length error is unreachable in every run |
| `Handshake.OneSidedCipherBothActive` | client/nat_traversal.py:164-168 | for all lawful keys, two active ends can finish with a cipher on one side only |
| `Handshake.OneSidedCipherActivePassive` | client/tunnel_manager.py:338-347 | so can an active and a passive end, through a duplicated PUNCH |
| `Tunnel.PeerTunnel.SendData` | client/tunnel_manager.py:248-269 | the outcome, the byte count returned (0 if the send fails) and the new state, including the sequence number that moves before an oversize error |
| `Tunnel.SendsExactly` | client/tunnel_manager.py:257-265 | a packet goes on the wire if and only if it has at most 65535 bytes, or 65523 under a cipher, and the frame length |
| `Tunnel.RefusesExactly` | client/tunnel_manager.py:254-260 | nothing is sent and nothing changes exactly while not connected or without socket or address |
| `Tunnel.PeerTunnel.HandleFrame` | client/tunnel_manager.py:301-353 | the packet handed up, the reply and the new state for every frame type |
| `Tunnel.HandlesOne` | client/tunnel_manager.py:301-353 | for any one datagram: the packet, the state, the time, the counter, the address, and a key-less reply exactly to PUNCH on a socket |
| `Tunnel.ArrivalsExactly` | client/tunnel_manager.py:301-353 | after any list of datagrams: closed if and only if a CLOSE was among them, last heard at the last sign of life, counter and address of the last packet opened, and exactly the packets in opened DATA frames |
| `Tunnel.ClosedSendsNothing` | client/tunnel_manager.py:254-255 | an end that has received a CLOSE frame sends nothing more |
| `Tunnel.OneDelivered` | client/tunnel_manager.py:248-328 | a frame sent by an end is opened, as the packet sent, by every end with the same cipher or likewise none |
| `Tunnel.ScheduleDelivered` | client/tunnel_manager.py:248-328 | under any loss, duplication and reordering each arriving frame yields exactly its packet, and the receive counter is that of the last arrival modulo 2^32 |
| `Tunnel.InOrderCounters` | client/tunnel_manager.py:256-323 | complete in-order delivery returns the packet list and leaves the two counters equal modulo 2^32 |
| `Tunnel.HandshakeThenData` | client/tunnel_manager.py:180-328 | after any handshake run that gave both ends a cipher, everything one end sends is what the other reads |
| `Tunnel.OneSidedCipherCorrupts` | client/tunnel_manager.py:311-322 | with a cipher on the sending side only, the receiver hands up nonce and ciphertext, never the packet |
| `Tunnel.PlainSenderCorrupts` | client/tunnel_manager.py:311-317 | with a cipher on the receiving side only, the packet is never handed up |
| `Tunnel.DeliversExactly` | client/tunnel_manager.py:180-328 | after any handshake run a packet sent by one end is handed up by the other if and only if both ends came out with a cipher or neither did |
| `Stun.ParseMappedAddress` | client/nat_traversal.py:294-321 | the error cases and, otherwise, the result of the attribute walk, which terminates |
| `Stun.WalksResponse` | client/nat_traversal.py:301-321 | on every well-formed response the walk returns what the first XOR-MAPPED-ADDRESS says, whatever precedes or follows it |
| `Stun.FindsMappedAddress` | client/nat_traversal.py:309-318 | if that attribute is IPv4, the result is the address and port the server XORed in |
| `Stun.ReadsWrittenAddress` | client/nat_traversal.py:310-318 | un-XORing undoes the encoding of section 15.2 of RFC 5389 for every address and port |
| `Stun.ReadsAddressExactly` | client/nat_traversal.py:309-318 | the refusals in order, and otherwise every bit of address and port against the magic cookie |
| `Stun.WalksCutResponse` | client/nat_traversal.py:301-321 | a response cut anywhere yields what its whole attributes say |
| `Stun.PaddingIsLeast` | client/nat_traversal.py:320-320 | the walk skips the fewest bytes that bring a value to a multiple of four |
| `Relay.RelayForwarder.RegisterRelayPath` | server/relay.py:45-57 | both directions open, both queues exist, and the answer says whether the path is new |
| `Relay.RelayForwarder.RelayFrame` | server/relay.py:72-88 | the new queues and counters of an accepted, refused or dropped frame |
| `Relay.RelayForwarder.PendingFrames` | server/relay.py:90-99 | the queue is emptied and every item is returned in order, encoded |
| `Relay.RelayForwarder.DropClient` | server/relay.py:172-187 | the client's queue, its frames in other queues, its paths and its byte counters go; all else stays |
| `Relay.ValidAlways` | server/relay.py:45-99 | in every run paths stay symmetric, every queued frame has a live path and no queue exceeds 1024 |
| `Relay.RefinesChannel` | server/relay.py:72-99 | in every run each pair's frames in the shared queue, its path and its byte count are those of an independent channel that sees only that pair's events |
| `Relay.ExactlyOnceInOrder` | server/relay.py:72-99 | in every run the accepted frames of a pair are, in order, those delivered or purged and then those queued; the drains handed over exactly the ones marked delivered |
| `Relay.AnswersExactly` | server/relay.py:45-88 | in every reachable state a frame is accepted exactly when its path is open and its destination has room, the drop counter rises by one exactly when an open path meets a full queue, and a path is reported new exactly when it was closed |
| `Relay.QueueInOrder` | server/relay.py:72-99 | in every run each queue is, across all its sources, what was accepted for it in order and neither drained nor purged, and a drain hands over exactly that |
| `Relay.DropsCounted` | server/relay.py:80-83 | the drop counter is the number of offers that met an open path and a full queue |
| `Relay.DropForgets` | server/relay.py:172-187 | after a drop nothing mentions the client and every other pair's frames are unchanged |
| `Server.HandleRelayRequest` | server/relay.py:117-160 | a path is granted exactly to two known, online clients with a network in common, each refusal names the first test that fails, only a grant changes the relay, and which grant messages are sent |
| `Server.ListedTogether` | server/relay.py:137-138 | the search over the network records finds a common network exactly when one exists |
| `Membership.ClientRegistry.Register` | server/registry.py:37-44 | a new record, stamped with the time, or the old one with the new key |
| `Membership.ClientRegistry.Unregister` | server/registry.py:46-51 | offline and without endpoint, memberships kept |
| `Membership.ClientRegistry.SetOnline` | server/registry.py:81-88 | refused for unknown or banned clients, otherwise online with a fresh heartbeat |
| `Membership.ClientRegistry.UpdateEndpoint` | server/registry.py:90-94 | the endpoint and the address of a known client |
| `Membership.ClientRegistry.Heartbeat` | server/registry.py:96-103 | a known client is online with a fresh heartbeat, banned or not |
| `Membership.ClientRegistry.PruneStale` | server/registry.py:105-117 | exactly the online clients with an old heartbeat go offline, and are listed; none is left |
| `Membership.ClientRegistry.AddNetwork` | server/registry.py:120-123 | silently ignores unknown clients |
| `Membership.ClientRegistry.RemoveNetwork` | server/registry.py:125-128 | silently ignores unknown clients |
| `Membership.NetworkManager.Create` | server/network_manager.py:91-116 | both copies after a creation, hub and gateway by topology, refusal of an unsupported topology |
| `Membership.NetworkManager.Join` | server/network_manager.py:131-147 | both copies after a join, and its refusals |
| `Membership.NetworkManager.JoinByInviteCode` | server/network_manager.py:346-367 | both copies after a join through a code, and its refusals |
| `Membership.NetworkManager.Leave` | server/network_manager.py:149-162 | both copies after leaving, hub and gateway cleared |
| `Membership.NetworkManager.Delete` | server/network_manager.py:199-215 | only the owner; every member is delisted, the codes go |
| `Membership.NetworkManager.PurgeClient` | server/network_manager.py:217-245 | the client leaves every network, networks left empty go, its services go, and the list returned enumerates the networks left |
| `Membership.NetworkManager.ExposeService` | server/network_manager.py:248-272 | refused outside the network, otherwise the service is recorded for its provider |
| `Membership.NetworkManager.UnexposeService` | server/network_manager.py:274-280 | the service goes, if it was there |
| `Membership.NetworkManager.GenerateInviteCode` | server/network_manager.py:316-344 | nothing for an unknown network; an existing code is returned; a new one is the first unused draw, and the fallback only when every draw is taken |
| `Membership.NetworkManager.FindShared` | server/main.py:415-419 | in the given iteration order, the first network the registry lists for the client and the records give to the peer, or none exists |
| `Membership.NetworkManager.SharedEndpointsFor` | server/network_manager.py:376-403 | the endpoint shown: members only, online, and in hub-and-spoke networks the hub only |
| `Membership.NetworkManager.OnRequestPeerConn` | server/main.py:410-440 | which of the three answers is given in each iteration order |
| `Membership.StepAgrees` | server/network_manager.py:91-245 | from an agreeing state, an operation keeps the two membership copies in agreement if and only if it is careful (registered actor, no live network overwritten, no member forgotten) |
| `Membership.CreateAgrees` | server/network_manager.py:113-115 | creation keeps agreement exactly for a registered owner and an id not held by other members |
| `Membership.JoinAgrees` | server/network_manager.py:145-146 | a successful join keeps agreement exactly for a registered client |
| `Membership.ForgetAgrees` | server/registry.py:53-55 | forgetting a client keeps agreement exactly when it belongs to no network |
| `Membership.PurgeAgrees` | server/network_manager.py:217-236 | a purge keeps agreement and leaves the client listed nowhere |
| `Membership.JoinsExactly` | server/network_manager.py:131-147 | a join admits if and only if the network exists, is not banned and the password is right; no other membership changes |
| `Membership.CodeJoinsExactly` | server/network_manager.py:346-367 | a code admits if and only if it names such a network and the password is right |
| `Membership.DeletesExactly` | server/network_manager.py:199-215 | a network is deleted if and only if its owner asks, and no other goes |
| `Membership.AnswersExactly` | server/network_manager.py:91-280 | which creations, departures, heartbeats, exposures and withdrawals are answered with success |
| `Membership.GoesOnlineExactly` | server/registry.py:81-88 | a client goes online if and only if known and not banned; no other record changes |
| `Membership.NetworkExactly` | server/network_manager.py:91-236 | in every run each network's record is what the events about that network say, whatever happens to others |
| `Membership.MembersWereAdmitted` | server/network_manager.py:113-147 | every member created the network or joined it with the right password, directly or by a code that named it then |
| `Membership.ClientExactly` | server/registry.py:37-117 | in every run each client's record, memberships aside, is what the events about that client say |
| `Membership.ProviderExactly` | server/network_manager.py:237-280 | in every run a service is listed for the member that exposed it last, until withdrawn or its provider purged |
| `Membership.RunAgrees` | server/network_manager.py:113-236 | the two copies agree after every careful run |
| `Membership.SearchesCoincide` | server/main.py:416-419 | after every careful run the endpoint search and the relay search find a shared network in exactly the same cases |
| `Membership.ForgottenMemberSplits` | server/registry.py:53-55 | forgetting and re-registering a member makes the relay grant what the endpoint search denies, from every agreeing state |
| `Membership.ForgettingSplitsSearches` | server/registry.py:53-55 | a run that ends so |
| `Membership.CodesStayInverse` | server/network_manager.py:316-344 | codes and networks stay one to one; a new code keeps that exactly when it is unused |
| `Membership.RunKeepsCodesExactly` | server/network_manager.py:316-344 | they are one to one throughout a run if and only if every code the run assigns is unused |
| `Membership.CodesLiveExactly` | server/network_manager.py:199-236 | an operation keeps every code naming a live network if and only if it is no purge of the last member of a network with a code, and no code for a missing network |
| `Membership.PurgeLeavesCode` | server/network_manager.py:225-236 | a run after which a code names a network that is gone |
| `Membership.OfficersAlwaysBelong` | server/network_manager.py:149-236 | in every run, careful or not, the hub and the gateway of a network are among its members |
| `Membership.OneAnswerExactly` | server/network_manager.py:398-403 | from every agreeing state, all iteration orders give the same answer if and only if the client asks about itself, the peer cannot be reached, or the networks in common all hide the peer or none does |
| `Membership.OneAnswerInRuns` | server/main.py:414-440 | the same after every careful run |
| `Membership.OrderDecides` | server/main.py:416-419 | a careful run after which the order of iteration decides the answer |
| `Membership.ProvidersBelongExactly` | server/network_manager.py:149-272 | an operation keeps every service provider a member of its network if and only if it is not a departure of a provider, a deletion of a network with services or a creation over one |
| `Membership.LeavingStrandsService` | server/network_manager.py:149-162 | a careful run after which a service is provided by a client that has left |
| `RateLimiter.RateLimiter.Allow` | proxy/security/rate_limiter.py:34-68 | the answer and the window after a request |
| `RateLimiter.RateLimiter.SetBurst` | proxy/security/rate_limiter.py:70-72 | the grant's expiry |
| `RateLimiter.RateLimiter.Cleanup` | proxy/security/rate_limiter.py:74-87 | exactly the old windows and expired grants go, then the first surplus keys in dictionary order |
| `RateLimiter.LimitExactly` | proxy/security/rate_limiter.py:58-58 | the limit is the rate, raised by a positive burst |
| `RateLimiter.Unlimited` | proxy/security/rate_limiter.py:45-46 | a rate of zero or less admits everything and counts nothing |
| `RateLimiter.CountsExactly` | proxy/security/rate_limiter.py:48-57 | a request is counted once, for its client alone, in a window that begins at the second clock reading and holds the following second |
| `RateLimiter.GrantLasts` | proxy/security/rate_limiter.py:63-72 | past the limit, a grant admits exactly until its duration has passed |
| `RateLimiter.CleansExactly` | proxy/security/rate_limiter.py:74-87 | which windows and grants a cleanup keeps, unchanged |
| `RateLimiter.AdmitsExactly` | proxy/security/rate_limiter.py:52-68 | a request is admitted exactly while its window's count is within floor(rate + burst) or a grant is in force |
| `RateLimiter.AtMostTwoWindowsPerSecond` | proxy/security/rate_limiter.py:45-68 | in every run any closed second admits at most 2*floor(rate + burst) - 1 requests of a client (none if the limit is below one) |
| `RateLimiter.BoundIsReached` | proxy/security/rate_limiter.py:51-61 | that bound is attained, for every rate and burst that admit anything |
| `RateLimiter.CleanupInvisible` | proxy/security/rate_limiter.py:74-82 | removing every cleanup from a run that never overflows the zone changes no answer |
| `RateLimiter.NoOverflowIsAging` | proxy/security/rate_limiter.py:83-87 | a cleanup is its age pass if and only if the remaining windows fit the zone |
| `RateLimiter.CleanupChangesExactly` | proxy/security/rate_limiter.py:74-87 | in every state and for every zone size, a cleanup changes the answer to a later request if and only if it evicts the client for overflow while its window is current and used up and no grant is in force |
| `RateLimiter.OverflowReadmits` | proxy/security/rate_limiter.py:83-87 | for every zone size a run exists in which a cleanup, evicting in dictionary order, admits an exhausted client again |
| `RateLimiter.GrantLiftsBound` | proxy/security/rate_limiter.py:63-72 | under a grant no bound holds, for every rate and every positive burst: any number of requests is admitted within one second |
| `DiskCache.DiskCache.Remove` | proxy/cache/storage.py:148-156 | the entry, its bytes in the counter and (unless deletion fails) its file go |
| `DiskCache.DiskCache.EvictOne` | proxy/cache/storage.py:158-163 | the removed entry was least recently used; nothing happens on an empty index |
| `DiskCache.DiskCache.MakeRoom` | proxy/cache/storage.py:72-74 | the eviction loop terminates, and its victims were each least recently used in turn |
| `DiskCache.DiskCache.Store` | proxy/cache/storage.py:66-95 | the new index, counter and disk for a write that succeeds, is refused or is torn, and the OverflowError of metadata too long for its length field |
| `DiskCache.DiskCache.WriteFile` | proxy/cache/storage.py:76-92 | what each kind of write leaves in the file |
| `DiskCache.DiskCache.Retrieve` | proxy/cache/storage.py:97-128 | the answer and the new state on the memory path and the disk path |
| `DiskCache.DiskCache.Purge` | proxy/cache/storage.py:130-146 | the index keeps exactly the old keys without the prefix, and the number removed is returned |
| `DiskCache.ReadWritten` | proxy/cache/storage.py:78-89 | a written file is read back as the same metadata and body |
| `DiskCache.ReadCut` | proxy/cache/storage.py:112-126 | a file cut anywhere is unreadable up to the end of its metadata, and from there on reads as the body cut short |
| `DiskCache.LookupExactly` | proxy/cache/storage.py:97-128 | over every run, torn writes included, what a lookup answers: the latest successful store while indexed, otherwise what is readable of the last write, either while fresh |
| `DiskCache.LatestOrNothingExactly` | proxy/cache/storage.py:97-128 | lookups of a key always return the latest successful store or nothing if and only if there is nothing to read, or what is read repeats that store and expires no later |
| `DiskCache.TornBodyIsServed` | proxy/cache/storage.py:76-126 | a run of one torn store after which a lookup returns the body cut short, though nothing was ever stored |
| `DiskCache.ReadsLatestOrNothing` | proxy/cache/storage.py:97-128 | over every run in which the last write of a key was not torn, a lookup returns nothing or exactly the latest successful store, and only while it is fresh |
| `DiskCache.AnswersExactly` | proxy/cache/storage.py:103-128 | it answers exactly when the key is indexed or has a file and its latest store is fresh |
| `DiskCache.MemoryAndDiskAgree` | proxy/cache/storage.py:103-126 | the memory path and the disk path agree on a key at all times if and only if it is not indexed or its file reads as the response and expiry of its latest store; without torn writes they always do |
| `DiskCache.NeverStale` | proxy/cache/manager.py:90-96 | `is_stale` can never hold |
| `DiskCache.CounterIsTotalPlusLeak` | proxy/cache/storage.py:94-95 | over every run the counter is the live total plus exactly the bytes overwritten in place, and the zero floor never takes effect |
| `DiskCache.LiveWithinCapacity` | proxy/cache/storage.py:72-95 | over every run, if no stored body exceeds the capacity, the live entries together never do |
| `DiskCache.StepWithinCapacity` | proxy/cache/storage.py:72-95 | an operation leaves the capacity respected if and only if it is not a store of a larger body |
| `DiskCache.EvictsOldestFirst` | proxy/cache/storage.py:158-163 | everything evicted was used no later than every survivor |
| `DiskCache.AccessTimesExact` | proxy/cache/storage.py:66-110 | in every run the access time of an entry is that of the last successful store or lookup of its key |
| `DiskCache.EvictsLeastRecentlyUsed` | proxy/cache/storage.py:72-74 | in every run, what a store evicts was last stored or looked up no later than anything that survives it |
| `DiskCache.PurgedIsGone` | proxy/cache/storage.py:130-156 | a removed key is gone from the index and, unless its deletion failed, from the disk; every other key and file is untouched |
| `DiskCache.PurgesExactly` | proxy/cache/storage.py:130-146 | a purge removes exactly the keys that begin with the pattern, and counts them |
| `DiskCache.LookupChanges` | proxy/cache/storage.py:97-128 | what a lookup changes: out of date, the entry and its file go; answered, only the access time |
| `DiskCache.RemovesExactly` | proxy/cache/storage.py:148-152 | removing an entry takes its size off the counter, down to zero |
| `DiskCache.LeakEmptiesCache` | proxy/cache/storage.py:73-95 | once leaked bytes and a new body exceed the capacity, a store leaves one entry |
| `DiskCache.OverwriteLeaks` | proxy/cache/storage.py:94-95 | storing one key twice leaves the counter at twice its size |
| `DiskCache.LeakEvictsNeedlessly` | proxy/cache/storage.py:73-95 | a run in which that evicts an entry although everything live would fit |
| `Chunked.GrammarSizes` | proxy/connection.py:177-180 | a size in the 1*HEXDIG grammar has its value for `int(..., 16)`, with and without its line end |
| `Chunked.HexTable` | proxy/connection.py:178-178 | the digits and their values in either case, and the white space |
| `Chunked.LenientSizes` | proxy/connection.py:178-178 | white space around it and a plus sign change no value |
| `Chunked.PrefixedSizes` | proxy/connection.py:178-178 | nor does an 0x prefix, with or without an underscore |
| `Chunked.UnderscoredSizes` | proxy/connection.py:178-178 | nor does an underscore between digits |
| `Chunked.ParseChunked` | proxy/connection.py:168-197 | the loop, Python's negative positions and slices included, gives the answer of the scan below, or is reported as endless |
| `Chunked.PieceExactly` | proxy/connection.py:194-194 | what a turn adds to the body for each size, wrapping slices included |
| `Chunked.HangsExactly` | proxy/connection.py:172-195 | it is reported as endless if and only if its positions go on for ever |
| `Chunked.PlainScan` | proxy/connection.py:172-197 | a scan that meets no negative size ends, and is the plain forward scan |
| `Chunked.ScanOfPrefix` | proxy/connection.py:168-197 | for arbitrary bytes without negative sizes, a complete scan gives the same answer on every extension and "incomplete" on every shorter prefix |
| `Chunked.CompletesExactlyWithTrailer` | proxy/connection.py:183-189 | whatever follows, a valid message is decoded to the concatenated chunks and its exact length if and only if it has a trailer |
| `Chunked.DecodesWithTrailer` | proxy/connection.py:168-197 | the decoding half, for every list of chunks, every spelling of the sizes and every trailer |
| `Chunked.MissesBareEnd` | proxy/connection.py:183-189 | without a trailer the scan waits or runs past the message |
| `Chunked.PrefixesIncomplete` | proxy/connection.py:172-197 | every strict prefix of a valid message with a trailer is incomplete |
| `Chunked.ReadChunkedBody` | proxy/connection.py:496-510 | the line-reading loop terminates and is the line scan |
| `Chunked.LineReaderAgrees` | proxy/connection.py:496-510 | the line reader decodes every valid message to the same body, and consumes it exactly when it has no trailer |
| `Chunked.RetreatsExactly` | proxy/connection.py:177-195 | a turn fails to advance if and only if its size is at most -(line length + 4), and then stays for ever if it is equal to that |
| `Chunked.NegativeSizeLoops` | proxy/connection.py:177-195 | so a line such as "-6" hangs the parser, whatever valid chunks precede it and whatever follows |
| `Chunked.NegativeSizeDependsOnCut` | proxy/connection.py:172-195 | there are inputs with a negative size that complete in one piece and hang when cut |
| `Http.HttpParser.Feed` | proxy/connection.py:112-166 | the outcome and the buffer after each feed, errors and endless loops included |
| `Http.BodyKindExactly` | proxy/connection.py:69-78 | which header announces which kind of body |
| `Http.RefusesExactly` | proxy/connection.py:117-135 | headers are too large if and only if they do not end and exceed 16384 bytes; the request line is bad if and only if it cannot be read |
| `Http.ParseOfPrefix` | proxy/connection.py:117-166 | a cut before a request's end gives nothing, from its end on the same request |
| `Http.SplitIndependentExactly` | proxy/connection.py:112-166 | every split of a request without negative chunk sizes gives nothing until the last piece and then the request of a single feed, if and only if the header section less one byte fits 16384 |
| `Http.EverySplitWorks` | proxy/connection.py:112-166 | the sufficient half, for all splits into any number of pieces |
| `Http.ChunkedRequestIsExact` | proxy/connection.py:149-156 | any chunked header block with any valid trailer-carrying body is exactly one request |
| `Http.SizedRequestIsExact` | proxy/connection.py:157-162 | any header block with a content length and a body of that length is exactly one request with that body, and what follows is kept |
| `Http.SurplusKeptExactly` | proxy/connection.py:151-164 | bytes behind a request are kept if and only if it has a body or nothing follows |
| `Http.BodilessDropsSurplus` | proxy/connection.py:163-164 | any bodiless request drops whatever was read with it |
| `Http.LongHeaderDependsOnCut` | proxy/connection.py:119-123 | a header block too long for the limit is accepted in one piece and refused when its last byte comes alone |
| `Messages.RecoversEveryMessage` | common/messages.py:70-145 | every list of messages is recovered from every cut of its bytes, with nothing left |
| `Messages.SerializesExactly` | common/messages.py:70-88 | a message is sent if and only if its encoding has at most 1048576 bytes, as that size in four bytes and the encoding |
| `Messages.ParsesExactly` | common/messages.py:130-145 | exactly when `parse_stream` waits, when it raises, and what it takes |
| `Messages.CutsDoNotMatter` | common/messages.py:130-145 | for arbitrary bytes, reading in pieces gives what reading whole gives, errors included |
| `Messages.DrainsPrefix` | common/messages.py:130-145 | a stream cut anywhere yields the messages before the cut and keeps a partial one |
| `Messages.ReadLoop` | server/main.py:162-170 | the readexactly loop reads the same messages as repeated `parse_stream`, for every stream |
| `Messages.ReadOne` | client/control_channel.py:148-164 | reading exactly one message is one `parse_stream`, errors included |
| `WebSocket.ReadsEncoded` | proxy/websocket.py:168-217 | a valid frame with any mask and any length form is read as its opcode and unmasked payload, consuming exactly its bytes |
| `WebSocket.ReadStable` | proxy/websocket.py:172-211 | a frame is returned exactly from its last byte on |
| `WebSocket.MaskUndoes` | proxy/websocket.py:213-215 | unmasking undoes masking for every key |
| `WebSocket.MaskBits` | proxy/websocket.py:213-215 | each byte is combined bit by bit with the key byte of its position modulo four |
| `WebSocket.RefusesOverLimit` | proxy/websocket.py:196-202 | a frame over the limit is refused on its header |
| `WebSocket.SendFrame` | proxy/websocket.py:220-241 | the bytes built are the shortest unmasked encoding with FIN set |
| `WebSocket.OutgoingIsMinimal` | proxy/websocket.py:227-235 | no valid encoding of the same content is shorter |
| `WebSocket.RelayTurn` | proxy/websocket.py:116-136 | one round of the relay loop for every opcode and every read result |
| `WebSocket.RelayOneWay` | proxy/websocket.py:109-140 | the loop is repeated rounds until the shared event, a close frame, an oversized frame or the end of the stream, and no round earlier |
| `WebSocket.RelayWritesWholeFrames` | proxy/websocket.py:105-166 | at every point of every run, with pings and close frames interleaved, what was written reads back as whole frames whose data frames are those read |
| `WebSocket.RelayForwardsPrefix` | proxy/websocket.py:105-166 | if the input is a stream of valid frames, the data frames written are those of a prefix of it |
| `WebSocket.CloseIsLast` | proxy/websocket.py:123-127 | a close frame is the last frame a direction ever reads |
| `WebSocket.HaltIsFinal` | proxy/websocket.py:116-140 | a direction that has ended reads nothing more |
| `WebSocket.PingIsWritten` | proxy/websocket.py:142-152 | the ping loop writes an empty ping behind what was written |
| `WebSocket.FrameKeptExactly` | proxy/websocket.py:123-136 | what is written for a frame keeps its first byte if and only if FIN was set, the reserved bits clear and it was no ping, and all its bytes if and only if it was also unmasked with the shortest length |
| `WebSocket.RunKeepsExactly` | proxy/websocket.py:109-136 | the same for every frame read in every run on a stream of valid frames |
| `WebSocket.OneFrameChanges` | proxy/websocket.py:128-136 | a text fragment that arrives leaves as a final frame, a ping as a pong |
| `Balancers.RoundRobinBalancer.Select` | proxy/load_balancer.py:43-60 | the pick and the next index, and the IndexError case |
| `Balancers.WindowIsFair` | proxy/load_balancer.py:51-60 | every window of W consecutive picks selects each eligible server exactly `weight` times |
| `Balancers.BackupOnlyWithoutPrimary` | proxy/load_balancer.py:44-49 | a backup is picked exactly when no primary is up, a down server never |
| `Balancers.EligibleExactly` | proxy/load_balancer.py:43-49 | who is eligible: the primaries that are up, or the backups that are up if there is none |
| `Balancers.UpExactly` | proxy/load_balancer.py:93-93 | the servers that are up, backups included, in their order |
| `Balancers.RaisesExactly` | proxy/load_balancer.py:58-59 | over an unchanged list any pick raises if and only if something is eligible and the index is not below the total weight |
| `Balancers.SwitchRaisesExactly` | proxy/load_balancer.py:58-59 | after j picks, switching to another list raises if and only if (index + j) mod the old total weight is not below the new one |
| `Balancers.ShrinkingListRaises` | proxy/load_balancer.py:58-59 | a server going down after two picks among three brings that about |
| `Balancers.IpHashSelect` | proxy/load_balancer.py:93-112 | with non-negative weights the subtracting walk is indexing the weighted list, and the final return is unreachable |
| `Balancers.LeastConnBalancer.Select` | proxy/load_balancer.py:69-79 | the first server of least load per weight |
| `Balancers.LeastConnBalancer.Increment` | proxy/load_balancer.py:81-83 | one more connection for that address |
| `Balancers.LeastConnBalancer.Decrement` | proxy/load_balancer.py:85-87 | one fewer, never below zero |
| `Balancers.LoadIsTimesPicked` | proxy/load_balancer.py:81-83 | a server's load is how often it was picked |
| `Balancers.DecrementUndoes` | proxy/load_balancer.py:81-87 | releasing a connection undoes taking it, for that address alone |
| `Balancers.DivisorExactly` | proxy/load_balancer.py:77-77 | loads are divided by the weight, at least one |
| `Balancers.LeastConnStaysBalanced` | proxy/load_balancer.py:69-83 | over every select-then-increment run (c_i - 1)/w_i <= c_j/w_j for every loaded i and every j, however ties fall |
| `Balancers.EqualWeightsWithinOne` | proxy/load_balancer.py:69-83 | servers of equal weight never differ by more than one |
| `Status.StatusCollector.TransitionState` | proxy/status.py:44-65 | one category left, with its floor, and one entered |
| `Status.Connection.SetState` | proxy/connection.py:232-239 | the collector moves only when the category changes |
| `Status.Connection.Begin` | proxy/connection.py:241-248 | accepted and active rise and the connection counts as reading |
| `Status.Connection.Close` | proxy/connection.py:599-604 | the connection leaves its category and the active count falls |
| `Status.CountersAreExact` | proxy/status.py:32-65 | in every interleaving reading, writing and waiting are the numbers of live connections in READ_REQUEST, in RESPOND and in the three states between, and they add up to the active count |
| `Status.StatesExactly` | proxy/connection.py:232-248 | live connections are in the states the events gave them, and the accepted counter counts those begun |
| `Status.LeavesExactly` | proxy/status.py:44-60 | leaving takes one off a counter, down to zero, entering adds one |
| `Status.FloorsNeverApply` | proxy/status.py:36-60 | no floor at zero ever takes effect |
| `Health.HealthMonitor.RecordFailure` | proxy/health_check.py:42-62 | the record after a failure |
| `Health.HealthMonitor.RecordSuccess` | proxy/health_check.py:64-71 | the record after a success |
| `Health.HealthMonitor.IsAvailable` | proxy/health_check.py:73-92 | the answer and the reset after the time-out |
| `Health.RefusedExactly` | proxy/health_check.py:42-92 | over every run under a monotone clock a server is refused if and only if its history, read off the calls alone, ends in `max_failures` chained failures with no success or retry among or after them, the last at most `fail_timeout` ago |
| `Health.TotalExactly` | proxy/health_check.py:42-55 | a server is known exactly once it has failed, and its total counts its failures |

## Where the code falls short of what one would expect

* A P2P tunnel can be CONNECTED with a cipher on one side only, because some acknowledgements carry no key; no packet then
  gets through intact in either direction.
* A chunked request whose last chunk is followed directly by the final empty line is never recognised.
* Chunk sizes may be negative. Most are skipped over; one that sends the scan back by exactly the length of its own line
  makes the parser loop, and with some the answer depends on how the input was cut.
* A cache write that fails after its metadata leaves a file that a later lookup serves with a truncated body.
* A request without a body drops whatever was read behind it.
* A header section longer than the limit is accepted in one piece and refused in two.
* Overwriting a live cache key leaks its old size into the counter for good; enough of that leaves a one-entry cache.
* A round-robin index is not checked against a list that shrank, and the error repeats on every later pick.
* A fragmented WebSocket message leaves the relay as a sequence of final frames, and a ping as a pong to the other side.
* Forgetting a registered member and registering it again makes the relay and the endpoint search disagree. Nothing in the
  server as shipped calls `forget`, so this takes another caller.
* Purging the last member of a network leaves the network's invite code behind.
* The hub-and-spoke restriction on endpoints depends on which shared network is found first.
* Leaving or deleting a network leaves the services exposed in it behind.

## Left out

- Sockets, the asyncio scheduler, TUN devices, worker processes and TLS: they appear as nondeterministic inputs and step orders.
- Cryptographic internals, bcrypt, JSON text, base64 and hashing: parameters, with inverse or injectivity laws where a proof needs them.
- Decoding and splitting of HTTP header text: a parameter of `Http`, over which every theorem is quantified.
- Tunnel bookkeeping by peer id, keep-alive and stale pruning (client/tunnel_manager.py:271-283, 357-405): plain folds.
- STUN binding requests and NAT classification (client/nat_traversal.py:217-291): a fixed header and a decision list.
- Service look-up and listing, and the server's handlers for services (server/network_manager.py:282-313), which do not fit the record type.
- `consume_frames` (server/relay.py:101-112), which keeps a queue object that a drop replaces; `pending_frames` is the consumer modelled.
- Write errors in `deliver_relayed` (server/relay.py:162-170): a frame handed over by a drain counts as delivered.
- Registration and authentication in `handle_client` (server/main.py:172-199): only its framing loop is modelled.
- The random balancer, upstream summaries, route matching, static files, compression, access rules, topology managers, configuration, command line and web panels.
- Chunked.ParseChunked: digits outside ASCII are not modelled.
- DiskCache.DiskCache.Store: distinct keys are assumed to have distinct hashed paths, and a cut JSON object not to decode.
- Balancers.LeastConnBalancer.Select: quotients are compared exactly, without floating-point rounding.
