# Verification model of trunker

trunker is a BitTorrent tracker written in Go. This project models its in-memory mode and the
protocols around it in Dafny, and proves what they promise. `dafny verify dfyconfig.toml` checks
all of it.

- **Peer store.** The peers of one torrent live in three maps of which one is written, one only
  read and one kept empty; the maps rotate when the written one is more than half full.
  `Generations.dfy` has the store as a value and its refinement to one ordinary map;
  `InfoHashRoot.dfy` and `LocalManager.dfy` have the objects that update it in place, each method
  proved to do what the value does; `StoreRuns.dfy` and `StoreSafety.dfy` have runs in which
  announces, deferred update tasks, deferred expiry deletes, rotation checks, stops, scrapes and
  sweeps interleave arbitrarily, and what every run keeps; `DeferredTasks.dfy` has exactly when
  deferring goes wrong.
- **Torrents coming and going.** `DirectoryRuns.dfy` has runs of a whole manager, in which a sweep
  or a delete can remove a torrent's root while tasks still hold it; every root lives a run of
  `StoreRuns.dfy`, and the manager's methods are steps of these runs.
- **Shards and totals.** `Torrents.dfy` has the torrents of one manager, `MuxLocal.dfy` the sharded
  manager and its refinement to one manager.
- **Persistence.** `Adaptor.dfy` (conversions), `BufferedReader.dfy` (bufio.Reader), `Frames.dfy`
  (the file format), `Persist.dfy` (the loading loops with the short-read repair),
  `Resharding.dfy` (saving with one number of shards and loading with another).
- **Wire formats.** `Bencode.dfy` (a canonical encoder and a strict parser), `FastBencode.dfy` (the
  hand-written encoders), `CompactPeers.dfy`, `UdpWire.dfy`.
- **Smaller stateful cores.** `UdpServer.dfy` (the UDP connection table), `UdpHandlers.dfy` (whole UDP
  requests over table, ban lists and torrents), `HexLines.dfy` and
  `BanList.dfy` (the growing Bloom filter over an append file), `CountedMap.dfy` (the counted
  sync.Map under interleaving).
- `Bytes.dfy`, `Peers.dfy`, `Writers.dfy`: byte strings and their order, peers and announce
  requests, a growing buffer.

The wall clock, the pool's scheduling, address parsing, hash functions, the record codec, the ids
of UDP connections and the configuration are parameters: the results hold for all of them.

## What turned out not to hold

Each is kept as the code has it, with the exact condition proved where there is one.

- The fast bencode encoders agree with the struct tags exactly when the tracker id is not empty
  (`FastBencode.FastIsCanonicalIff`, `FastBencode.FastErrorIsCanonicalIff`).
- A persistence file gives back all it holds exactly when every record encodes to at most 512
  bytes and decodes again (`Frames.CompleteIffAllFit`). A record that does not decode costs the
  rest of its file. A longer record makes the goroutine panic, which ends the process and with it
  the loads of all files; the files stay in place, so the next start ends the same way
  (`Frames.LoadsFittingPrefix`, `Resharding.LoadFiles`).
- A peer survives persistence unchanged, but for its second-long time and its socket, exactly when
  its port fits 32 bits (`Adaptor.RoundTrip`).
- A ban target whose hex line does not fit bufio.Scanner's 65536-byte buffer hides every key added
  after it from the next start, and makes growing fail. A key is in the filter exactly when it was
  added in this run, or in an earlier one with no overlong target before it
  (`BanList.BanItem.Test`, `BanList.BanItem.Add`, `HexLines.KeysSurviveIff`,
  `HexLines.OverlongLosesKeys`). Targets that are not 20 bytes long are forgotten at the next start
  or growth.
- The counted map's `Store` breaks its length when a key is deleted between its two halves; the
  drift equals the number of such overwrites and never heals (`CountedMap.StoreDrifts`,
  `CountedMap.LengthUnderInterleaving`).
- A deferred expiry delete takes a peer its scan would have kept exactly when, since the scan, an
  update still fresh at the scan was applied to it and nothing has concerned it after that
  (`DeferredTasks.LateDeleteTakesLivePeerIff`).
- An update task split between taking and storing leaves its peer in two generations exactly when
  some other update task put the peer back in between, it is still stored, and a rotation came after
  the last such task (`DeferredTasks.SplitUpdateIff`); this can happen for every limit.
- A rotation check split between its test and its rotation ejects a peer that no more than M/2
  others have overtaken exactly when, at the rotation, the active generation is not full any more
  and the peer is in the previous one (`DeferredTasks.SplitCheckIff`). Two checks that both saw the
  generation full empty the torrent (`DeferredTasks.TwoChecksEmpty`).
- The peer of an update task, if it is connectable or already stored, is not found in its torrent
  exactly when the torrent's root was removed between submission and task
  (`DirectoryRuns.PeerLandsIff`). A new peer that is not connectable is never stored.
- A UDP connection id that is already taken is honoured for its new owner exactly when the owner of
  the old connection has the same address (`UdpServer.HonouredIff`).
- Through UDP, an announce from an IPv6 address is refused exactly when it names an IPv4-mapped
  address (`UdpWire.RefusedAddressIff`).
- `parse.go` documents the event numbers of section "UDP tracker protocol" of BEP 15 (1 completed,
  2 started, 3 stopped); its code uses 1 started, 2 stopped, 3 completed, and 0 counts as started.
  The model follows the code (`UdpWire.EventBack`).

## Model

| member | source | states |
|---|---|---|
| Generations.LookupsAgree | biz/services/peer/local/local.go:42-63 | the first hit of Load and the latest-seen peer of LoadAndDelete are both the entry of the one map the generations stand for |
| Generations.LatestIsLast | biz/services/peer/local/local.go:51-63 | of several copies of a key, the one seen last is handed back, of equally late ones the first generation's |
| Generations.RemoveRefines | biz/services/peer/local/local.go:51-63 | taking a key out of all generations keeps the invariant and is removal from the one map |
| Generations.DeletesAgree | biz/services/peer/local/local.go:65-71 | Delete, which stops at the first hit, removes as much as LoadAndDelete, which visits all generations |
| Generations.UpdateRefines | biz/services/peer/local/local.go:149-169 | an update task keeps the invariant; on the one map it refreshes a known peer's progress and inserts an unknown one only if connectable |
| Generations.RotationRefines | biz/services/peer/local/local.go:207-213 | a rotation keeps the invariant, happens exactly when the active generation exceeds half the limit (for M >= 0: when twice its size exceeds M), and drops exactly the previous generation |
| Generations.SweepRefines | biz/services/peer/local/clean.go:20-39 | an unthrottled sweep keeps the invariant and leaves precisely the peers seen within the TTL; a throttled one changes nothing |
| Generations.SweepSize | biz/services/peer/local/clean.go:36-43 | the number of expired peers a sweep reports is the drop in Len |
| Generations.SweptExactly | biz/services/peer/local/clean.go:20-39 | a sweep that is due leaves in each generation exactly the peers seen no longer than the TTL ago, and sets the clean time; one within a TTL of the last leaves everything |
| Generations.LenAgrees | biz/services/peer/local/local.go:81-87 | Len is the size of the one map |
| Generations.RangeVisitsOnce | biz/services/peer/local/local.go:302-306 | Range visits every stored peer exactly once and nothing else |
| Generations.ReplyIsSoundAndComplete | biz/services/peer/local/local.go:173-199 | nobody is listed twice, everyone listed is stored, unexpired, of the caller's type, connected if WebTorrent, not stopped and not the caller, and no such peer is missing from a reply with room left |
| Generations.ReplyExactly | biz/services/peer/local/local.go:173-199 | the reply has as many of the peers that may be listed as there are, but no more than NumWant and none for a negative NumWant, nobody twice, and the caller never |
| Generations.ReplyInOrder | biz/services/peer/local/local.go:174-199 | the reply lists generation 0, 1, 2, and within one by ascending peer id |
| Generations.LapsedKeysAll | biz/services/peer/local/local.go:234-241 | a full range meets exactly the expired keys, each once |
| Generations.TallyAll | biz/services/peer/local/local.go:235-258 | the counters of a scrape over the generations are the four counts over the one map |
| Generations.CountsMeaning | biz/services/peer/local/local.go:237-257 | the four counts in the fields of a peer: time within the TTL, what is left, and the event |
| Generations.ScrapeConserves | biz/services/peer/local/local.go:233-271 | complete plus incomplete is the number of unexpired peers, and seeders <= downloaded <= complete |
| Generations.ScrapeWithoutStopped | biz/services/peer/local/local.go:242-249 | without stopped peers every downloaded peer is a seeder |
| PeerStore.Peer.Refresh | biz/services/peer/local/local.go:155-160 | the stored peer object takes the counters, event, left and time of the announced one, in place, and keeps everything else |
| PeerStore.InfoHashRoot.constructor | biz/services/peer/local/local.go:29-40 | a new root is empty, with generation 0 active and the clean time set |
| PeerStore.InfoHashRoot.Load | biz/services/peer/local/local.go:42-49 | finds a peer exactly when some generation has the key, the first one's |
| PeerStore.InfoHashRoot.LoadAndDelete | biz/services/peer/local/local.go:51-63 | removes the key from all generations and returns the copy seen last |
| PeerStore.InfoHashRoot.Delete | biz/services/peer/local/local.go:65-71 | removes the first hit only and reports whether the key was stored anywhere |
| PeerStore.InfoHashRoot.LoadOrStore | biz/services/peer/local/local.go:73-75 | stores into the active generation if the key is not there, changes nothing if it is, and returns the peer then stored |
| PeerStore.InfoHashRoot.Store | biz/services/peer/local/local.go:77-79 | stores into the active generation |
| PeerStore.InfoHashRoot.Len | biz/services/peer/local/local.go:81-87 | adds up the three generations |
| PeerStore.InfoHashRoot.RunUpdate | biz/services/peer/local/local.go:149-169 | the update task, with the known peer refreshed in place and moved to the active generation, is the specified update of the value |
| PeerStore.InfoHashRoot.RunDeletes | biz/services/peer/local/local.go:200-206 | the expiry task removes precisely the given keys |
| PeerStore.InfoHashRoot.Rotate | biz/services/peer/local/local.go:208-212 | the index advance and the replaced map, in place, are the specified rotation |
| PeerStore.InfoHashRoot.Scan | biz/services/peer/local/local.go:170-199 | the reply is the first NumWant eligible peers over the concatenated generations although stopping ends only one of them; the collected keys are expired ones, all of them if the reply has room left |
| PeerStore.InfoHashRoot.Count | biz/services/peer/local/local.go:233-258 | the counting loops return those four counts over the one map, each stored peer counted once, and collect exactly the expired keys |
| PeerStore.InfoHashRoot.CloseExpiredPeers | biz/services/peer/local/clean.go:24-35 | the first loop of a sweep collects exactly the expired keys and drops the sockets of the expired WebTorrent peers only |
| PeerStore.InfoHashRoot.CleanUp | biz/services/peer/local/clean.go:20-44 | throttle, collection and removal together are the specified sweep; the number returned is the drop in Len |
| LocalManager.Manager.HandleAnnouncePeer | biz/services/peer/local/local.go:99-216 | the whole synchronous announce, case by case: a refused address changes nothing; the first peer of an unknown torrent is stored at once if it is connectable and not stopping, else the torrent starts empty; a stopping peer goes; else only the older peers go, if more than M/2 are active; the tasks left to the pool; and the reply, whose peers have at the return exactly the records of the specified reply |
| LocalManager.Manager.RotateAround | biz/services/peer/local/local.go:207-213 | the rotation check rotates that torrent exactly when twice the size of its active generation exceeds M (for M >= 0), and changes no peer |
| LocalManager.Manager.RunUpdateTask | biz/services/peer/local/local.go:149-169 | the pool's run of an update task changes just its torrent, as the specified update |
| LocalManager.Manager.RunExpireTask | biz/services/peer/local/local.go:200-206 | the pool's run of an expiry task removes just its keys from just its torrent |
| LocalManager.Manager.CleanUp | biz/services/peer/local/clean.go:20-44 | sweeps one torrent in place and drops it exactly when it was due and nothing of it is left |
| LocalManager.Manager.Clean | biz/services/peer/local/clean.go:12-19 | in place, every torrent is swept, the emptied ones are dropped, and the count is the drop in stored peers |
| LocalManager.Manager.DirectStore | biz/services/peer/local/local.go:294-300 | stores the peer into its torrent, created if need be, and changes nothing else |
| LocalManager.Manager.Scrape | biz/services/peer/local/local.go:218-276 | zero counts for an unknown torrent; else complete counts the stored peers seen within the TTL with nothing left or the event completed, incomplete the others of them, downloaded those with nothing left, seeder those of these that have not stopped; and one expiry task with exactly the expired keys if there are any |
| LocalManager.Manager.GetStatistic | biz/services/peer/local/local.go:278-288 | the totals are the number of torrents and of stored (torrent, peer id) pairs |
| LocalManager.Manager.DeleteInfoHash | biz/services/peer/local/local.go:316-346 | removes just that torrent |
| StoreRuns.StepRefines | biz/services/peer/local/local.go:125-213 | every atomic step keeps the generation invariant and changes the one map as its log event says |
| StoreRuns.RunRefines | biz/services/peer/local/local.go:125-213 | in every reachable state the invariant holds and the store is the fold of its log of stored and dropped peers |
| StoreSafety.SizeBound | biz/services/peer/local/local.go:135-213 | with at most K pending update tasks a torrent created by an announce holds at most 2(M/2 + K) peers, plus the announces caught between submission and check, under any interleaving; its active generation and pending tasks together keep to M/2 + K |
| StoreSafety.RestoredSizeBound | biz/services/peer/local/local.go:135-213 | the same bound for a torrent restored with N peers, around the larger of M/2 and N |
| StoreSafety.EjectionRespectsRecency | biz/services/peer/local/local.go:207-213 | whoever a rotation ejects has more than M/2 other peers, still stored, that were refreshed after its own last update |
| StoreSafety.StoredPeerHistory | biz/services/peer/local/local.go:118-169 | a stored peer has the identity of the connectable announce that inserted it, the progress of the last update run for it, and never the event stopped |
| StoreSafety.SeedersAreDownloaded | biz/services/peer/local/local.go:242-249 | in every state built by announces a scrape has as many seeders as downloaded |
| StoreSafety.StopIsFinal | biz/services/peer/local/local.go:144-147 | after a stop with no pending update of that peer it stays absent until it announces again |
| DeferredTasks.LateDeleteTakesLivePeerIff | biz/services/peer/local/local.go:170-206 | over any run from the scan to the delete, the delete takes a peer not expired at the scan if and only if an update not expired then was applied to the key after the scan and nothing concerned the key afterwards |
| DeferredTasks.UntouchedWithoutUpdate | biz/services/peer/local/local.go:149-206 | as long as no update task of a key runs, its record stays the very same or is taken out, so a pending expiry delete is harmless |
| DeferredTasks.LateDeleteTakesLivePeer | biz/services/peer/local/local.go:200-206 | such a loss, from any state with an expired peer and room in the active generation |
| DeferredTasks.StoreSoundIff | biz/services/peer/local/local.go:77-79 | storing into the active generation keeps the invariant if and only if the previous generation does not hold the key |
| DeferredTasks.PriorIff | biz/services/peer/local/local.go:149-213 | a stored peer is in the previous generation if and only if a rotation came after the last update task of it, or it was there and none ran |
| DeferredTasks.SplitUpdateIff | biz/services/peer/local/local.go:150-165 | an update task split between taking and storing, by Store or by LoadOrStore, with any run in between, breaks the invariant if and only if another update put the peer back, it is still stored, and a rotation came after the last such update |
| DeferredTasks.SplitUpdateDuplicates | biz/services/peer/local/local.go:149-213 | for any limit: an update that fills the active generation and one announce between the halves leave the peer in both generations |
| DeferredTasks.SplitUpdateCanDuplicate | biz/services/peer/local/local.go:149-213 | for every limit and every connectable peer a run from a torrent's creation leads to a state where that happens |
| DeferredTasks.SplitCheckIff | biz/services/peer/local/local.go:207-212 | a rotation check split between test and rotation, after any run, ejects a peer with no more than M/2 newer ones if and only if the peer is in the previous generation and the active one is not full any more |
| DeferredTasks.FullStays | biz/services/peer/local/local.go:207-212 | it is safe as long as no rotation, delete, stop or sweep comes in between |
| DeferredTasks.TwoChecksEmpty | biz/services/peer/local/local.go:207-212 | two checks that both saw the same generation full leave no peer at all |
| DirectoryRuns.ActionKeeps | biz/services/peer/local/local.go:125-216 | every action on the torrents keeps each of them sound and each root, in the map or not, on a run of its own |
| DirectoryRuns.RootsLiveRuns | biz/services/peer/local/local.go:125-216 | in every reachable state every root is where some run leads from a first announce or, in a restarted manager, from start-up loading, so what holds of runs holds of every torrent |
| DirectoryRuns.RestoredManager | biz/services/peer/local/local.go:294-300 | a manager as start-up loading leaves it is such a state |
| DirectoryRuns.EjectionsRespectRecency | biz/services/peer/local/local.go:207-213 | at any time of any manager, restarted or not, whoever a rotation ejects has more than M/2 newer peers |
| DirectoryRuns.NoStoppedPeer | biz/services/peer/local/local.go:135-147 | starting empty, no torrent ever lists a stopped peer |
| DirectoryRuns.FoundUntilRemoved | biz/services/peer/local/clean.go:40-42 | a torrent's root stays its root until a sweep or delete removes it, and is found by nobody afterwards |
| DirectoryRuns.TaskLandsIff | biz/services/peer/local/local.go:149-169 | an update task run after any other actions has its effect on its torrent if and only if the root was not removed since; else no lookup sees a difference |
| DirectoryRuns.PeerLandsIff | biz/services/peer/local/local.go:149-169 | the task's peer is then found in its torrent, with the announced progress, if and only if the root was not removed |
| DirectoryRuns.AnnounceIsAction | biz/services/peer/local/local.go:99-216 | the synchronous part of an announce is one action: same effect on the torrents, and its tasks join the pending ones |
| DirectoryRuns.SweepIsAction | biz/services/peer/local/clean.go:20-44 | the sweep of one torrent is one action |
| DirectoryRuns.RemoveIsAction | biz/services/peer/local/local.go:316-346 | a delete or ban of a torrent is one action |
| Torrents.AnnouncedKeepsInv | biz/services/peer/local/local.go:125-213 | an announce keeps the generation invariant of every torrent |
| Torrents.AnnouncedExactly | biz/services/peer/local/local.go:118-213 | what an announce does at once, without its task: which torrents exist, that no other torrent changes, and what is stored under its own in each case |
| Torrents.UpdateOfAnnounce | biz/services/peer/local/local.go:100-169 | once its update task has run too: a known peer is who it was and reports the announced progress (negative counters as zero, an unknown left as 2^64 - 1), an unknown one is stored as announced exactly if connectable, and no other peer changes |
| Torrents.AnswerExactly | biz/services/peer/local/local.go:118-199 | the answer is empty for a refused address, an unknown torrent or a stop, and else the list above over the torrent as it was |
| Torrents.SumLenAll | biz/services/peer/local/local.go:278-288 | adding up Len over the torrents counts each stored (torrent, peer id) pair once |
| Torrents.VisitsAreSweep | biz/services/peer/local/clean.go:12-44 | visiting the torrents one after the other in range order is one sweep of them all |
| Torrents.CleanedExactly | biz/services/peer/local/clean.go:12-44 | a sweep over the torrents keeps one exactly if it is not due or has a peer seen within the TTL, and of a due one exactly those peers |
| Torrents.Clean | biz/services/peer/local/clean.go:12-44 | the sweep over all torrents keeps the invariant, drops a torrent exactly when it was due and is left empty, and reports the drop in stored pairs |
| MuxLocal.PickWorkerIsLastEight | biz/services/peer/mux_local/mux_manager.go:49-55 | the index is the big-endian value of the last eight bytes (or of a shorter hash) modulo the number of shards |
| MuxLocal.RoutedLookup | biz/services/peer/mux_local/mux_manager.go:96-150 | asking the picked shard is asking the union of all shards |
| MuxLocal.RoutedPut | biz/services/peer/mux_local/mux_manager.go:96-150 | changing a torrent at its shard keeps the routing and is the same change of the union |
| MuxLocal.AnnounceIsLocal | biz/services/peer/mux_local/mux_manager.go:96-97 | an announce reads and changes only the torrent it names |
| MuxLocal.CleanedAdds | biz/services/peer/mux_local/mux_manager.go:104-115 | sweeping disjoint sets of torrents is sweeping them together |
| MuxLocal.TotalsAdd | biz/services/peer/mux_local/mux_manager.go:117-140 | torrents and peers of disjoint shards add up |
| MuxLocal.MuxLocalManager.HandleAnnouncePeer | biz/services/peer/mux_local/mux_manager.go:78-98 | the three bans in their order, then the announce, the reply, the update task and the keys of the expiry task of one manager holding the union, of which Torrents.AnnouncedExactly's cases hold |
| MuxLocal.MuxLocalManager.Scrape | biz/services/peer/mux_local/mux_manager.go:100-103 | the four counts, in the fields of a peer, over the torrent in the union, and exactly its expired keys for the expiry task |
| MuxLocal.MuxLocalManager.GetPeers | biz/services/peer/mux_local/mux_manager.go:142-145 | every stored peer of the torrent in the union, once |
| MuxLocal.MuxLocalManager.DeleteInfoHash | biz/services/peer/mux_local/mux_manager.go:147-150 | removes the torrent from the union |
| MuxLocal.MuxLocalManager.GetStatistic | biz/services/peer/mux_local/mux_manager.go:117-140 | the shard totals are the totals of the union, with each shard's own beside them |
| MuxLocal.MuxLocalManager.Clean | biz/services/peer/mux_local/mux_manager.go:104-115 | sweeping shard by shard is one sweep of the union, and the total is its drop in stored peers |
| Adaptor.RoundTrip | biz/services/peer/rpc/adaptor.go:44-104 | converting there and back cuts the time to the second and drops the socket, and changes nothing else if and only if the port fits 32 bits; Left = MaxUint64 survives |
| BufferedReader.Reader.Read | biz/services/peer/mux_local/persist.go:63 | what bufio delivers: a prefix of the rest, short only if its buffer is then empty, short from an empty buffer only at the end of the file |
| BufferedReader.Reader.ReadUint32 | biz/services/peer/mux_local/persist.go:78 | four bytes, the first one the lowest, or the end of the file |
| Persist.ReadPayload | biz/services/peer/mux_local/persist.go:89-106 | with the short-read repair as written, a payload of at most the buffer capacity is delivered exactly, or the read fails because the file ends |
| Persist.NextRecord | biz/services/peer/mux_local/persist.go:76-117 | one round of the loop takes one record off the file or ends it for the specified reason |
| Persist.LoadFile | biz/services/peer/mux_local/persist.go:68-125 | the loop hands to DirectStore, in order, exactly the unexpired records of the file's meaning and counts the rest |
| Frames.ParseFrame | biz/services/peer/mux_local/persist.go:76-117 | a written frame in front of any bytes reads as its record followed by those bytes |
| Frames.TruncationSafe | biz/services/peer/mux_local/persist.go:192-199 | a file cut off anywhere loads exactly the records wholly before the cut, never a corrupted one |
| Frames.LoadsFittingPrefix | biz/services/peer/mux_local/persist.go:76-117 | a written file loads the records before the first that does not fit; the load then fails to decode, or panics if that record is longer than the buffers |
| Frames.CompleteIffAllFit | biz/services/peer/mux_local/persist.go:76-117 | a file gives back all its records if and only if every one encodes to at most 512 bytes and decodes to itself |
| Resharding.StoreTorrent | biz/services/peer/mux_local/persist.go:171-202 | the inner writing loop writes one frame for each peer of a torrent |
| Resharding.StoreFile | biz/services/peer/mux_local/persist.go:170-204 | the writing loops produce the frames of all records of a shard and count them |
| Resharding.AllRecordsMembership | biz/services/peer/mux_local/persist.go:170-204 | a shard's file has a record for each stored peer and no other |
| Resharding.RoutedStore | biz/services/peer/mux_local/persist.go:123 | a DirectStore at the picked shard keeps the routing and is a DirectStore on the union |
| Resharding.DirectStoreKeeps | biz/services/peer/local/local.go:294-300 | before any rotation a DirectStore keeps the invariant and sets exactly one entry |
| Resharding.DirectStoreAll | biz/services/peer/mux_local/persist.go:118-124 | after any sequence of DirectStore calls over any number of shards, each entry of the union is the last record given for it |
| Resharding.SaveThenLoad | biz/services/peer/mux_local/persist.go:31-204 | saving with n shards and loading with any number, in any order of files and interleaving, gives each (torrent, peer id) its saved peer with time cut to the second and no socket, unless that time plus the TTL is before its file's loading time |
| Resharding.LoadInOrder | biz/services/peer/mux_local/persist.go:31-137 | whatever the interleaving of the loads, the started managers hold under every torrent and peer id exactly what SaveThenLoad says |
| Resharding.LoadFiles | biz/services/peer/mux_local/persist.go:41-129 | through a buffered reader over each file, the loads make exactly the DirectStore calls of the files, unless one panics |
| Resharding.SaveFiles | biz/services/peer/mux_local/persist.go:153-215 | one file per shard, each with all of its records |
| Resharding.Restart | biz/services/peer/mux_local/persist.go:31-222 | saving every shard and starting with any number of shards conserves every peer whose time in whole seconds plus the TTL is not past at its file's loading: with that time, without its socket, and with its port if that fits 32 bits; every other is gone |
| FastBencode.WriteString | biz/model/fast_bencode.go:27-37 | appends the canonical encoding of a byte string |
| FastBencode.WriteInt | biz/model/fast_bencode.go:39-43 | appends the canonical encoding of an integer |
| FastBencode.AnnounceBencode | biz/model/fast_bencode.go:46-67 | the hard-coded order and lengths append exactly one canonical dictionary of the fields, peers6 and tracker id omitted when empty |
| FastBencode.ErrorBencode | biz/model/fast_bencode.go:14-25 | the same for an error response |
| FastBencode.KeyOrder | biz/model/fast_bencode.go:14-67 | the keys are written in ascending byte order |
| FastBencode.AnnounceBack | biz/model/fast_bencode.go:46-67 | a generic strict parser reads the text back to the very response, for all strings and integers, with nothing left |
| FastBencode.FastIsCanonicalIff | biz/model/fast_bencode.go:61-64 | the fast text is the canonical text of the tagged fields if and only if the tracker id is not empty |
| FastBencode.ErrorBack | biz/model/fast_bencode.go:14-25 | an error response is read back exactly |
| FastBencode.FastErrorIsCanonicalIff | biz/model/fast_bencode.go:19-22 | for errors too, the fast text is canonical if and only if the tracker id is not empty |
| Bencode.ParseIff | biz/model/fast_bencode.go:27-67 | the parser used to read the texts back is exact: it returns a value and a rest if and only if the value has ordered keys and its encoding followed by that rest is the input |
| Bencode.ValueBack | biz/model/fast_bencode.go:27-43 | parsing undoes encoding for every nested value with ordered keys, whatever follows |
| Peers.ParseOfEventString | biz/services/peer/common/peer.go:88-121 | parsing undoes printing on the four events and maps every other code to unknown |
| Peers.AddressOrder | biz/services/peer/common/peer.go:66-82 | the first address present of ip, ipv4, ipv6 and the client's, the announced ones only if configured |
| Peers.IPv4Ranges | biz/services/peer/common/peer.go:124-136 | an IPv4 address is private in exactly 10/8, 172.16/12 and 192.168/16, and loopback in 127/8, as ranges of one number |
| Peers.IPv6Ranges | biz/services/peer/common/peer.go:124-136 | a 16-byte address is judged as the IPv4 address it maps, if it does; else fc00::/7 is private and ::1 loopback |
| Peers.ConnectableIff | biz/services/peer/common/peer.go:124-131 | a BitTorrent peer is connectable exactly with an address neither private nor loopback and a port other than 0 and 1, a WebTorrent peer exactly with an offer, and no other |
| CompactPeers.PeersToCompact | biz/services/peer/common/peer.go:48-64 | strides of 6 and 18 bytes decode to the IPv4 and the IPv6 peers, in order, ports modulo 65536 |
| CompactPeers.DecodeAt | biz/services/peer/common/peer.go:52-62 | endpoint i is stride i: the address, then the port, high byte first, with nothing left over |
| CompactPeers.EndpointsExactly | biz/services/peer/common/peer.go:52-62 | the endpoints of a list are those of the peers with an address of 4 bytes or mapped, of other 16, or of either, one each in order, with the peer's own address and the low 16 bits of its port |
| CompactPeers.ListsPartition | biz/services/peer/common/peer.go:53-61 | for every list of peers, the two compact lists together have exactly the peers with a 4- or 16-byte address, and the others are in neither |
| UdpWire.ParseUndoesPut | biz/services/udp_server/parse.go:39-75 | every request a client can lay out is parsed back field by field, for both address widths |
| UdpWire.EventBack | biz/services/udp_server/parse.go:46-50 | what the store makes of an event code: the repository's numbering, low eight bits, zero as started |
| UdpWire.RequestOf | biz/services/udp_server/announce.go:21-51 | fails exactly below 82 bytes; picks layout and address by the remote's family, falls back to the remote address, and stamps client address, type and source |
| UdpWire.RefusedAddressIff | biz/services/udp_server/announce.go:24-48 | the store refuses the address exactly for an IPv4-mapped address announced from IPv6 |
| UdpWire.WriteHeader | biz/services/udp_server/parse.go:77-80 | appends action and transaction id |
| UdpWire.AnnounceReply | biz/services/udp_server/announce.go:66-82 | header, interval, leechers and seeders at their offsets, then a body that decodes to the peers with an address in the remote's family |
| UdpWire.HashesOf | biz/services/udp_server/announce.go:92-96 | the whole 20-byte chunks, in order |
| UdpWire.HandleScrape | biz/services/udp_server/announce.go:91-107 | 8 + 12 floor(n/20) bytes, one triple per hash in order; fails if any lookup fails |
| UdpServer.InTableWasIssued | biz/services/udp_server/connect.go:29-60 | a connection in the table was issued to its address by the connect that recorded it, and no tick has timed it out, even if ids repeat |
| UdpServer.RecognisedIff | biz/services/udp_server/server.go:100-104 | for every run, a request is recognised if and only if some connect issued its id to its address while the id was free, and no tick has timed that out |
| UdpServer.HonouredIff | biz/services/udp_server/connect.go:36 | the id in a connect reply is honoured for its address, until the id is given out again, if and only if it was free or held by the same address, and no tick has timed the holder out |
| UdpServer.UnusedIdIsFree | biz/services/udp_server/connect.go:36 | an id no earlier connect was given is free |
| UdpServer.RecognisedAtMostFourMinutes | biz/services/udp_server/server.go:37-40 | with ticks at most two minutes apart, whoever is recognised connected at most four minutes ago |
| UdpServer.RecognisedForTwoMinutes | biz/services/udp_server/connect.go:48-60 | a connection recorded under a free id is not removed or replaced before it is two minutes old, whatever ids are given out |
| UdpServer.UDPServer.HandleConnection | biz/services/udp_server/connect.go:29-46 | records the connection unless the id is taken, replies with action, transaction id and id; that id is then recognised for the address if and only if it was free or held by the same address |
| UdpServer.UDPServer.CleanConnection | biz/services/udp_server/connect.go:51-62 | removes exactly the connections older than two minutes and counts them |
| UdpServer.ResponseError | biz/services/udp_server/connect.go:64-70 | an error packet with the transaction id and the reason |
| UdpServer.UDPServer.HandleRequest | biz/services/udp_server/server.go:83-126 | a handler is reached exactly for its action (1 announce, 2 scrape) with an id recognised for this address; the table changes only on a connect (protocol id 0x41727101980, action 0); every other request is answered with the error packet of its reason |
| UdpHandlers.HandleAnnounce | biz/services/udp_server/announce.go:21-89 | from packet to reply over ban lists and torrents: each failure with its reason and the torrents unchanged, else the specified announce, the counts after it in the fields of a peer, and exactly the peers of the specified answer the client can use; a request is refused as banned exactly if its ban list's filter finds its torrent or its peer, or its address is banned, so never with empty lists |
| UdpHandlers.ScrapeAll | biz/services/udp_server/announce.go:91-114 | the scrape reply says of each whole hash what one manager with all torrents would, in the fields of a peer |
| UdpHandlers.Serve | biz/services/udp_server/server.go:83-126 | only the announce of a recognised client changes the torrents, and only a connect the table; a connect is recorded and answered with its id, a packet below 16 bytes or a connect without an id not at all, and each other request with its handler's packet or the error packet of its reason, a failing handler's included; an announce is refused as banned exactly as the ban lists say |
| HexLines.HexRoundTrip | biz/services/peer/mux_local/ban/item.go:93 | decoding undoes encoding |
| HexLines.HexAt | biz/services/peer/mux_local/ban/item.go:93 | the text of a byte is its high half first; with HexDigits, in lower case |
| HexLines.ScanOfFile | biz/services/peer/mux_local/ban/item.go:101-126 | reading a written file gives exactly the 20-byte targets before the first overlong one, and fails exactly if there is one |
| HexLines.KeysSurviveIff | biz/services/peer/mux_local/ban/item.go:32-45 | reading the file back loses no key if and only if each stands before the first overlong target |
| HexLines.LongestLine | biz/services/peer/mux_local/ban/item.go:101-126 | a target of more than 32767 bytes hides the key after it and makes the scan fail; no shorter one does |
| HexLines.OverlongLosesKeys | biz/services/peer/mux_local/ban/item.go:32-45 | a target of 32768 bytes hides the key after it |
| HexLines.ForeignLine | biz/services/peer/mux_local/ban/item.go:108-120 | a line nobody wrote: what is not hex ends the scan without a failure, other lengths are skipped |
| BanList.BloomFilter.Add | biz/services/peer/mux_local/ban/item.go:90 | sets exactly the bits of the new member |
| BanList.BloomFilter.Test | biz/services/peer/mux_local/ban/item.go:58 | true exactly if all bits are covered by members, so for every member |
| BanList.BanItem.constructor | biz/services/peer/mux_local/ban/item.go:26-53 | opening any file loads exactly the keys a scan of it yields, into a filter made for 32 targets, with capacity 32 and count 0 |
| BanList.BanItem.HitsOf | biz/services/peer/mux_local/ban/item.go:55-70 | an empty filter finds nobody, and one with members finds each of them |
| BanList.BanItem.Test | biz/services/peer/mux_local/ban/item.go:55-59 | true exactly when each place the hash functions send the target to is one they send a member to; so no false negatives: every key added in this run tests true, through rebuilds and whatever else was added, and so does every 20-byte key of earlier runs with no overlong target before it; among keys these are exactly the filter's members; an empty filter answers false |
| BanList.BanItem.Clear | biz/services/peer/mux_local/ban/item.go:61-70 | empties filter and file and restarts the history |
| BanList.BanItem.Add | biz/services/peer/mux_local/ban/item.go:72-99 | fails exactly when it must grow and the file cannot be read; else appends one line and the filter holds the old members (after growth: the file's keys, in a filter made for twice the capacity) and the target; count < cap = 32 * 2^j, and from an empty file fewer than two re-insertions per add |
| BanList.GrowingAdd | biz/services/peer/mux_local/ban/item.go:75-92 | growth keeps count < cap = 32 * 2^j and, from an empty file, fewer than two re-insertions per successful add over all rebuilds |
| BanList.ReadKeys | biz/services/peer/mux_local/ban/item.go:101-126 | the scan loop returns what the file's meaning says |
| CountedMap.Map.Delete | utils/collections/mapx/sync.go:18-24 | alone: removes the key, reports whether it was there, keeps length = size |
| CountedMap.Map.LoadAndDelete | utils/collections/mapx/sync.go:34-42 | alone: the same, returning the value |
| CountedMap.Map.LoadOrStore | utils/collections/mapx/sync.go:44-50 | alone: stores only if absent, returns what is then stored |
| CountedMap.Map.Store | utils/collections/mapx/sync.go:56-63 | alone: stores, keeps length = size |
| CountedMap.Map.LoadOrStoreLazy | utils/collections/mapx/sync.go:65-76 | alone: as LoadOrStore |
| CountedMap.Map.Len | utils/collections/mapx/sync.go:78-80 | alone: the number of keys |
| CountedMap.LengthUnderInterleaving | utils/collections/mapx/sync.go:18-80 | under any interleaving of the atomic operations the size is the length plus the counting in flight plus the late overwrites, so at rest the length is exact if and only if there were none |
| CountedMap.ExactWithoutStore | utils/collections/mapx/sync.go:18-50 | without Store the size is the length plus the counting in flight, exact at rest |
| CountedMap.StoreDrifts | utils/collections/mapx/sync.go:56-63 | a schedule of Store and Delete after which the map has one key and the length is 0 |

## Left out

- MuxLocal.MuxLocalManager.constructor: takes at least one shard; with none every routed operation divides by zero.
- LocalManager.Manager.RunUpdateTask: and LocalManager.Manager.RunExpireTask run tasks whose root is still in the map; tasks of a removed root are PeerStore.InfoHashRoot.RunUpdate and RunDeletes on that root alone, and DirectoryRuns.TaskLandsIff says what becomes of them.
- LocalManager.Manager.DirectStore: asks that the previous generation does not hold the key; before any rotation it holds nothing.
- MuxLocal.MuxLocalManager.HandleAnnouncePeer: the shards are values, so it does not show that shards share no objects; the bans are given as answers, which UdpHandlers.HandleAnnounce takes from the ban lists.
- StoreRuns.RunRefines: each step is atomic; interleavings inside Range, or between the swap of the write index and the replacement of the map, are not modelled. An update task split between taking and storing and a rotation check split between test and rotation are, in DeferredTasks.
- PeerStore.InfoHashRoot.CleanUp: the callback that closing a socket may run is a separate stop step of StoreRuns; the socket itself is only a name.
- BanList.BanItem.Add: errors of the file system other than an unreadable line, and the locks around it.
- Resharding.SaveThenLoad: the record codec (frugal and zstd) is any pair of functions that is inverse on the records saved; the difference between a nil and an empty address inside the codec, file locks, directory creation and file removal are not modelled. The buffer pool is taken to give 512 bytes for a request of 400.
- UdpWire.RequestOf: printing an address and parsing it again is taken as its 16-byte form; zones are not modelled.
- FastBencode.WriteString: stands for writeBytes as well, which writes the same bytes.
- UdpServer.UDPServer.CleanConnection: its deletes are one atomic step.
- HTTP, WebSocket, RPC and message-queue handlers, event producer, Redis cache (taken as disabled), metrics, configuration, routing and logging.
- Database mode, whose meaning is in SQL.
- biz/services/peer/websocket/local.go, a simpler single-map store.
- XDP and kernel maps; the set of banned addresses.
- ParsePeerID and the text conversions around requests.
- The internals of the skip map, which is a finite map ranged over in key order.
