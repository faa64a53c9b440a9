# Per-node state machine of a peer-to-peer music store

A node of this store keeps five things:

- its own name and socket address;
- a membership table from peer name to address;
- a local database from song name to song bytes;
- a table of open requests from request id to the file instruction that opened it;
- a redundancy ledger from peer address to the songs it has pushed there as redundant copies.

Nodes talk by sending notifications, one per connection. Each inbound notification is one transition of the node's state. The transition also produces outbound notifications. This project models those transitions as a Dafny class `Peer` whose map fields change in place. A send becomes an `Outbound` value in the list a handler returns. A loop over the membership table, which Rust runs in `HashMap` order, becomes a loop that picks any remaining name. Its order is recorded in a ghost sequence.

Modules:

- `Types` (types.dfy): addresses, instructions and the notification contents.
- `PeerState` (peer.dfy): the `Peer` class and its methods from `src/network/peer.rs`. It also holds the port-sorted address list and the cyclic heartbeat successors.
- `Network` (network.dfy): from `src/network/mod.rs`, the choice of a redundant target and the heartbeat thresholds.
- `Requests` (request.dfy): the handlers of `src/network/request.rs`, with the ledger invariants and the merge laws.
- `Dispatch` (dispatch.dfy): `handle_notification`. It routes each content kind to its handler and states the whole transition as one relation, `Handled`.
- `Scenarios` (scenarios.dfy): short runs between two or three nodes. They cover a join, a rename on a name collision, replication, a drop, and a fetch round trip.

Properties proved:

- **Redundancy ledger.** Two properties are tracked: one redundant copy per song (`SingleCopy`), and every recorded song held in the local store (`LedgerWithinStore`). `Dispatch.HandledKeepsLedgerInvariants` says which notifications keep them, starting from a state where both hold:
  - A user push (`PushToDb`) and redistribution after a drop keep both. The push keeps one copy per song only because every recorded song is still in the store: `push_to_db` tests the store, not the ledger. After a REMOVE find deletes a recorded song, a user push of that song records it a second time (`Dispatch.RemoveThenPushCanBreakSingleCopy`).
  - A redundant push keeps only the second. `redundant_push_to_db` records the song under its sender whatever the ledger already holds, so a song can end up recorded twice (`Requests.RedundantPushCanBreakSingleCopy`).
  - A REMOVE find and a file deletion keep only the first. They delete from the store and leave the ledger alone (`Requests.DeletingRecordedSongBreaksWithinStore`).
- **Own entry.** A newly created network maps the own name to the own address. `Dispatch.HandledOwnEntry` shows that a rename restores this from any state. From a state where it holds, a notification keeps it exactly when it is not one of these three: a deletion of the own name, a drop of the own address, or a table whose merge maps the own name to another address.
- **Membership merge.** Incoming entries overwrite or insert, and existing names absent from the incoming table stay. Merging is idempotent. Merges of disjoint tables commute.
- **Dropping an address.** It removes exactly the names at that address, including duplicates. No redistributed copy is sent back to it.
- **Sorted address list.** It is a port-sorted permutation of the table's values.
- **Heartbeat successors.** There are at most three, taken cyclically from the position after the own address.
- **Broadcasts.** A broadcast reaches each other member exactly once.
- **Open requests.** An existence answer acts at most once per request id.

Where `src/network/mod.rs` and `src/network/request.rs` handle the same content differently, the model follows `request.rs`. `mod.rs` is an older dispatcher. It calls `find_peer_by_ip` and `check_request_still_active`, which `peer.rs` does not define. It also passes a song name to `add_new_request`, whose second parameter in `peer.rs` is a `FileInstructions`. The dispatcher here uses `mod.rs` only for routing, the target choice and the heartbeat thresholds.

`redistribute_files` does not always clear the dropped peer's ledger entry:

- When the node is left alone, it does nothing, so the entry stays.
- At the first recorded song the store no longer holds, it returns early. The songs after it are not re-pushed, and the entry stays.

`Requests.Redistributed` states exactly this, and `Scenarios.DropLeavingNodeAlone` shows the first case. Redistributed copies are never recorded in the ledger: `redistribute_files` sends them through a clone of the node (src/network/request.rs:315, 338), and `Redistributed` leaves every other entry of the ledger as it was.

## Model

| member | source | states |
|---|---|---|
| PeerState.Peer.Create | src/network/peer.rs:18-34 | The new node keeps the given name, address, membership and open requests, and starts with an empty store and an empty redundancy ledger. |
| PeerState.CreatePeer | src/network/peer.rs:140-160 | A newly created network has membership exactly {own name ↦ own address}, no song, no open request and no ledger entry. |
| PeerState.Peer.ProcessStoreRequest | src/network/peer.rs:48-50 | The key maps to the given value, replacing any old one, and every other key is unchanged. |
| PeerState.Peer.FindFile | src/network/peer.rs:52-54 | A result is present exactly when the key is stored, and it is the stored content. |
| PeerState.Peer.DoesFileExist | src/network/peer.rs:56-61 | True exactly when the store holds the song, which is exactly when `FindFile` finds it. |
| PeerState.Peer.AddNewRequest | src/network/peer.rs:63-65 | The open requests map the id to the instruction; other ids are unchanged. |
| PeerState.Peer.DeleteHandledRequest | src/network/peer.rs:67-69 | The id is no longer open; other ids are unchanged. |
| PeerState.Peer.DeleteFileFromDatabase | src/network/peer.rs:71-73 | Only that key is removed from the store. |
| PeerState.WithoutAddress | src/network/peer.rs:75-81 | A name stays exactly when its address differs from the dropped one, and it keeps its address. |
| PeerState.WithoutAddressValues | src/network/peer.rs:75-81 | After the drop, the table's addresses are the old ones minus the dropped address. |
| PeerState.Peer.DropPeerByIp | src/network/peer.rs:75-81 | The loop over the matching names leaves the table equal to `WithoutAddress` of the old table. Every name at the address goes, duplicates included, and every other entry stays. |
| PeerState.CollectValues | src/network/peer.rs:85-90 | The collected list holds each address as many times as there are names mapped to it. |
| PeerState.ListedAreValues | src/network/peer.rs:85-90 | Every address in such a list is an address of the table. |
| PeerState.InsertByPortCorrect | src/network/peer.rs:91 | Inserting into a port-sorted list keeps it sorted, and adds exactly that address to its contents. |
| PeerState.SortByPortCorrect | src/network/peer.rs:91 | Sorting by port gives a list sorted by non-decreasing port that is a permutation of the input. |
| PeerState.Peer.GetAllSocketaddrFromPeers | src/network/peer.rs:84-92 | The result is sorted by non-decreasing port and is a permutation of the table's values. |
| PeerState.IndexOf | src/network/peer.rs:101-107 | Absent exactly when the address is not in the list; otherwise the first index holding it. |
| PeerState.CyclicAtIsModulo | src/network/peer.rs:110-120 | Reading the list at i, or at i - length past its end, is reading it at i modulo the length. |
| PeerState.Successors | src/network/peer.rs:109-129 | At most 3 successors; the k-th is the element at cyclic position own+1+k. The loop stops once the index reaches twice the list length. |
| PeerState.Peer.GetHeartbeatSuccessors | src/network/peer.rs:95-130 | There are at most three successors, and each is a table address. They are read cyclically from a port-sorted permutation of the table's values, starting after the own index: the first position of the own address, or 0 when it is missing. |
| Network.OtherRandomTarget | src/network/mod.rs:465-480 | No target exactly when the table has one member; otherwise a table address different from the own address. |
| Network.SingletonHasNoOther | src/network/mod.rs:469-471 | A one-member table that holds the own address has no other address. For such a table, such as a newly created network's, `OtherRandomTarget` can be called only through its size-1 case, so the early return is needed. |
| Network.HeartbeatDecision | src/network/mod.rs:222-229 | Size 1 skips. Sizes 0, 2 and 3 take the probing branch; at size 0 there is nothing to probe. Size 4 or more is the unfinished branch. Each holds if and only if the size is in that range. |
| Network.HeartbeatProbes | src/network/mod.rs:234-244 | In the probing range every table address is probed, each once per name; otherwise nothing is probed. |
| Requests.BroadcastExcept | src/network/request.rs:154-158 | The message goes once to the address of each member whose name is not the own name, in some order of the names. That is one message per other member, each carrying the content to a table address. |
| Requests.DistinctNamesCount | src/network/request.rs:154-158 | A list of distinct names is as long as the set of its names. |
| Requests.BroadcastCount | src/network/request.rs:170-174 | A broadcast sends exactly one message per member other than the node itself. |
| Requests.AppendKeyEffect | src/network/request.rs:46-51 | Recording a copy appends the key to the target's list, creating it if needed, and leaves every other entry as it was. |
| Requests.AppendKeyAt | src/network/request.rs:46-51 | Each position of the appended ledger holds either the new key or what it held before. |
| Requests.PushKeepsSingleCopy | src/network/request.rs:31-51 | Recording a song the store did not hold keeps one redundant copy per song and every recorded song in the store. |
| Requests.RecordRedundantCopy | src/network/request.rs:46-51 | The ledger becomes the old one with the key appended under the target. |
| Requests.PushToDb | src/network/request.rs:22-56 | A stored key changes nothing and sends nothing. A new key is stored. A lone node sends no copy and keeps its ledger. Otherwise exactly one redundant push goes to another member's address, and the ledger records it there. The ledger invariants are preserved. |
| Requests.RedundantPushToDb | src/network/request.rs:58-84 | The song is stored. It is recorded under the sender's address when the sender text parses; otherwise the ledger is unchanged. |
| Requests.ChangePeerName | src/network/request.rs:86-93 | The old own name leaves the table, the name becomes the new one, which maps to the own address. The sender is asked for its table under the new name. |
| Requests.MergedEntries | src/network/request.rs:104-106 | A merged table has the union of the names. Incoming entries win, and names absent from the incoming table keep their address. |
| Requests.MergeIdempotent | src/network/request.rs:119-121 | Merging the same table twice equals merging it once. |
| Requests.MergeCommutesOnDisjointNames | src/network/request.rs:119-121 | Two incoming tables with disjoint names can be merged in either order. |
| Requests.InsertEntries | src/network/request.rs:104-106 | The insert loop leaves the table equal to the merge of the old table with the incoming one. |
| Requests.SendNetworkTable | src/network/request.rs:95-108 | A non-UTF-8 payload changes nothing and sends nothing. Otherwise the table is merged in, and the merged table is sent to every other member. |
| Requests.SendNetworkUpdateTable | src/network/request.rs:110-124 | A non-UTF-8 payload changes nothing; otherwise the table is merged in. |
| Requests.RenameSuggestion | src/network/request.rs:129 | The suggested name extends the requested one by two characters, so it differs from it. |
| Requests.RequestForTable | src/network/request.rs:126-134 | Exactly one reply goes to the sender. It is a rename to name+"+1" exactly when the name is taken; otherwise it is the table. |
| Requests.FindFile | src/network/request.rs:136-176 | REMOVE with a local copy deletes it, opens the request and sends a delete notice to every other member. Another instruction with a local copy changes nothing and sends nothing. Without a local copy, the request opens and an existence query goes to every other member. |
| Requests.GetFile | src/network/request.rs:178-188 | A stored song is sent back to the sender with the instruction; a missing song gets no reply. |
| Requests.GetFileResponse | src/network/request.rs:190-214 | ORDER stores the song. PLAY and GET change nothing; they return the player's result, or "Could not save music to disk". Any other instruction returns "Unknown command". |
| Requests.ExistFile | src/network/request.rs:216-221 | Exactly when the song is held, one existence answer goes to the sender. |
| Requests.ExistFileResponse | src/network/request.rs:254-266 | An open id is closed, and the song is requested from the responder with the stored instruction. An unknown id changes nothing and sends nothing. Either way the id is not open afterwards. |
| Requests.DeleteFromNetwork | src/network/request.rs:247-252 | Only that name leaves the table (a no-op when absent). |
| Requests.DeleteFileRequest | src/network/request.rs:307-312 | Only that song leaves the store (a no-op when absent). |
| Requests.OrderSongRequest | src/network/request.rs:291-305 | A held song is ordered from one other member, or from nobody when the node is alone. A song not held is searched for with an ORDER find request. |
| Requests.HeldPrefix | src/network/request.rs:327-337 | The number of leading recorded songs still in the store: all of them before it are held, and the one at it is not. |
| Requests.RedistributedClearsEntry | src/network/request.rs:314-343 | When the node is not alone and still holds every song recorded for the address, the entry goes, every song is re-pushed, and other entries stay. |
| Requests.AppendKeepsWithinStore | src/network/request.rs:67-83 | Recording a song the store now holds keeps every recorded song in the store. |
| Requests.RedistributedKeepsLedger | src/network/request.rs:314-343 | Redistribution keeps one redundant copy per song and keeps every recorded song in the store. |
| Requests.RedundantPushCanBreakSingleCopy | src/network/request.rs:77-83 | Take a song recorded once under some address. Recording it again under any sender, that address included, gives a ledger with two copies of the song. |
| Requests.DeletingRecordedSongBreaksWithinStore | src/network/request.rs:144-146 | After a recorded song is deleted from the store, the unchanged ledger records a song the store no longer holds. |
| Requests.RemoveEntryKeepsSingleCopy | src/network/request.rs:341 | Clearing a ledger entry keeps one redundant copy per song. |
| Requests.RedistributeFiles | src/network/request.rs:314-343 | A lone node, or one with no entry for the address, does nothing; it needs no other member then. Otherwise each recorded song up to the first missing one is pushed to some other member, and the entry is cleared only when none is missing. |
| Requests.DroppedPeer | src/network/request.rs:284-289 | The table loses every name at the address, redistribution follows, and no copy is sent to the dropped address. |
| Dispatch.HandleNotification | src/network/mod.rs:246-416 | Each content kind causes the transition and sends its handler states, as the single relation `Handled`. Status, playback, exit and acknowledgement arms leave the state alone. |
| Dispatch.HandledKeepsLedgerInvariants | src/network/mod.rs:246-416 | From a state where every recorded song is held and each song is recorded at most once: one redundant copy per song survives every notification except a redundant push. Every recorded song stays held across every notification except a REMOVE find and a file deletion. |
| Dispatch.RemoveThenPushCanBreakSingleCopy | src/network/request.rs:22-54 | Start from a ledger recording a held song once, in a table of more than one member. A REMOVE find of that song followed by a user push of it leaves the song recorded twice. No redundant push is involved. |
| Dispatch.HandledOwnEntry | src/network/mod.rs:246-416 | After a rename, the own name maps to the own address, whatever the state before. From a state where it does, the entry survives a notification exactly when that notification is not one of these: a deletion of the own name, a drop of the own address, or a merged table mapping the own name elsewhere. |
| Scenarios.BroadcastToTheOther | src/network/request.rs:104-107 | In a two-member table a broadcast is one message to the other member. |
| Scenarios.AloneStoresWithoutCopy | src/network/request.rs:36-53 | A lone node stores a new song and pushes no copy. |
| Scenarios.TwoNodeJoin | src/network/request.rs:95-134 | After a table request, a table reply and an update, both nodes hold the same two-member table. |
| Scenarios.RenameOnCollision | src/network/request.rs:126-134 | A newcomer with a taken name ends up named name+"+1" with the old name gone, and then holds both members. |
| Scenarios.PushReplicatesToOtherMember | src/network/request.rs:36-51 | With two members, the copy goes to the other member and the ledger records it there. |
| Scenarios.PushReplicatesToOther | src/network/request.rs:36-51 | The same push on a given node: the song is stored, its one copy goes to the other member, and it is recorded there. |
| Scenarios.DropLeavingNodeAlone | src/network/request.rs:314-316 | When the copy holder drops and the node is left alone, nothing is pushed and the ledger entry stays. |
| Scenarios.DropRedistributesToSurvivor | src/network/request.rs:314-343 | With three members, the copy lost with its holder is pushed to the remaining other member and the entry is cleared. |
| Scenarios.FetchRoundTrip | src/network/request.rs:254-266 | A fetch goes query, answer, file request, file. A late second answer to the same id is ignored, and no request stays open. |

## Left out

- Sockets, connections, the JSON wire encoding and the listener thread are not modelled. The `Arc<Mutex<Peer>>` sharing and the heartbeat sleep loop are not modelled either. A send is an `Outbound` value, and a handler runs under the lock as one atomic step.
- The `sender: SyncSender` field of `Peer`, and the `AppListener` notifications to the user interface (`local_database_changed`), are not modelled.
- Logging (`println!`, `error!`, `dbg!`) is not modelled.
- `get_own_ip_address` and the address lookup in `create_peer` are not modelled. The own address is a parameter of `CreatePeer`.
- Request ids come from `SystemTime::now()` in the source. Here the caller supplies them.
- The pick in `other_random_target` is a nondeterministic choice, not a uniform random draw.
- Network.OtherRandomTarget: requires the table to have one member or another address than the own one. An empty table makes the source's sampling panic. A table of only the own address makes it loop forever.
- Requests.PushToDb: requires the precondition of `OtherRandomTarget` when the key is new, for the same reason.
- Requests.OrderSongRequest: requires the precondition of `OtherRandomTarget` when the song is held, for the same reason.
- Requests.RedistributeFiles: requires another address only when a target is picked, for the same reason. A target is picked when the table has more than one member and the ledger records at least one song for the address (`NeedsTarget`).
- Requests.DroppedPeer: requires the same of the table that remains after the drop.
- Dispatch.HandleNotification: requires these conditions for the arms that pick a target (`CanHandle`).
- Audio playback and saving to disk are not modelled. `GetFileResponse` receives the player's or disk writer's outcome as a parameter. `FindFile` with GET and a local copy does not model the disk write.
- `exit_peer`, `status_request` and `self_status_request` are not modelled. Neither are the ExitPeer, status and PlayAudioRequest arms: they send farewell or status messages, print, play audio or end the process, and change no state the model tracks.
- The `PushToDB` arm of `mod.rs` sends a write acknowledgement (`send_write_response`). It is not modelled, and the `Response` arm that receives it does nothing.
- `handle_lost_connection` and the heartbeat's connection attempts are not modelled. A lost peer reaches the model only as a `DroppedPeer` notification.
- For sizes 2 and 3 the heartbeat probes every address. `HeartbeatProbes` gives that address list; the connection attempts are not modelled.
- src/network/handshake.rs is not part of this model. `send_table_to_all_peers` is taken to send the merged table, as a `SendNetworkUpdateTable`, to every member other than the node itself. The reply of `send_network_table_request` is taken to be a `SendNetworkTable` carrying the whole table. `send_table_request` is taken to send `RequestForTable` with the node's name (src/network/request.rs:92). `send_change_name_request` is taken to send `ChangePeerName` with the suggested name (src/network/request.rs:130).
- src/network/music_exchange.rs is not part of this model. Its senders are taken to send the notification named after them to the given address.
- `order_song_request` calls `send_read_request` with a signature that `mod.rs` does not have. It is modelled as a `FindFile(ORDER, song)` notification to the node's own address.
- Addresses are a host string and an unbounded port. The 16-bit width of a port, and the IPv4/IPv6 distinction, are not modelled.
- A payload that is not valid UTF-8 is modelled as a distinct payload kind. JSON errors inside `json_string_to_network_table` are not modelled.
- The notification kinds follow the handlers of `request.rs`, not the `Content` type that `mod.rs` matches on. `FindFile`, `GetFile` and `GetFileResponse` carry a file instruction. `DeleteFile` and `OrderSong` are extra kinds, routed to `delete_file_request` and `order_song_request`. The content type itself is defined outside the files modelled here.
- The mod.rs variants of the PushToDB, RedundantPushToDB, FindFile, ExistFileResponse, GetFileResponse and DroppedPeer arms are not modelled. They disagree with `request.rs` or call functions that `peer.rs` does not define; the request.rs handlers are modelled instead.
