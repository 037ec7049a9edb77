# A Dafny model of the rust-libp2p-chat node

The node joins a Kademlia distributed hash table, learns peer addresses from the
identify handshake, and relays lines typed on stdin to a gossipsub topic. It
prints at most one console line per event: one for each event it matches,
except a bootstrap result naming the local peer, which prints nothing. This project
models the two parts of the repository that are its own code rather than
libp2p's:

- **Peer-address parsing** (`parse_peer_id`, `src/utils/peer.rs`): split a
  multiaddress text on `"/p2p/"`, keep the last piece, base58-decode it, and
  build a `PeerId` from the bytes. Module `Peer`; Rust's `str::split` and
  `slice::last` are in module `StrSplit`.
- **The node loop** (`src/main.rs`): the startup bootstrap, then one iteration of
  the `loop { select! { ... } }` as a deterministic step over an abstract event.
  Module `NodeLoop` holds class `Node`. Its routing table is the address map in
  module `Routing`, standing in for `kademlia.add_address`. It also keeps the
  log of printed lines and the list of texts handed to `gossipsub.publish`.

Base58 decode and encode, `PeerId::from_bytes` and `Multiaddr::from_str` are
library code. They are the function-valued fields of `Peer.Codec`. The proofs
assume only what `Peer.Lawful` says about them: decoding undoes encoding,
base58 text never contains `/`, and when `from_bytes` accepts some bytes, the
peer id it returns has exactly those bytes. Which byte strings `from_bytes`
accepts is left open, so its error path stays reachable
(`Peer.RejectedBytesGiveInvalidPeerId`). A `PeerId` value in the model may hold
any bytes; `Peer.ValidPeerId` picks out the ids whose bytes `from_bytes`
accepts, which every id libp2p builds satisfies, and the round-trip results
are stated for those. `PeerId::to_string` is the base58 text of the id's bytes, as
libp2p defines it. Three things come from outside the loop and are parameters:
the outcome of `gossipsub.publish`, the outcome of `kademlia.bootstrap()`, and
the event stream itself.

`split` scans left to right, and matches never overlap. The last piece is
the one kept. When the text holds no `"/p2p/"` at all, the whole text is
decoded. With no `--bootstrap` argument, startup records nothing and does
not call `bootstrap()`. A stdin line is always handed to `gossipsub.publish`.

## Model

| member | source | states |
|---|---|---|
| `StrSplit.FindFrom` | src/utils/peer.rs:6 | a position the searcher returns lies at or after the start, with room for the whole pattern before the end of the text |
| `StrSplit.FindFromLeftmost` | src/utils/peer.rs:6 | the searcher returns the leftmost match at or after the start position, or reports that none exists |
| `StrSplit.FoundIffContains` | src/utils/peer.rs:6 | searching from the front finds a match exactly when the pattern occurs somewhere in the text |
| `StrSplit.Split` | src/utils/peer.rs:6 | `split` never yields an empty sequence of pieces |
| `StrSplit.SplitSingleIffAbsent` | src/utils/peer.rs:6 | there is exactly one piece iff the pattern does not occur |
| `StrSplit.SplitJoin` | src/utils/peer.rs:6 | joining the pieces with the pattern gives back the input |
| `StrSplit.SplitPiecesFree` | src/utils/peer.rs:6 | no piece contains the pattern |
| `StrSplit.LastSegment` | src/utils/peer.rs:6-7 | `parts.last()` is never `None`: the split always has a last piece, and that piece is the segment returned |
| `StrSplit.LastSegmentShape` | src/utils/peer.rs:6-7 | the last segment is a pattern-free suffix of the input. It is the whole input when the pattern is absent, and is directly preceded by a match otherwise |
| `StrSplit.LastSegmentAfterIsolatedMatch` | src/utils/peer.rs:6-7 | a match with no match overlapping it from the left and none after it is where the scan makes its last cut. The last piece is the text after it, whatever comes before |
| `Peer.DecodePeerId` | src/utils/peer.rs:8-9 | the base58 error occurs exactly when decoding fails. The `PeerId` error occurs exactly when the bytes decode but `from_bytes` rejects them. Success returns the id `from_bytes` built from the decoded bytes |
| `Peer.ParsePeerId` | src/utils/peer.rs:5-11 | the "Cannot parse peer id." error is never returned. The result is the decoding of the last segment alone |
| `Peer.ParseOkExactlyWhenBothStepsSucceed` | src/utils/peer.rs:8-10 | the result is `Ok` exactly when base58 decoding and `from_bytes` both succeed, and the id is the one `from_bytes` returns |
| `Peer.Base58FailureSkipsFromBytes` | src/utils/peer.rs:8 | when base58 decoding fails the result is the base58 error, whatever `from_bytes` would do (it is never reached) |
| `Peer.WholeInputWithoutDelimiter` | src/utils/peer.rs:6-8 | with no `"/p2p/"` in the input, the whole input is what gets decoded |
| `Peer.PrefixIgnored` | src/utils/peer.rs:6-8 | for any prefix not ending in `"/p2p"` and any tail without `/`, parsing `prefix + "/p2p/" + tail` decodes the tail alone |
| `Peer.RoundTrip` | src/utils/peer.rs:5-11 | `address + "/p2p/" + id.to_string()` parses back to `Ok(id)` when `address` does not end in `"/p2p"` and `from_bytes` accepts the id's bytes |
| `Peer.RejectedBytesGiveInvalidPeerId` | src/utils/peer.rs:9 | base58 text of bytes that `from_bytes` rejects, written after `"/p2p/"`, gives the `PeerId` error when the address before it does not end in `"/p2p"` |
| `Peer.OverlappingMatchKeepsP2pInSegment` | src/utils/peer.rs:6-7 | the scan takes the first of two overlapping matches, so `"/p2p/p2p/" + tail` leaves `"p2p/" + tail` as last piece. That is why `RoundTrip` needs its condition |
| `Routing.AddAddress` | src/main.rs:167 | `add_address` records the address under that peer. The peer becomes known, and no other peer's addresses change |
| `Routing.AddAddressIdempotent` | src/main.rs:167 | recording the same address twice is the same as recording it once |
| `Routing.AddAll` | src/main.rs:166-168 | after the `for` loop, the peer has gained exactly the listed addresses. It is added to the table only when the list is non-empty. Other peers are untouched and no entry is lost |
| `NodeLoop.TableAfter` | src/main.rs:159-170 | only an Identify event whose protocol list holds `/ipfs/kad/1.0.0` changes the routing table. It adds every reported listen address under the reporting peer. Every other event leaves the table unchanged |
| `NodeLoop.Emitted` | src/main.rs:133-201 | each event prints at most one line. Lifecycle, Identify (with or without Kademlia), closest-peer, gossip and stdin events print exactly one. That line is the one for the event's kind, and it carries the event's payload: the listen line, the send-back address, the peer, the discovered peers, or the forwarding peer and the message data. A stdin line prints "Sent" iff publishing succeeded, and the failure otherwise. BootstrapOk prints only for a peer other than the local one. An unmatched event prints the fallback line iff not `silent`. Stdin closing prints nothing |
| `NodeLoop.EmittedLineKinds` | src/main.rs:133-201 | the fallback line comes only from an unmatched event, and "Sent" or a publish failure only from a stdin line |
| `NodeLoop.PublishedBy` | src/main.rs:134-136 | a stdin line gives exactly one publish attempt, of its own text, and any other event gives none |
| `NodeLoop.ListenLine` | src/main.rs:144-147 | the printed line is the listen address, then `"/p2p/"`, then the local peer id's text, with nothing else |
| `NodeLoop.BootstrapTarget` | src/main.rs:118 | the peer id is parsed first, and its error is returned whatever the multiaddress parse would give. The multiaddress error is returned exactly when the peer id parses and the multiaddress does not. The target is found exactly when both parse, and it is the pair of parsed values |
| `NodeLoop.ListenLineNamesLocalPeer` | src/main.rs:143-148 | the printed listen address `address + "/p2p/" + local id` parses back to the local peer id |
| `NodeLoop.BootstrapFromPrintedAddress` | src/main.rs:118 | passing another node's printed listen address as `--bootstrap` makes that node's peer id the bootstrap target |
| `NodeLoop.RunTableOnlyGrows` | src/main.rs:132-203 | over any run of the loop the routing table only grows. Without a Kademlia Identify event it stays the same |
| `NodeLoop.RunLineCounts` | src/main.rs:132-203 | over any run, at most one line is printed per event. The "Sent" and publish-failure lines are exactly as many as the publish attempts |
| `NodeLoop.Node.Start` | src/main.rs:113-129 | with a bootstrap argument, a peer-id or multiaddress parse failure aborts startup and prints no line of its own. Otherwise the address is recorded under the parsed peer id and `bootstrap()` is called. A failed `bootstrap()` is printed and does not abort. Without the argument, nothing is recorded and no bootstrap is requested. Startup ends with the prompt line |
| `NodeLoop.Node.InjectAddresses` | src/main.rs:166-168 | the loop leaves the routing table equal to `AddAll` of the reported addresses |
| `NodeLoop.Node.Step` | src/main.rs:132-203 | one iteration sets the table to `TableAfter`, appends `Emitted` to the log and `PublishedBy` to the publish list. The bootstrap state is unchanged |
| `NodeLoop.Node.Run` | src/main.rs:132-203 | a finite stretch of the loop ends in the state given by `TableAfterAll`, `EmittedAll` and `PublishedAll` |
| `NodeLoop.JoinThroughPrintedAddress` | src/main.rs:113-123 | a node started with another node's printed listen address holds exactly that one parsed address under the other node's peer id |

## Left out

- Peer.RoundTrip: is proved only for addresses that do not end in `"/p2p"`. Some addresses that do, such as `"/p2p"`, leave `"p2p/"` in front of the id text (`Peer.OverlappingMatchKeepsP2pInSegment`). This node builds only a TCP transport (src/main.rs:67-71) and listens on `/ip4/0.0.0.0/tcp/{port}` (src/main.rs:111), so every listen address it reports ends in a port number and never in `/p2p`. The result is also stated only for ids that `Peer.ValidPeerId` accepts.
- StrSplit.Split: handles only non-empty patterns. `parse_peer_id` always splits on the constant `"/p2p/"`, and Rust's empty-pattern split behaves differently.
- `ed25519_from_seed` (src/utils/peer.rs:13-19): Keccak-256 and Ed25519 key construction happen inside cryptography crates.
- `message_id` (src/utils/msg.rs:7-11): a single call to the standard library's SipHash hasher.
- Base58, `PeerId` multihash parsing, `Multiaddr` parsing and printing: library code. They appear only as `Peer.Codec` under the laws in `Peer.Lawful`. A multiaddress is held as its text.
- Kademlia buckets, capacity, eviction and the query state machine, and gossipsub signing, validation, duplicate suppression and delivery: library code. The routing table is an address map, and `add_address` always records the address.
- Swarm construction and configuration (src/main.rs:61-110): transport, noise, yamux, DNS, identify, AutoNAT, gossipsub settings and the query timeout. Also `listen_on` (line 111) and `subscribe` (line 128), whose failures would abort startup before or after the bootstrap step.
- CLI parsing, the `PORT` variable, tracing setup, and the seed-based identity (lines 47-63): the local peer id and `silent` are given in `NodeLoop.Config`.
- The `select!` scheduling, its fairness, and reading stdin: the loop consumes events already merged into one sequence. The unbounded loop is modelled as finite runs (`Node.Run`).
- Console text: a line is recorded by kind and payload. The emoji text, the `Debug` formatting and the lossy UTF-8 decoding of gossip data are not modelled, and a published line is recorded as its text rather than as its UTF-8 bytes.
