/**
 * The Kademlia routing table as the node loop of src/main.rs sees it: a map
 * from peer id to the addresses recorded for it through `kademlia.add_address`.
 * Buckets, capacity and replacement happen inside libp2p and are not modelled.
 */
module Routing {
  import opened Peer

  type RoutingTable = map<PeerId, set<Multiaddr>>

  /** The addresses recorded for `p` (none when `p` is unknown). */
  function Addresses(t: RoutingTable, p: PeerId): set<Multiaddr> {
    if p in t then t[p] else {}
  }

  /** Every entry of `t` is still in `t'`, with at least the same addresses. */
  ghost predicate Includes(t: RoutingTable, t': RoutingTable) {
    forall p :: p in t ==> p in t' && t[p] <= t'[p]
  }

  lemma IncludesTransitive(t0: RoutingTable, t1: RoutingTable, t2: RoutingTable)
    requires Includes(t0, t1) && Includes(t1, t2)
    ensures Includes(t0, t2)
  {
  }

  /** `kademlia.add_address(&peer, addr)`: record `a` for `p`, touching no other peer. */
  function AddAddress(t: RoutingTable, p: PeerId, a: Multiaddr): (t': RoutingTable)
    ensures t'.Keys == t.Keys + {p}
    ensures Addresses(t', p) == Addresses(t, p) + {a}
    ensures forall q :: q != p ==> Addresses(t', q) == Addresses(t, q)
    ensures Includes(t, t')
  {
    t[p := Addresses(t, p) + {a}]
  }

  /** Recording an address a second time changes nothing. */
  lemma AddAddressIdempotent(t: RoutingTable, p: PeerId, a: Multiaddr)
    ensures AddAddress(AddAddress(t, p, a), p, a) == AddAddress(t, p, a)
  {
  }

  /**
   * `for addr in addrs { kademlia.add_address(&peer, addr) }`, one address after
   * another. The peer gains exactly the listed addresses, is added to the table
   * only when the list is non-empty, and no other peer is touched.
   */
  function AddAll(t: RoutingTable, p: PeerId, addrs: seq<Multiaddr>): (t': RoutingTable)
    ensures t'.Keys == if addrs == [] then t.Keys else t.Keys + {p}
    ensures Addresses(t', p) == Addresses(t, p) + (set a | a in addrs)
    ensures forall q :: q != p ==> Addresses(t', q) == Addresses(t, q)
    ensures Includes(t, t')
    decreases |addrs|
  {
    if addrs == [] then t
    else
      var init := addrs[..|addrs| - 1];
      assert (set a | a in addrs) == (set a | a in init) + {addrs[|addrs| - 1]} by {
        assert addrs == init + [addrs[|addrs| - 1]];
      }
      var t1 := AddAll(t, p, init);
      IncludesTransitive(t, t1, AddAddress(t1, p, addrs[|addrs| - 1]));
      AddAddress(t1, p, addrs[|addrs| - 1])
  }
}
