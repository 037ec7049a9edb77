/**
 * The node of src/main.rs: startup bootstrap (lines 113-123, then the prompt
 * line at 129) and the body of the unbounded `loop { select! { ... } }`
 * (lines 132-203), one merged event per iteration.
 *
 * Console output is a log of `Line` values: which line is printed and what it
 * carries, not its emoji text. `gossipsub.publish` is recorded as the list of
 * texts handed to it; its outcome comes from the library and is a parameter.
 */
module NodeLoop {
  import opened Wrappers
  import opened StrSplit
  import opened Peer
  import opened Routing

  /** `kad::PROTOCOL_NAME`. */
  const KadProtocolName: string := "/ipfs/kad/1.0.0"

  /** The events the loop's `select!` can deliver. */
  datatype Event =
    | NewListenAddr(address: Multiaddr)
    | IncomingConnection(sendBackAddr: Multiaddr)
    | ConnectionEstablished(peer: PeerId)
    | ConnectionClosed(peer: PeerId)
    | Identify(peer: PeerId, protocols: seq<string>, listenAddrs: seq<Multiaddr>)
    | BootstrapOk(peer: PeerId)
    | GetClosestPeersOk(peers: seq<PeerId>)
    /** A gossipsub message, with the peer that forwarded it (not its author). */
    | GossipMessage(propagationSource: PeerId, data: seq<byte>)
    /** Any other swarm event, with its `Debug` text. */
    | Other(description: string)
    /** `stdin.next_line()` gave `Ok(Some(text))`. */
    | StdinLine(text: string)
    /** `stdin.next_line()` gave end of input or an error: the branch's pattern does not match. */
    | StdinClosed

  /** The connection-lifecycle events, which only notify the user. */
  predicate IsLifecycle(ev: Event) {
    ev.NewListenAddr? || ev.IncomingConnection? || ev.ConnectionEstablished? || ev.ConnectionClosed?
  }

  /** `gossipsub::PublishError`, with its `Display` text. */
  datatype PublishError = PublishError(reason: string)

  /** The console lines the node prints. */
  datatype Line =
    | Prompt
    | BootstrapFailed(reason: string)
    | PublishFailed(reason: string)
    | Sent
    | Listening(addr: string)
    | Connecting(sendBackAddr: Multiaddr)
    | Connected(peer: PeerId)
    | Disconnected(peer: PeerId)
    | IdentifiedPeer(peer: PeerId)
    | Bootstrapped(peer: PeerId)
    | DiscoveredPeers(peers: seq<PeerId>)
    | MessageFrom(propagationSource: PeerId, data: seq<byte>)
    | OtherEvent(description: string)

  /** What the loop reads but never changes: the libraries, the local peer id, `--silent`. */
  datatype Config = Config(codec: Codec, localId: PeerId, silent: bool)

  /** Why startup stops at line 118's `?`: the peer id or the multiaddress does not parse. */
  datatype StartupError = BadPeerId(error: PeerIdError) | BadMultiaddr

  /**
   * The address printed for a new listen address: the listen address itself,
   * then "/p2p/", then the base58 text of the local peer id, and nothing else.
   */
  function ListenLine(cfg: Config, address: Multiaddr): (line: string)
    ensures |line| == |address| + |P2pDelimiter| + |PeerIdText(cfg.codec, cfg.localId)|
    ensures line[..|address|] == address
    ensures line[|address|..|address| + |P2pDelimiter|] == P2pDelimiter
    ensures EndsWith(line, PeerIdText(cfg.codec, cfg.localId))
  {
    address + P2pDelimiter + PeerIdText(cfg.codec, cfg.localId)
  }

  /**
   * Line 118's two parses, peer id first, multiaddress second: a peer-id error
   * wins whatever the multiaddress parse would give, and the target is found
   * exactly when both parses succeed.
   */
  function BootstrapTarget(c: Codec, text: string): (r: Result<(PeerId, Multiaddr), StartupError>)
    ensures ParsePeerId(c, text).Err? ==> r == Err(BadPeerId(ParsePeerId(c, text).error))
    ensures r == Err(BadMultiaddr) <==> ParsePeerId(c, text).Ok? && c.multiaddrFromStr(text).None?
    ensures r.Ok? <==> ParsePeerId(c, text).Ok? && c.multiaddrFromStr(text).Some?
    ensures r.Ok? ==> r.value == (ParsePeerId(c, text).value, c.multiaddrFromStr(text).value)
  {
    match ParsePeerId(c, text)
    case Err(e) => Err(BadPeerId(e))
    case Ok(id) =>
      match c.multiaddrFromStr(text)
      case None => Err(BadMultiaddr)
      case Some(address) => Ok((id, address))
  }

  /** The Identify rule: the reported addresses enter the table only from a Kademlia peer. */
  predicate InjectsAddresses(ev: Event) {
    ev.Identify? && KadProtocolName in ev.protocols
  }

  /**
   * The routing table after one event. Only an Identify event listing the
   * Kademlia protocol changes it, by adding exactly the reported addresses under
   * the reporting peer; nothing is ever removed.
   */
  function TableAfter(t: RoutingTable, ev: Event): (t': RoutingTable)
    ensures !InjectsAddresses(ev) ==> t' == t
    ensures InjectsAddresses(ev) ==>
      && t'.Keys == (if ev.listenAddrs == [] then t.Keys else t.Keys + {ev.peer})
      && Addresses(t', ev.peer) == Addresses(t, ev.peer) + (set a | a in ev.listenAddrs)
      && forall q :: q != ev.peer ==> Addresses(t', q) == Addresses(t, q)
    ensures Includes(t, t')
  {
    if InjectsAddresses(ev) then AddAll(t, ev.peer, ev.listenAddrs) else t
  }

  /**
   * The lines one event prints. At most one per event; exactly one for the
   * lifecycle events, Identify (whatever its protocols), closest-peer results,
   * gossip messages and stdin lines; the bootstrap line only for a remote peer;
   * the fallback line only for unmatched events and only when not silent.
   */
  function Emitted(cfg: Config, ev: Event, publishOutcome: Option<PublishError>): (lines: seq<Line>)
    ensures |lines| <= 1
    ensures IsLifecycle(ev) || ev.Identify? || ev.GetClosestPeersOk? || ev.GossipMessage? || ev.StdinLine? ==> |lines| == 1
    ensures ev.NewListenAddr? ==> lines == [Listening(ListenLine(cfg, ev.address))]
    ensures ev.IncomingConnection? ==> lines == [Connecting(ev.sendBackAddr)]
    ensures ev.ConnectionEstablished? ==> lines == [Connected(ev.peer)]
    ensures ev.ConnectionClosed? ==> lines == [Disconnected(ev.peer)]
    ensures ev.GetClosestPeersOk? ==> lines == [DiscoveredPeers(ev.peers)]
    ensures ev.GossipMessage? ==> lines == [MessageFrom(ev.propagationSource, ev.data)]
    ensures ev.Identify? ==> lines == [IdentifiedPeer(ev.peer)]
    ensures ev.BootstrapOk? ==> (lines != [] <==> ev.peer != cfg.localId)
    ensures ev.BootstrapOk? && ev.peer != cfg.localId ==> lines == [Bootstrapped(ev.peer)]
    ensures ev.Other? ==> (lines != [] <==> !cfg.silent)
    ensures ev.Other? && !cfg.silent ==> lines == [OtherEvent(ev.description)]
    ensures ev.StdinLine? ==> (lines == [Sent] <==> publishOutcome.None?)
    ensures ev.StdinLine? && publishOutcome.Some? ==> lines == [PublishFailed(publishOutcome.value.reason)]
    ensures ev.StdinClosed? ==> lines == []
  {
    match ev
    case NewListenAddr(address) => [Listening(ListenLine(cfg, address))]
    case IncomingConnection(sendBackAddr) => [Connecting(sendBackAddr)]
    case ConnectionEstablished(peer) => [Connected(peer)]
    case ConnectionClosed(peer) => [Disconnected(peer)]
    case Identify(peer, _, _) => [IdentifiedPeer(peer)]
    case BootstrapOk(peer) => if peer != cfg.localId then [Bootstrapped(peer)] else []
    case GetClosestPeersOk(peers) => [DiscoveredPeers(peers)]
    case GossipMessage(propagationSource, data) => [MessageFrom(propagationSource, data)]
    case Other(description) => if !cfg.silent then [OtherEvent(description)] else []
    case StdinLine(_) =>
      (match publishOutcome
       case Some(e) => [PublishFailed(e.reason)]
       case None => [Sent])
    case StdinClosed => []
  }

  /**
   * Which event can print which kind of line: the fallback line comes only from
   * an unmatched event, and "Sent" or a publish failure only from a stdin line.
   */
  lemma EmittedLineKinds(cfg: Config, ev: Event, publishOutcome: Option<PublishError>)
    ensures forall l :: l in Emitted(cfg, ev, publishOutcome) && l.OtherEvent? ==> ev.Other?
    ensures forall l :: l in Emitted(cfg, ev, publishOutcome) && (l.Sent? || l.PublishFailed?) ==> ev.StdinLine?
  {
  }

  /** The texts one event hands to `gossipsub.publish`: a stdin line's own, once. */
  function PublishedBy(ev: Event): (texts: seq<string>)
    ensures |texts| == if ev.StdinLine? then 1 else 0
    ensures ev.StdinLine? ==> texts == [ev.text]
  {
    if ev.StdinLine? then [ev.text] else []
  }

  /** An event delivered to the loop, with what `gossipsub.publish` returns if it is called. */
  type Input = (Event, Option<PublishError>)

  /** The routing table after a finite run of the loop, one `TableAfter` per event. */
  function TableAfterAll(t: RoutingTable, inputs: seq<Input>): RoutingTable
    decreases |inputs|
  {
    if inputs == [] then t
    else TableAfter(TableAfterAll(t, inputs[..|inputs| - 1]), inputs[|inputs| - 1].0)
  }

  /**
   * Over any run the routing table only grows, and it stays the same when no
   * event is a Kademlia Identify.
   */
  lemma {:induction false} RunTableOnlyGrows(t: RoutingTable, inputs: seq<Input>)
    ensures Includes(t, TableAfterAll(t, inputs))
    ensures (forall i :: 0 <= i < |inputs| ==> !InjectsAddresses(inputs[i].0)) ==> TableAfterAll(t, inputs) == t
    decreases |inputs|
  {
    if inputs != [] {
      var front := inputs[..|inputs| - 1];
      var t1 := TableAfterAll(t, front);
      RunTableOnlyGrows(t, front);
      IncludesTransitive(t, t1, TableAfterAll(t, inputs));
      if forall i :: 0 <= i < |inputs| ==> !InjectsAddresses(inputs[i].0) {
        assert forall i :: 0 <= i < |front| ==> front[i] == inputs[i];
      }
    }
  }

  /** Every text published during a run of the loop. */
  function PublishedAll(inputs: seq<Input>): seq<string>
    decreases |inputs|
  {
    if inputs == [] then []
    else PublishedAll(inputs[..|inputs| - 1]) + PublishedBy(inputs[|inputs| - 1].0)
  }

  /** Every line printed during a run of the loop, one `Emitted` per event. */
  function EmittedAll(cfg: Config, inputs: seq<Input>): seq<Line>
    decreases |inputs|
  {
    if inputs == [] then []
    else
      var last := inputs[|inputs| - 1];
      EmittedAll(cfg, inputs[..|inputs| - 1]) + Emitted(cfg, last.0, last.1)
  }

  /** The number of publish reports ("Sent" or a publish failure) among `lines`. */
  function Reports(lines: seq<Line>): nat
    decreases |lines|
  {
    if lines == [] then 0
    else
      var l := lines[|lines| - 1];
      Reports(lines[..|lines| - 1]) + (if l.Sent? || l.PublishFailed? then 1 else 0)
  }

  /**
   * Over any run, no more than one line is printed per event, and the publish
   * reports among the printed lines are exactly as many as the publish
   * attempts: each attempt is reported once, and nothing else is reported.
   */
  lemma {:induction false} RunLineCounts(cfg: Config, inputs: seq<Input>)
    ensures |EmittedAll(cfg, inputs)| <= |inputs|
    ensures Reports(EmittedAll(cfg, inputs)) == |PublishedAll(inputs)|
    decreases |inputs|
  {
    if inputs != [] {
      var front := inputs[..|inputs| - 1];
      var last := inputs[|inputs| - 1];
      RunLineCounts(cfg, front);
      var before := EmittedAll(cfg, front);
      var lines := Emitted(cfg, last.0, last.1);
      ReportsAppendShort(before, lines);
      EventReports(cfg, last.0, last.1);
      assert PublishedAll(inputs) == PublishedAll(front) + PublishedBy(last.0);
    }
  }

  lemma ReportsAppendShort(before: seq<Line>, lines: seq<Line>)
    requires |lines| <= 1
    ensures Reports(before + lines) == Reports(before) + Reports(lines)
  {
    if lines != [] {
      var all := before + lines;
      var l := lines[0];
      var step := if l.Sent? || l.PublishFailed? then 1 else 0;
      assert all[..|all| - 1] == before;
      assert all[|all| - 1] == l;
      assert Reports(all) == Reports(before) + step;
      assert lines[..0] == [];
      assert Reports(lines) == Reports([]) + step;
    } else {
      assert before + lines == before;
    }
  }

  /** One event prints one publish report exactly when it makes one publish attempt. */
  lemma EventReports(cfg: Config, ev: Event, publishOutcome: Option<PublishError>)
    ensures Reports(Emitted(cfg, ev, publishOutcome)) == |PublishedBy(ev)|
  {
    var lines := Emitted(cfg, ev, publishOutcome);
    EmittedLineKinds(cfg, ev, publishOutcome);
    if lines != [] {
      assert lines[0] in lines;
      assert lines[..0] == [];
    }
  }

  lemma AppendAssoc<T>(a: seq<T>, b: seq<T>, c: seq<T>)
    ensures (a + b) + c == a + (b + c)
  {
  }

  /** A run one input longer is the shorter run followed by that input's step. */
  lemma RunOneMore(cfg: Config, t: RoutingTable, inputs: seq<Input>, i: nat)
    requires i < |inputs|
    ensures TableAfterAll(t, inputs[..i + 1]) == TableAfter(TableAfterAll(t, inputs[..i]), inputs[i].0)
    ensures EmittedAll(cfg, inputs[..i + 1]) == EmittedAll(cfg, inputs[..i]) + Emitted(cfg, inputs[i].0, inputs[i].1)
    ensures PublishedAll(inputs[..i + 1]) == PublishedAll(inputs[..i]) + PublishedBy(inputs[i].0)
  {
    assert inputs[..i + 1][..i] == inputs[..i];
  }

  /** The new-listen-address line names the local node: parsing it gives back the local peer id. */
  lemma ListenLineNamesLocalPeer(cfg: Config, address: Multiaddr)
    requires Lawful(cfg.codec) && ValidPeerId(cfg.codec, cfg.localId)
    requires !EndsWith(address, "/p2p")
    ensures ParsePeerId(cfg.codec, ListenLine(cfg, address)) == Ok(cfg.localId)
  {
    RoundTrip(cfg.codec, address, cfg.localId);
  }

  /**
   * Starting with `--bootstrap` set to the address another node printed makes
   * that node's peer id the bootstrap target.
   */
  lemma BootstrapFromPrintedAddress(c: Codec, remote: Config, address: Multiaddr, parsed: Multiaddr)
    requires Lawful(c) && remote.codec == c && ValidPeerId(c, remote.localId)
    requires !EndsWith(address, "/p2p")
    requires c.multiaddrFromStr(ListenLine(remote, address)) == Some(parsed)
    ensures BootstrapTarget(c, ListenLine(remote, address)) == Ok((remote.localId, parsed))
  {
    ListenLineNamesLocalPeer(remote, address);
  }

  class Node {
    const cfg: Config
    /** The addresses given to `kademlia.add_address`, per peer. */
    var table: RoutingTable
    /** The lines printed so far. */
    var log: seq<Line>
    /** The texts given to `gossipsub.publish` so far. */
    var published: seq<string>
    /** Whether `kademlia.bootstrap()` has been called. */
    var bootstrapRequested: bool

    constructor (cfg: Config)
      ensures this.cfg == cfg
      ensures table == map[] && log == [] && published == [] && !bootstrapRequested
    {
      this.cfg := cfg;
      table := map[];
      log := [];
      published := [];
      bootstrapRequested := false;
    }

    /**
     * Lines 113-129. With a bootstrap address, its peer id is parsed, then the
     * multiaddress (either failure aborts startup through `?` and prints no line of its own),
     * the address is recorded under that peer and `bootstrap()` is called; its
     * failure is printed and startup goes on. Without one, nothing is recorded
     * or requested. Startup ends with the prompt line.
     */
    method Start(bootstrap: Option<string>, kadBootstrapError: Option<string>)
      returns (r: Result<(), StartupError>)
      modifies this
      ensures published == old(published)
      ensures bootstrap.None? ==>
        && r == Ok(())
        && table == old(table)
        && bootstrapRequested == old(bootstrapRequested)
        && log == old(log) + [Prompt]
      ensures bootstrap.Some? && BootstrapTarget(cfg.codec, bootstrap.value).Err? ==>
        && r == Err(BootstrapTarget(cfg.codec, bootstrap.value).error)
        && table == old(table)
        && bootstrapRequested == old(bootstrapRequested)
        && log == old(log)
      ensures bootstrap.Some? && BootstrapTarget(cfg.codec, bootstrap.value).Ok? ==>
        var target := BootstrapTarget(cfg.codec, bootstrap.value).value;
        && r == Ok(())
        && table == AddAddress(old(table), target.0, target.1)
        && bootstrapRequested
        && log == old(log)
                  + (if kadBootstrapError.Some? then [BootstrapFailed(kadBootstrapError.value)] else [])
                  + [Prompt]
    {
      if bootstrap.Some? {
        var text := bootstrap.value;
        var id := ParsePeerId(cfg.codec, text);
        if id.Err? {
          return Err(BadPeerId(id.error));
        }
        var address := cfg.codec.multiaddrFromStr(text);
        if address.None? {
          return Err(BadMultiaddr);
        }
        table := AddAddress(table, id.value, address.value);
        bootstrapRequested := true;
        if kadBootstrapError.Some? {
          log := log + [BootstrapFailed(kadBootstrapError.value)];
        }
      }
      log := log + [Prompt];
      r := Ok(());
    }

    /** Lines 166-168: each reported address in turn goes to `kademlia.add_address`. */
    method InjectAddresses(peer: PeerId, addrs: seq<Multiaddr>)
      modifies this`table
      ensures table == AddAll(old(table), peer, addrs)
    {
      var i := 0;
      while i < |addrs|
        invariant 0 <= i <= |addrs|
        invariant table == AddAll(old(table), peer, addrs[..i])
      {
        assert addrs[..i + 1][..i] == addrs[..i];
        table := AddAddress(table, peer, addrs[i]);
        i := i + 1;
      }
      assert addrs[..|addrs|] == addrs;
    }

    /** One iteration of the loop at lines 132-203. */
    method Step(ev: Event, publishOutcome: Option<PublishError>)
      modifies this
      ensures table == TableAfter(old(table), ev)
      ensures log == old(log) + Emitted(cfg, ev, publishOutcome)
      ensures published == old(published) + PublishedBy(ev)
      ensures bootstrapRequested == old(bootstrapRequested)
    {
      match ev
      case StdinLine(text) =>
        published := published + [text];
        match publishOutcome {
          case Some(e) => log := log + [PublishFailed(e.reason)];
          case None => log := log + [Sent];
        }
      case StdinClosed =>
      case NewListenAddr(address) =>
        var addr := "";
        addr := addr + address;
        addr := addr + P2pDelimiter;
        addr := addr + PeerIdText(cfg.codec, cfg.localId);
        assert addr == ListenLine(cfg, address);
        log := log + [Listening(addr)];
      case IncomingConnection(sendBackAddr) =>
        log := log + [Connecting(sendBackAddr)];
      case ConnectionEstablished(peer) =>
        log := log + [Connected(peer)];
      case ConnectionClosed(peer) =>
        log := log + [Disconnected(peer)];
      case Identify(peer, protocols, listenAddrs) =>
        log := log + [IdentifiedPeer(peer)];
        if KadProtocolName in protocols {
          InjectAddresses(peer, listenAddrs);
        }
      case BootstrapOk(peer) =>
        if peer != cfg.localId {
          log := log + [Bootstrapped(peer)];
        }
      case GetClosestPeersOk(peers) =>
        log := log + [DiscoveredPeers(peers)];
      case GossipMessage(propagationSource, data) =>
        log := log + [MessageFrom(propagationSource, data)];
      case Other(description) =>
        if !cfg.silent {
          log := log + [OtherEvent(description)];
        }
    }

    /** A finite stretch of the loop: the inputs in the order `select!` delivers them. */
    method Run(inputs: seq<Input>)
      modifies this
      ensures table == TableAfterAll(old(table), inputs)
      ensures log == old(log) + EmittedAll(cfg, inputs)
      ensures published == old(published) + PublishedAll(inputs)
      ensures bootstrapRequested == old(bootstrapRequested)
    {
      ghost var t0, log0, published0 := table, log, published;
      var i := 0;
      while i < |inputs|
        invariant 0 <= i <= |inputs|
        invariant table == TableAfterAll(t0, inputs[..i])
        invariant log == log0 + EmittedAll(cfg, inputs[..i])
        invariant published == published0 + PublishedAll(inputs[..i])
        invariant bootstrapRequested == old(bootstrapRequested)
      {
        RunOneMore(cfg, t0, inputs, i);
        AppendAssoc(log0, EmittedAll(cfg, inputs[..i]), Emitted(cfg, inputs[i].0, inputs[i].1));
        AppendAssoc(published0, PublishedAll(inputs[..i]), PublishedBy(inputs[i].0));
        Step(inputs[i].0, inputs[i].1);
        i := i + 1;
      }
      assert inputs[..|inputs|] == inputs;
    }
  }

  /**
   * Node A started with `--bootstrap` set to the listen line node B printed
   * holds B's peer id in its routing table once startup succeeds.
   */
  method JoinThroughPrintedAddress(cfg: Config, remote: Config, address: Multiaddr, kadBootstrapError: Option<string>)
    returns (node: Node, r: Result<(), StartupError>)
    requires Lawful(cfg.codec) && remote.codec == cfg.codec && ValidPeerId(cfg.codec, remote.localId)
    requires !EndsWith(address, "/p2p")
    requires cfg.codec.multiaddrFromStr(ListenLine(remote, address)).Some?
    ensures fresh(node) && r == Ok(())
    ensures remote.localId in node.table
    ensures Addresses(node.table, remote.localId) == {cfg.codec.multiaddrFromStr(ListenLine(remote, address)).value}
  {
    node := new Node(cfg);
    BootstrapFromPrintedAddress(cfg.codec, remote, address, cfg.codec.multiaddrFromStr(ListenLine(remote, address)).value);
    r := node.Start(Some(ListenLine(remote, address)), kadBootstrapError);
  }
}
