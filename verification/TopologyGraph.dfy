/** The graph built from the crawled nodes: one node an ID, one connection a key. */
module TopologyGraph {
  import opened Int64
  import opened Crawl

  datatype Conn = Conn(from: string, to: string, connectionStatus: ConnectionStatus)

  datatype Request = Request(includeNodes: seq<string>, crawlDistance: uint64, minBytesSec: uint64)

  type Pair = (string, string)

  /** The key under which a connection is remembered: both IDs with nothing between them. */
  function ConnKey(p: Pair): string { p.0 + p.1 }

  function PairOf(c: Conn): Pair { (c.from, c.to) }

  function PairsOf(conns: seq<Conn>): set<Pair> {
    set i | 0 <= i < |conns| :: PairOf(conns[i])
  }

  function PairsIn(conns: set<Conn>): set<Pair> {
    set c | c in conns :: PairOf(c)
  }

  // ----- which connections the included nodes report

  /** The connection reported by `rpc` about `peer`, from the dialling side to the dialled side. */
  function Oriented(rpc: RPC, peer: Peer): Conn {
    if peer.isOutbound then Conn(rpc.id, peer.nodeID, peer.connectionStatus)
    else Conn(peer.nodeID, rpc.id, peer.connectionStatus)
  }

  predicate Linked(ids: set<string>, rpc: RPC, peer: Peer) {
    peer.nodeID in ids && peer.nodeID != rpc.id
  }

  function ReportedBy(ids: set<string>, rpc: RPC, peers: seq<Peer>): set<Conn> {
    set p | p in peers && Linked(ids, rpc, p) :: Oriented(rpc, p)
  }

  function Reported(table: PeerTable, ids: set<string>, nodes: set<RPC>): set<Conn> {
    set r, c | r in nodes && c in ReportedBy(ids, r, RPCPeers(table, r.url)) :: c
  }

  function IDs(nodes: set<RPC>): set<string> {
    set r | r in nodes :: r.id
  }

  function Included(table: PeerTable, known: map<string, RPC>, req: Request, urls: seq<string>): set<RPC> {
    if urls == [] then {}
    else
      var last := urls[|urls| - 1];
      Included(table, known, req, urls[..|urls| - 1])
      + if last in known then Within(table, req.minBytesSec, known[last], req.crawlDistance) else {}
  }

  // ----- what a finished graph looks like

  ghost predicate HasKey(conns: seq<Conn>, key: string) {
    exists i :: 0 <= i < |conns| && ConnKey(PairOf(conns[i])) == key
  }

  ghost predicate KeysOnce(conns: seq<Conn>) {
    forall i, j :: 0 <= i < j < |conns| ==> ConnKey(PairOf(conns[i])) != ConnKey(PairOf(conns[j]))
  }

  ghost predicate AllOffered(conns: seq<Conn>, offered: set<Conn>) {
    forall i :: 0 <= i < |conns| ==> conns[i] in offered
  }

  ghost predicate AllKept(conns: seq<Conn>, offered: set<Conn>) {
    forall c :: c in offered ==> HasKey(conns, ConnKey(PairOf(c)))
  }

  /** No two kept connections share a key, every kept one was offered, every offered key is kept. */
  ghost predicate Keeps(conns: seq<Conn>, offered: set<Conn>) {
    KeysOnce(conns) && AllOffered(conns, offered) && AllKept(conns, offered)
  }

  lemma HasKeyAppend(conns: seq<Conn>, c: Conn, key: string)
    ensures HasKey(conns + [c], key) <==> HasKey(conns, key) || ConnKey(PairOf(c)) == key
  {
    if HasKey(conns, key) {
      var i :| 0 <= i < |conns| && ConnKey(PairOf(conns[i])) == key;
      assert (conns + [c])[i] == conns[i];
    }
    assert (conns + [c])[|conns|] == c;
  }

  lemma KeepsAppend(conns: seq<Conn>, c: Conn, offered: set<Conn>)
    requires Keeps(conns, offered) && !HasKey(conns, ConnKey(PairOf(c)))
    ensures Keeps(conns + [c], offered + {c})
  {
    forall d | d in offered + {c} ensures HasKey(conns + [c], ConnKey(PairOf(d))) {
      HasKeyAppend(conns, c, ConnKey(PairOf(d)));
    }
  }

  function NodeIDs(nodes: seq<RPC>): set<string> {
    set i | 0 <= i < |nodes| :: nodes[i].id
  }

  ghost predicate OneNodePerID(nodes: seq<RPC>, all: set<RPC>) {
    && (forall i, j :: 0 <= i < j < |nodes| ==> nodes[i].id != nodes[j].id)
    && (forall n :: n in nodes ==> n in all)
    && NodeIDs(nodes) == IDs(all)
  }

  class Graph {
    var nodes: seq<RPC>
    var conns: seq<Conn>
    var connsMap: map<string, bool>

    ghost predicate Valid()
      reads this
    {
      forall k :: k in connsMap <==> HasKey(conns, k)
    }

    constructor ()
      ensures Valid() && nodes == [] && conns == []
    {
      nodes, conns, connsMap := [], [], map[];
    }

    /** Keeps the connection unless its key is already taken; afterwards its key is kept. */
    method AddConn(from: string, to: string, connectionStatus: ConnectionStatus, ghost offered: set<Conn>)
      requires Valid() && Keeps(conns, offered)
      modifies `conns, `connsMap
      ensures conns == if from + to in old(connsMap) then old(conns)
                       else old(conns) + [Conn(from, to, connectionStatus)]
      ensures Valid() && Keeps(conns, offered + {Conn(from, to, connectionStatus)})
    {
      var ok := from + to in connsMap;
      if !ok {
        var c := Conn(from, to, connectionStatus);
        KeepsAppend(conns, c, offered);
        forall k ensures HasKey(conns + [c], k) <==> HasKey(conns, k) || from + to == k {
          HasKeyAppend(conns, c, k);
        }
        conns := conns + [c];
        connsMap := connsMap[from + to := true];
      }
    }

    /** The connections reported by one node. */
    method AddReports(ids: set<string>, rpc: RPC, peers: seq<Peer>, ghost offered: set<Conn>)
      requires Valid() && Keeps(conns, offered)
      modifies `conns, `connsMap
      ensures Valid() && Keeps(conns, offered + ReportedBy(ids, rpc, peers))
    {
      for i := 0 to |peers|
        invariant Valid() && Keeps(conns, offered + ReportedBy(ids, rpc, peers[..i]))
      {
        var peer := peers[i];
        ghost var sofar := offered + ReportedBy(ids, rpc, peers[..i]);
        ReportedByStep(ids, rpc, peers, i, offered);
        if peer.nodeID !in ids {
          continue;
        }
        if peer.nodeID == rpc.id {
          continue;
        }
        if peer.isOutbound {
          AddConn(rpc.id, peer.nodeID, peer.connectionStatus, sofar);
        } else {
          AddConn(peer.nodeID, rpc.id, peer.connectionStatus, sofar);
        }
      }
      assert peers[..|peers|] == peers;
    }

    /** Adds one node for every ID, in whatever order the set is iterated. */
    method AddNodes(includeNodes: set<RPC>) returns (includeIDs: set<string>)
      requires nodes == []
      modifies `nodes
      ensures OneNodePerID(nodes, includeNodes) && includeIDs == IDs(includeNodes)
    {
      var seenIDs: set<string> := {};
      includeIDs := {};
      var todo := includeNodes;
      while todo != {}
        invariant todo <= includeNodes
        invariant seenIDs == includeIDs == IDs(includeNodes - todo)
        invariant OneNodePerID(nodes, includeNodes - todo)
        decreases todo
      {
        var rpc :| rpc in todo;
        ghost var done := includeNodes - todo;
        todo := todo - {rpc};
        assert includeNodes - todo == done + {rpc};
        assert IDs(done + {rpc}) == IDs(done) + {rpc.id};
        if rpc.id in seenIDs {
          continue;
        }
        seenIDs := seenIDs + {rpc.id};
        nodes := nodes + [rpc];
        NodeIDsAppend(nodes[..|nodes| - 1], rpc);
        includeIDs := includeIDs + {rpc.id};
      }
      assert includeNodes - todo == includeNodes;
    }

    method AddEdges(table: PeerTable, includeNodes: set<RPC>, includeIDs: set<string>)
      requires Valid() && conns == []
      modifies `conns, `connsMap
      ensures Valid() && Keeps(conns, Reported(table, includeIDs, includeNodes))
    {
      var todo := includeNodes;
      assert Reported(table, includeIDs, includeNodes - todo) == {};
      while todo != {}
        invariant todo <= includeNodes
        invariant Valid() && Keeps(conns, Reported(table, includeIDs, includeNodes - todo))
        decreases todo
      {
        var rpc :| rpc in todo;
        ghost var done := includeNodes - todo;
        todo := todo - {rpc};
        assert includeNodes - todo == done + {rpc};
        ReportedStep(table, includeIDs, done, rpc);
        AddReports(includeIDs, rpc, RPCPeers(table, rpc.url), Reported(table, includeIDs, done));
      }
      assert includeNodes - todo == includeNodes;
    }
  }

  lemma ReportedByStep(ids: set<string>, rpc: RPC, peers: seq<Peer>, i: nat, offered: set<Conn>)
    requires i < |peers|
    ensures var sofar := offered + ReportedBy(ids, rpc, peers[..i]);
            offered + ReportedBy(ids, rpc, peers[..i + 1])
              == if Linked(ids, rpc, peers[i]) then sofar + {Oriented(rpc, peers[i])} else sofar
  {
    assert peers[..i + 1] == peers[..i] + [peers[i]];
  }

  lemma ReportedStep(table: PeerTable, ids: set<string>, done: set<RPC>, rpc: RPC)
    ensures Reported(table, ids, done + {rpc})
         == Reported(table, ids, done) + ReportedBy(ids, rpc, RPCPeers(table, rpc.url))
  {}

  lemma NodeIDsAppend(nodes: seq<RPC>, rpc: RPC)
    ensures NodeIDs(nodes + [rpc]) == NodeIDs(nodes) + {rpc.id}
  {
    assert (nodes + [rpc])[|nodes|] == rpc;
    assert forall i :: 0 <= i < |nodes| ==> (nodes + [rpc])[i] == nodes[i];
  }

  method ComputeTopology(table: PeerTable, knownRPCs: map<string, RPC>, req: Request) returns (g: Graph)
    ensures fresh(g)
    ensures var nodes := Included(table, knownRPCs, req, req.includeNodes);
            OneNodePerID(g.nodes, nodes) && Keeps(g.conns, Reported(table, IDs(nodes), nodes))
  {
    var includeNodes: set<RPC> := {};
    for i := 0 to |req.includeNodes|
      invariant includeNodes == Included(table, knownRPCs, req, req.includeNodes[..i])
    {
      var url := req.includeNodes[i];
      assert req.includeNodes[..i + 1][..i] == req.includeNodes[..i];
      if url !in knownRPCs {
        continue;
      }
      var found := StackBasedCrawl(table, knownRPCs[url], req.crawlDistance, req.minBytesSec);
      includeNodes := includeNodes + found;
    }
    assert req.includeNodes[..|req.includeNodes|] == req.includeNodes;
    g := new Graph();
    var includeIDs := g.AddNodes(includeNodes);
    g.AddEdges(table, includeNodes, includeIDs);
  }

  // ----- what every such graph satisfies

  /** The included nodes are those within the distance of some known requested URL. */
  lemma {:induction false} IncludedIs(table: PeerTable, known: map<string, RPC>, req: Request, urls: seq<string>,
                                      x: RPC)
    ensures x in Included(table, known, req, urls) <==>
              exists i :: 0 <= i < |urls| && urls[i] in known
                          && Reachable(table, req.minBytesSec, known[urls[i]], x, req.crawlDistance)
    decreases |urls|
  {
    if urls != [] {
      var n := |urls| - 1;
      IncludedIs(table, known, req, urls[..n], x);
      assert forall i :: 0 <= i < n ==> urls[..n][i] == urls[i];
      if urls[n] in known {
        WithinIsReachable(table, req.minBytesSec, known[urls[n]], req.crawlDistance);
      }
    }
  }

  /** Endpoints are nodes, no edge is a loop, and no (from, to) occurs twice. */
  lemma GraphIsWellFormed(table: PeerTable, all: set<RPC>, nodes: seq<RPC>, conns: seq<Conn>)
    requires OneNodePerID(nodes, all) && Keeps(conns, Reported(table, IDs(all), all))
    ensures forall i :: 0 <= i < |conns| ==>
              conns[i].from != conns[i].to && conns[i].from in NodeIDs(nodes) && conns[i].to in NodeIDs(nodes)
    ensures forall i, j :: 0 <= i < j < |conns| ==> PairOf(conns[i]) != PairOf(conns[j])
  {
    forall i | 0 <= i < |conns|
      ensures conns[i].from != conns[i].to && conns[i].from in NodeIDs(nodes) && conns[i].to in NodeIDs(nodes)
    {
      ReportedPair(table, all, nodes, conns[i]);
    }
  }

  lemma ReportedPair(table: PeerTable, all: set<RPC>, nodes: seq<RPC>, c: Conn)
    requires OneNodePerID(nodes, all) && c in Reported(table, IDs(all), all)
    ensures c.from != c.to && c.from in NodeIDs(nodes) && c.to in NodeIDs(nodes)
  {
    var r :| r in all && c in ReportedBy(IDs(all), r, RPCPeers(table, r.url));
    var p :| p in RPCPeers(table, r.url) && Linked(IDs(all), r, p) && c == Oriented(r, p);
  }

  /** An included node reports the connection `c`, which runs from the dialling side to the dialled side: the
      node itself dialled an outbound peer, and an inbound peer dialled the node. */
  ghost predicate ReportsDial(table: PeerTable, all: set<RPC>, c: Conn) {
    exists r, p :: && r in all && p in RPCPeers(table, r.url) && c.connectionStatus == p.connectionStatus
                   && if p.isOutbound then r.id == c.from && p.nodeID == c.to else p.nodeID == c.from && r.id == c.to
  }

  /** What is offered to the graph: the reported dials between two different included IDs. */
  lemma ReportedIs(table: PeerTable, all: set<RPC>, c: Conn)
    ensures c in Reported(table, IDs(all), all) <==>
              c.from in IDs(all) && c.to in IDs(all) && c.from != c.to && ReportsDial(table, all, c)
  {
    if c in Reported(table, IDs(all), all) {
      var r :| r in all && c in ReportedBy(IDs(all), r, RPCPeers(table, r.url));
      var p :| p in RPCPeers(table, r.url) && Linked(IDs(all), r, p) && c == Oriented(r, p);
    }
    if c.from in IDs(all) && c.to in IDs(all) && c.from != c.to && ReportsDial(table, all, c) {
      var r, p :| && r in all && p in RPCPeers(table, r.url) && c.connectionStatus == p.connectionStatus
                  && if p.isOutbound then r.id == c.from && p.nodeID == c.to else p.nodeID == c.from && r.id == c.to;
      assert Linked(IDs(all), r, p) && c == Oriented(r, p);
      assert c in ReportedBy(IDs(all), r, RPCPeers(table, r.url));
    }
  }

  /** Every edge is a reported dial between two different included IDs; and if no two of the reported pairs
      run together into the same text, every such dial has its edge. */
  lemma EdgesAreDials(table: PeerTable, all: set<RPC>, conns: seq<Conn>)
    requires Keeps(conns, Reported(table, IDs(all), all))
    ensures forall c :: c in conns ==>
              c.from in IDs(all) && c.to in IDs(all) && c.from != c.to && ReportsDial(table, all, c)
    ensures KeysDistinct(PairsIn(Reported(table, IDs(all), all))) ==>
              forall c: Conn ::
                c.from in IDs(all) && c.to in IDs(all) && c.from != c.to && ReportsDial(table, all, c) ==>
                (c.from, c.to) in PairsOf(conns)
  {
    forall c | c in conns
      ensures c.from in IDs(all) && c.to in IDs(all) && c.from != c.to && ReportsDial(table, all, c)
    {
      ReportedIs(table, all, c);
    }
    EdgesExactIff(conns, Reported(table, IDs(all), all));
    forall c: Conn | c.from in IDs(all) && c.to in IDs(all) && c.from != c.to && ReportsDial(table, all, c)
      ensures (c.from, c.to) in PairsIn(Reported(table, IDs(all), all))
    {
      ReportedIs(table, all, c);
      assert PairOf(c) == (c.from, c.to);
    }
  }

  /** No two of these pairs run together into the same key. */
  ghost predicate KeysDistinct(pairs: set<Pair>) {
    forall p, q :: p in pairs && q in pairs && ConnKey(p) == ConnKey(q) ==> p == q
  }

  /** The edges are exactly the reported pairs, in any iteration order, if and only if no two reported
      pairs have the same concatenation of IDs. */
  lemma EdgesExactIff(conns: seq<Conn>, offered: set<Conn>)
    requires Keeps(conns, offered)
    ensures PairsOf(conns) == PairsIn(offered) <==> KeysDistinct(PairsIn(offered))
  {
    if KeysDistinct(PairsIn(offered)) {
      forall p | p in PairsIn(offered) ensures p in PairsOf(conns) {
        assert HasKey(conns, ConnKey(p));
        var i :| 0 <= i < |conns| && ConnKey(PairOf(conns[i])) == ConnKey(p);
        assert PairOf(conns[i]) in PairsIn(offered);
      }
      assert PairsOf(conns) <= PairsIn(offered);
    }
    if PairsOf(conns) == PairsIn(offered) {
      forall p, q | p in PairsIn(offered) && q in PairsIn(offered) && ConnKey(p) == ConnKey(q) ensures p == q {
        KeptOnce(conns, p, q);
      }
    }
  }

  lemma KeptOnce(conns: seq<Conn>, p: Pair, q: Pair)
    requires KeysOnce(conns) && p in PairsOf(conns) && q in PairsOf(conns) && ConnKey(p) == ConnKey(q)
    ensures p == q
  {
    var i :| 0 <= i < |conns| && PairOf(conns[i]) == p;
    var j :| 0 <= j < |conns| && PairOf(conns[j]) == q;
    assert !(i < j) && !(j < i);
  }

  /** CometBFT node IDs all have one length, and then keys never clash. */
  lemma EqualLengthKeys(pairs: set<Pair>, n: nat)
    requires forall p :: p in pairs ==> |p.0| == n && |p.1| == n
    ensures KeysDistinct(pairs)
  {
    forall p, q | p in pairs && q in pairs && ConnKey(p) == ConnKey(q) ensures p == q {
      assert p.0 == ConnKey(p)[..n] && q.0 == ConnKey(q)[..n];
      assert p.1 == ConnKey(p)[n..] && q.1 == ConnKey(q)[n..];
    }
  }

  // ----- four nodes with IDs of unequal length

  const IDLE: ConnectionStatus := ConnectionStatus(0, 0)
  const NODE_A: RPC := RPC("a", "", "http://a", "", "", "")
  const NODE_BC: RPC := RPC("bc", "", "http://bc", "", "", "")
  const NODE_AB: RPC := RPC("ab", "", "http://ab", "", "", "")
  const NODE_C: RPC := RPC("c", "", "http://c", "", "", "")
  const TO_BC: Peer := Peer("bc", "", "", "http://bc", true, IDLE)
  const TO_C: Peer := Peer("c", "", "", "http://c", true, IDLE)

  /** Node a has dialled bc, and node ab has dialled c. */
  const CLASH_TABLE: PeerTable := map["http://a" := [TO_BC], "http://ab" := [TO_C]]
  const CLASH_KNOWN: map<string, RPC> :=
    map["http://a" := NODE_A, "http://bc" := NODE_BC, "http://ab" := NODE_AB, "http://c" := NODE_C]
  const CLASH_REQUEST: Request := Request(["http://a", "http://bc", "http://ab", "http://c"], 0, 0)

  function ClashNodes(): set<RPC> {
    Included(CLASH_TABLE, CLASH_KNOWN, CLASH_REQUEST, CLASH_REQUEST.includeNodes)
  }

  lemma {:induction false} IncludedURL(urls: seq<string>, i: nat)
    requires i < |urls| && urls[i] in CLASH_KNOWN
    ensures CLASH_KNOWN[urls[i]] in Included(CLASH_TABLE, CLASH_KNOWN, CLASH_REQUEST, urls)
    decreases |urls|
  {
    if i < |urls| - 1 {
      IncludedURL(urls[..|urls| - 1], i);
    }
  }

  /** Both dialled connections are reported. */
  lemma ClashReported()
    ensures var nodes := ClashNodes();
            var reported := PairsIn(Reported(CLASH_TABLE, IDs(nodes), nodes));
            ("a", "bc") in reported && ("ab", "c") in reported
  {
    var nodes, urls := ClashNodes(), CLASH_REQUEST.includeNodes;
    IncludedURL(urls, 0);
    IncludedURL(urls, 1);
    IncludedURL(urls, 2);
    IncludedURL(urls, 3);
    assert NODE_BC.id in IDs(nodes) && NODE_C.id in IDs(nodes);
    ReportedPeer(CLASH_TABLE, nodes, NODE_A, TO_BC);
    ReportedPeer(CLASH_TABLE, nodes, NODE_AB, TO_C);
  }

  lemma ReportedPeer(table: PeerTable, nodes: set<RPC>, rpc: RPC, peer: Peer)
    requires rpc in nodes && peer in RPCPeers(table, rpc.url) && Linked(IDs(nodes), rpc, peer)
    ensures PairOf(Oriented(rpc, peer)) in PairsIn(Reported(table, IDs(nodes), nodes))
  {
    assert Oriented(rpc, peer) in ReportedBy(IDs(nodes), rpc, RPCPeers(table, rpc.url));
    assert Oriented(rpc, peer) in Reported(table, IDs(nodes), nodes);
  }

  /** The two connections run together into one key, so every graph of this table lacks one of them. */
  lemma ClashingKeysLoseAnEdge(conns: seq<Conn>)
    requires var nodes := ClashNodes(); Keeps(conns, Reported(CLASH_TABLE, IDs(nodes), nodes))
    ensures var nodes := ClashNodes(); PairsOf(conns) != PairsIn(Reported(CLASH_TABLE, IDs(nodes), nodes))
  {
    var nodes := ClashNodes();
    var p, q: Pair := ("a", "bc"), ("ab", "c");
    ClashReported();
    assert ConnKey(p) == "abc" == ConnKey(q);
    assert p.0 != q.0;
    EdgesExactIff(conns, Reported(CLASH_TABLE, IDs(nodes), nodes));
  }

  /** The run itself: the graph computed from this table lacks a reported edge. */
  method ComputeClash() returns (g: Graph)
    ensures fresh(g)
    ensures var nodes := ClashNodes(); PairsOf(g.conns) != PairsIn(Reported(CLASH_TABLE, IDs(nodes), nodes))
  {
    g := ComputeTopology(CLASH_TABLE, CLASH_KNOWN, CLASH_REQUEST);
    ClashingKeysLoseAnEdge(g.conns);
  }
}
