/** The peer table, and the explicit-stack crawl that collects every node within a distance. */
module Crawl {
  import opened Int64

  datatype RPC = RPC(id: string, ip: string, url: string, moniker: string,
                     validatorAddress: string, validatorMoniker: string)

  datatype ConnectionStatus = ConnectionStatus(sendAvgRate: int64, recvAvgRate: int64)

  /** A peer as a node reports it; `url` is the RPC address derived from its remote IP. */
  datatype Peer = Peer(nodeID: string, moniker: string, remoteIP: string, url: string,
                       isOutbound: bool, connectionStatus: ConnectionStatus)

  type PeerTable = map<string, seq<Peer>>

  function NewRPCFromPeer(p: Peer): RPC {
    RPC(p.nodeID, p.remoteIP, p.url, p.moniker, "", "")
  }

  function RPCPeers(table: PeerTable, url: string): seq<Peer> {
    if url in table then table[url] else []
  }

  /** The rate test, with both conversions to uint64 and their sum reduced modulo 2^64. */
  predicate FastEnough(p: Peer, minBytesSec: uint64) {
    (p.connectionStatus.sendAvgRate % TWO64 + p.connectionStatus.recvAvgRate % TWO64) % TWO64 >= minBytesSec
  }

  /** The test compares send+recv with the minimum, except that a negative rate sum passes as a huge
      number unless the minimum is even larger. */
  lemma FastEnoughIff(p: Peer, minBytesSec: uint64)
    ensures var rate := p.connectionStatus.sendAvgRate + p.connectionStatus.recvAvgRate;
            (FastEnough(p, minBytesSec) <==> rate >= minBytesSec) <==> (rate >= 0 || rate + TWO64 < minBytesSec)
  {
    var s, r := p.connectionStatus.sendAvgRate, p.connectionStatus.recvAvgRate;
    assert s % TWO64 == if s < 0 then s + TWO64 else s;
    assert r % TWO64 == if r < 0 then r + TWO64 else r;
  }

  // ----- what the crawl should find

  /** `b` is a peer that `a` reports with a sufficient rate. */
  ghost predicate Edge(table: PeerTable, minBytesSec: uint64, a: RPC, b: RPC) {
    exists p :: p in RPCPeers(table, a.url) && FastEnough(p, minBytesSec) && b == NewRPCFromPeer(p)
  }

  /** Read literally: the node at the URL of `a` lists a peer with the ID, address, URL and name of `b`, and
      its rate passes, where a negative sum counts as 2^64 more. */
  lemma EdgeIs(table: PeerTable, minBytesSec: uint64, a: RPC, b: RPC)
    ensures Edge(table, minBytesSec, a, b) <==>
              a.url in table && exists p ::
                && p in table[a.url] && b == RPC(p.nodeID, p.remoteIP, p.url, p.moniker, "", "")
                && var rate := p.connectionStatus.sendAvgRate + p.connectionStatus.recvAvgRate;
                   (if rate < 0 then rate + TWO64 else rate) >= minBytesSec
  {
    forall p | p in RPCPeers(table, a.url)
      ensures var rate := p.connectionStatus.sendAvgRate + p.connectionStatus.recvAvgRate;
              FastEnough(p, minBytesSec) <==> (if rate < 0 then rate + TWO64 else rate) >= minBytesSec
    {
      FastEnoughIff(p, minBytesSec);
    }
  }

  ghost predicate IsWalk(table: PeerTable, minBytesSec: uint64, w: seq<RPC>) {
    w != [] && forall i :: 0 <= i < |w| - 1 ==> Edge(table, minBytesSec, w[i], w[i + 1])
  }

  /** `x` is reached from `home` by a walk of at most `k` edges. */
  ghost predicate Reachable(table: PeerTable, minBytesSec: uint64, home: RPC, x: RPC, k: nat) {
    exists w :: IsWalk(table, minBytesSec, w) && w[0] == home && w[|w| - 1] == x && |w| <= k + 1
  }

  // ----- the crawl

  datatype StackItem = StackItem(node: RPC, depth: uint64)

  /** Visited nodes and what the stack will still reach make up the whole result. */
  ghost predicate CrawlInvariant(table: PeerTable, minBytesSec: uint64, home: RPC, k: uint64,
                                 visited: set<RPC>, stack: seq<StackItem>) {
    && (forall item :: item in stack ==> item.depth <= k)
    && visited + StackReach(table, minBytesSec, stack, k) == Within(table, minBytesSec, home, k)
  }

  method StackBasedCrawl(table: PeerTable, homeNode: RPC, crawlDistance: uint64, minBytesSec: uint64)
    returns (visited: set<RPC>)
    ensures forall x :: x in visited <==> Reachable(table, minBytesSec, homeNode, x, crawlDistance)
    ensures visited == Within(table, minBytesSec, homeNode, crawlDistance)
  {
    visited := {homeNode};
    var stack := [StackItem(homeNode, 0)];
    while |stack| > 0
      invariant CrawlInvariant(table, minBytesSec, homeNode, crawlDistance, visited, stack)
      decreases StackWork(table, minBytesSec, stack, crawlDistance)
    {
      visited, stack := VisitTop(table, homeNode, crawlDistance, minBytesSec, visited, stack);
    }
    WithinIsReachable(table, minBytesSec, homeNode, crawlDistance);
  }

  /** One turn of the loop: pop, mark visited, and push the children unless the distance is used up. */
  method VisitTop(table: PeerTable, ghost homeNode: RPC, crawlDistance: uint64, minBytesSec: uint64,
                  visited: set<RPC>, stack: seq<StackItem>)
    returns (visited': set<RPC>, stack': seq<StackItem>)
    requires stack != [] && CrawlInvariant(table, minBytesSec, homeNode, crawlDistance, visited, stack)
    ensures CrawlInvariant(table, minBytesSec, homeNode, crawlDistance, visited', stack')
    ensures StackWork(table, minBytesSec, stack', crawlDistance) < StackWork(table, minBytesSec, stack, crawlDistance)
    ensures var item, rest := stack[|stack| - 1], stack[..|stack| - 1];
            && visited' == visited + {item.node}
            && stack' == if item.depth >= crawlDistance then rest
                         else rest + Pushed(RPCPeers(table, item.node.url), minBytesSec, item.depth + 1)
  {
    var item := stack[|stack| - 1];
    var rest := stack[..|stack| - 1];
    assert stack == rest + [item] && item in stack;
    visited' := visited + {item.node};
    if item.depth >= crawlDistance {
      DiscardKeeps(table, minBytesSec, homeNode, crawlDistance, visited, rest, item);
      return visited', rest;
    }
    stack' := PushPeers(rest, RPCPeers(table, item.node.url), minBytesSec, item.depth + 1);
    ExpandKeeps(table, minBytesSec, homeNode, crawlDistance, visited, rest, item);
  }

  /** Pushes every fast enough peer, visited or not: re-expansion is bounded by the depth alone. */
  method PushPeers(stack: seq<StackItem>, peers: seq<Peer>, minBytesSec: uint64, depth: uint64)
    returns (pushed: seq<StackItem>)
    ensures pushed == stack + Pushed(peers, minBytesSec, depth)
  {
    pushed := stack;
    for i := 0 to |peers|
      invariant pushed == stack + Pushed(peers[..i], minBytesSec, depth)
    {
      PushedStep(peers, i, minBytesSec, depth);
      if !FastEnough(peers[i], minBytesSec) {
        continue;
      }
      pushed := pushed + [StackItem(NewRPCFromPeer(peers[i]), depth)];
    }
    assert peers[..|peers|] == peers;
  }

  /** The stack items one expansion pushes. */
  function Pushed(peers: seq<Peer>, minBytesSec: uint64, depth: uint64): seq<StackItem> {
    if peers == [] then []
    else
      (if FastEnough(peers[0], minBytesSec) then [StackItem(NewRPCFromPeer(peers[0]), depth)] else [])
      + Pushed(peers[1..], minBytesSec, depth)
  }

  lemma {:induction false} PushedStep(peers: seq<Peer>, i: nat, minBytesSec: uint64, depth: uint64)
    requires i < |peers|
    ensures Pushed(peers[..i + 1], minBytesSec, depth) == Pushed(peers[..i], minBytesSec, depth)
      + (if FastEnough(peers[i], minBytesSec) then [StackItem(NewRPCFromPeer(peers[i]), depth)] else [])
  {
    if i == 0 {
      assert peers[..1] == [peers[0]];
    } else {
      assert peers[..i + 1][1..] == peers[1..][..i] && peers[..i][1..] == peers[1..][..i - 1];
      PushedStep(peers[1..], i - 1, minBytesSec, depth);
    }
  }

  // ----- the unfolded search tree: what is below a node, and how large it is

  function Within(table: PeerTable, minBytesSec: uint64, node: RPC, k: nat): set<RPC>
    decreases k, 0
  {
    {node} + if k == 0 then {} else WithinAny(table, minBytesSec, RPCPeers(table, node.url), k - 1)
  }

  function WithinAny(table: PeerTable, minBytesSec: uint64, peers: seq<Peer>, k: nat): set<RPC>
    decreases k, |peers|
  {
    if peers == [] then {}
    else
      (if FastEnough(peers[0], minBytesSec) then Within(table, minBytesSec, NewRPCFromPeer(peers[0]), k) else {})
      + WithinAny(table, minBytesSec, peers[1..], k)
  }

  function Work(table: PeerTable, minBytesSec: uint64, node: RPC, k: nat): nat
    decreases k, 0
  {
    1 + if k == 0 then 0 else WorkOfAll(table, minBytesSec, RPCPeers(table, node.url), k - 1)
  }

  function WorkOfAll(table: PeerTable, minBytesSec: uint64, peers: seq<Peer>, k: nat): nat
    decreases k, |peers|
  {
    if peers == [] then 0
    else
      (if FastEnough(peers[0], minBytesSec) then Work(table, minBytesSec, NewRPCFromPeer(peers[0]), k) else 0)
      + WorkOfAll(table, minBytesSec, peers[1..], k)
  }

  function StackReach(table: PeerTable, minBytesSec: uint64, stack: seq<StackItem>, crawlDistance: nat): set<RPC>
    requires forall item :: item in stack ==> item.depth <= crawlDistance
  {
    if stack == [] then {}
    else
      Within(table, minBytesSec, stack[0].node, crawlDistance - stack[0].depth)
      + StackReach(table, minBytesSec, stack[1..], crawlDistance)
  }

  function StackWork(table: PeerTable, minBytesSec: uint64, stack: seq<StackItem>, crawlDistance: nat): nat
    requires forall item :: item in stack ==> item.depth <= crawlDistance
  {
    if stack == [] then 0
    else
      Work(table, minBytesSec, stack[0].node, crawlDistance - stack[0].depth)
      + StackWork(table, minBytesSec, stack[1..], crawlDistance)
  }

  lemma {:induction false} StackAppend(table: PeerTable, minBytesSec: uint64, a: seq<StackItem>, b: seq<StackItem>,
                                       k: nat)
    requires forall item :: item in a + b ==> item.depth <= k
    ensures forall item :: item in a || item in b ==> item.depth <= k
    ensures StackReach(table, minBytesSec, a + b, k)
         == StackReach(table, minBytesSec, a, k) + StackReach(table, minBytesSec, b, k)
    ensures StackWork(table, minBytesSec, a + b, k)
         == StackWork(table, minBytesSec, a, k) + StackWork(table, minBytesSec, b, k)
  {
    assert forall item :: item in a || item in b ==> item in a + b;
    if a == [] {
      assert a + b == b;
    } else {
      assert (a + b)[1..] == a[1..] + b;
      StackAppend(table, minBytesSec, a[1..], b, k);
    }
  }

  lemma {:induction false} PushedReach(table: PeerTable, minBytesSec: uint64, peers: seq<Peer>, depth: uint64, k: nat)
    requires depth <= k
    ensures forall item :: item in Pushed(peers, minBytesSec, depth) ==> item.depth <= k
    ensures StackReach(table, minBytesSec, Pushed(peers, minBytesSec, depth), k)
         == WithinAny(table, minBytesSec, peers, k - depth)
    ensures StackWork(table, minBytesSec, Pushed(peers, minBytesSec, depth), k)
         == WorkOfAll(table, minBytesSec, peers, k - depth)
  {
    if peers != [] {
      PushedReach(table, minBytesSec, peers[1..], depth, k);
      var rest := Pushed(peers[1..], minBytesSec, depth);
      if FastEnough(peers[0], minBytesSec) {
        assert Pushed(peers, minBytesSec, depth)[1..] == rest;
      } else {
        assert Pushed(peers, minBytesSec, depth) == rest;
      }
    }
  }

  /** Replacing the top item by its children keeps what remains to be reached and shrinks the work. */
  lemma Expand(table: PeerTable, minBytesSec: uint64, base: seq<StackItem>, item: StackItem, k: uint64)
    requires item.depth < k && forall i :: i in base + [item] ==> i.depth <= k
    ensures var children := Pushed(RPCPeers(table, item.node.url), minBytesSec, item.depth + 1);
            && (forall i :: i in base + children ==> i.depth <= k)
            && {item.node} + StackReach(table, minBytesSec, base + children, k)
                 == StackReach(table, minBytesSec, base + [item], k)
            && StackWork(table, minBytesSec, base + children, k) < StackWork(table, minBytesSec, base + [item], k)
  {
    var children := Pushed(RPCPeers(table, item.node.url), minBytesSec, item.depth + 1);
    ExpandOne(table, minBytesSec, item, k);
    StackAppend(table, minBytesSec, base, [item], k);
    assert forall i :: i in base + children ==> i in base || i in children;
    StackAppend(table, minBytesSec, base, children, k);
  }

  lemma ExpandOne(table: PeerTable, minBytesSec: uint64, item: StackItem, k: uint64)
    requires item.depth < k
    ensures var children := Pushed(RPCPeers(table, item.node.url), minBytesSec, item.depth + 1);
            && (forall i :: i in children ==> i.depth <= k)
            && {item.node} + StackReach(table, minBytesSec, children, k) == StackReach(table, minBytesSec, [item], k)
            && StackWork(table, minBytesSec, children, k) < StackWork(table, minBytesSec, [item], k)
  {
    PushedReach(table, minBytesSec, RPCPeers(table, item.node.url), item.depth + 1, k);
    assert [item][1..] == [];
  }

  lemma ExpandKeeps(table: PeerTable, minBytesSec: uint64, home: RPC, k: uint64, visited: set<RPC>,
                    base: seq<StackItem>, item: StackItem)
    requires item.depth < k && CrawlInvariant(table, minBytesSec, home, k, visited, base + [item])
    ensures var children := Pushed(RPCPeers(table, item.node.url), minBytesSec, item.depth + 1);
            && CrawlInvariant(table, minBytesSec, home, k, visited + {item.node}, base + children)
            && StackWork(table, minBytesSec, base + children, k) < StackWork(table, minBytesSec, base + [item], k)
  {
    Expand(table, minBytesSec, base, item, k);
  }

  lemma DiscardKeeps(table: PeerTable, minBytesSec: uint64, home: RPC, k: uint64, visited: set<RPC>,
                     base: seq<StackItem>, item: StackItem)
    requires item.depth == k && CrawlInvariant(table, minBytesSec, home, k, visited, base + [item])
    ensures CrawlInvariant(table, minBytesSec, home, k, visited + {item.node}, base)
    ensures StackWork(table, minBytesSec, base, k) < StackWork(table, minBytesSec, base + [item], k)
  {
    Discard(table, minBytesSec, base, item, k);
  }

  /** An item at the full distance reaches itself only. */
  lemma Discard(table: PeerTable, minBytesSec: uint64, base: seq<StackItem>, item: StackItem, k: uint64)
    requires item.depth == k && forall i :: i in base + [item] ==> i.depth <= k
    ensures forall i :: i in base ==> i.depth <= k
    ensures {item.node} + StackReach(table, minBytesSec, base, k) == StackReach(table, minBytesSec, base + [item], k)
    ensures StackWork(table, minBytesSec, base, k) < StackWork(table, minBytesSec, base + [item], k)
  {
    StackAppend(table, minBytesSec, base, [item], k);
    LastLevel(table, minBytesSec, item, k);
  }

  lemma LastLevel(table: PeerTable, minBytesSec: uint64, item: StackItem, k: uint64)
    requires item.depth == k
    ensures StackReach(table, minBytesSec, [item], k) == {item.node} && StackWork(table, minBytesSec, [item], k) == 1
  {
    assert [item][1..] == [];
  }

  // ----- the tree holds exactly the reachable nodes

  lemma {:induction false} WithinAnyMember(table: PeerTable, minBytesSec: uint64, peers: seq<Peer>, k: nat, x: RPC)
    ensures x in WithinAny(table, minBytesSec, peers, k) <==>
            exists p :: p in peers && FastEnough(p, minBytesSec) &&
                        x in Within(table, minBytesSec, NewRPCFromPeer(p), k)
  {
    if peers != [] {
      WithinAnyMember(table, minBytesSec, peers[1..], k, x);
      assert peers == [peers[0]] + peers[1..];
    }
  }

  lemma WithinIsReachable(table: PeerTable, minBytesSec: uint64, home: RPC, k: nat)
    ensures forall x :: x in Within(table, minBytesSec, home, k) <==> Reachable(table, minBytesSec, home, x, k)
  {
    forall x ensures x in Within(table, minBytesSec, home, k) <==> Reachable(table, minBytesSec, home, x, k) {
      if x in Within(table, minBytesSec, home, k) {
        var w := WalkTo(table, minBytesSec, home, x, k);
      }
      if Reachable(table, minBytesSec, home, x, k) {
        var w :| IsWalk(table, minBytesSec, w) && w[0] == home && w[|w| - 1] == x && |w| <= k + 1;
        WalkStaysWithin(table, minBytesSec, w, k);
      }
    }
  }

  lemma {:induction false} WalkTo(table: PeerTable, minBytesSec: uint64, home: RPC, x: RPC, k: nat)
    returns (w: seq<RPC>)
    requires x in Within(table, minBytesSec, home, k)
    ensures IsWalk(table, minBytesSec, w) && w[0] == home && w[|w| - 1] == x && |w| <= k + 1
    decreases k
  {
    if x == home {
      w := [home];
    } else {
      var peers := RPCPeers(table, home.url);
      WithinAnyMember(table, minBytesSec, peers, k - 1, x);
      var p :| p in peers && FastEnough(p, minBytesSec) && x in Within(table, minBytesSec, NewRPCFromPeer(p), k - 1);
      var rest := WalkTo(table, minBytesSec, NewRPCFromPeer(p), x, k - 1);
      w := [home] + rest;
      assert Edge(table, minBytesSec, home, NewRPCFromPeer(p));
    }
  }

  lemma {:induction false} WalkStaysWithin(table: PeerTable, minBytesSec: uint64, w: seq<RPC>, k: nat)
    requires IsWalk(table, minBytesSec, w) && |w| <= k + 1
    ensures w[|w| - 1] in Within(table, minBytesSec, w[0], k)
    decreases k
  {
    if |w| > 1 {
      assert Edge(table, minBytesSec, w[0], w[1]);
      var p :| p in RPCPeers(table, w[0].url) && FastEnough(p, minBytesSec) && w[1] == NewRPCFromPeer(p);
      assert IsWalk(table, minBytesSec, w[1..]) by {
        forall i | 0 <= i < |w| - 2 ensures Edge(table, minBytesSec, w[1..][i], w[1..][i + 1]) {
          assert Edge(table, minBytesSec, w[i + 1], w[i + 2]);
        }
      }
      WalkStaysWithin(table, minBytesSec, w[1..], k - 1);
      WithinAnyMember(table, minBytesSec, RPCPeers(table, w[0].url), k - 1, w[|w| - 1]);
    }
  }

  /** A larger distance or a smaller minimum rate never loses a node. */
  lemma CrawlMonotone(table: PeerTable, home: RPC, min: uint64, min': uint64, k: nat, k': nat)
    requires k <= k' && min' <= min
    ensures Within(table, min, home, k) <= Within(table, min', home, k')
  {
    forall x | x in Within(table, min, home, k) ensures x in Within(table, min', home, k') {
      var w := WalkTo(table, min, home, x, k);
      assert IsWalk(table, min', w) by {
        forall i | 0 <= i < |w| - 1 ensures Edge(table, min', w[i], w[i + 1]) {
          assert Edge(table, min, w[i], w[i + 1]);
        }
      }
      WalkStaysWithin(table, min', w, k');
    }
  }

  // ----- in terms of the rates themselves

  function Rate(p: Peer): int {
    p.connectionStatus.sendAvgRate + p.connectionStatus.recvAvgRate
  }

  /** A peer that reports a negative rate is crawled although the minimum is 1000. */
  lemma NegativeRatePasses()
    ensures var p := Peer("id", "", "", "http://p", true, ConnectionStatus(-1, 0));
            Rate(p) < 1000 && FastEnough(p, 1000)
  {
    FastEnoughIff(Peer("id", "", "", "http://p", true, ConnectionStatus(-1, 0)), 1000);
  }

  ghost predicate NonNegativeRates(table: PeerTable) {
    forall url, p :: url in table && p in table[url] ==> Rate(p) >= 0
  }

  ghost predicate RateEdge(table: PeerTable, minBytesSec: uint64, a: RPC, b: RPC) {
    exists p :: p in RPCPeers(table, a.url) && Rate(p) >= minBytesSec && b == NewRPCFromPeer(p)
  }

  ghost predicate IsRateWalk(table: PeerTable, minBytesSec: uint64, w: seq<RPC>) {
    w != [] && forall i :: 0 <= i < |w| - 1 ==> RateEdge(table, minBytesSec, w[i], w[i + 1])
  }

  /** On a table without negative rates the crawl finds exactly the nodes reached by a walk of at most k
      edges whose send+recv rate is at least the minimum. */
  lemma WithinByRate(table: PeerTable, minBytesSec: uint64, home: RPC, x: RPC, k: nat)
    requires NonNegativeRates(table)
    ensures x in Within(table, minBytesSec, home, k)
       <==> exists w :: IsRateWalk(table, minBytesSec, w) && w[0] == home && w[|w| - 1] == x && |w| <= k + 1
  {
    WithinIsReachable(table, minBytesSec, home, k);
    forall w ensures IsWalk(table, minBytesSec, w) <==> IsRateWalk(table, minBytesSec, w) {
      SameWalks(table, minBytesSec, w);
    }
  }

  lemma SameWalks(table: PeerTable, minBytesSec: uint64, w: seq<RPC>)
    requires NonNegativeRates(table)
    ensures IsWalk(table, minBytesSec, w) <==> IsRateWalk(table, minBytesSec, w)
  {
    forall i | 0 <= i < |w| - 1
      ensures Edge(table, minBytesSec, w[i], w[i + 1]) <==> RateEdge(table, minBytesSec, w[i], w[i + 1])
    {
      SameEdges(table, minBytesSec, w[i], w[i + 1]);
    }
  }

  lemma SameEdges(table: PeerTable, minBytesSec: uint64, a: RPC, b: RPC)
    requires NonNegativeRates(table)
    ensures Edge(table, minBytesSec, a, b) <==> RateEdge(table, minBytesSec, a, b)
  {
    forall p | p in RPCPeers(table, a.url) ensures FastEnough(p, minBytesSec) <==> Rate(p) >= minBytesSec {
      FastEnoughIff(p, minBytesSec);
    }
  }
}
