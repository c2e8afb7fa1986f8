/** A node: its auction ledger and its peer list, and the request handler
    that applies one ledger step and then gossips the resulting notification
    to every listed peer before answering. */
module Server {
  import opened Ledger
  import opened Peers

  datatype Node = Node(auctions: Auctions, peers: seq<PeerId>)

  /** What handling one request produces: the new node, the response to the
      caller, and the outbound gossip calls in the order they were made. */
  datatype Reply = Reply(node: Node, response: Response, calls: seq<Call<Notification>>)

  /** Handles one request atomically. The response never depends on how the
      gossip calls fared, and no call outcome removes a peer: the list is
      only read. Every listed peer is called, including the requester. */
  function Handle(n: Node, req: Request, transport: PeerId -> Outcome): (r: Reply)
    ensures r.node.peers == n.peers
    ensures r.node.auctions == Apply(n.auctions, req).auctions
    ensures r.response == Apply(n.auctions, req).response
    ensures r.response.Failure? ==> r.node == n && r.calls == []
    ensures r.calls == [] || |r.calls| == |n.peers|
    ensures r.calls != [] ==> Apply(n.auctions, req).notices == [r.calls[0].notice]
    ensures Apply(n.auctions, req).notices != [] ==>
      r.calls == FanOut(n.peers, Apply(n.auctions, req).notices[0], transport)
    ensures forall i :: 0 <= i < |r.calls| ==>
      && r.calls[i].peer == n.peers[i]
      && r.calls[i].notice == r.calls[0].notice
      && r.calls[i].outcome == transport(n.peers[i])
    ensures |n.peers| > 0 ==> (r.calls != [] <==> r.node.auctions != n.auctions)
  {
    var s := Apply(n.auctions, req);
    StepProperties(n.auctions, req);
    var calls := if s.notices == [] then [] else FanOut(n.peers, s.notices[0], transport);
    Reply(Node(s.auctions, n.peers), s.response, calls)
  }

  /** The node after handling `reqs` one after another. */
  function Serve(n: Node, reqs: seq<Request>, transport: PeerId -> Outcome): Node
    decreases |reqs|
  {
    if |reqs| == 0 then n else Handle(Serve(n, reqs[..|reqs| - 1], transport), reqs[|reqs| - 1], transport).node
  }

  /** Serving any sequence of requests leaves the peer list as it was and
      moves the ledger exactly as the ledger steps alone would, whatever the
      transport answered; so the ledger only evolves forward. */
  lemma {:induction false} ServeFollowsLedger(n: Node, reqs: seq<Request>, transport: PeerId -> Outcome)
    ensures var m := Serve(n, reqs, transport);
      && m.peers == n.peers
      && m.auctions == Run(n.auctions, reqs)
      && Evolves(n.auctions, m.auctions)
    decreases |reqs|
  {
    if |reqs| > 0 {
      ServeFollowsLedger(n, reqs[..|reqs| - 1], transport);
    }
    RunEvolves(n.auctions, reqs);
  }

  /** Two transports that answer differently lead to the same node and the
      same response, and to calls to the same peers with the same
      notification: a failing peer neither stops the fan-out nor alters state. */
  lemma HandleIgnoresTransport(n: Node, req: Request, t1: PeerId -> Outcome, t2: PeerId -> Outcome)
    ensures var r1 := Handle(n, req, t1);
      var r2 := Handle(n, req, t2);
      && r1.node == r2.node
      && r1.response == r2.response
      && |r1.calls| == |r2.calls|
      && forall i :: 0 <= i < |r1.calls| ==>
           r1.calls[i].peer == r2.calls[i].peer && r1.calls[i].notice == r2.calls[i].notice
  {
    var s := Apply(n.auctions, req);
    if s.notices != [] {
      FanOutIgnoresFailures(n.peers, s.notices[0], t1, t2);
    }
  }
}
