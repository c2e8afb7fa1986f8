/** The peer list of a node and the fan-out that gossips one notification to
    every listed peer. The transport is abstract: a total function giving the
    outcome of a call to a peer. Identities are values compared by equality,
    an abstraction of the byte buffers the node keeps. */
module Peers {

  /** A peer's public key. */
  datatype PeerId = PeerId(key: seq<bv8>)

  /** What the transport reports for one outbound call. The reason only
      stands for the error that the fan-out logs; nothing reads it. */
  datatype Outcome = Delivered | Failed(reason: string)

  /** One outbound call made during a fan-out, with its outcome. */
  datatype Call<N> = Call(peer: PeerId, notice: N, outcome: Outcome)

  predicate NoDuplicates(peers: seq<PeerId>) {
    forall i, j :: 0 <= i < j < |peers| ==> peers[i] != peers[j]
  }

  /** Registers `p` at the end of the list unless it is already listed. */
  function AddPeer(peers: seq<PeerId>, p: PeerId): (r: seq<PeerId>)
    ensures |r| == |peers| + (if p in peers then 0 else 1)
    ensures r[..|peers|] == peers
    ensures forall q :: q in r <==> q in peers || q == p
    ensures NoDuplicates(peers) ==> NoDuplicates(r)
  {
    if p in peers then peers else peers + [p]
  }

  /** Registering the same identity twice is the same as once. */
  lemma AddPeerIdempotent(peers: seq<PeerId>, p: PeerId)
    ensures AddPeer(AddPeer(peers, p), p) == AddPeer(peers, p)
  {
  }

  /** The list after registering `ps` one after another. */
  function AddPeers(peers: seq<PeerId>, ps: seq<PeerId>): seq<PeerId>
    decreases |ps|
  {
    if |ps| == 0 then peers else AddPeer(AddPeers(peers, ps[..|ps| - 1]), ps[|ps| - 1])
  }

  /** Any sequence of registrations keeps the list duplicate-free, only
      appends, and lists exactly the identities seen so far. */
  lemma {:induction false} AddPeersKeepsRegistry(peers: seq<PeerId>, ps: seq<PeerId>)
    requires NoDuplicates(peers)
    ensures var r := AddPeers(peers, ps);
      && NoDuplicates(r)
      && |peers| <= |r| && r[..|peers|] == peers
      && forall q :: q in r <==> q in peers || q in ps
    decreases |ps|
  {
    if |ps| > 0 {
      var init := ps[..|ps| - 1];
      var prev := AddPeers(peers, init);
      AddPeersKeepsRegistry(peers, init);
      var r := AddPeer(prev, ps[|ps| - 1]);
      assert r[..|prev|] == prev;
      assert r[..|peers|] == prev[..|peers|];
      assert forall q :: q in ps <==> q in init || q == ps[|ps| - 1] by {
        assert ps == init + [ps[|ps| - 1]];
      }
    }
  }

  /** The calls made when `notice` is gossiped: exactly one per listed peer,
      in list order, each with the outcome the transport gives it. A failed
      call does not end the fan-out. */
  function FanOut<N>(peers: seq<PeerId>, notice: N, transport: PeerId -> Outcome): (calls: seq<Call<N>>)
    ensures |calls| == |peers|
    ensures forall i :: 0 <= i < |calls| ==>
      calls[i].peer == peers[i] && calls[i].notice == notice && calls[i].outcome == transport(peers[i])
    decreases |peers|
  {
    if |peers| == 0 then []
    else
      var last := peers[|peers| - 1];
      FanOut(peers[..|peers| - 1], notice, transport) + [Call(last, notice, transport(last))]
  }

  /** The loop that walks the list: each call's failure is caught and the
      loop goes on with the next peer; the list itself is only read. */
  method NotifyPeers<N>(peers: seq<PeerId>, notice: N, transport: PeerId -> Outcome)
    returns (calls: seq<Call<N>>)
    ensures |calls| == |peers|
    ensures forall i :: 0 <= i < |calls| ==>
      calls[i].peer == peers[i] && calls[i].notice == notice && calls[i].outcome == transport(peers[i])
    ensures calls == FanOut(peers, notice, transport)
  {
    calls := [];
    var i := 0;
    while i < |peers|
      invariant 0 <= i <= |peers|
      invariant |calls| == i
      invariant forall k :: 0 <= k < i ==>
        calls[k].peer == peers[k] && calls[k].notice == notice && calls[k].outcome == transport(peers[k])
    {
      var outcome := transport(peers[i]);
      calls := calls + [Call(peers[i], notice, outcome)];
      i := i + 1;
    }
  }

  /** Whatever the transport answers, the same peers are called in the same
      order with the same notification: failures change only the outcomes. */
  lemma FanOutIgnoresFailures<N>(peers: seq<PeerId>, notice: N, t1: PeerId -> Outcome, t2: PeerId -> Outcome)
    ensures var c1 := FanOut(peers, notice, t1);
      var c2 := FanOut(peers, notice, t2);
      && |c1| == |c2|
      && forall i :: 0 <= i < |c1| ==> c1[i].peer == c2[i].peer && c1[i].notice == c2[i].notice
  {
  }
}
