/** The auction ledger of one node: a map from item name to its auction, and
    the three request handlers that drive it (open, bid, close). Every handler
    is an atomic, pure step returning the new ledger, the response sent back
    to the caller and the notifications to gossip to peers (at most one).

    Prices and amounts are unbounded integers; the handlers validate neither. */
module Ledger {

  datatype Option<+T> = None | Some(value: T)

  /** The current leading offer on an item. */
  datatype Bid = Bid(bidder: string, amount: int)

  /** One entry of the ledger: starting price, leading offer (none until the
      first bid) and whether the auction has been closed. */
  datatype Auction = Auction(price: int, highestBid: Option<Bid>, closed: bool)

  type Auctions = map<string, Auction>

  /** The reply envelope: the three success shapes, whose status texts are
      "Auction opened", "Bid placed" and "Auction closed", and the error shape. */
  datatype Response =
    | Opened(item: string)
    | BidPlaced(item: string, amount: int)
    | Closed(winner: string, amount: int)
    | Failure(error: string)

  /** The events gossiped to peers after a state change. */
  datatype Notification =
    | NewAuction(item: string, price: int, clientName: string)
    | NewBid(item: string, bidder: string, amount: int)
    | AuctionClosed(item: string, winner: string, amount: int, clientName: string)

  /** The outcome of one handler: new ledger, response, notifications. */
  datatype Step = Step(auctions: Auctions, response: Response, notices: seq<Notification>)

  const AlreadyExists := "Auction for this item already exists"
  const NotAvailable := "Auction not available"
  const NotAvailableOrClosed := "Auction not available or already closed"
  const NoWinner := "No Winner"

  /** An item that exists and has not been closed accepts bids and a close. */
  predicate Available(a: Auctions, item: string) {
    item in a && !a[item].closed
  }

  /** A bid of `amount` takes the lead when there is no leader yet or it is
      strictly above the leading amount; ties keep the earlier bid. */
  predicate Improves(current: Option<Bid>, amount: int) {
    current.None? || amount > current.value.amount
  }

  /** `a` and `b` agree on every key other than `item`. */
  predicate SameElsewhere(a: Auctions, b: Auctions, item: string) {
    && a.Keys - {item} == b.Keys - {item}
    && forall k :: k in a && k != item ==> k in b && b[k] == a[k]
  }

  /** The (winner, amount) pair that closing `au` reports. */
  function Report(au: Auction): (string, int) {
    match au.highestBid
    case Some(b) => (b.bidder, b.amount)
    case None => (NoWinner, 0)
  }

  /** Opening an item: rejected when the key already exists, whether that
      auction is open or closed; otherwise a fresh entry with no bid. */
  function OpenAuction(a: Auctions, item: string, price: int, clientName: string): (s: Step)
    ensures s.response.Failure? <==> item in a
    ensures item in a ==> s == Step(a, Failure(AlreadyExists), [])
    ensures item !in a ==>
      && s.auctions.Keys == a.Keys + {item}
      && SameElsewhere(a, s.auctions, item)
      && s.auctions[item] == Auction(price, None, false)
      && s.response == Opened(item)
      && s.notices == [NewAuction(item, price, clientName)]
  {
    if item in a then
      Step(a, Failure(AlreadyExists), [])
    else
      Step(a[item := Auction(price, None, false)], Opened(item), [NewAuction(item, price, clientName)])
  }

  /** Bidding: rejected on a missing or closed item. On an available item the
      response is always "Bid placed" with the offered amount, but the leader
      changes, and a notification is produced, only on a strict improvement. */
  function MakeBid(a: Auctions, item: string, bidder: string, amount: int): (s: Step)
    ensures s.response.Failure? <==> !Available(a, item)
    ensures !Available(a, item) ==> s == Step(a, Failure(NotAvailable), [])
    ensures Available(a, item) ==>
      && s.response == BidPlaced(item, amount)
      && s.auctions.Keys == a.Keys
      && SameElsewhere(a, s.auctions, item)
      && s.auctions[item].price == a[item].price
      && !s.auctions[item].closed
      && (Improves(a[item].highestBid, amount) ==>
            && s.auctions[item].highestBid == Some(Bid(bidder, amount))
            && s.notices == [NewBid(item, bidder, amount)])
      && (!Improves(a[item].highestBid, amount) ==> s.auctions == a && s.notices == [])
  {
    if !Available(a, item) then
      Step(a, Failure(NotAvailable), [])
    else if Improves(a[item].highestBid, amount) then
      Step(a[item := a[item].(highestBid := Some(Bid(bidder, amount)))],
           BidPlaced(item, amount), [NewBid(item, bidder, amount)])
    else
      Step(a, BidPlaced(item, amount), [])
  }

  /** Closing: rejected on a missing or already-closed item; otherwise the
      closed flag is set and nothing else, and the leader (or "No Winner"
      with amount 0) is reported. The requester is not checked against the
      opener: anyone may close. */
  function CloseAuction(a: Auctions, item: string, clientName: string): (s: Step)
    ensures s.response.Failure? <==> !Available(a, item)
    ensures !Available(a, item) ==> s == Step(a, Failure(NotAvailableOrClosed), [])
    ensures Available(a, item) ==>
      && s.auctions.Keys == a.Keys
      && SameElsewhere(a, s.auctions, item)
      && s.auctions[item].closed
      && s.auctions[item].price == a[item].price
      && s.auctions[item].highestBid == a[item].highestBid
      && (a[item].highestBid.Some? ==>
            s.response == Closed(a[item].highestBid.value.bidder, a[item].highestBid.value.amount))
      && (a[item].highestBid.None? ==> s.response == Closed(NoWinner, 0))
      && s.notices == [AuctionClosed(item, s.response.winner, s.response.amount, clientName)]
  {
    if !Available(a, item) then
      Step(a, Failure(NotAvailableOrClosed), [])
    else
      var closed := a[item].(closed := true);
      var (winner, amount) := Report(closed);
      Step(a[item := closed], Closed(winner, amount), [AuctionClosed(item, winner, amount, clientName)])
  }

  /** The three inbound requests that touch the ledger. */
  datatype Request =
    | OpenRequest(item: string, price: int, clientName: string)
    | BidRequest(item: string, bidder: string, amount: int)
    | CloseRequest(item: string, clientName: string)

  function Apply(a: Auctions, req: Request): Step {
    match req
    case OpenRequest(item, price, clientName) => OpenAuction(a, item, price, clientName)
    case BidRequest(item, bidder, amount) => MakeBid(a, item, bidder, amount)
    case CloseRequest(item, clientName) => CloseAuction(a, item, clientName)
  }

  /** The ledger after handling `reqs` one after another. */
  function Run(a: Auctions, reqs: seq<Request>): Auctions
    decreases |reqs|
  {
    if |reqs| == 0 then a else Apply(Run(a, reqs[..|reqs| - 1]), reqs[|reqs| - 1]).auctions
  }

  // ---------------------------------------------------------------------------
  // The ledger only ever moves forward.

  /** `after` never lowers the leading amount of `before`, and never removes it. */
  predicate BidNotLower(before: Option<Bid>, after: Option<Bid>) {
    before.Some? ==> after.Some? && before.value.amount <= after.value.amount
  }

  /** One auction may move from `x` to `y`: same price, leader not lowered,
      and a closed auction is frozen. */
  predicate AuctionEvolves(x: Auction, y: Auction) {
    && y.price == x.price
    && BidNotLower(x.highestBid, y.highestBid)
    && (x.closed ==> y == x)
  }

  /** Keys are never dropped and every auction only evolves forward. */
  predicate Evolves(a: Auctions, b: Auctions) {
    forall item :: item in a ==> item in b && AuctionEvolves(a[item], b[item])
  }

  /** Every handler: a rejected request changes nothing and gossips nothing;
      at most one notification is produced, exactly when the ledger changed;
      and the ledger only evolves forward. */
  lemma StepProperties(a: Auctions, req: Request)
    ensures var s := Apply(a, req);
      && (s.response.Failure? ==> s.auctions == a && s.notices == [])
      && |s.notices| == (if s.auctions == a then 0 else 1)
      && Evolves(a, s.auctions)
  {
    var s := Apply(a, req);
    match req
    case OpenRequest(item, _, _) =>
      if item !in a {
        assert item in s.auctions;
      }
    case BidRequest(item, bidder, amount) =>
      if Available(a, item) && Improves(a[item].highestBid, amount) {
        assert s.auctions[item].highestBid != a[item].highestBid;
      }
    case CloseRequest(item, _) =>
      if Available(a, item) {
        assert s.auctions[item].closed != a[item].closed;
      }
  }

  lemma EvolvesTransitive(a: Auctions, b: Auctions, c: Auctions)
    requires Evolves(a, b) && Evolves(b, c)
    ensures Evolves(a, c)
  {
  }

  /** Over any sequence of requests: keys are never dropped, prices never
      change, leading amounts never decrease and closed auctions never change. */
  lemma {:induction false} RunEvolves(a: Auctions, reqs: seq<Request>)
    ensures Evolves(a, Run(a, reqs))
    decreases |reqs|
  {
    if |reqs| > 0 {
      var prev := Run(a, reqs[..|reqs| - 1]);
      RunEvolves(a, reqs[..|reqs| - 1]);
      StepProperties(prev, reqs[|reqs| - 1]);
      EvolvesTransitive(a, prev, Run(a, reqs));
    }
  }

  /** A key, once opened, can never be opened again, whatever happens in
      between, including after the auction was closed. */
  lemma {:induction false} KeyNeverReused(a: Auctions, reqs: seq<Request>, item: string, price: int, clientName: string)
    requires item in a
    ensures var b := Run(a, reqs);
      OpenAuction(b, item, price, clientName) == Step(b, Failure(AlreadyExists), [])
  {
    RunEvolves(a, reqs);
  }

  /** A closed auction is terminal: no sequence of requests changes it, and
      any further bid or close on it is rejected without effect. */
  lemma {:induction false} ClosedIsFinal(a: Auctions, reqs: seq<Request>, item: string, bidder: string, amount: int, clientName: string)
    requires item in a && a[item].closed
    ensures var b := Run(a, reqs);
      && item in b && b[item] == a[item]
      && MakeBid(b, item, bidder, amount) == Step(b, Failure(NotAvailable), [])
      && CloseAuction(b, item, clientName) == Step(b, Failure(NotAvailableOrClosed), [])
  {
    RunEvolves(a, reqs);
  }

  /** Once a close succeeds, the winner and amount it reported stay the
      outcome of that auction for ever: a later close cannot alter them. */
  lemma {:induction false} ReportedOutcomeStable(a: Auctions, item: string, clientName: string, reqs: seq<Request>)
    requires Available(a, item)
    ensures var s := CloseAuction(a, item, clientName);
      var b := Run(s.auctions, reqs);
      && item in b && b[item].closed
      && s.response == Closed(Report(b[item]).0, Report(b[item]).1)
  {
    var s := CloseAuction(a, item, clientName);
    RunEvolves(s.auctions, reqs);
  }

  /** A worked trace: "vase" opened at 10; a bid of 15 leads, a later 12 is
      answered "Bid placed" but changes nothing; closing reports the 15; after
      that, bids are refused and the key cannot be opened again. */
  lemma VaseScenario()
    ensures var empty: Auctions := map[];
      var s1 := OpenAuction(empty, "vase", 10, "seller");
      var s2 := MakeBid(s1.auctions, "vase", "peer", 15);
      var s3 := MakeBid(s2.auctions, "vase", "other", 12);
      var s4 := CloseAuction(s3.auctions, "vase", "seller");
      && s2.notices == [NewBid("vase", "peer", 15)]
      && s3.response == BidPlaced("vase", 12) && s3.auctions == s2.auctions && s3.notices == []
      && s4.response == Closed("peer", 15)
      && MakeBid(s4.auctions, "vase", "peer", 20).response == Failure(NotAvailable)
      && OpenAuction(s4.auctions, "vase", 5, "seller").response == Failure(AlreadyExists)
  {
  }

  // ---------------------------------------------------------------------------
  // Bidding on one item.

  /** The ledger after the bids `bids` on `item`, handled in order. */
  function BidRun(a: Auctions, item: string, bids: seq<Bid>): Auctions
    decreases |bids|
  {
    if |bids| == 0 then a
    else
      var last := bids[|bids| - 1];
      MakeBid(BidRun(a, item, bids[..|bids| - 1]), item, last.bidder, last.amount).auctions
  }

  /** Across any sequence of bids on an open item, the item stays open with
      its price, the leading amount never decreases, and it ends at the
      maximum of everything offered: a leader exists iff one existed or some
      bid was made, no offered amount exceeds it, and a new leader is the
      earliest bid offering that maximum, strictly above the old leader. */
  lemma {:induction false} BidRunTracksMaximum(a: Auctions, item: string, bids: seq<Bid>)
    requires Available(a, item)
    ensures var b := BidRun(a, item, bids);
      && Available(b, item)
      && b[item].price == a[item].price
      && var before := a[item].highestBid;
         var after := b[item].highestBid;
         && (after.None? <==> before.None? && |bids| == 0)
         && BidNotLower(before, after)
         && (forall i :: 0 <= i < |bids| ==> after.Some? && bids[i].amount <= after.value.amount)
         && (after != before ==>
               exists j :: 0 <= j < |bids| && after == Some(bids[j])
                 && Improves(before, bids[j].amount)
                 && forall i :: 0 <= i < j ==> bids[i].amount < bids[j].amount)
    decreases |bids|
  {
    if |bids| > 0 {
      var init := bids[..|bids| - 1];
      var last := bids[|bids| - 1];
      var before := a[item].highestBid;
      var prev := BidRun(a, item, init);
      BidRunTracksMaximum(a, item, init);
      var mid := prev[item].highestBid;
      var b := BidRun(a, item, bids);
      var after := b[item].highestBid;
      assert forall i :: 0 <= i < |init| ==> bids[i] == init[i];
      if Improves(mid, last.amount) {
        assert after == Some(last);
        assert forall i :: 0 <= i < |init| ==> bids[i].amount < last.amount;
        if after != before {
          var j := |bids| - 1;
          assert after == Some(bids[j]) && Improves(before, bids[j].amount);
        }
      } else {
        assert after == mid;
        if after != before {
          var j :| 0 <= j < |init| && mid == Some(init[j])
            && Improves(before, init[j].amount)
            && forall i :: 0 <= i < j ==> init[i].amount < init[j].amount;
          assert after == Some(bids[j]);
        }
      }
    }
  }
}
