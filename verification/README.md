# Auction ledger and peer gossip of a peer-to-peer auction node

This project models the core of the auction node in `server.js`. The node keeps an
in-memory ledger `item → {price, highestBid, closed}` and answers three RPC
requests. `openAuction` creates an entry. `makeBid` raises the leading bid.
`closeAuction` closes an item once and reports the winner. After each state
change the node gossips a notification to every peer on its list, one call per
peer, and ignores failed calls.

Layout:

- `ledger.dfy` (module `Ledger`): the ledger, the three handlers as pure steps
  `Auctions × request → (Auctions, Response, notifications)`, runs of requests,
  and the lifecycle lemmas.
- `peers.dfy` (module `Peers`): the peer list (`AddPeer`) and the fan-out of
  one notification (`FanOut`, and `NotifyPeers` as the loop). The transport is
  abstract.
- `server.dfy` (module `Server`): a node is a ledger plus a peer list.
  `Handle` applies one ledger step and then fans out its notification.

The model follows the code as written:

- Closing is not restricted to the opener. The requester's name is only logged.
- Prices and bid amounts are not validated.
- The fan-out calls every listed peer, the requester included. It never removes
  a peer whose call failed.
- A bid that does not beat the leader is still answered "Bid placed" with the
  offered amount. It changes nothing and gossips nothing.
- `addPeer` is defined in `server.js` but never registered as a handler. No
  request of the node therefore changes its peer list. `AddPeer` is modelled on
  its own.
- `server.js:27` starts the peer list empty, and nothing calls `addPeer`, so as
  written every fan-out walks an empty list. A `Server.Node` starts from an
  arbitrary peer list, which generalises this; every lemma holds for `[]` too.
- Peer identities are byte strings compared by value. In the source, `addPeer`
  tests membership with `peers.includes`, which compares `Buffer` objects by
  reference. Value equality is an abstraction of that.

## Model

| member | source | states |
|---|---|---|
| Ledger.OpenAuction | server.js:49-64 | Fails with "Auction for this item already exists" exactly when the key exists, open or closed, and then changes nothing. Otherwise it adds only that key, as `{price, no bid, open}`, leaves every other key alone, answers `Opened(item)` and gossips `newAuction`. |
| Ledger.MakeBid | server.js:67-84 | Fails with "Auction not available" exactly when the item is missing or closed, and then changes nothing. Otherwise it always answers "Bid placed" with the offered amount. The leader becomes this bid and `newBid` is gossiped iff there was no leader or the amount is strictly higher. Otherwise the ledger is unchanged and nothing is gossiped. |
| Ledger.CloseAuction | server.js:87-107 | Fails with "Auction not available or already closed" exactly when the item is missing or closed, and then changes nothing. Otherwise it sets only `closed` and answers with the leader's bidder and amount, or "No Winner" and 0. The same values are gossiped. Nobody's authority is checked. |
| Ledger.StepProperties | server.js:49-107 | For every request, a rejected request changes nothing and gossips nothing. At most one notification is produced, and exactly when the ledger changed. The ledger only moves forward: keys kept, prices fixed, leading amount not lowered, closed auctions frozen. |
| Ledger.RunEvolves | server.js:49-107 | Over any sequence of requests, no key disappears, no price changes, no leading amount decreases and no closed auction changes. |
| Ledger.KeyNeverReused | server.js:53-55 | Once a key exists, opening it again after any further requests is rejected and changes nothing. |
| Ledger.ClosedIsFinal | server.js:71-93 | A closed auction stays identical after any requests. Every later bid or close on it is rejected without effect. |
| Ledger.ReportedOutcomeStable | server.js:91-105 | The winner and amount reported by a successful close remain the auction's outcome after any later requests. |
| Ledger.VaseScenario | server.js:49-107 | A concrete trace: open at 10, bid 15 leads, bid 12 is answered but ignored, close reports 15, then a bid and a re-open are refused. |
| Ledger.BidRunTracksMaximum | server.js:75-81 | Across any sequence of bids on an open item, the item stays open at its price and the leading amount never decreases. No offered amount exceeds the final leader. A new leader is the earliest bid with the maximum amount, strictly above the previous leader. |
| Peers.AddPeer | server.js:31-36 | Keeps the existing list as a prefix and grows it by one iff the identity was new. Lists exactly the old members plus the identity. Keeps a duplicate-free list duplicate-free. |
| Peers.AddPeerIdempotent | server.js:31-35 | Adding the same identity twice gives the same list as adding it once. |
| Peers.AddPeersKeepsRegistry | server.js:31-36 | Any sequence of additions keeps the list duplicate-free and only appends. The list holds exactly the identities it started with plus those added. |
| Peers.FanOut | server.js:38-46 | One call per listed peer, in list order, each carrying the notification and the transport's outcome for that peer. Failures do not shorten it. |
| Peers.NotifyPeers | server.js:38-46 | The loop makes exactly the calls of `FanOut`: one per peer, in order. A failed call is absorbed and the loop continues. |
| Peers.FanOutIgnoresFailures | server.js:39-45 | Under any two transports, the same peers get the same notification in the same order. Only the recorded outcomes differ. |
| Server.Handle | server.js:49-107 | Leaves the peer list unchanged and moves the ledger and answers as the ledger step does. A rejected request makes no calls. When the step produces a notification, the calls are exactly `FanOut` of it over the peer list: every peer once, in order. When peers exist, calls are made iff the ledger changed. |
| Server.ServeFollowsLedger | server.js:27-107 | Over any sequence of requests and any transport, the peer list never changes. The ledger equals the ledger-only run and only evolves forward. |
| Server.HandleIgnoresTransport | server.js:38-107 | The new node and the response do not depend on the transport's answers. Neither do the peers called or the notification sent. |

## Left out

- Hypercore/Hyperbee storage (server.js:15-17): it is opened but never read or written.
- DHT and RPC construction, listening and the real transport (server.js:19-25, 127-128): the transport is an abstract total function `PeerId -> Outcome`.
- The transport is one function of the identity for a whole `Server.Serve` run: a peer's outcome is the same in every fan-out, and a peer listed twice gets the same outcome twice. Outcomes never reach the ledger, the peer list or the response (`Server.HandleIgnoresTransport`), so nothing the model promises depends on this.
- JSON and Buffer encoding of requests and responses, and all console output.
- The inbound gossip handlers `newAuction`, `newBid` and `auctionClosed` (server.js:109-125): they only log and answer "OK". They never touch the ledger.
- Asynchronous interleaving of concurrent handlers: each handler is one atomic step, and the fan-out finishes before the response.
- JavaScript number semantics (floats, NaN, `undefined > x`): prices and amounts are unbounded integers.
- JavaScript object-key behaviour: inherited keys such as `"constructor"` reading as present in `{}`, and the coercion of `auctions[item]` to a string key (so `1` and `"1"` are one key and a missing item becomes `"undefined"`, while `Opened(item)` echoes the value as sent). The ledger is a plain map keyed by strings.
- The unused `bids` object (server.js:29).
- The client's `clientName` field versus the server's `bidder` field (server.js:69): the bidder is a plain parameter of the bid request.
- client.js: interactive prompting and printing, with no state rules.
