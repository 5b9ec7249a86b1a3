# Peerster and Namecoin: a verified model

The project models the node of `peer/impl` in Dafny and proves what it promises.

- **Gossip and anti-entropy** (`Gossip.dfy`, `Node.dfy`, `System.dfy`, `Accounting.dfy`,
  `AntiEntropy.dfy`, `Convergence.dfy`, `Rounds.dfy`). Each node keeps one append-only log per origin, a counter of the
  last rumor it counted, its direct peers and a routing table. `Node` is an object whose methods update
  these maps the way the source does: binary search and an in-place shift to store a rumor, a loop that
  stops at the first failing handler or acknowledgement, two passes over maps in arbitrary order to compare
  views. Every method is proved equal to a function of module `Gossip`. `System` puts N such nodes on a
  network in which every packet ever sent may be delivered any number of times, in any order, or never;
  a handler or an acknowledgement may fail at any rumor, acknowledgement timeouts may resend, and any node
  may relay. A step is one packet handled, one broadcast, one periodic status, one delayed send.
- **Budgeted search** (`Search.dfy`): one request floods the network, each node spending 1 and splitting
  the rest; requests may be lost and handled in any order; a node that could not answer does not mark the
  request as handled.
- **Content-addressed sharing** (`Sharing.dfy`, `SharingNode.dfy`): chunks, metafile, the in-memory store
  that reads an empty value as nil, and downloads whose peers reply with arbitrary bytes. The hash of
  section 6.2 of FIPS 180-4, written in the hexadecimal of section 8 of RFC 4648, is any injective function
  with non-empty values free of the separator.
- **Name ledger, chain and proof of work** (`Ledger.dfy`, `LedgerNode.dfy`, `Chain.dfy`, `Pow.dfy`) and the
  **token** (`Token.dfy`).

Random and outside choices are parameters: the random neighbor (`pick`, `onward`), the order in which a map
is iterated (`order`, `neighbors`), a random permutation (`indices`), handler and send outcomes (`outs`),
replies of peers (`replies`), the time read for each transaction (`clock`), the moment mining is told to
stop (`patience`), how far the walk after a new block has come
(`rounds`). A fetch of data may find no peer, fail before anything is sent, fail later, or get any bytes
(`replies`); fetches tried and requests sent are counted apart.

Facts of the code the model keeps, which the comments of the source do not say:

- A rumor whose handler fails stays stored but is not counted, so a stored log is as long as its counter or
  one longer. Because a later copy is then handled again, nothing is lost by it.
- A block with nonce 0 has none of its transactions applied; genesis itself has nonce 1.
- A block that fails half way keeps the names it changed (`Ledger.AppliesWholeIff` says exactly when it
  does not fail). The hash of a received block, its previous hash and its nonce are not checked, nor is the
  hash of a revealed name.
- Adding a block walks the chain from it, in the routine that listens for packets. When the stored blocks
  form a cycle that walk does not end and the node handles nothing any more; `Chain.AddNeverReturnsIff` says
  exactly when, and `Chain.FreshNodeMayNeverReturn` names a block with which it happens. A run of blocks in
  module `Ledger` goes on only after a walk that ends; what it says of the names holds from the moment the
  block is stored.
- A request for data that fails gives nil without an error, and the download goes on with it
  (`Sharing.DownloadIsGenuineIff` says exactly when the data is whole all the same).
- A transfer of tokens to oneself loses the amount (`Tokens.TransferKeepsTotalIff` says exactly when).
- The shift of a compact target wraps for an exponent byte above 34 (`Pow.TargetIsFloorIff`).
- A transaction that cannot be marshalled makes every challenge acceptable (`Pow.NoWorkIffUnmarshalable`).
  Only an expiration can fail to be written as JSON, by a year of more than four digits or a zone a day or
  more away. None such can be received: the mempool holds only transactions decoded from a message
  (peer/impl/handlers.go:580), and a time that could be decoded can be written again.
- Empty data has no round trip (`Sharing.RoundTripNeedsData`).

## Model
| member | source | states |
|---|---|---|
| GossipSystem.LogsAreSafe | peer/impl/handlers.go:211-258 | in every run over a lossy, duplicating, reordering network each node's database of an origin is a prefix, numbered 1, 2, ..., of what the origin broadcast, as long as its counter or one longer; no counter exceeds the origin's own; any two nodes agree wherever both have an entry |
| GossipSystem.StepKeeps | peer/impl/routines.go:120-136 | the invariant behind this is kept by every step of the system, and broadcast logs only grow at their end |
| GossipSystem.ProcessKeeps | peer/impl/handlers.go:211-258 | handling any rumors that were broadcast, with any pattern of failing handlers and acknowledgements, keeps a node sound and adds to its counted rumors exactly the accepted ones |
| GossipSystem.RoutesKnowExactly | peer/impl/handlers.go:236-243 | in every run the routing table has exactly self, the direct peers and the origins with a counter; self and direct peers are reached directly, everybody else through a node of the system |
| GossipAccounting.AcceptedOnceInOrder | peer/impl/handlers.go:222-234 | in every run what a node accepted of another origin is exactly sequences 1, 2, ... up to its counter, once each, in order, with the broadcast contents; of its own it accepts nothing |
| GossipAccounting.AcceptancesAreBounded | peer/impl/handlers.go:222-268 | over any run of N nodes with K broadcasts all acceptances add up to the counters for other origins and are at most K(N-1); acknowledgements sent and packets forwarded are no more, however often packets are duplicated |
| GossipAccounting.RunCounts | peer/impl/communication.go:121-144 | along any run acknowledgements and forwards stay below the acceptances, and every broadcast lengthens exactly one log by one |
| GossipAccounting.AcksReportTheirRumor | peer/impl/status_ack.go:128-158 | the status in an acknowledgement already counts the rumor it acknowledges; without an error there is one acknowledgement for each accepted rumor |
| AntiEntropy.CompareIsExact | peer/impl/status_ack.go:162-212 | in a sound node the code is 4 iff the views agree with absent read as 0, else says who is ahead somewhere; the missing map holds exactly the origins where the local node is ahead, each with exactly the sequences the remote lacks, in order |
| AntiEntropy.AnswersPair | peer/impl/status_ack.go:200-211 | run at both ends the answers pair: 1 with 2, 3 with 3, 4 with 4 |
| AntiEntropy.QuietIffComplete | peer/impl/status_ack.go:162-212 | on a graph that connects all nodes every edge compares as 4 iff every node holds and has counted every origin's full log, with nothing stored but uncounted |
| AntiEntropy.CatchUpIsJoin | peer/impl/rumor.go:75-104 | rumors computed from an older status of b, delivered later in any origin order, make every counter of b the maximum of its own at delivery and a's at the comparison, whatever ran in between |
| AntiEntropy.RunMonotone | peer/impl/handlers.go:222-233 | no counter ever goes back |
| Convergence.Exchange | peer/impl/handlers.go:113-158 | when either of two nodes has the other as a peer, a status, its answers and the delivery of the rumors are legal steps after which the one knows all the other knows |
| Convergence.ConvergenceIsAlwaysPossible | peer/impl/heartbeat.go:30-65 | from every reachable state whose peerings connect all nodes, one-way peerings included, whatever was lost or failed, a legal continuation without broadcasts or new peers makes every node complete |
| Rounds.RoundsMakeComplete | peer/impl/handlers.go:113-158 | once nobody broadcasts, N-1 rounds, in each of which both ends of every edge of a connecting graph handle an answer to a status, make all N nodes complete, whatever was lost or failed before and whatever else happens in the rounds |
| Rounds.AnswerJoins | peer/impl/handlers.go:197-270 | in any run in which b handles what a answered to a status or acknowledgement of b, however old, b ends up knowing all that a knew at the start |
| Rounds.RunKeepsViews | peer/impl/status_ack.go:247-258 | in every run the counters a status or an acknowledgement in the network reports never exceed those of its sender |
| GossipNode.Node.StoreRumor | peer/impl/rumor.go:47-72 | binary search, growth and in-place shift compute the insertion by sequence number and keep every slice ordered |
| GossipNode.Node.Search | peer/impl/rumor.go:57-59 | the index found parts the smaller sequences from the others |
| GossipNode.Node.Shift | peer/impl/rumor.go:66-68 | the shift in place puts the rumor at its index and loses none of the others |
| Gossip.InsertFacts | peer/impl/rumor.go:57-70 | insertion keeps the order and every stored rumor, and adds the new one iff its sequence is new |
| Gossip.ArrivalOrderKeepsFirst | peer/impl/rumor.go:47-72 | for any arrival order the slice is strictly increasing and holds, for every sequence that arrived, the first message that carried it, and nothing else |
| GossipNode.Node.GetMissingRumors | peer/impl/rumor.go:75-95 | the scan that breaks at the first larger sequence returns all rumors of the range |
| GossipNode.Node.SendMissingRumors | peer/impl/rumor.go:98-134 | the rumors of all origins go out as one message to the asking node, and none when there is nothing |
| GossipNode.Node.CompareViews | peer/impl/status_ack.go:162-212 | the two passes in any map order compute the comparison that CompareIsExact describes |
| GossipNode.Node.CreateStatusMessage | peer/impl/status_ack.go:247-258 | the status copies the counters |
| GossipNode.Node.HandleRumor | peer/impl/handlers.go:197-270 | the loop with its early exits computes the handling of the list; the whole message is forwarded iff no error stopped it and some counter changed, to the neighbor picked, never to where it came from; acknowledgements go back to the sender; the route learned to an origin is the relay |
| GossipNode.Node.HandleOne | peer/impl/handlers.go:222-257 | one round: an expected rumor is stored whatever its handler does, and counted, and acknowledged with the new counters, as far as handler and acknowledgement succeed; any other changes nothing |
| GossipNode.Node.ProcessRumorMessage | peer/impl/rumor.go:31-43 | exactly the rumor is added to the database before its handler runs, and stays there when that fails |
| GossipNode.Node.HandleStatusMessage | peer/impl/handlers.go:113-158 | with agreeing views the only packet is a status to the neighbor chosen to go on with, or none; else everything goes back to the asker: a status iff it is ahead somewhere, rumors if this node is |
| GossipNode.Node.Broadcast | peer/impl/communication.go:121-144 | the next sequence number is taken and counted and exactly the new rumor is stored |
| GossipNode.Node.AddPeer | peer/impl/communication.go:66-75 | exactly the addresses other than self become direct and are routed to directly, and nothing else changes |
| GossipSystem.SetRoutingEntryKeepsIff | peer/impl/communication.go:56-63 | an entry set from outside keeps the routing table as RoutesKnowExactly describes it iff it removes nothing, or changes a known address and leaves self and direct peers reached directly, all others through a node |
| GossipSystem.AcceptedGoesToAnother | peer/impl/rumor.go:136-166 | in the network, handling rumors that counted and were not stopped sends the whole message to the neighbor picked, not its sender; beside it only acknowledgements go out, to the sender |
| GossipSystem.StatusGoesOnOrBack | peer/impl/status_ack.go:30-48 | in the network, a status that agrees goes on to the neighbor picked, not its sender, or to nobody; any other is answered to its sender only |
| Gossip.RoutesLearned | peer/impl/handlers.go:236-243 | the route to an origin becomes the relay exactly when a rumor of it was counted, except for self and direct peers |
| Gossip.RepliesAnswerWell | peer/impl/handlers.go:113-158 | which packets answer a status, told from the counters of both sides alone |
| Search.DivideBudget | peer/impl/data_sharing.go:320-343 | the two loops over the cells compute the division that DividedFairly describes |
| Search.DividedFairly | peer/impl/data_sharing.go:320-343 | for every permutation the parts add up exactly to the whole, one for each neighbor, and differ by at most one |
| Search.RequestsSpreadFairly | peer/impl/handlers.go:372-398 | for every order of the neighbors and every permutation each neighbor gets at most one request, as many as the budget is enough for get one, parts differ by at most 1 and add up to the budget |
| Search.SearchNode.SendSearchRequests | peer/impl/search.go:234-255 | the budget is spread fairly over all neighbors: one request each if it is enough, no two to the same, parts at most 1 apart, nothing lost |
| Search.SearchNode.HandleSearchRequest | peer/impl/handlers.go:400-438 | a request not handled before spreads its budget less 1 fairly over the direct peers other than sender and self; only an answer that could be sent marks it as handled |
| Search.FloodIsBounded | peer/impl/handlers.go:372-398 | one search of budget B sends at most B request packets in the whole network and ends after at most B deliveries or losses |
| Search.StepSpends | peer/impl/handlers.go:372-398 | the sum of the budgets in flight falls with every delivery or loss, and packets sent and still to come stay within the budget |
| Search.ExpandingRingSearch | peer/impl/search.go:196-230 | the budgets of the attempts, in uint arithmetic, when the ring stops, and that their sum is at most the geometric sum |
| Search.RingBudgetBounded | peer/impl/search.go:226 | overflow only lowers a budget; without it the budget is initial * factor^k |
| Search.RingBudgetExact | peer/impl/search.go:226 | with overflow the budget is initial * factor^k modulo 2^64 |
| Search.ExpandingRingIsBounded | peer/impl/search.go:196-255 | all attempts together send at most the sum of initial * factor^k for k < retry, in the whole network |
| Sharing.SplitIntoChunks | peer/impl/data_sharing.go:194-209 | the counting loop computes the chunks that ChunksFacts describes |
| Sharing.ChunksFacts | peer/impl/data_sharing.go:194-209 | chunks concatenate to the data, all but the last have exactly the chunk size, none is empty |
| Sharing.SplitJoin | peer/impl/data_sharing.go:82 | splitting the joined metafile gives back the list of hashes |
| SharingNodes.Store.Get | storage/inmemory/inmemory.go:58-63 | an absent or empty value reads as nil |
| SharingNodes.SharingNode.Upload | peer/impl/data_sharing.go:43-94 | the store and metahash after an upload; a chunk size of 0 is refused and changes nothing |
| Sharing.ObtainedIsGenuine | peer/impl/data_sharing.go:279-318 | what is fetched without a failed request hashes to the key asked for; a failed request gives nothing, without an error |
| SharingNodes.SharingNode.Download | peer/impl/data_sharing.go:110-154 | the loop with its error exit computes the download the theorems below are about |
| Sharing.StoreStaysSound | peer/impl/data_sharing.go:110-154 | whatever bytes peers reply, after any run of uploads and downloads every value that is not nil hashes to its key |
| Sharing.DownloadIsGenuineIff | peer/impl/data_sharing.go:110-154 | a download without an error returns exactly the data whose upload gave the metahash iff no request failed or the data is empty |
| Sharing.UnfailingIff | peer/impl/data_sharing.go:279-318 | a download is marked as unfailing iff none of the fetches it tried failed, before or after sending |
| Sharing.RequestsAreCounted | peer/impl/data_sharing.go:279-318 | the requests of a download are those of its fetches that found a peer and got as far as sending |
| Sharing.TwoNodeRoundTrip | peer/impl/handlers.go:289-342 | data uploaded on one node is downloaded on any other whose requests it answers, with at most one request for the metafile and one for each chunk, after which that node holds what it would hold had it uploaded the data itself |
| Sharing.RoundTrip | peer/impl/data_sharing.go:43-154 | non-empty data is downloaded again on the same node without any request, and the store stays as it is |
| Sharing.RoundTripNeedsData | storage/inmemory/inmemory.go:58-63 | the round trip on one node gives the data back without a request iff the data is not empty |
| LedgerNodes.LedgerNode.FindUTXO | peer/impl/blockchain.go:250-259 | the scan in any map order is the lookup by key with a check of the owner |
| Ledger.NamesStayKeyed | peer/impl/blockchain.go:66-115 | over every run of received and own blocks each name is filed under itself, so the scan stays deterministic |
| LedgerNodes.LedgerNode.ValidateTransaction | peer/impl/blockchain.go:155-247 | a valid verdict means the transaction may stand in a block, any other names a problem that is there |
| Ledger.AcceptedIffAllMayStand | peer/impl/blockchain.go:138-247 | a block is accepted iff it is not empty and each transaction has an id, does not expire before its time, and makes a new non-empty name, renews a name its input holds, or turns such a name into its own plain domain, not to expire before the name taken |
| Ledger.ReceivedChangesAreEntitled | peer/impl/handlers.go:590-620 | whatever block is received, a name that is new or changed was put there by a transaction of it that may stand in it, and a name that is gone was taken by one |
| LedgerNodes.LedgerNode.ValidateBlock | peer/impl/blockchain.go:138-153 | every transaction is checked, each at its own time, against the names before the block |
| LedgerNodes.LedgerNode.AddBlockToBlockchain | peer/impl/blockchain.go:55-136 | transactions are applied in order, a missing input stops half way without undoing, a whole block is stored and counted; it comes back only when the walk from the new block has ended |
| LedgerNodes.LedgerNode.HandleBlockMessage | peer/impl/handlers.go:590-620 | a block is rejected, and changes nothing, iff it is empty or some transaction may not stand in it; a stopped one leaves what it did; an added one takes exactly the transactions with its ids from the mempool once the walk has ended, and not before |
| LedgerNodes.LedgerNode.RemoveTxsFromMempool | peer/impl/pow.go:203-215 | exactly the transactions with these ids go |
| Ledger.SnapshotValidationSuffices | peer/impl/blockchain.go:55-153 | a valid block whose inputs, outputs and crossings are distinct never stops half way and in any order gives the names minus the inputs plus the outputs |
| Ledger.OrderDoesNotMatter | peer/impl/blockchain.go:62-120 | applying such a block in any order gives the same names and the same success |
| Ledger.AppliesWholeIff | peer/impl/blockchain.go:62-120 | transactions are applied to the last one iff for each input the last earlier transaction that touches its name leaves it to the same owner, or none touches it and the names hold it before |
| Ledger.NameAfter | peer/impl/blockchain.go:62-120 | after transactions that all apply a name is as it was if none touches it, else what the last one that touches it puts there, or gone |
| Ledger.ValidBlockMayStop | peer/impl/blockchain.go:79-105 | a valid block that hands a name over and then updates it for its old owner stops half way and leaves the first change |
| Ledger.NamesNeverExpireEarlier | peer/impl/blockchain.go:221-241 | over any run of received blocks, rejected and half-applied ones included, a name no NameFirstUpdate takes or makes stays and never expires earlier |
| Ledger.OwnBlockKeepsNameIff | peer/impl/pow.go:126 | an own block, added without validation, keeps a name no earlier to expire iff, of the transactions it applies, the last that touches the name puts it there in time, or none touches it, or the block is taken for genesis |
| Ledger.OwnBlockMayExpireEarlier | peer/impl/pow.go:126 | an own block that moves an expiration from 20 to 10 is applied, where the same block received is refused |
| LedgerNodes.LedgerNode.CreateGenesisBlock | peer/impl/blockchain.go:280-298 | genesis has nonce 1 and no transactions and is added as a block |
| Chain.OneMined | peer/impl/pow.go:135-150 | a candidate, whether it applies or not, keeps the chain from the last block counting down to 1 |
| LedgerNodes.LedgerNode.AttemptToMine | peer/impl/pow.go:56-133 | a block that was mined and broadcast is stored with exactly its transactions, the next height and the last hash, applied without validation, and exactly the transactions with its ids leave the mempool once the walk has ended |
| LedgerNodes.LedgerNode.PrintAllNonces | peer/impl/pow.go:265-314 | after any number of rounds the loop has printed the nonces of the walk, and has ended iff the walk has |
| Chain.AddedWalkEndsIff | peer/impl/pow.go:279-309 | after a block is added the walk ends iff its hash is empty or the key of the last block, its previous hash is all zeros, or the walk from the previous hash ended before without meeting the block |
| Chain.AddNeverReturnsIff | peer/impl/blockchain.go:122-136 | adding a block never comes back iff it applies whole and that walk does not end |
| Chain.SelfReferenceNeverReturns | peer/impl/blockchain.go:138-153 | a block that names itself as its previous block is stored and never comes back, as no hash of a received block is checked |
| Chain.FreshNodeMayNeverReturn | peer/impl/handlers.go:590-620 | such a block passes validation on a fresh node |
| Chain.MinedChainCountsDown | peer/impl/pow.go:265-309 | on fresh storage with fresh hashes the walk ends after as many blocks as the height says, with nonces from the height down to 1, although own blocks may fail to apply |
| Chain.ChainIsUnique | peer/impl/pow.go:279-309 | there is at most one chain to walk from a hash |
| Pow.MineBlock | peer/impl/pow.go:161-186 | a block returned has the hash of its own fields, which meets the floor target, and no smaller challenge does; none returned means all tried failed |
| Pow.ComputeBlockHash | peer/impl/blockchain.go:32-53 | the loop over transactions hashes challenge, all transactions and previous hash, or gives nil when one cannot be marshalled |
| Pow.HashBinds | peer/impl/blockchain.go:32-53 | with an injective hash two blocks of one hash agree in the previous hash and in challenge and transactions put together; for the same transactions in the challenge, for the same challenge in the marshalled transactions |
| Pow.FirstDifferenceDecides | peer/impl/pow.go:223-229 | hashes compare as numbers by the first byte in which they differ |
| Pow.TargetIsFloorIff | peer/impl/pow.go:231-257 | the target is floor(coefficient * 256^(exponent-3)) iff the exponent byte is at most 34 or the coefficient is 0, for every int |
| Pow.LargeExponentTarget | peer/impl/pow.go:231-257 | for every exponent byte above 3 the target is coefficient * 256^((exponent-3) mod 32) |
| Pow.NoWorkIffUnmarshalable | peer/impl/blockchain.go:32-53 | the hash is nil iff a transaction cannot be marshalled, and a nil hash meets every target |
| Tokens.Token.AddAddress | peer/impl/token.go:44-66 | refused for two balances or a known address, else exactly that balance is added and issued |
| Tokens.Token.Mint | peer/impl/token.go:69-84 | the balance named and the supply grow by the amount modulo 2^64, no other balance changes |
| Tokens.Token.Burn | peer/impl/token.go:87-106 | refused beyond the balance, else the balance named and the supply shrink by the amount, no other balance changes |
| Tokens.Token.Transfer | peer/impl/token.go:109-132 | refused beyond the balance; else the sender has the amount less, also when it is the receiver, another receiver has it more modulo 2^64, nobody else changes |
| Tokens.SupplyIsCongruent | peer/impl/token.go:33-132 | over any run balances, initial supply and what transfers to oneself lost add up to the total supply modulo 2^64 |
| Tokens.SupplyIsExact | peer/impl/token.go:33-132 | while AddAddress and Mint keep the supply in range that equality is exact after every operation and no operation wraps but a transfer to oneself |
| Tokens.NewTokenConservesSupply | peer/impl/token.go:33-41 | from the constructor on, with transfers between different addresses, balances plus initial supply are the total supply modulo 2^64, and exactly and without any wrap while the supply is kept in range |
| Tokens.TransferKeepsTotalIff | peer/impl/token.go:118-128 | a transfer keeps the sum of balances iff it is of nothing, or between different addresses without a wrap of the receiver |

## Left out
- Sockets, JSON, HTTP, the GUI, proxies and storage in files: packets and stored values are datatypes.
- Packet ids, the waiting goroutine and the timer of `waitForAck`: their only effect, sending the same rumors to another neighbor, is a step that may happen at any time.
- Sends that fail: they are packets that are never delivered, except for an acknowledgement and a search answer, whose failure changes what the node does.
- A status, acknowledgement or private message embedded in a rumor: its handler may send further gossip packets, where the outcome `handled` only says whether it succeeded.
- Rumors nested in a rumor's own message, and two broadcasts racing for one sequence number: a handler and a broadcast are each one step.
- GossipSystem.LogsAreSafe: sequence numbers are unbounded, so the wrap of a uint after 2^64 broadcasts is not modelled.
- Rounds.RoundsMakeComplete: that rounds come about is not stated; timers and random choices of neighbors bring them about with probability only.
- Aliasing of the slices kept in the rumor database: each stored slice is a value, the growth and shift work on a fresh array.
- The catalog: whether somebody is known to have a key, and the removal of a peer that replied wrong bytes, are part of the arbitrary replies.
- The id, the pattern and the origin of a search request, which are copied along: a request of the model is its two ends and its budget.
- Matching names by regular expression, merging search answers, catalog and name updates from them, chat and name reads.
- A transaction that is nil: a block message whose list of transactions holds a JSON null makes validation dereference nil (peer/impl/blockchain.go:161).
- Salt and the hash of a revealed name: the code computes that hash and compares it with nothing.
- The choice of transactions from the mempool and the mining goroutine: any list of transactions may be mined; fork choice, linkage checks and rollback do not exist in the code.
- Block nonces, heights and challenges are unbounded integers.
