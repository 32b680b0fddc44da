# A verified model of the Simple-BlockChain core

The repository is a small replicated blockchain written in Go. This project models its layered core and
proves what the layers owe each other: unique decoding of the hashed text gives hash agreement, hash
agreement gives chain agreement, and chain agreement is what fork choice, persistence, gossip and
synchronisation rest on.

| file | models |
|---|---|
| Selections.dfy | what it means that a loop picks exactly certain elements of a list, in order |
| Decimal.dfy, Timestamps.dfy | the printed forms that run into the hashed text: `strconv.Itoa` and the time format of section 5.6 of RFC 3339 |
| Blocks.dfy | `internal/blockchain/block.go`: the hashed text, hashes, validation, genesis |
| Chains.dfy | chains as values: validity, hash agreement, acceptance, lookup, paging |
| ForkChoice.dfy | series of `TryAcceptChain` calls, and calls that interleave |
| Blockchain.dfy | the doubly linked list of `internal/blockchain/blockchain.go` as a class with its loops |
| Store.dfy | `internal/storage/store.go`: the table, saving, loading, restarts |
| Protocol.dfy | one node of `internal/p2p/server.go` as a value: what each message does and sends |
| Server.dfy | the server as a class with its maps and loops, proved to do what Protocol.dfy says |
| Network.dfy, Quiescence.dfy | N nodes and messages in flight: delivery in any order, loss, duplication |
| Links.dfy, Exchange.dfy | a node exchanging `getblocks`, `inv`, `getdata` and `block` with peers: what is under way on each link, and what every step of a lossless network keeps |
| Sync.dfy, Handshake.dfy | what exchanges started by `sendGetBlocks`, `RequestSync` or a handshake achieve in every lossless run |
| Wire.dfy | that the outboxes of the server class get what the network puts under way, and what every step of the network does to nodes and links |
| Gossip.dfy | what broadcasting alone achieves in every lossless run with one writer |
| Forks.dfy | when exchanging blocks can change a network at all |

How the surroundings are represented:

- SHA-256 with hex encoding is `Blocks.Sha256`, an arbitrary function to 64 hex characters. It is nowhere
  assumed injective. Theorems that need hashes to tell blocks apart either end in "or these two blocks
  collide" or assume that no two of the blocks at hand do.
- `Timestamps.Instant`, the instant a timestamp denotes, is an arbitrary function. Printed times drop
  nanoseconds, so blocks agree "up to nanoseconds" (`SameBlock`). Years run from 0 to 9999 and zone offsets are
  whole minutes below 24 hours, which is what a time can have to travel as JSON.
- `time.Now()` is a clock object whose readings never go back and are otherwise arbitrary; every call of the
  code that reads the clock reads it again.
- A registered callback is the list of blocks it has been called with. The server runs its own callback right
  after the chain took a block, which is where the chain calls it.
- A peer's stream is an outbox of messages in the class, and a packet in flight in the network.
- The result of the SQL query is a parameter: any permutation of the rows sorted by index.

Three observations on the code.

- `RequestSync` always asks from the front of the chain, so it never brings a node beyond 500 blocks
  (`Sync.RequestSyncBound`); only the handshake asks from the tip.
- Connecting does not always synchronise. `handleStream` starts to read before it sends the version
  (internal/p2p/server.go:127-128). If a node answers its peer's version before it has sent its own, the peer
  gets the acknowledgement while it still takes the node's height to be 0, and never asks.
  `Handshake.HandshakeSynchronises` says exactly when a peer that is behind catches up, and
  `Handshake.HandshakeCanFail` gives the other run.
- `MaxBlockAge` (internal/blockchain/block.go:13) is declared but never used; there is no lower bound on
  timestamps.

## Model

| member | source | states |
|---|---|---|
| Decimal.ItoaInjective | internal/blockchain/block.go:25 | integers of either sign print the same only if they are equal |
| Decimal.ItoaDenotes | internal/blockchain/block.go:25 | an integer is printed as its decimal digits, with a minus sign if negative and no leading zero |
| Decimal.PadDenotes | internal/blockchain/block.go:25 | a padded field denotes its number |
| Decimal.PrintIsPrefixCode | internal/blockchain/block.go:25 | padded fields of one layout can be read off the front of any text |
| Timestamps.FormatIsPrefixCode | internal/blockchain/block.go:25 | a printed time, with either zone form, can be read off the front of any text, up to nanoseconds |
| Timestamps.FormatByPosition | internal/blockchain/block.go:25 | year, month, day, hour, minute, second, sign, zone hours and zone minutes stand at fixed positions of the printed time, in this order, with their separators; 20 or 25 characters |
| Blocks.HashIsDigestOfText | internal/blockchain/block.go:24-29 | the hash is the digest of index, time, beats and previous hash printed one after the other, 64 characters long |
| Blocks.TextByPosition | internal/blockchain/block.go:24-29 | read from left to right the hashed text is the index in decimal, the printed time, the beats in decimal and the previous hash |
| Blocks.IndexIsPrefixCode | internal/blockchain/block.go:25 | an index followed by a year can be read off the front although nothing separates them |
| Blocks.PreimageTellsIndex | internal/blockchain/block.go:24-29 | one hashed text means one index and one printed time, whatever the other fields |
| Blocks.PreimageUniquelyDecodes | internal/blockchain/block.go:24-29 | with previous hashes of one length, hashed texts are equal if and only if all four fields are |
| Blocks.DecodesExactlyWithEqualLengths | internal/blockchain/block.go:24-29 | beats and previous hash can be told from the hashed text for previous hashes of lengths m and n if and only if m equals n |
| Blocks.TextShared | internal/blockchain/block.go:24-29 | for every tail and every difference in length two blocks with different beats share one hashed text |
| Blocks.GenesisPinned | internal/blockchain/block.go:75-84 | a block with the genesis hash equals the genesis block up to nanoseconds, or the two collide |
| Blocks.ValidityPersists | internal/blockchain/block.go:31-61 | a block that passes validation keeps passing as the clock advances |
| Blocks.ValidateReportsFirst | internal/blockchain/block.go:31-61 | validation reports the first of the six checks that fails, in the order of the program, with ten minutes of drift, and nothing if none does |
| Blocks.NewBlockCarriesItsHash | internal/blockchain/block.go:63-73 | a new block has the given fields and the hash of those fields |
| Blocks.NewBlockPasses | internal/blockchain/block.go:63-73 | a new block on top of another passes validation exactly if its beats are not negative |
| Chains.GenesisCarriesItsHash | internal/blockchain/block.go:75-84 | the genesis block has index 0, the epoch, no beats, previous hash "0" and its own hash |
| Chains.ValidIffLinkedAndTimely | internal/blockchain/blockchain.go:163-187 | a chain validates exactly if it starts at genesis, is linked by hashes, has its positions as indices, no negative beats and no time too far ahead |
| Chains.ChainValidityPersists | internal/blockchain/block.go:49-53 | a valid chain stays valid as the clock advances |
| Chains.ExtendKeepsValid | internal/blockchain/blockchain.go:43-52 | appending an accepted block keeps the chain valid at that and every later reading |
| Chains.NextBlockExtends | internal/blockchain/blockchain.go:30-35 | a locally added block is appended exactly if its beats are not negative |
| Chains.NextBlockFields | internal/blockchain/blockchain.go:30-35 | a locally made block has the given beats and time, follows the last block, and has its own hash; on a valid chain its index is the length |
| Chains.ExtendExactly | internal/blockchain/blockchain.go:43-52 | exactly a block with its own hash that follows the last one, in time and without negative beats, is appended |
| Chains.ChainStartsWithGenesis | internal/blockchain/blockchain.go:169-178 | every accepted chain starts with the genesis block up to nanoseconds, or exhibits a collision |
| Chains.HashAgreement | internal/blockchain/block.go:31-61 | a hash found in two valid chains is at one position in both and the chains agree up to it, or a collision is exhibited |
| Chains.TipDeterminesChain | internal/blockchain/block.go:31-61 | the last hash determines the whole chain, or a collision is exhibited |
| Chains.HashesDistinct | internal/blockchain/block.go:31-61 | hashes within a valid chain are pairwise distinct, or a collision is exhibited |
| Chains.AcceptanceCharacterised | internal/blockchain/blockchain.go:43-57 | a block of a peer's chain is accepted exactly if one's own hashes are those of the peer's blocks before it and its time passes the clock |
| Chains.ForkedPeerIsIgnored | internal/blockchain/blockchain.go:43-57 | no block of a chain that differs somewhere from one's own is ever accepted |
| Chains.LookupInvertsPosition | internal/blockchain/blockchain.go:122-133 | looking up the hash of the block at a position gives that block |
| Chains.LookupExactly | internal/blockchain/blockchain.go:122-133 | in any list of blocks the first one with the hash is found, and none exactly if none has it |
| Chains.PageExactly | internal/blockchain/blockchain.go:135-161 | in any list of blocks a page holds at most limit blocks from after the first block with the hash, or from the front for the empty and for an unknown hash |
| Chains.PagingEnumerates | internal/blockchain/blockchain.go:135-161 | passing on the last hash received, k pages hold exactly the first k * limit blocks in order |
| Chains.PagingEnds | internal/blockchain/blockchain.go:135-161 | the next page is empty exactly when everything has been received |
| Chains.UnknownHashRestarts | internal/blockchain/blockchain.go:141-151 | an unknown start hash is answered from the front of the chain |
| LinkedChain.Clock.Now | internal/blockchain/block.go:50 | a reading is arbitrary but not behind the one before |
| LinkedChain.BlockchainNode.constructor | internal/blockchain/blockchain_node.go:5-17 | a new node holds the block and has no links |
| LinkedChain.Blockchain.constructor | internal/blockchain/blockchain.go:18-28 | a new chain is a well-formed list of the genesis block without callbacks, and valid |
| LinkedChain.Blockchain.AddBlock | internal/blockchain/blockchain.go:30-35 | the list stays well formed and valid, and is extended exactly if beats are not negative, by a block with the given beats that follows the tip |
| LinkedChain.Blockchain.ProcessBlock | internal/blockchain/blockchain.go:37-57 | the list is extended exactly by an acceptable block, every callback is called exactly then, validity and notification are kept |
| LinkedChain.Blockchain.AppendNode | internal/blockchain/blockchain.go:48-52 | relinking the tail keeps the doubly linked list well formed and appends the block |
| LinkedChain.Blockchain.RunCallbacks | internal/blockchain/blockchain.go:54-56 | every callback is called once more, with the block |
| LinkedChain.NotifiedKeepsUp | internal/blockchain/blockchain.go:54-63 | callbacks that have seen exactly the blocks since they were registered still have after an append |
| LinkedChain.Blockchain.Subscribe | internal/blockchain/blockchain.go:59-63 | a callback starts with nothing, from the current length on |
| LinkedChain.Blockchain.GetLastBlock | internal/blockchain/blockchain.go:65-69 | the last block |
| LinkedChain.Blockchain.IsValid | internal/blockchain/blockchain.go:71-89 | true if every block passes at the first clock reading, and only if every block passes at the last |
| LinkedChain.Blockchain.Length | internal/blockchain/blockchain.go:104-108 | the number of blocks |
| LinkedChain.Blockchain.GetAllBlocks | internal/blockchain/blockchain.go:110-120 | the traversal returns exactly the blocks in order |
| LinkedChain.Blockchain.GetBlockByHash | internal/blockchain/blockchain.go:122-133 | the first block with the hash, or none |
| LinkedChain.Blockchain.GetBlocksAfter | internal/blockchain/blockchain.go:135-161 | the page after the hash, from the front for an empty or unknown hash, at most limit blocks |
| LinkedChain.Blockchain.ValidateChain | internal/blockchain/blockchain.go:163-187 | the verdict is pinned by validity at the first and the last reading; a rejection names the first failing block and an error it really has |
| LinkedChain.Blockchain.ReplaceChain | internal/blockchain/blockchain.go:189-220 | exactly a longer valid chain takes the place of the list, which is well formed afterwards; callbacks are not called |
| LinkedChain.Blockchain.Rebuild | internal/blockchain/blockchain.go:202-217 | the replacement loop builds a well-formed list of any nonempty input |
| LinkedChain.Blockchain.TryAcceptChain | internal/blockchain/blockchain.go:222-242 | the list becomes what fork choice says, a rejection of a longer candidate names an error it really has, and run on its own it never ends in "failed to replace chain" |
| ForkChoice.EarliestLongestWins | internal/blockchain/blockchain.go:222-242 | any series of candidates leaves the earliest chain of maximum length among the start and the valid candidates; ties keep the incumbent |
| ForkChoice.StepKeepsInvariant | internal/blockchain/blockchain.go:189-242 | with calls interleaved in any way, each step keeps the chain valid and no shorter, and a successful commit strictly lengthens it |
| ForkChoice.CommitFailsIffOutgrown | internal/blockchain/blockchain.go:222-242 | a commit fails exactly if other calls have meanwhile made the chain as long as the candidate |
| ForkChoice.OfferingEffect | internal/blockchain/blockchain.go:30-52 | additions and received blocks extend the chain by exactly the block that fits, at once |
| ForkChoice.ReplaceEffect | internal/blockchain/blockchain.go:189-220 | a longer chain valid throughout takes the place of the chain; one not longer or invalid does not |
| ForkChoice.UnlockedEffect | internal/blockchain/blockchain.go:222-235 | a candidate goes on to validation exactly if it is longer, and on to the commit if it is valid throughout |
| ForkChoice.CommitEffect | internal/blockchain/blockchain.go:189-242 | a validated candidate that is still longer replaces the chain, any other leaves it |
| ForkChoice.UninterruptedCall | internal/blockchain/blockchain.go:222-242 | a call whose pieces follow each other leaves what fork choice says |
| ForkChoice.RunsKeepInvariant | internal/blockchain/blockchain.go:189-242 | over every run of interleaved calls the invariant holds and the length never goes down |
| ForkChoice.RunsStayValid | internal/blockchain/blockchain.go:30-89 | over every run `IsValid` and `ValidateChain` accept the chain at the current clock and indices are positions |
| Storage.Store.Save | internal/storage/store.go:53-75 | the table becomes what inserting all blocks, ignoring known hashes, makes of it |
| Storage.Store.Load | internal/storage/store.go:77-97 | the chain goes through exactly the greedy scan of the query result, and stays valid |
| Storage.LoadFromAnyTable | internal/storage/store.go:77-97 | from any rows, loading keeps the chain valid, extends it only with rows, and is maximal |
| Storage.InsertAllExactly | internal/storage/store.go:60-72 | what saving appends to any table are, in order, exactly the blocks whose hash is neither in the table nor that of an earlier block |
| Storage.SaveIsIdempotent | internal/storage/store.go:60-72 | saving twice is saving once, and hashes stay unique, on any table |
| Storage.SaveExtends | internal/storage/store.go:60-72 | saving an extension of the stored chain appends exactly the new blocks |
| Storage.QueryReturnsChain | internal/storage/store.go:78 | the rows of a stored chain come back in chain order, whatever the database does with ties |
| Storage.LoadRebuilds | internal/storage/store.go:77-97 | loading a stored chain rebuilds it block by block, the genesis row being rejected harmlessly |
| Storage.SessionRoundTrip | internal/storage/store.go:53-97 | one session loads exactly the stored chain and stores exactly its final chain, unless that chain exhibits a collision |
| Storage.RestartsPreserveChain | internal/storage/store.go:53-97 | over any number of sessions the rows are exactly the last saved chain, it is valid, and each load rebuilds the chain saved before |
| Protocol.ReceiveAppends | internal/p2p/server.go:151-338 | any message leaves the chain alone or appends the one block it carries, and only that block is broadcast |
| Protocol.AnswersAreOwnBlocks | internal/p2p/server.go:239-261 | answers carry only blocks of one's own chain, at most one for each asked for |
| Protocol.MarkedBlockIgnored | internal/p2p/server.go:183-189 | a block whose hash is marked is ignored |
| Protocol.UnmarkedBlockOffered | internal/p2p/server.go:190-198 | any other block is offered to the chain and marked, accepted or not, and no other mark changes |
| Protocol.FoundBlockOffered | internal/p2p/server.go:320-336 | a found block is offered too, but marked only if it is accepted; without a block nothing changes |
| Protocol.AddedIsBroadcast | internal/blockchain/blockchain.go:30-57 | a block made locally is appended, marked and broadcast |
| Protocol.OtherMessages | internal/p2p/server.go:151-298 | all other messages change nothing but the height of the sender that a version announces; versions and requests for peers are answered |
| Protocol.AcknowledgementAnswered | internal/p2p/server.go:162-168 | an acknowledgement is answered by asking for the blocks after the tip exactly if the peer announced more, and for its peers |
| Protocol.GetBlocksAnswered | internal/p2p/server.go:199-215 | at most 500 blocks are announced, hash by hash, from after the start hash or from the front |
| Protocol.InvAnswered | internal/p2p/server.go:216-238 | exactly the announced blocks not marked are asked for, in order, and nothing if there is none |
| Protocol.MissingExactly | internal/p2p/server.go:223-229 | what is asked for are exactly the entries of kind "block" whose hash is not marked, each as often as announced and in the same order |
| Protocol.GetDataAnswered | internal/p2p/server.go:239-261 | entry by entry the first block with the hash is sent, and nothing for other kinds and unknown hashes |
| Protocol.FindBlockAnswered | internal/p2p/server.go:299-319 | a search is answered with the first block that has the hash, or that there is none |
| Protocol.CleanUpExactly | internal/p2p/server.go:94-107 | a clean-up keeps exactly the marks not more than ten minutes old, with their times |
| Protocol.MarkStays | internal/p2p/server.go:94-107 | over any run a mark stays, with its time, as long as no clean-up comes more than ten minutes after it |
| Protocol.MarkExpires | internal/p2p/server.go:94-107 | the first clean-up that comes later, and no other event, forgets it |
| Protocol.RunStaysValid | internal/p2p/server.go:151-338 | over any run of one node its chain stays valid at its clock and never loses a block |
| Protocol.GossipFollowsChain | internal/p2p/server.go:62-71 | what a node broadcasts are the blocks it appended, in chain order, none twice |
| Protocol.EachHashBroadcastOnce | internal/p2p/server.go:62-107 | over the whole run of a node each event broadcasts at most one block and no two events blocks with one hash, even after clean-up and redelivery, unless its chain exhibits a collision |
| Protocol.AppendedIsBroadcastUnlessMarked | internal/p2p/server.go:62-71 | an appended block is broadcast exactly if its hash was not marked, and is marked afterwards |
| Protocol.EarlyBlockIsSuppressed | internal/p2p/server.go:94-107 | a rejected block is marked and ignored when it comes again, until the clean-up forgets it after ten minutes |
| Protocol.FindExchange | internal/p2p/server.go:299-336 | a find request brings exactly the block with that hash, treated like any other, or nothing |
| Protocol.ForkedPeerChangesNothing | internal/p2p/server.go:169-215 | no message with blocks of a forked peer's chain changes one's own chain |
| P2pServer.Server.constructor | internal/p2p/server.go:40-47 | a new server has no peers and no processed hashes |
| P2pServer.Server.SendMessage | internal/p2p/server.go:360-368 | the peer gets exactly that message and nobody else anything |
| P2pServer.Server.SendToAll | internal/p2p/server.go:353-357 | every peer gets exactly that message |
| P2pServer.FilterMissing | internal/p2p/server.go:223-230 | nothing but unmarked blocks is left, each as often as announced |
| P2pServer.Server.HandleStream | internal/p2p/server.go:109-129 | a known peer changes nothing; a new one is added and sent the version |
| P2pServer.Server.HandleMessage | internal/p2p/server.go:151-338 | for every message, state and outboxes become exactly what the protocol says |
| P2pServer.Server.HandleBlock | internal/p2p/server.go:169-198 | a block message does what the protocol says, at the clock readings taken |
| P2pServer.Server.HandleGetBlocks | internal/p2p/server.go:199-215 | the reply announces exactly the page of at most 500 blocks after the start hash |
| P2pServer.Server.HandleInv | internal/p2p/server.go:216-238 | exactly the entries of kind "block" not marked are asked for, in order; nothing is sent if there is none |
| P2pServer.Server.HandleGetData | internal/p2p/server.go:239-261 | exactly the known blocks among those asked for are sent, in order |
| P2pServer.Server.HandleFindBlock | internal/p2p/server.go:299-319 | the reply carries the block with the hash, or says there is none |
| P2pServer.Server.HandleVerAck | internal/p2p/server.go:162-168 | blocks after the tip are asked for exactly if the peer announced more, then its peers |
| P2pServer.Server.OnNewBlock | internal/p2p/server.go:62-71 | the subscribed callback marks and broadcasts a block not marked yet |
| P2pServer.Server.BroadcastBlock | internal/p2p/server.go:340-358 | the block is marked and sent once to every peer |
| P2pServer.Server.SendVersion | internal/p2p/server.go:360-368 | the version announces the length of the chain |
| P2pServer.Server.SendGetBlocks | internal/p2p/server.go:370-377 | the request carries the hash of the last block |
| P2pServer.Server.RequestSync | internal/p2p/server.go:500-507 | every peer is asked for blocks from the front |
| P2pServer.Server.FindBlock | internal/p2p/server.go:518-525 | every peer is asked for the block |
| P2pServer.Server.CleanupProcessedBlocks | internal/p2p/server.go:94-107 | exactly the hashes marked more than ten minutes ago are forgotten, and the others keep their times |
| P2pServer.Server.AddBlock | internal/blockchain/blockchain.go:30-57 | a local addition with the subscribed callback does what the protocol says |
| Wire.OutboxesAreCast | internal/p2p/server.go:340-358 | what sending to all adds to the outbox of a peer is what the network puts on the link to it |
| Wire.OutboxesAreOutgoing | internal/p2p/server.go:151-358 | what handling a message adds to the outbox of a peer is what the network puts on the link to it |
| Wire.LossAndDoubling | internal/p2p/peer.go:34-39 | any message may be lost or doubled, without any node noticing |
| Wire.AnyMessageMayArrive | internal/p2p/server.go:131-149 | any message may be handled next, by its receiver alone, and what that sends is under way |
| Wire.MinedBlockIsSent | internal/p2p/server.go:62-71 | a block made at a node is appended there and put under way to each of its peers |
| Wire.SaidToOne | internal/p2p/server.go:360-377 | versions and questions after the tip are put under way as the program words them |
| Wire.SaidToAll | internal/p2p/server.go:500-525 | questions from the front and searches are put under way to every peer and nobody else |
| Network.StepKeepsAllValid | internal/p2p/server.go:151-338 | whoever adds blocks, every step keeps every node's chain valid and only lets chains grow |
| Network.ChainsStayValid | internal/p2p/server.go:151-338 | in every state of every run with any number of writers all chains are valid and none has lost a block |
| Network.StepKeepsSingleWriter | internal/p2p/server.go:169-335 | no step by a reader breaks that all chains are prefixes of the writer's and only its blocks are in flight |
| Network.ChainsArePrefixes | internal/p2p/server.go:62-335 | with one writer, in every state of every run under loss, duplication, reordering and clean-up, every chain is a prefix of the writer's |
| Gossip.StepKeepsGossip | internal/p2p/server.go:62-358 | whatever block is added or delivered next, each link carries, in order, exactly what its receiver lacks of its sender's chain |
| Gossip.GossipConverges | internal/p2p/server.go:62-358 | in every lossless run from fresh nodes with one writer and clocks that admit the blocks, clean-ups at any time, whenever nothing is in flight every node that the writer reaches through peers has the writer's chain, unless that chain exhibits a collision |
| Forks.StandsStill | internal/p2p/server.go:151-358 | if no chain continues another, no run without additions changes any chain, whatever is asked, lost or repeated |
| Forks.ForkNeverHeals | internal/p2p/server.go:169-215 | two nodes whose chains differ at some position keep both chains in every run without additions |
| Forks.CanMove | internal/p2p/server.go:94-261 | if a chain continues another, clean-up and ordinary messages can extend the other |
| Forks.FrozenIffNoneContinues | internal/p2p/server.go:151-358 | exchanging blocks can change a network exactly when some chain continues another |
| Quiescence.ReplyWeighsLess | internal/p2p/server.go:151-338 | every answer weighs less than the message it answers |
| Quiescence.StepLowersPotential | internal/p2p/server.go:151-358 | every delivery or loss lowers the potential of a closed network, rebroadcasts included |
| Quiescence.CountedExactly | internal/p2p/server.go:151-358 | all steps but clean-ups are counted |
| Quiescence.ClosedRunsAreBounded | internal/p2p/server.go:151-358 | a closed network allows no more deliveries and losses than its potential at the start, in whatever order |
| Quiescence.EveryNetIsBounded | internal/p2p/server.go:151-358 | such a bound exists for every network of valid chains |
| Links.AnswersOwn | internal/p2p/server.go:239-261 | a node asked for blocks of its chain sends exactly those, in the order asked |
| Links.AnswersToMissing | internal/p2p/server.go:216-261 | leaving marked blocks out of the request loses nothing that is missing |
| Exchanges.NextBlockTaken | internal/p2p/server.go:169-198 | the next unmarked block of a chain one has a prefix of is appended, broadcast alone and leaves one prepared for the block after it |
| Exchanges.IdleKeepsExchange | internal/p2p/server.go:151-338 | gossip of blocks already held, delivered to any node at any time, does not disturb an exchange |
| Exchanges.StepKeepsExchange | internal/p2p/server.go:151-338 | whichever message is delivered next, an exchange stays on course for exactly the promised blocks with every peer asked |
| Exchanges.SettledIsDone | internal/p2p/server.go:162-261 | when nothing is under way any more that could bring a block, exactly the promised blocks have arrived |
| Sync.SyncRound | internal/p2p/server.go:370-377 | in every lossless run, once settled, one round from the tip has given exactly the next min(500, gap) blocks and restored what the next round needs; before that never anything else than first blocks of the peer's chain |
| Sync.SyncRounds | internal/p2p/server.go:162-261 | k rounds give exactly the next min(500 k, gap) blocks |
| Sync.SyncConverges | internal/p2p/server.go:162-261 | ceil(gap / 500) rounds make the chains equal |
| Sync.RequestSyncBound | internal/p2p/server.go:500-507 | asking any number of peers from the front ends, in every lossless run, at max(own length, min(500, longest peer's length)) blocks, however the answers overlap |
| Sync.ExchangeFallsSilent | internal/p2p/server.go:151-358 | from any point of an exchange a lossless run reaches silence within the bounded number of deliveries, with the promised blocks |
| Handshake.GreetingStep | internal/p2p/server.go:109-168 | whichever message is delivered or version sent next, a handshake moves on; all that matters is whether the node ahead handles its peer's version before it sends its own |
| Handshake.HandshakeSynchronises | internal/p2p/server.go:109-168 | with both versions sent at any times of an otherwise lossless run, once settled, the one behind has caught up by min(500, gap) blocks if and only if the other one sent its version before it handled that of its peer; if not, it has the chain it had |
| Handshake.HandshakeCanFail | internal/p2p/server.go:109-168 | whenever a peer is behind there is a run with all messages in order after which it still is |
| Handshake.HandshakeFallsSilent | internal/p2p/server.go:109-168 | from any point of a handshake a lossless run reaches silence within the bounded number of deliveries |

## Left out

- SyncRound: speaks of runs in which messages between two nodes arrive in order and none is lost, and during which no block is added and no other request is made; clean-up may happen at any time. The same holds for SyncRounds, SyncConverges, RequestSyncBound and HandshakeSynchronises. GossipConverges speaks of such runs with additions by one node. Loss, duplication and reordering are covered by the safety and quiescence results.
- HandleMessage: runs as one step; two handlers of one server interleaving between their separately locked sections are not modelled. Interleaving inside `TryAcceptChain` is (ForkChoice.dfy).
- Load: assumes that printed timestamps parse back exactly, and does not model database errors.
- AddBlock: the wrap-around of 64-bit indices is not modelled; an index is a position in a list in memory.
- The byte stream of a peer and JSON: messages are decoded values. Bytes lost between reads appear as lost messages.
- Opening connections on a list of peers, and the contents of such lists: the peers of a node are fixed while the network runs.
- Discovery (DHT, mDNS, DNS and HTTP seeds, boot nodes, the local announce file), the failed-peer cache, the seed server, the command line, logging, statistics and `Print`: plumbing around the modelled core.
- SHA-256 and calendar arithmetic themselves: arbitrary functions here.
- The periodic validation and sync tasks: they only call `IsValid` and `RequestSync`, which are modelled.
