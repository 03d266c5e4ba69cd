# Fabric secure chaincode, verified

A Dafny model of the logic of a prototype that runs Hyperledger Fabric chaincode inside SGX
enclaves, with proofs about it. `dafny verify dfyconfig.toml` checks the whole project.

## What is modelled

- **The trusted ledger** (`Ledger`, `LedgerRuns`, `LedgerBlocks`, `Serializability`). An enclave follows the
  blocks of a channel, compares the versions a transaction read with the committed state and
  with the pending updates of the block, and commits a block at once. Proved: agreement under
  any order of delivery, the order of versions, and that surviving transactions are
  serializable in block order.
- **The auction chaincode** (`Auction`, `AuctionRuns`, `AuctionLedger`, `AuctionRace`,
  `AuctionOutcome`). Proved: runs refine an abstract auction, a closed auction is final, eval
  sees each bidder's last bid; and on the ledger at most one create and one close survive and
  no bid after the close, even when all were endorsed on one snapshot. Over any chain of blocks
  the stored bids are determined, and with them what eval announces.
- **What is hashed and signed** (`Metadata`, `PeerRange`, `Signing`, `Keys`, `Lex`). The two enclaves and
  the Go validator rebuild the same bytes from different data structures; the exact conditions
  are proved.
- **The benchmark executor** (`Executor`, `ExecutorProofs`, `ExecutorOrder`). Submit, dispatcher, workers and
  Stop as a state machine over their channel and WaitGroup operations. Proved for every
  interleaving: each task exactly once and in the order sent, Stop waits for all of
  them, and when Stop returns.
- **parson.c** (`Utf8`, `JsonStrings`, `JsonScanner`, `JsonEscapes`, `JsonValue`, `JsonPrint`,
  `JsonWriter`, `JsonGrammar`, `JsonParser`, `JsonText`, `JsonExactStrings`, `JsonReads`,
  `JsonTaken`, `JsonExact`, `JsonLayout`, `JsonRoundTrip`, `JsonObjects`, `JsonPaths`,
  `JsonEquality`). Parser and serializer work on byte buffers as in C. `JsonText` is the grammar
  of RFC 8259 as syntax trees, apart from the code. Proved: the parser takes exactly the texts of
  that grammar, with the values they stand for; what is printed is such a text; the round trip,
  the agreement of the two string scanners, two-pass printing, UTF-8 exactness, objects as
  finite maps, dotted names, equality and copies.
- **Base64** (`Base64`, `Base64Codec`, `Base64Table`).

Where the source works by loops and updates, so does the model: classes and methods over
maps, sequences and arrays. Each such method is proved to compute a function of its inputs, and
the theorems are about these functions. The executor is a relation between states, one step
for each channel or WaitGroup operation. In the ledger and auction modules a `char` stands for
a byte; in the JSON and Base64 modules bytes are `bv8`. `Options` and `Bytes` hold shared
definitions.

## Where the code does not keep a promise

For each, a lemma on a concrete input and the exact condition.

- The ledger counts blocks in 32 bits but stores 64-bit block numbers: `WideNumberBreaksOrder`,
  `HeightBoundExact`.
- The ecc branch stores the first value under every key: `SecondValueLost`, `FaithfulExact`,
  `LedgerWritesExact`.
- A key put twice is signed with its first value and recorded with its last: `PutTwiceDiffers`,
  `GoWritesExact`.
- A bid, said to overwrite the bidder's earlier one, does not do so within a block, because it
  is written without being read: `SecondBidLost`, `FirstWriteOfBlockStands`.
- eval starts its search at -1: `NegativeBidMisjudged`, `EvaluationExact`.
- A point read of a delimited key, and a stored empty value, are authenticated differently by
  the two enclaves: `DelimitedKeyDiffers`, `EmptyValueDiffers`, `PointMacExact`. The chaincode
  enclave logs the mismatch and goes on with the value.
- A plain key that reads like a composite one, or a composite key with an empty component, is
  in the ledger's range and not in the peer's, or the other way round: `PlainKeyAmongBids`,
  `PeerRangeExact`.
- A minus sign alone is taken as the number 0: `MinusAlone`, `ParserExact`.
- process_string can look behind the closing quote: `CutShort`, `ReadsExact`.
- Wait, documented to wait for completion, waits for invocation: `WaitReturnsEarly`,
  `WaitExact`.
- Stop does not return in a pool of no workers that has accepted a task: `EmptyPoolStuck`,
  `EmptyPoolNeverStops`, `StopReturnsExact`.

Code and comment also differ on Stop without wait, documented to shut down immediately: it
finishes every task (`StopFinishesEverything`).

## Model

| member | source | states |
|---|---|---|
| `Ledger.CmpVersion` | tlcc_enclave/enclave/ledger.h:74-89 | -1, 0 and 1 are exactly the lexicographic order of (block, transaction) |
| `Ledger.CheckReads` | tlcc_enclave/enclave/ledger.cpp:437-514 | the read loops find the transaction valid exactly when, for every point read and every read of every range query of every namespace, no committed or pending entry under its ledger key has a later version; and collect the read set of namespace ecc |
| `Ledger.ChecksAreRecorded` | tlcc_enclave/enclave/ledger.cpp:437-514 | the comparisons made are those of the recorded reads of all namespaces, all of them and no others |
| `Ledger.ValidIsCurrent` | tlcc_enclave/enclave/ledger.cpp:437-523 | the checks pass exactly when every recorded read is current |
| `Ledger.CheckNsReads` | tlcc_enclave/enclave/ledger.cpp:438-514 | the same for one namespace: its range reads, then its point reads |
| `Ledger.CheckRangeReads` | tlcc_enclave/enclave/ledger.cpp:444-482 | all raw reads of all range queries of a namespace; the loop goes on after a conflict, so the names it collects do not depend on where the conflict is |
| `Ledger.CheckRawReads` | tlcc_enclave/enclave/ledger.cpp:447-476 | the raw reads of one range query, keys rewritten by the C-string scan |
| `Ledger.CheckPointReads` | tlcc_enclave/enclave/ledger.cpp:485-508 | the point reads, keys cut at the first NUL |
| `Ledger.CollectWrites` | tlcc_enclave/enclave/ledger.cpp:528-625 | the update map after the write loops: every stored write inserted in order, an entry that is there already stays |
| `Ledger.CollectNsWrites` | tlcc_enclave/enclave/ledger.cpp:537-617 | which writes of a namespace are stored: lscc all, ercc the first, ecc all keys with the first value, others none |
| `Ledger.CollectLsccWrites` | tlcc_enclave/enclave/ledger.cpp:538-546 | each lscc write is inserted under its own value |
| `Ledger.CollectErccWrite` | tlcc_enclave/enclave/ledger.cpp:547-584 | only the first ercc write is inserted |
| `Ledger.CollectEccWrites` | tlcc_enclave/enclave/ledger.cpp:585-614 | ecc writes go into the update map and into the write set that is hashed |
| `Ledger.EccLedgerKey` | tlcc_enclave/enclave/ledger.cpp:587-605 | the ledger key and the hashed name of an ecc write, composite or plain |
| `Ledger.DigestInput` | tlcc_enclave/enclave/ledger.cpp:643-661 | the bytes fed to the hash: function, response, read set in order, write set in order |
| `Ledger.FeedKeys` | tlcc_enclave/enclave/ledger.cpp:648-652 | the read-set loop appends the concatenation of the ordered set |
| `Ledger.FeedPairs` | tlcc_enclave/enclave/ledger.cpp:655-658 | the write-set loop appends each key and its value in key order |
| `Ledger.ParseAction` | tlcc_enclave/enclave/ledger.cpp:425-695 | an action changes the pending updates as its read/write set demands when its reads are valid, and not at all otherwise |
| `Ledger.ParseEndorserTransaction` | tlcc_enclave/enclave/ledger.cpp:361-705 | the actions of a transaction one after the other, up to one that does not decode |
| `Ledger.ParseEnvelope` | tlcc_enclave/enclave/ledger.cpp:164-271 | one envelope: skipped when its filter byte is 1, an error, or its units applied |
| `Ledger.CollectUpdates` | tlcc_enclave/enclave/ledger.cpp:155-271 | the envelope loop: fails exactly on an envelope that does not decode and is not filtered out; otherwise gives the pending updates of the whole block |
| `Ledger.TrustedLedger.constructor` | tlcc_enclave/enclave/ledger.cpp:49-52 | starts with no state and the counter at -1 in 32 bits |
| `Ledger.TrustedLedger.ParseBlock` | tlcc_enclave/enclave/ledger.cpp:73-279 | the new state and counter, and the status, as a function of the old ones and the message; a rejected or undecodable block changes neither |
| `Ledger.TrustedLedger.CommitStateUpdates` | tlcc_enclave/enclave/ledger.cpp:281-294 | the commit loop overlays all updates and sets the counter |
| `LedgerRuns.InsertAllEntries` | tlcc_enclave/enclave/ledger.cpp:544-613 | inserting a list of writes keeps what is there, gives new keys the version of the transaction and touches no other key |
| `LedgerRuns.DeliverAgrees` | tlcc_enclave/enclave/ledger.cpp:73-94 | one delivery of a block of the chain keeps the agreement with the replay |
| `LedgerRuns.DeliveryAgreement` | tlcc_enclave/enclave/ledger.cpp:73-94 | after any sequence of duplicated, missing, reordered or undecodable deliveries the state is that of replaying blocks 0 to the counter once each, in order |
| `LedgerRuns.SameHeightSameState` | tlcc_enclave/enclave/ledger.cpp:73-94 | two ledgers fed differently from one chain agree whenever their counters do |
| `LedgerRuns.ChangeExactlyOnSuccess` | tlcc_enclave/enclave/ledger.cpp:276-294 | a delivery changes the ledger exactly when it is reported as success |
| `LedgerRuns.CatchesUp` | tlcc_enclave/enclave/ledger.cpp:88-94 | once blocks 0 to k-1 were delivered in order, whatever came in between, at least k blocks are committed |
| `LedgerRuns.VersionsBelowHeight` | tlcc_enclave/enclave/ledger.cpp:173-174 | in every reachable state stored block numbers do not exceed the sequence number |
| `LedgerRuns.VersionsIncrease` | tlcc_enclave/enclave/ledger.cpp:281-294 | along a chain a key is never dropped and its version only ever strictly increases |
| `LedgerRuns.OverlayCheck` | tlcc_enclave/enclave/ledger.cpp:499-503 | checking a read against the state and then the pending updates is one check against the updates laid over the state |
| `LedgerRuns.HeightBoundExact` | tlcc_enclave/enclave/ledger.cpp:80-94 | outside a chain of small numbers: an accepted block keeps the height bound exactly when its number fits in 32 bits or it stores nothing; the block that wraps the counter exactly when nothing is stored at all |
| `LedgerRuns.UnitsInOrder` | tlcc_enclave/enclave/ledger.cpp:164-174 | the units of a block are in the order of its transactions |
| `LedgerRuns.WideNumberBreaksOrder` | tlcc_enclave/enclave/ledger.cpp:80-94 | a first block numbered 2^32 is accepted, and the next block lowers the version of a key |
| `LedgerBlocks.FilterMeans` | tlcc_enclave/enclave/ledger.cpp:155-171 | a transaction marked 1 in the filter counts like a configuration and any other mark for nothing: for the units, the state and the answer of every ledger |
| `LedgerBlocks.UnitsExact` | tlcc_enclave/enclave/ledger.cpp:164-271 | the units of a block are exactly the actions with results of unmarked transactions before one that does not decode, each once, in order, with the numbers of block and transaction as version |
| `LedgerBlocks.EffectsAreStored` | tlcc_enclave/enclave/ledger.cpp:528-617 | the stored writes are those of all namespaces: lscc all, ercc the first, ecc every key with the first value |
| `LedgerBlocks.FirstWriteKept` | tlcc_enclave/enclave/ledger.cpp:544 | of several writes to one key the first is kept |
| `LedgerBlocks.StatusOfRun` | tlcc_enclave/enclave/ledger.cpp:73-94 | over any deliveries of a chain: an invalid block number exactly when the number is not the height, a decoding error exactly for garbage or the next block when a part of it does not decode, success otherwise |
| `Serializability.FaithfulExact` | tlcc_enclave/enclave/ledger.cpp:537-614 | the stored writes of a namespace are the written ones exactly for lscc, ercc with at most one write, ecc with a single value, or no writes |
| `Serializability.IntendedAreWritten` | tlcc_enclave/enclave/ledger.cpp:528-617 | the writes a transaction asked for are all writes of all its namespaces |
| `Serializability.PassingReadIsCurrent` | tlcc_enclave/enclave/ledger.cpp:708-719 | a read taken on an older snapshot that passes the check is still current, across blocks and within the block |
| `Serializability.SurvivorReadsCurrent` | tlcc_enclave/enclave/ledger.cpp:435-523 | every key that a survivor recorded as read, in any namespace, by a point read or a range query, has at its place in block order the value and version it was read with |
| `Serializability.DisjointWriters` | tlcc_enclave/enclave/ledger.cpp:435-625 | no two survivors of a block write the same key |
| `Serializability.SurvivorReruns` | tlcc_enclave/enclave/ledger.cpp:435-625 | running a survivor again at its place gives the writes it was endorsed with |
| `Serializability.SerializableBlock` | tlcc_enclave/enclave/ledger.cpp:435-625 | the overlay after k transactions of a block is the serial run of its survivors so far |
| `Serializability.Serializable` | tlcc_enclave/enclave/ledger.cpp:281-294 | the values committed by any chain of well endorsed transactions are those of running the survivors one at a time in block order |
| `Serializability.SecondValueLost` | tlcc_enclave/enclave/ledger.cpp:585-614 | an invocation with two different values: the second is stored as the first |
| `Serializability.FirstCommitterWins` | tlcc_enclave/enclave/ledger.cpp:484-523 | two transactions endorsed on the same state that read and write one key meet all conditions of the theorems; the first in the block survives, the second does not |
| `Auction.SearchHighestBid` | ecc_enclave/enclave/auction/auction_cc.cpp:207-225 | the loop announces what the tally of highest bid and draw says |
| `Auction.EvaluationExact` | ecc_enclave/enclave/auction/auction_cc.cpp:207-234 | the announced answer is right exactly when some bid is non-negative, or the highest bid is -1 and made twice or more |
| `Auction.NegativeBidMisjudged` | ecc_enclave/enclave/auction/auction_cc.cpp:207-234 | a single bid of -5 is never answered rightly |
| `Auction.Context.GetState` | ecc_enclave/enclave/shim.cpp:36-78 | returns the stored record and adds the key to the read set |
| `Auction.Context.PutState` | ecc_enclave/enclave/shim.cpp:80-97 | keeps the first value put under a key |
| `Auction.Context.GetStateByPartialCompositeKey` | ecc_enclave/enclave/shim.cpp:99-149 | returns the entries under the prefix and adds exactly their keys to the read set |
| `Auction.Context.AddReads` | ecc_enclave/enclave/shim.cpp:118-119 | the loop adds every key |
| `Auction.Context.AuctionCreate` | ecc_enclave/enclave/auction/auction_cc.cpp:83-106 | response, read set and write set of create, on every state |
| `Auction.Context.AuctionSubmit` | ecc_enclave/enclave/auction/auction_cc.cpp:108-142 | response, read set and write set of submit, on every state: no auction, a record that is no auction, closed, or the bid written |
| `Auction.Context.AuctionClose` | ecc_enclave/enclave/auction/auction_cc.cpp:144-173 | response, read set and write set of close, on every state: no auction, a record that is no auction, closed already, or closed now |
| `Auction.Context.AuctionEval` | ecc_enclave/enclave/auction/auction_cc.cpp:175-234 | response and read set of eval on every state: no auction, a record that is no auction, open auction, no bids, a record that is no bid, or the announced outcome of the bids in key order |
| `AuctionRuns.Refines` | ecc_enclave/enclave/auction/auction_cc.cpp:83-173 | after any run the stored records are those of an abstract auction with a phase and a book of last bids |
| `AuctionRuns.RangeIsBook` | ecc/enclave/enclave_stub.go:161-201 | the range query of eval sees each bidder once, with their last bid, and nothing else |
| `AuctionRuns.ClosedIsFinal` | ecc_enclave/enclave/auction/auction_cc.cpp:83-173 | once an auction is closed no run changes its record or its bids |
| `AuctionRuns.EvaluationOfRun` | ecc_enclave/enclave/auction/auction_cc.cpp:175-234 | after any run eval answers rightly for the last bids exactly when one is non-negative, or two bidders share the highest bid of -1 |
| `AuctionRuns.AnswerForBook` | ecc_enclave/enclave/auction/auction_cc.cpp:207-234 | the same for any list of bids that represents a book |
| `AuctionRuns.AnswersOfRun` | ecc_enclave/enclave/auction/auction_cc.cpp:83-173 | what create, submit and close answer after any run, by the phase of the auction; a missing auction is answered like an existing one |
| `AuctionRuns.EvalOfRun` | ecc_enclave/enclave/auction/auction_cc.cpp:175-234 | what eval answers after any run, by phase and book; and the answer is right exactly under the condition above |
| `AuctionLedger.CallEffects` | ecc_enclave/enclave/auction/auction_cc.cpp:83-173 | a successful call writes one key on the ledger, its auction record or its bid, and any other call none |
| `AuctionLedger.CallReadsAuction` | ecc_enclave/enclave/auction/auction_cc.cpp:83-173 | every call has the record of its auction among the keys the ledger checks |
| `AuctionLedger.PhaseStep` | tlcc_enclave/enclave/ledger.cpp:484-523 | a survivor saw the phase its auction has at its place: create only on an absent, submit and close only on an open one |
| `AuctionLedger.PhaseNeverFalls` | tlcc_enclave/enclave/ledger.cpp:484-523 | absent, open, closed: the phase never goes back over a ledger run |
| `AuctionLedger.AuctionOrder` | ecc_enclave/enclave/auction/auction_cc.cpp:83-173 | of two surviving calls on one auction the later is not create and the earlier is not close, in one block or over many |
| `AuctionLedger.PendingKeys` | tlcc_enclave/enclave/ledger.cpp:544-613 | the pending updates hold exactly the keys that survivors so far write |
| `AuctionLedger.FirstWriterStored` | tlcc_enclave/enclave/ledger.cpp:611 | the first survivor of a block that writes a key is the one whose write is stored |
| `AuctionLedger.FirstWriteOfBlockStands` | ecc_enclave/enclave/auction/auction_cc.cpp:129-139 | what is stored under a key a survivor writes is its own exactly when no earlier survivor from another transaction of the block writes the key |
| `AuctionRace.SecondBidLost` | ecc_enclave/enclave/auction/auction_cc.cpp:129-139 | a chain with two bids of one bidder in one block: it meets the conditions of the auction theorems, both bids survive and the first one stays, although the comment says it is overwritten |
| `AuctionOutcome.BookStands` | ecc_enclave/enclave/auction/auction_cc.cpp:129-139 | a bid in the book of a chain is the first surviving one of its bidder in the last block that has one, and a bidder without an entry has no surviving bid |
| `AuctionOutcome.CallBids` | ecc_enclave/enclave/auction/auction_cc.cpp:108-173 | a call adds its bid to the pending bids of its auction unless the bidder has one there, and changes nothing else under their keys |
| `AuctionOutcome.BlockStoresBids` | tlcc_enclave/enclave/ledger.cpp:544-613 | the pending updates of a block hold, under the keys of an auction, the first surviving bid of each bidder and nothing else |
| `AuctionOutcome.LedgerHoldsBook` | tlcc_enclave/enclave/ledger.cpp:544-613 | after any chain the ledger holds the book of every auction, bid for bid, and nothing else under its keys |
| `AuctionOutcome.ClosedBookIsFinal` | ecc_enclave/enclave/auction/auction_cc.cpp:144-173 | once an auction is closed on the ledger no later block changes its book |
| `AuctionOutcome.EvaluationOfChain` | ecc_enclave/enclave/auction/auction_cc.cpp:175-234 | on a range equal to that of the ledger, eval answers rightly for the book of the chain exactly when the highest bid is non-negative, or is -1 and shared |
| `Metadata.EraseUndoesEcc` | tlcc_enclave/enclave/enclave.cpp:88-93 | erasing up to the first dot undoes the prefix ecc exactly on keys that begin with a dot |
| `Metadata.LowerBound` | tlcc_enclave/enclave/ledger.cpp:766 | the first key not below the given one |
| `Metadata.StretchIsSelected` | tlcc_enclave/enclave/ledger.cpp:766-786 | a scan from the lower bound to the first key without the prefix visits exactly the keys with the prefix, in order |
| `Metadata.GetMultiState` | tlcc_enclave/enclave/ledger.cpp:757-789 | feeds exactly the entries with the prefix, in order, to the hash |
| `Metadata.SameOrder` | ecc_enclave/enclave/shim.cpp:111-142 | the enclave visits its map in the order in which the ledger visits the same entries |
| `Metadata.RangeAgreement` | ecc_enclave/enclave/shim.cpp:111-142 | for the same entries both enclaves hash the same bytes |
| `Metadata.RangeMacAgreement` | tlcc_enclave/enclave/enclave.cpp:81-106 | for a delimited key the authenticated bytes of both enclaves are equal |
| `PeerRange.LedgerKeyOf` | tlcc_enclave/enclave/ledger.cpp:588-600 | the ledger stores a composite key under its components up to the first empty one |
| `PeerRange.PeerRangeHas` | ecc/enclave/enclave_stub.go:161-189 | the peer returns exactly the composite keys that extend the asked components, with their values |
| `PeerRange.PeerRangeExact` | ecc/enclave/enclave_stub.go:161-201 | an honest peer returns the range the ledger hashes exactly when every stored key in either range is a composite key without an empty component |
| `PeerRange.PlainKeyBreaks` | ecc/enclave/enclave_stub.go:161-201 | any plain key that reads like one of the range makes the two ranges differ |
| `PeerRange.PlainKeyAmongBids` | tlcc_enclave/enclave/ledger.cpp:766-786 | the plain key somePrefix.a.z is in the range the ledger hashes for the bids of auction a, and not in the range of the peer |
| `Metadata.PlainAskedKey` | ecc/tlcc/stub.go:80-85 | a plain key reaches the ledger enclave as it is stored there |
| `Metadata.DelimitedAskedKey` | tlcc/enclave/enclave_stub.go:145-147 | of a delimited key nothing reaches the ledger enclave: the peer asks with the Fabric form and the C string ends at its first NUL |
| `Metadata.PointMacExact` | tlcc_enclave/enclave/enclave.cpp:56-79 | for a point read both enclaves authenticate the same bytes exactly when the key is not delimited and its value is not a stored empty string (unless the hash of nothing is the zero block) |
| `Metadata.EmptyValueDiffers` | ecc_enclave/enclave/shim.cpp:47-54 | a stored empty value: the chaincode enclave compares with other bytes than the ledger authenticated |
| `Metadata.DelimitedKeyDiffers` | ecc/enclave/enclave_stub.go:120-143 | the key .x. on any state: the ledger authenticates the empty key instead |
| `Signing.SortSorts` | ecc/vscc/ecc_validation_logic.go:191-193 | the result of sorting is sorted |
| `Signing.SortIsOrdered` | ecc/vscc/ecc_validation_logic.go:191-193 | without repetitions sorting a list is visiting the ordered set |
| `Signing.RepetitionShows` | ecc/vscc/ecc_validation_logic.go:191-199 | sorted and concatenated, a list of non-empty keys gives the bytes of its set exactly when no key occurs twice |
| `Signing.RebuildSignedBytes` | ecc/vscc/ecc_validation_logic.go:164-206 | the bytes the Go validator hashes for a read/write set |
| `Signing.TranslateReads` | ecc/vscc/ecc_validation_logic.go:167-181 | the loop translates every key |
| `Signing.TranslateWrites` | ecc/vscc/ecc_validation_logic.go:182-189 | key list and value map of the write loop |
| `Signing.SignedInput` | ecc_enclave/enclave/enclave.cpp:159-178 | the bytes the chaincode enclave signs |
| `Signing.LedgerReadsAgree` | tlcc_enclave/enclave/ledger.cpp:459-495 | the ledger rebuilds the read set of the enclave from what the peer recorded |
| `Signing.LastPutIs` | ecc/enclave/enclave_stub.go:146-158 | the peer holds the last value put under each key |
| `Signing.FirstPutIs` | ecc_enclave/enclave/shim.cpp:93-96 | the enclave holds the first value put under each key |
| `Signing.GoWritesExact` | ecc/vscc/ecc_validation_logic.go:182-206 | the Go validator rebuilds the write set of the enclave exactly when no key is put with a last value other than its first |
| `Signing.LedgerWritesExact` | tlcc_enclave/enclave/ledger.cpp:585-614 | the ledger rebuilds the write set exactly when every first put has the value of the first recorded write |
| `Signing.OneWriteAgrees` | tlcc_enclave/enclave/ledger.cpp:585-614 | for at most one written key: exactly when its last value is its first |
| `Signing.ValidatorAgreement` | ecc/vscc/ecc_validation_logic.go:164-206 | with values of steady lengths the validator hashes the signed bytes exactly when no read key comes up twice and no key is put with a last value other than its first |
| `Signing.LedgerAgreement` | tlcc_enclave/enclave/ledger.cpp:643-661 | with values of one length the ledger hashes the signed bytes exactly when every first put has the value of the first recorded write |
| `Signing.ThreeWayAgreement` | ecc/crypto/ecdsa.go:157-167 | for every recorded invocation with good keys: both conditions suffice for all values, and are exact for values of the same lengths |
| `Signing.PutTwiceDiffers` | ecc_enclave/enclave/shim.cpp:93-96 | a key put as a and then as b: the enclave signs a, the validator hashes b, and no read key comes up twice |
| `Signing.UnevenValuesCollide` | ecc/crypto/ecdsa.go:157-167 | two keys put twice with values of other lengths: the hashed bytes are the same although the values differ |
| `Keys.SplitOfDelimited` | utils/utils.go:62-70 | splitting a delimited key gives separator-free components that rejoin to the key |
| `Keys.RestoreExact` | utils/utils.go:49-60 | a delimited key is restored by composite form and back exactly when it holds no NUL |
| `Keys.ScanMatchesReplacement` | tlcc_enclave/enclave/ledger.cpp:448-463 | the C-string scan gives what the Go replacement gives exactly when no component is empty |
| `Keys.PrefixOfComponents` | utils/utils.go:49-60 | on mark-free components a string prefix is a component prefix, both ways |
| `Keys.FabricKeyOf` | ecc/enclave/enclave_stub.go:120-158 | a delimited key becomes the Fabric key of the same components |
| `ExecutorProofs.InitInv` | eval/benchmark/executor/executor.go:68-76 | the invariant holds of a new executor |
| `ExecutorProofs.KeepsPhases` | eval/benchmark/executor/executor.go:133-164 | which program counters go together, kept by every step |
| `ExecutorProofs.KeepsPlacement` | eval/benchmark/executor/worker/workerpool.go:66-90 | every idle worker is in exactly one place, the channel or somebody's hand, kept by every step |
| `ExecutorProofs.KeepsQueueCounter` | eval/benchmark/executor/executor.go:95-106 | the WaitGroup of the executor counts the accepted tasks not yet handed over, kept by every step |
| `ExecutorProofs.KeepsPoolCounters` | eval/benchmark/executor/worker/workerpool.go:38-100 | the WaitGroups of the pool count unfinished tasks and live workers, kept by every step |
| `ExecutorProofs.KeepsConservation` | eval/benchmark/executor/executor.go:95-164 | no task is lost or doubled between Submit, queue, dispatcher, workers and completion, kept by every step (their order is FirstInFirstOut) |
| `ExecutorProofs.KeepsInv` | eval/benchmark/executor/executor.go:79-164 | the whole invariant is kept by every step |
| `ExecutorProofs.RunInv` | eval/benchmark/executor/executor.go:79-164 | so it holds after every run, for any interleaving |
| `ExecutorProofs.Safety` | eval/benchmark/executor/worker/worker.go:58-82 | in every run: no task invoked twice or unasked, no WaitGroup below zero, at most as many tasks running as workers |
| `ExecutorProofs.StopFinishesEverything` | eval/benchmark/executor/executor.go:130-150 | when Stop returns, with either argument, every accepted task was invoked exactly once and has finished (the comment promises this for wait only) |
| `ExecutorProofs.WaitMeans` | eval/benchmark/executor/executor.go:125-128 | when Wait may return every accepted task was invoked exactly once, and the unfinished ones are those still running |
| `ExecutorProofs.WaitExact` | eval/benchmark/executor/executor.go:125-128 | the promise that all accepted tasks have completed when Wait may return holds over all runs of a pool exactly when it has no workers |
| `ExecutorProofs.WaitReturnsEarly` | eval/benchmark/executor/executor.go:125-128 | for every positive number of workers, a run in which Wait may return while the one task is still running |
| `ExecutorProofs.AnnounceNeverBlocks` | eval/benchmark/executor/worker/workerpool.go:77-81 | a ready worker always finds room in the channel |
| `ExecutorProofs.Progress` | eval/benchmark/executor/executor.go:133-164 | while anything is unfinished some step is possible, except exactly when the pool is empty, the dispatcher waits for a worker and no Submit can enqueue |
| `ExecutorProofs.StopReturns` | eval/benchmark/executor/executor.go:133-150 | once Stop was called only boundedly many steps follow, in any schedule, and with at least one worker they end with Stop returned |
| `ExecutorProofs.StopReturnsExact` | eval/benchmark/executor/executor.go:133-150 | where no step can follow a call of Stop, Stop has returned exactly when the pool has a worker or no task was accepted, in every run |
| `ExecutorProofs.EmptyPoolNeverStops` | eval/benchmark/executor/worker/workerpool.go:48-74 | in no run of a pool of no workers that accepted a task has Stop returned |
| `ExecutorProofs.EmptyPoolInvokesNothing` | eval/benchmark/executor/worker/workerpool.go:65-74 | a pool of no workers never invokes a task, in any run |
| `ExecutorProofs.EmptyPoolStuck` | eval/benchmark/executor/worker/workerpool.go:48-74 | a run with no workers and one accepted task that ends with Stop waiting and no step possible |
| `ExecutorOrder.FirstInFirstOut` | eval/benchmark/executor/executor.go:95-164 | in every run the tasks invoked, the one in transit and the queued ones are the sent ones in that order, so the invoked ones are a prefix, and all of them when Stop has returned; the queue never exceeds its length |
| `ExecutorOrder.RunHasPath` | eval/benchmark/executor/executor.go:79-164 | every run has such a sequence of steps |
| `ExecutorOrder.WorkersInOrder` | eval/benchmark/executor/worker/workerpool.go:48-81 | in every run workers are taken, for a task or to be stopped, in the order in which they announced themselves |
| `ExecutorOrder.StopsIdleExact` | eval/benchmark/executor/worker/workerpool.go:47-63 | over all runs, no worker is told to stop while a task is not complete exactly when Stop was asked to wait or there is at most one worker |
| `ExecutorOrder.StopsBusy` | eval/benchmark/executor/worker/workerpool.go:47-63 | without wait, for every larger pool, a run in which a worker is told to stop while a task is running |
| `Utf8.VerifySound` | common/json/parson.c:199-239 | an accepted sequence is one UTF8-char of section 4 of RFC 3629 before the terminator and the code point is the encoded character |
| `Utf8.VerifyComplete` | common/json/parson.c:184-239 | every UTF8-char is accepted at its length |
| `Utf8.AssembleSequence` | common/json/parson.c:199-219 | length and code point read from a terminated buffer without passing the terminator |
| `Utf8.VerifyUtf8Sequence` | common/json/parson.c:199-239 | the verdict of one sequence, same bounds |
| `Utf8.IsValidUtf8` | common/json/parson.c:241-251 | accepts exactly the UTF8-octets of RFC 3629 and never looks past the terminator |
| `Utf8.EncodeVerifies` | common/json/parson.c:574-600 | the encoding of any character is accepted and decodes to it |
| `JsonEscapes.EncodeMeans` | common/json/parson.c:574-600 | the bytes written for a character are those of the table in section 3 of RFC 3629, by division |
| `JsonStrings.CombineMeans` | common/json/parson.c:595 | a surrogate pair stands for the character RFC 2781 gives it |
| `JsonStrings.EscapesAreUtf8` | common/json/parson.c:563-607 | what a \u escape writes is accepted by the validator and decodes to the escaped character |
| `JsonEscapes.Hex4Means` | common/json/parson.c:168-182 | four bytes are taken exactly when each is in the table of hexadecimal digits, in either case, as 4096, 256, 16 and 1 times their places |
| `JsonEscapes.PairMeans` | common/json/parson.c:595 | a surrogate pair as a number |
| `JsonEscapes.EscapeMeans` | common/json/parson.c:563-607 | every escape that is taken is written out as the UTF-8 bytes of the character that its digits name |
| `JsonEscapes.EscapeReadsBack` | common/json/parson.c:563-607 | the escape that a hexadecimal printer writes for any character, one or a pair, is read back as that character |
| `JsonStrings.EscapeShrinks` | common/json/parson.c:563-607 | an escape is longer than what it writes |
| `JsonStrings.PieceKeepsClosing` | common/json/parson.c:612-648 | both scans step over the same bytes, one escape at a time |
| `JsonStrings.ScannersAgree` | common/json/parson.c:543-664 | when skip_quotes finds a closing quote, process_string fails or stops exactly there and never writes more than it consumed |
| `JsonStrings.ReadsExact` | common/json/parson.c:612-664 | it never looks past the terminator, and past the closing quote exactly when it meets an escape the quote cuts short |
| `JsonStrings.SuccessReads` | common/json/parson.c:612-664 | an accepted string is read up to its closing quote and no further |
| `JsonStrings.CutShort` | common/json/parson.c:168-182 | a text on which a byte behind the closing quote is read |
| `JsonScanner.SkipQuotes` | common/json/parson.c:543-561 | finds the closing quote or fails, within the terminator |
| `JsonScanner.ParseUtf16Hex` | common/json/parson.c:168-182 | value of four hex digits, and how far it looks |
| `JsonScanner.ParseTrail` | common/json/parson.c:585-594 | the second half of a surrogate pair |
| `JsonScanner.ParseEscape` | common/json/parson.c:563-594 | the character of a \u escape, and how far it looks |
| `JsonScanner.WriteCharacter` | common/json/parson.c:574-600 | writes the UTF-8 bytes of a character |
| `JsonScanner.ParseUtf16` | common/json/parson.c:563-607 | escape to bytes in the output buffer |
| `JsonScanner.ProcessNext` | common/json/parson.c:622-648 | one turn of the loop of process_string |
| `JsonScanner.ProcessString` | common/json/parson.c:612-664 | the processed bytes, with all writes inside a buffer of the length of the string plus one |
| `JsonScanner.GetQuotedString` | common/json/parson.c:668-677 | a quoted string and the position after it |
| `JsonExactStrings.StringReads` | common/json/parson.c:612-677 | every string of section 7 of RFC 8259 without lone surrogates is read as the bytes it stands for |
| `JsonExactStrings.StringOf` | common/json/parson.c:612-677 | and whatever is read is such a string |
| `JsonExactStrings.QuoteIsText` | common/json/parson.c:1011-1070 | a printed string has one character of the grammar for every byte: a short escape exactly where there is one, a \u escape only for other control characters |
| `JsonExactStrings.QuoteEmbeds` | common/json/parson.c:1018-1024 | in a printed string every slash follows a backslash and no control character occurs |
| `JsonWriter.AppendString` | common/utils.c:21-29 | the length, and with a buffer the text, its terminator and nothing else |
| `JsonWriter.Append` | common/json/parson.c:861-864 | appending keeps what was written before |
| `JsonWriter.AppendIndent` | common/json/parson.c:1072-1079 | the loop appends the indentation |
| `JsonPrint.NumberFits` | common/json/parson.c:983-1000 | every number fits the scratch buffer of the measuring pass |
| `JsonPrint.IndentWidth` | common/json/parson.c:1072-1079 | an indentation is four blanks per level |
| `JsonWriter.StoreByte` | common/json/parson.c:1060-1066 | the branch for ordinary bytes |
| `JsonWriter.SerializeString` | common/json/parson.c:1011-1070 | the quoted form is measured and written alike |
| `JsonWriter.SerializeValue` | common/json/parson.c:871-1009 | measuring and writing return the length of the printed form; writing puts it there with a terminator and touches nothing else |
| `JsonWriter.SerializeArray` | common/json/parson.c:882-915 | the same for arrays |
| `JsonWriter.SerializeObject` | common/json/parson.c:916-963 | the same for objects |
| `JsonWriter.SerializationSize` | common/json/parson.c:1490-1494 | length of the printed form plus one, compact and pretty |
| `JsonWriter.SerializeToBuffer` | common/json/parson.c:1496-1507 | fails exactly when the buffer is too small, and then writes nothing; otherwise no byte after the terminator changes |
| `JsonWriter.SerializeToString` | common/json/parson.c:1533-1550 | a buffer of the measured size is filled to its last byte |
| `JsonLayout.Written` | common/json/parson.c:871-1009 | both printed forms are texts of RFC 8259 for the value; the pretty one has every element and member on a line of its own, indented by four blanks a level, and a blank after the colon; the compact one has no white space |
| `JsonParser.SkipWhitespaces` | common/json/parson.c:50 | skips white space up to the terminator |
| `JsonParser.Matches` | common/json/parson.c:829-835 | strncmp against a token |
| `JsonParser.ReadDigits` | common/json/parson.c:843 | a run of digits and its number |
| `JsonParser.HasExponent` | common/json/parson.c:843 | whether strtod reads on with an exponent |
| `JsonParser.IsHexadecimal` | common/json/parson.c:843 | whether strtod reads on with a hexadecimal number |
| `JsonParser.IsNotFinite` | common/json/parson.c:843 | whether strtod reads inf or nan |
| `JsonParser.ParseNumberValue` | common/json/parson.c:839-849 | integers; leading zeros, hexadecimal, inf and nan refused, a lone minus sign accepted as 0 without being consumed |
| `JsonParser.ParseStringValue` | common/json/parson.c:812-824 | a string value, cut at an escaped NUL |
| `JsonParser.ParseToken` | common/json/parson.c:826-858 | true, false and null |
| `JsonParser.ParseValue` | common/json/parson.c:679-702 | what the grammar says, without passing the terminator |
| `JsonParser.ParseArrayValue` | common/json/parson.c:766-810 | the array loop |
| `JsonParser.ParseObjectValue` | common/json/parson.c:704-764 | the object loop; a repeated name fails |
| `JsonParser.ParseString` | common/json/parson.c:1118-1126 | the byte order mark is skipped, what follows the value is ignored |
| `JsonReads.IntReads` | common/json/parson.c:839-849 | an integer of section 6 of RFC 8259 is read as its number, when what follows does not go on with it |
| `JsonReads.DocReads` | common/json/parson.c:679-858 | a text of RFC 8259, with any white space and any choice of escapes, is taken as the value it stands for, wherever it stands, or refused exactly when it is nested too deeply |
| `JsonReads.ItemsRead` | common/json/parson.c:766-810 | the array loop on any elements, from any one on |
| `JsonReads.EntriesRead` | common/json/parson.c:704-764 | the object loop on any members, from any one on |
| `JsonTaken.DocOf` | common/json/parson.c:679-858 | whatever parse_value takes is such a text, or nothing after a minus sign |
| `JsonExact.ParserExact` | common/json/parson.c:679-1126 | json_parse_string takes a text as v exactly when, behind a byte order mark and white space, it begins with a text of RFC 8259 for v with distinct names and at most 2048 levels, or v is 0 and there is a bare minus sign |
| `JsonExact.MinusAlone` | common/json/parson.c:839-849 | a minus sign alone is no JSON text and is taken as 0 |
| `JsonRoundTrip.ValueParses` | common/json/parson.c:679-858 | a printed value is read back wherever it stands, behind any white space and at any nesting, or refused exactly when it is too deep |
| `JsonRoundTrip.RoundTrip` | common/json/parson.c:679-1009 | parsing the compact or pretty form gives the value back, members in order, exactly when the depth is at most MAX_NESTING |
| `JsonRoundTrip.PrintInjective` | common/json/parson.c:871-1009 | different values with distinct names within the depth limit print differently |
| `JsonTaken.ParsesSound` | common/json/parson.c:679-858 | every value that parses has distinct names in every object and the allowed depth |
| `JsonRoundTrip.Reprint` | common/json/parson.c:679-1009 | printing a parsed value and parsing again changes nothing, for every text that parses |
| `JsonObjects.FindIsLookup` | common/json/parson.c:414-426 | looking a name up is looking it up in the map |
| `JsonObjects.SetIsUpdate` | common/json/parson.c:1755-1774 | setting a member is updating the map; names stay distinct |
| `JsonObjects.RemoveIsDelete` | common/json/parson.c:428-449 | removal that moves the last member into the gap is deleting from the map; names stay distinct |
| `JsonObjects.OrderOfMembers` | common/json/parson.c:428-449 | a new member comes last, a changed one keeps its place, the last one takes the place of a removed one |
| `JsonObjects.JsonObject.constructor` | common/json/parson.c:339-350 | an empty object |
| `JsonObjects.JsonObject.GetN` | common/json/parson.c:414-426 | the first member of that name |
| `JsonObjects.JsonObject.Resize` | common/json/parson.c:384-412 | new arrays, same members |
| `JsonObjects.JsonObject.AddN` | common/json/parson.c:359-382 | adds at the end, or fails and changes nothing exactly when the name is taken; the capacity doubles when full |
| `JsonObjects.JsonObject.Place` | common/json/parson.c:371-381 | the member goes into the first free slot |
| `JsonObjects.JsonObject.SetValue` | common/json/parson.c:1755-1774 | updates the map, or changes nothing for a value that belongs elsewhere |
| `JsonObjects.JsonObject.Remove` | common/json/parson.c:428-449 | deletes from the map, success exactly when the name is there |
| `JsonPaths.GetWalks` | common/json/parson.c:1172-1179 | a dotted get follows the dot-free components of the name through nested objects |
| `JsonPaths.FailedSetChangesNothing` | common/json/parson.c:1792-1832 | a dotted set that fails leaves the object as it was |
| `JsonPaths.SetReadsBack` | common/json/parson.c:1792-1832 | a dotted set that succeeds is read back by dotted get |
| `JsonPaths.SetKeepsOthers` | common/json/parson.c:1792-1832 | names that are neither above nor below keep their values |
| `JsonPaths.SetSeenBelow` | common/json/parson.c:1172-1179 | below the name the members of the new value are seen |
| `JsonPaths.SetSucceedsExactly` | common/json/parson.c:1792-1832 | it succeeds exactly for a detached value with no non-object above the last component |
| `JsonPaths.SetKeepsUnique` | common/json/parson.c:1792-1832 | names stay distinct in every object |
| `JsonPaths.RemoveExact` | common/json/parson.c:451-464 | a dotted removal succeeds exactly when the name has a value, which is then gone; otherwise nothing changes |
| `JsonPaths.RemoveKeepsOthers` | common/json/parson.c:451-464 | names that are neither above nor below keep their values |
| `JsonEquality.EqualsExact` | common/json/parson.c:1963-2025 | equality holds exactly for trees that are equal up to the order of members |
| `JsonEquality.AllMatched` | common/json/parson.c:1994-2002 | equally many distinct names, all of the first among the second: the same names |
| `JsonEquality.EqualsIsEquivalence` | common/json/parson.c:1963-2025 | reflexive, symmetric and transitive |
| `JsonEquality.CopyValue` | common/json/parson.c:1411-1488 | the copying loops |
| `JsonEquality.CopyExact` | common/json/parson.c:1411-1488 | a copy succeeds exactly when all names are distinct and is then the same tree |
| `JsonEquality.CopyEquals` | common/json/parson.c:1411-1488 | every copy equals its source |
| `Base64.DecodeEncode` | common/base64/base64.cpp:45-122 | decoding what was encoded gives the bytes back; n bytes become 4 * ceil(n / 3) characters |
| `Base64.EncodePadded` | common/base64/base64.cpp:45-85 | every encoding is padded as section 4 of RFC 4648 asks, unused bits zero |
| `Base64.EncodeDecodeExact` | common/base64/base64.cpp:45-122 | encoding what was decoded gives the string back exactly when it is so padded |
| `Base64Table.EncodeByTable` | common/base64/base64.cpp:34-85 | every letter of an encoding is the entry of Table 1 of RFC 4648 for the digit in base 64 of the number of its three bytes, zero filled; padding where no bit is left |
| `Base64Table.DecodeByTable` | common/base64/base64.cpp:34-122 | every byte of a decoding is the digit in base 256 of the number that its four letters write by the table, up to the first byte outside the table |
| `Base64Table.LetterInTable` | common/base64/base64.cpp:40-42 | the letters are the 64 of the table |
| `Base64Codec.EncodeGroup` | common/base64/base64.cpp:54-63 | three bytes to four letters |
| `Base64Codec.EncodeTail` | common/base64/base64.cpp:66-81 | one or two bytes, zero filled and padded |
| `Base64Codec.Base64Encode` | common/base64/base64.cpp:45-85 | the encoding loop |
| `Base64Codec.Gather` | common/base64/base64.cpp:97-108 | four letters to three bytes |
| `Base64Codec.GatherTail` | common/base64/base64.cpp:111-119 | two or three letters to one or two bytes, a single one dropped |
| `Base64Codec.Base64Decode` | common/base64/base64.cpp:87-122 | the decoding loop, up to the first byte outside the alphabet |

## Left out

- SGX calls, attestation, quotes, encryption, hash and MAC functions: hashes are arbitrary functions of the bytes fed to them.
- Signature checks of the ledger: their outcome is only logged, so it does not enter the state.
- Protobuf decoding, parse_config and the certificate stores: blocks are given decoded, with a constructor for each part that does not decode.
- Reads past a buffer on a range key or composite write key that lacks its final NUL, or is empty: the scan is modelled to stop at the end.
- CollectErccWrite: without a stored MRENCLAVE or without writes the code dereferences a missing entry; the model stores the first write if there is one.
- ThreeWayAgreement: exact only for values of the same lengths, because the bytes are a plain concatenation and need not show a difference otherwise, as UnevenValuesCollide shows; and only for invocations without point reads of delimited keys and without empty key components, on which the three translations of keys differ.
- A transaction filter longer than the envelope list, and deletes, which the prototype does not support.
- Block numbers are natural numbers; only the comparison and the counter are reduced to 32 bits, as in the code.
- Serializability of range reads: the ledger compares the versions of the keys a range query returned, so an entry that appears later in the range is not noticed; the theorem is about point and range reads of existing keys and about transactions that read what they write.
- CreateCompositeKey's checks of UTF-8 and of the largest code point; only its refusal of NUL is modelled.
- The panic on a key that is a single separator is modelled as a missing result.
- Auction names with separators or NUL, for the results about runs; the single operations are modelled for all names.
- What happens after the null pointer that a record of the other kind gives for its name is assigned to a string: the outcome is one fault.
- PeerRangeExact: asks for a prefix without empty components, and for stored keys that the ledger keeps under different keys; two keys of which the ledger keeps one entry can agree by chance of their values.
- The nonce in the state metadata, which the code does not use yet.
- SubmitDelayed, the executor registry, and a Submit that passes its check while Stop changes the state: check and count are one step.
- The announcement of a worker and its entry into select are one step; a hand-over before it reaches select only waits for it.
- Task bodies: every invocation is taken to return.
- JSON numbers with a fraction or an exponent or from 2^53 on, and the sign of zero: such a text is a separate outcome of the parser, and values hold no others.
- ParserExact: the grammar has the integers of the line above only, and counts the vertical tab and the form feed as white space, as isspace does; a string value ends at an escaped NUL, as a C string does.
- Allocation failures, int overflow of printed lengths beyond 2^31 - 1, comments, file functions and json_validate in parson.c.
- JSON arrays as growing buffers: they only repeat the object's growth without names.
- Nested JSON objects that are changed in place by dotted set and removal are modelled on values: aliasing between them is not captured, and a value that already has a parent is a flag.
- The locale of isspace and isalnum: the C locale.
- Stale array elements read by base64_decode on a single trailing letter: they do not reach the result.
- IAS client, decorators, ercc, VSCC wrappers, Docker and build files.
