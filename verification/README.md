# OCLOB in Dafny

OCLOB is a private limit order book: orders are secret, a fixed circuit of eight slots
matches an arrival against the best resting orders, and only commitments, fills and
aggregate depth become public. This project models three parts of it and proves what they
promise.

- **The order book** (`rust/oclob-core/src/lib.rs`). `Orders`, `Matching`, `Depth` and
  `Batch` hold the order type, unbounded and fixed-slot price-time matching, and the
  circuit's answer. `BookModel` is the book as a value with five commands (insert, single
  match, batch match, cancel, expire). `PrivateBooks` is the book as the program has it, a
  class with two maps from price to queue (`Ladder`) that its methods update in place; each
  method is proved to do exactly what the value-level command does, on every error path
  too. `Acceptance` says of each command exactly when it succeeds, how it is refused
  otherwise and what all of its answer and the new book is. `ExpiryLaws`, `Accounting`,
  `Provenance`, `Uncrossed`, `SingleSlot`, `StaleFills`, `Publication` and `NarrowBooks`
  state the laws over whole runs, and `Witnesses` holds concrete runs, among them those
  that break what is not a law. `Formats` is the private wire format as a table of
  offsets, `Wire` the codec proved to meet it, `Commitments` the byte strings that get
  hashed, `Layouts` their tables of offsets and `Utf8` what the test of a market's bytes
  means.
- **The participant edge** (`rust/oclob-edge/src/lib.rs`). `Scalars` and `Lagrange` build
  arithmetic modulo the prime group order and interpolation at zero. `Sharing` and
  `Dealing` are the verifiable secret sharing to seven parties, its checks and the
  reconstruction of the settlement key and of order fields; `Hiding` is what two parties
  cannot learn, and `ManifestBodies` is what the manifest's digest covers. `Decimal` is
  the conversion of a scalar to decimal text.
- **The browser's reader** (`oclob_demo/react-flow/src/native-book.ts`). `PublicReader` and
  `PublicBooks` are the checks on a published book and the two ladders shown from it.

Conventions. A 32-byte digest is the integer its bytes spell, big-endian. Hashes and
signature checks are function parameters (`Env`, `EdgeEnv`) about which nothing is
assumed, so the laws of the book hold for any hash. Randomness and clocks are parameters.
Machine widths are written out: where the program checks them (reserve products, released
totals, wire lengths) and where it does not (published level sums, which wrap).

A run is any sequence of commands from the empty book, failures included; an order reaches
it only through the validating constructor, which is the one premise (`WellFormed`).

Where a wished-for law does not hold, the code is kept and the law is proved with its exact
condition:

- A failed command leaves the book unchanged, except an expiry that passes every check and
  whose released total does not fit in 64 bits: it fails after removing orders
  (`Accounting.FailureAtomicExactly`, with a run in `Witnesses.FailedExpiryCanStrand`).
- Published levels are unchecked 64-bit sums, so the snapshot is the true depth exactly when
  every level fits (`Publication.SnapshotExactly`); without that an emitted level can exceed
  the snapshot's (`Witnesses.PublishedLevelCanWrap`), and with 32-bit orders it always fits
  (`NarrowBooks.NarrowRunsShowTrueDepth`).
- A direct insertion does not match and can cross the book, exactly when the order crosses a
  live one (`Uncrossed.InsertUncrossedExactly`, `Witnesses.InsertionCanCross`). A batch
  keeps the book uncrossed unless its resting remainder exceeded the eight slots
  (`Uncrossed.BatchUncrossedExactly`, `Witnesses.BatchOverCapacityCanCross`). Over whole
  runs of every command, `Uncrossed.RunCrossedExactly` says exactly when it happens.
- The single-slot path ignores expiry and looks at one order, so it agrees with the batch
  path exactly when one slot suffices (`SingleSlot.SingleEqualsBatchExactly`,
  `Witnesses.SingleCanDifferFromBatch`), and it alone can fill an expired order
  (`StaleFills.RunStaleExactly`).

## Model

| member | source | states |
|---|---|---|
| Orders.NewWithControls | rust/oclob-core/src/lib.rs:171-239 | the constructor returns an order exactly when that order is valid: market of 1 to 64 bytes, positive terms, non-zero controls, whole lots, and a reserve that fits 64 bits and is covered |
| Orders.NewOrderExactly | rust/oclob-core/src/lib.rs:171-239 | the same with the conditions written out: the reserve covers price times quantity plus the fee for a buyer and the quantity for a seller, the quantity is whole lots, and which refusal is for the market, for an overflowing and for a short reserve |
| Utf8.Utf8Exactly | rust/oclob-core/src/lib.rs:339-341 | a byte string passes the UTF-8 test exactly when it is the encoding of some sequence of Unicode scalar values |
| Acceptance.InsertExactly | rust/oclob-core/src/lib.rs:789-811 | an insertion succeeds exactly for a good-til-cancelled order vouched for by a current signed authority over its commitment, of this market, new and next; each refusal is named; the book then gains just that order |
| Acceptance.SingleAnswerExactly | rust/oclob-core/src/lib.rs:1230-1260 | the single-slot answer is the one that adds up: quantities conserved on both sides, traded at the resting price, one side exhausted |
| Acceptance.SingleExactly | rust/oclob-core/src/lib.rs:909-974 | a single-slot match succeeds exactly for such an arrival with that answer; sequence, fill, remainder and both sides of the new book follow |
| Acceptance.SlotsExactly | rust/oclob-core/src/lib.rs:1281-1303 | slot by slot: matched exactly when the arrival has quantity left and crosses, then trading all it can at the resting price, and blank otherwise |
| Acceptance.BatchHoldsEight | rust/oclob-core/src/lib.rs:832-871 | the batch has as many slots as there are live opposite orders, at most 8, in rank order, and the arrival's own terms |
| Acceptance.CapacityIsEight | rust/oclob-core/src/lib.rs:873-907 | the capacity check is true exactly when unbounded matching needs more than 8 fills, and the sweep makes the first 8 of them |
| Acceptance.BatchExactly | rust/oclob-core/src/lib.rs:976-1038 | a batch succeeds exactly for such an arrival, immediate-or-cancel too, with the expected answer; sequence, fills, remainder and both sides of the new book follow |
| Acceptance.CancelExactly | rust/oclob-core/src/lib.rs:1040-1074 | a cancellation succeeds exactly when next, new and with a secret that opens the order resting under its target; then exactly that order is gone and its remainder reported; each refusal is named |
| Acceptance.ExpireExactly | rust/oclob-core/src/lib.rs:1089-1134 | an expiry succeeds exactly when next, new, naming what expires, with a total of at most 18446744073709551615; its whole answer and the surviving sides; each refusal is named |
| Matching.SlottedRefinesGreedy | rust/oclob-core/src/lib.rs:832-907 | fixed-slot matching makes exactly the first k unbounded price-time fills; if those are all of them remainder and resting orders are equal too, and otherwise quantity is left |
| Matching.SweepConserves | rust/oclob-core/src/lib.rs:1281-1303 | volume filled plus quantity left is the arrival's quantity, and each resting order loses exactly what its fills take |
| Matching.SweepThins | rust/oclob-core/src/lib.rs:1348-1377 | a sweep only removes orders or lowers remainders; the rest keep their order |
| Matching.PriorityRespected | rust/oclob-core/src/lib.rs:840-863 | of the fills: when a resting order is filled, every live order ranked ahead of it is filled completely |
| Matching.FillsAreTaken | rust/oclob-core/src/lib.rs:1281-1303 | order by order, what the fills take from a maker is what the allocation says |
| Matching.TakenIsSweep | rust/oclob-core/src/lib.rs:1281-1303 | the allocation takes from live orders only, from none more than it has, and has the fills' volume and cost |
| Matching.BestExecution | rust/oclob-core/src/lib.rs:840-863 | no other feasible allocation of the same total over the live opposite orders costs a buyer less or pays a seller more |
| BookModel.BatchFillsInPriority | rust/oclob-core/src/lib.rs:976-1038 | priority of the fills of an accepted batch on any book that keeps the invariant |
| BookModel.BatchBestExecution | rust/oclob-core/src/lib.rs:976-1038 | best execution of the fills of an accepted batch on any book that keeps the invariant |
| Depth.ValidatePublicLevels | rust/oclob-core/src/lib.rs:606-633 | comparing neighbours accepts exactly lists of at most nine levels with prices of 1 to 4294967295 and quantities of 1 to 38654705655, bids before asks and each side strictly from its best price; the error names the first level that fails |
| Depth.AggregateFacts | rust/oclob-core/src/lib.rs:1309-1340 | the true depth, before any 64-bit sum: aggregation yields the canonical list with the same depth at every side and price and the same total |
| Depth.WrappedExactly | rust/oclob-core/src/lib.rs:1309-1322 | levels summed in 64 bits are the true ones exactly when every side and price sums to at most 2^64-1 |
| Depth.CanonicalUnique | rust/oclob-core/src/lib.rs:606-633 | two canonical lists with the same depth everywhere are the same list |
| Batch.MatchSlots | rust/oclob-core/src/lib.rs:1281-1303 | the slot loop's answers and remainder are those of matching slot after slot |
| Batch.ResidualDepth | rust/oclob-core/src/lib.rs:1309-1317 | the map has a level for exactly the sides and prices with something left, holding the 64-bit sum of what is left there |
| Batch.SortLevels | rust/oclob-core/src/lib.rs:1323-1340 | listing such a map gives the canonical level list with 64-bit quantities |
| Batch.ExpectedBatch | rust/oclob-core/src/lib.rs:1281-1346 | the whole circuit answer: slots, remainder (zero for immediate-or-cancel) and canonical residual depth summed in 64 bits |
| Batch.EmittedDepthIsValid | rust/oclob-core/src/lib.rs:1281-1346 | for prices and quantities of 1 to 2^32-1 and at most eight slots the emitted depth passes the validator, sums to everything offered and arriving less both sides of each trade and less what may not rest, and stays within 64 bits |
| Batch.BatchIsSweep | rust/oclob-core/src/lib.rs:976-1038 | handing the first k live orders to the circuit and setting remainders by commitment is the fixed-slot sweep: same fills, remainder and resting orders |
| Batch.InputsOfLive | rust/oclob-core/src/lib.rs:840-863 | the slots hold exactly the first k live orders of the ranked side |
| BookModel.CommandKeepsInvariant | rust/oclob-core/src/lib.rs:789-1134 | any attempted command keeps sides ranked in strict price-time order, remainders between 1 and the order's quantity, distinct resting commitments, all admitted, and as many admitted as the sequence number |
| BookModel.InsertRankedRanks | rust/oclob-core/src/lib.rs:1175-1183 | inserting behind equal prices keeps strict price-time order |
| ExpiryLaws.ExpiredCommitmentsExact | rust/oclob-core/src/lib.rs:1076-1087 | the expired list names, ascending and without repeats, exactly the resting orders that expire before the cutoff |
| ExpiryLaws.ExpireAllExact | rust/oclob-core/src/lib.rs:1111-1119 | the removal loop ends with exactly the survivors and the exact released total, or reports overflow exactly when that total exceeds 64 bits |
| ExpiryLaws.ExpiryAtomicExactly | rust/oclob-core/src/lib.rs:1089-1134 | expiry succeeds exactly when accepted and fitting; a failed one leaves the book unchanged exactly when it was not an accepted overflowing one |
| ExpiryLaws.ExpiryInvisible | rust/oclob-core/src/lib.rs:832-907 | an expiry with a cutoff not after now changes neither the batch, the fills, the remainder nor the capacity verdict of any arrival at now |
| Accounting.CommandConserves | rust/oclob-core/src/lib.rs:789-1134 | for one command and one order: what leaves it plus what rests equals what it had or came with |
| Accounting.CommandKeepsLawful | rust/oclob-core/src/lib.rs:789-1134 | every command keeps the books balanced for every order, all fills within both limits and all resting orders registered with their own terms |
| Accounting.RunsAreLawful | rust/oclob-core/src/lib.rs:789-1134 | the same for every run |
| Accounting.EveryOrderAccounted | rust/oclob-core/src/lib.rs:789-1134 | in every reachable state an order's quantity is its maker fills, taker fills, resting remainder and what was withdrawn, released by expiry, discarded and stranded |
| Accounting.ReachableBookInvariant | rust/oclob-core/src/lib.rs:765-811 | the book invariant holds in every reachable state |
| Accounting.ReservationsCover | rust/oclob-core/src/lib.rs:207-218 | over any run a buyer's payments as maker and taker plus its maximum fee, and a seller's deliveries, stay within the reservation, and a seller is paid at least its limit |
| Accounting.DepartedForGood | rust/oclob-core/src/lib.rs:1157-1173 | an admitted order that no longer rests never rests again |
| Provenance.CommandKeepsGenuine | rust/oclob-core/src/lib.rs:789-1134 | every command keeps every resting record a validly signed good-til-cancelled order of the market under its own commitment |
| Provenance.ReachableIsGenuine | rust/oclob-core/src/lib.rs:515-532 | in every reachable state each admitted order is filed under its own commitment and belongs to the market, and each resting record carries a validly signed authority for its order |
| Provenance.EveryAdmissionVouched | rust/oclob-core/src/lib.rs:515-532 | every order a run admits was brought by one of its commands with a signed authority that named it and had not passed its deadline, before the order expired |
| Provenance.EveryEventJustified | rust/oclob-core/src/lib.rs:789-1134 | everything a run does to an order was done by a command entitled to it: fills by a match of that taker, withdrawal by its secret, expiry past its time, discarding of an immediate-or-cancel |
| Provenance.UnopenedOrderStays | rust/oclob-core/src/lib.rs:1040-1074 | an order that no cancellation of the run opens leaves the book by fills, expiry or being immediate-or-cancel only, to the last unit |
| Provenance.UndisturbedOrderTradesOrRests | rust/oclob-core/src/lib.rs:789-1134 | a good-til-cancelled order that no cancellation opens and no cutoff passes is, to the last unit, traded or resting |
| Accounting.FailureAtomicExactly | rust/oclob-core/src/lib.rs:909-1134 | a failed command of any kind leaves the whole book unchanged exactly when it is not an accepted expiry whose total exceeds 64 bits |
| Accounting.StrandsExactly | rust/oclob-core/src/lib.rs:1111-1119 | a command strands orders exactly when it is such an expiry |
| Accounting.RunStrandsExactly | rust/oclob-core/src/lib.rs:1089-1134 | a run has stranded something exactly when some command of it was such an expiry |
| NarrowBooks.CounterWithinRun | rust/oclob-core/src/lib.rs:1157-1173 | a run of n commands raises the sequence number by at most n, so 64 bits never wrap in a run of fewer than 2^64 |
| NarrowBooks.RestingWithinSequence | rust/oclob-core/src/lib.rs:765-787 | no more orders rest than the sequence number counts |
| NarrowBooks.NarrowBookFits | rust/oclob-core/src/lib.rs:1398-1404 | at most 2^32+1 resting orders of 32-bit remainders make every level fit 64 bits |
| NarrowBooks.NarrowRunsShowTrueDepth | rust/oclob-core/src/lib.rs:1136-1151 | in every run of at most 2^32+1 commands with 32-bit orders the published snapshot is the true depth |
| Witnesses.FailedExpiryCanStrand | rust/oclob-core/src/lib.rs:1111-1119 | a concrete three-command run from the empty book whose expiry fails with the book changed |
| Uncrossed.RestUncrossedExactly | rust/oclob-core/src/lib.rs:1175-1183 | resting a live order keeps the book uncrossed exactly when it crosses no live opposite order |
| Uncrossed.InsertUncrossedExactly | rust/oclob-core/src/lib.rs:789-811 | the same for the insertion command |
| Uncrossed.SweepLeavesCrosserExactly | rust/oclob-core/src/lib.rs:873-907 | when quantity is left after the eight slots, a live order it crosses remains exactly when the capacity check is true |
| Uncrossed.BatchUncrossedExactly | rust/oclob-core/src/lib.rs:976-1038 | an accepted batch keeps the book uncrossed exactly when it was not a good-til-cancelled arrival over capacity |
| Uncrossed.SingleUncrossedExactly | rust/oclob-core/src/lib.rs:909-974 | an accepted single-slot match keeps the book uncrossed exactly when no resting remainder of a good-til-cancelled arrival crosses a live order it left |
| Uncrossed.CommandUncrossedExactly | rust/oclob-core/src/lib.rs:789-1134 | a command of any kind, accepted or not, crosses an uncrossed book exactly when it is accepted and rests an order that crosses a live one |
| Uncrossed.RunCrossedExactly | rust/oclob-core/src/lib.rs:789-1134 | in any run of all five commands in time order from an uncrossed book, the book is ever crossed exactly when some command of the run is such a one |
| Uncrossed.RunsFromEmptyCrossedExactly | rust/oclob-core/src/lib.rs:775-1134 | the same from the empty book |
| Uncrossed.GuardedRunStaysUncrossed | rust/oclob-core/src/lib.rs:976-1134 | guarded batches with a nondecreasing clock, cancellations and expiries keep an uncrossed book uncrossed |
| Uncrossed.GuardedRunsFromEmpty | rust/oclob-core/src/lib.rs:873-1134 | in every such run from the empty book every live bid is strictly below every live ask |
| Witnesses.InsertionCanCross | rust/oclob-core/src/lib.rs:789-811 | a concrete two-insertion run from the empty book that ends crossed |
| Witnesses.AsksThenBuy | rust/oclob-core/src/lib.rs:832-907 | for every n: from the empty book, n one-unit asks and a buy of n make min(n, 8) unit fills in queue order, the rest of the buy rests, and the capacity check is true exactly when n > 8 |
| Witnesses.EightFillAndNotNine | rust/oclob-core/src/lib.rs:832-907 | eight asks fill a buy of eight with nothing left; of nine a buy of nine fills eight and keeps one |
| Witnesses.BatchOverCapacityCanCross | rust/oclob-core/src/lib.rs:976-1038 | a concrete run of nine asks and a buy needing nine fills, accepted, that ends crossed |
| StaleFills.SweepMakersLive | rust/oclob-core/src/lib.rs:840-863 | every maker the eight-slot matching fills is live |
| StaleFills.SingleStaleExactly | rust/oclob-core/src/lib.rs:1185-1260 | an accepted single-slot match fills an expired order exactly when the best opposite order crosses and has expired |
| StaleFills.CommandStaleExactly | rust/oclob-core/src/lib.rs:909-1038 | a command of any kind fills an expired order exactly in that case |
| StaleFills.RunStaleExactly | rust/oclob-core/src/lib.rs:909-1038 | a run ever fills an expired order exactly when one of its single-slot matches is such a case |
| StaleFills.RunsWithoutSinglesNeverStale | rust/oclob-core/src/lib.rs:832-871 | without single-slot matches no expired order trades in any run |
| SingleSlot.SweepsAgreeExactly | rust/oclob-core/src/lib.rs:1185-1260 | one-order matching makes the eight-slot fills exactly when one slot suffices |
| SingleSlot.SingleEqualsBatchExactly | rust/oclob-core/src/lib.rs:909-1038 | accepted from the same book the two transitions make the same fills exactly then, and then leave the same book |
| Witnesses.SingleCanDifferFromBatch | rust/oclob-core/src/lib.rs:1185-1194 | a concrete reachable book and arrival, accepted by both, whose fills differ: the single-slot match fills the only ask although it has expired |
| Publication.SnapshotFacts | rust/oclob-core/src/lib.rs:1136-1151 | the true depth is canonical and at every side and price the sum of what rests there |
| Publication.SnapshotExactly | rust/oclob-core/src/lib.rs:1398-1404 | the program shows the true depth exactly when every level sums to at most 2^64-1 |
| Publication.DepthLeft | rust/oclob-core/src/lib.rs:976-1038 | after a match, at every side and price: depth of the book equals depth the matcher emits plus depth it does not see |
| Publication.EmittedDepthExactly | rust/oclob-core/src/lib.rs:1309-1340 | as 64-bit sums, an emitted level is at most the snapshot's exactly when it and the unseen depth there do not carry, and the lists are equal exactly when the unseen depth is whole words on emitted prices |
| Publication.EmittedDepthWithinSnapshot | rust/oclob-core/src/lib.rs:1136-1151 | if every level afterwards fits 64 bits, each emitted level is at most the snapshot's and the two lists are equal exactly when the opposite side held at most eight orders, all live, and the arrival's own side was empty |
| Witnesses.PublishedLevelCanWrap | rust/oclob-core/src/lib.rs:1398-1404 | a concrete two-command run whose batch emits 2^64-1 at a price where the snapshot then shows 2^64-2 and the true sum is twice 2^64-1 |
| Ladder.FlatInsert | rust/oclob-core/src/lib.rs:1175-1183 | appending to the queue of a price is inserting in price-time order in the ranked side |
| Ladder.FlatSetRemaining | rust/oclob-core/src/lib.rs:1348-1377 | editing the queue entry found by commitment, and dropping an emptied price, is setting that remainder in the ranked side |
| Ladder.Locate | rust/oclob-core/src/lib.rs:1379-1388 | the search through the queues finds the order with that commitment or none rests |
| PrivateBooks.PrivateBook.constructor | rust/oclob-core/src/lib.rs:775-787 | a new book is valid and stands for the empty book of its market |
| PrivateBooks.PrivateBook.Create | rust/oclob-core/src/lib.rs:775-787 | refuses exactly markets outside 1 to 64 bytes |
| PrivateBooks.PrivateBook.PrivateMatchBatch | rust/oclob-core/src/lib.rs:832-871 | the batch holds the ranked opposite side's first eight live orders, or all of them when there are fewer, with the arrival's terms; another market is refused |
| PrivateBooks.PrivateBook.ExceedsFixedMatchCapacity | rust/oclob-core/src/lib.rs:873-907 | the loop answers true exactly when unbounded matching over the live opposite orders needs more than 8 fills |
| PrivateBooks.PrivateBook.FindRecord | rust/oclob-core/src/lib.rs:1379-1388 | finds the record resting under that commitment on either side |
| PrivateBooks.PrivateBook.PublicSnapshot | rust/oclob-core/src/lib.rs:1136-1151 | level by level listing with 64-bit sums gives the canonical aggregation of everything resting, and the true one exactly when every level fits |
| PrivateBooks.PrivateBook.InsertRecord | rust/oclob-core/src/lib.rs:1175-1183 | queues the record at its price: the ranked side gains it in price-time order |
| PrivateBooks.PrivateBook.UpdateRemainder | rust/oclob-core/src/lib.rs:1348-1377 | sets or removes the one record with that commitment and reports whether it rested |
| PrivateBooks.PrivateBook.InsertResting | rust/oclob-core/src/lib.rs:789-811 | result and new state are those of the insertion command, errors included; it succeeds exactly for a good-til-cancelled order that is vouched for, of this market, new and next |
| PrivateBooks.PrivateBook.ApplySlots | rust/oclob-core/src/lib.rs:993-1013 | the fill loop never fails part-way and leaves exactly the fixed-slot sweep |
| PrivateBooks.PrivateBook.ApplySlot | rust/oclob-core/src/lib.rs:995-1012 | one matched slot sets that order's remainder and records the fill; its lookup cannot fail |
| PrivateBooks.PrivateBook.ApplyMpcBatchResult | rust/oclob-core/src/lib.rs:976-1038 | result and new state are those of the batch command, errors included; it succeeds exactly for such an arrival, of either lifetime, with the expected answer |
| PrivateBooks.PrivateBook.BestOpposite | rust/oclob-core/src/lib.rs:1185-1194 | the front of the best queue is the first order of the ranked side |
| PrivateBooks.PrivateBook.ExpectedResult | rust/oclob-core/src/lib.rs:1230-1260 | the single-slot answer for the ranked side's first order |
| PrivateBooks.PrivateBook.FillBest | rust/oclob-core/src/lib.rs:1196-1228 | reducing or removing the front order leaves the ranked side with that one order reduced or gone |
| PrivateBooks.PrivateBook.ApplyMpcResult | rust/oclob-core/src/lib.rs:909-974 | result and new state are those of the single-slot command, errors included; it succeeds exactly for such an arrival with the answer that adds up |
| PrivateBooks.PrivateBook.RemoveByCommitment | rust/oclob-core/src/lib.rs:1390-1396 | removes exactly that record |
| PrivateBooks.PrivateBook.ApplyCancellation | rust/oclob-core/src/lib.rs:1040-1074 | result and new state are those of the cancel command, errors included; it succeeds exactly when it is next, new and its secret opens an order resting under its target |
| PrivateBooks.PrivateBook.ApplyExpiry | rust/oclob-core/src/lib.rs:1089-1134 | result and new state are those of the expire command, the overflowing failure included; a success reports certificate, cutoff and exactly the expired orders and leaves exactly the live ones |
| PrivateBooks.QueuesInCertificateOrder | rust/oclob-core/src/lib.rs:765-787 | each price's queue is in strictly increasing certificate order |
| Wire.CanonicalPayload | rust/oclob-core/src/lib.rs:410-430 | appending field after field gives the payload |
| Wire.ToSecretWire | rust/oclob-core/src/lib.rs:302-309 | the encoding of any valid order meets the format byte for byte and has at most 512 bytes |
| Wire.SecretWireCursor.Bytes | rust/oclob-core/src/lib.rs:1429-1440 | reads the next bytes and advances, or refuses exactly past the end and stays put |
| Wire.SecretWireCursor.U64 | rust/oclob-core/src/lib.rs:1454-1460 | reads the number that the next eight bytes spell, most significant first |
| Wire.SecretWireCursor.Digest | rust/oclob-core/src/lib.rs:1462-1466 | reads the number that the next 32 bytes spell, most significant first |
| Wire.SecretWireCursor.ReadHead | rust/oclob-core/src/lib.rs:328-341 | reads version, identifiers and market exactly when their encoding, with UTF-8 text, comes next; another version is refused as such |
| Wire.SecretWireCursor.ReadTerms | rust/oclob-core/src/lib.rs:342-354 | reads side (0 buy, 1 sell), price, quantity, lifetime (1 good-til-cancelled, 2 immediate-or-cancel) and expiry at their offsets; succeeds exactly when 26 bytes are there with known codes, and names an unknown side or lifetime |
| Wire.SecretWireCursor.ReadOwner | rust/oclob-core/src/lib.rs:355-357 | reads the participant, nullifier and reservation exactly when their encoding comes next |
| Wire.SecretWireCursor.ReadLimits | rust/oclob-core/src/lib.rs:358-362 | reads limits, cancellation digest and nonce exactly when their encoding comes next |
| Wire.ReadPayload | rust/oclob-core/src/lib.rs:328-363 | accepts exactly the byte strings that are a body's encoding, and returns that body |
| Wire.ReadFrame | rust/oclob-core/src/lib.rs:321-326 | accepts exactly a length-prefixed payload followed by the salt and nothing more |
| Wire.FromSecretWire | rust/oclob-core/src/lib.rs:314-386 | exact inverse of the encoder: accepts a byte string exactly when it is the encoding of some valid order, and returns that order; under 48 or over 512 bytes or another magic is malformed |
| Wire.WireIsFormat | rust/oclob-core/src/lib.rs:302-430 | the encoding of an order is the one byte string that meets the format: "OCLOBOR2", lengths, and every number, digest and code byte at its literal offset |
| Wire.PayloadExactly | rust/oclob-core/src/lib.rs:410-430 | two orders share a payload exactly when they differ in nothing but the salt |
| Commitments.OrderPreimageBinds | rust/oclob-core/src/lib.rs:402-408 | two valid orders hash the same bytes exactly when they are the same order |
| Commitments.CancellationPreimageBinds | rust/oclob-core/src/lib.rs:677-685 | the same for cancellations |
| Commitments.ExpiryPreimageBinds | rust/oclob-core/src/lib.rs:1515-1531 | two expiry commands hash the same bytes exactly when market, cutoff and the orders, in any order, are the same |
| Commitments.PublicPreimageBinds | rust/oclob-core/src/lib.rs:1406-1417 | two public books hash the same bytes exactly when market, sequence and levels are the same |
| Commitments.DomainsSeparate | rust/oclob-core/src/lib.rs:16-23 | orders, cancellations, expiries and public books never hash the same bytes |
| Layouts.OrderPreimageLayout | rust/oclob-core/src/lib.rs:402-408 | the hashed bytes of an order: the domain, the salt at 25 and the payload format from 57 |
| Layouts.CancellationPreimageLayout | rust/oclob-core/src/lib.rs:677-685 | the hashed bytes of a cancellation: the domain, then salt, target, secret and nonce at 32, 64, 96 and 128 |
| Layouts.ExpiryPreimageLayout | rust/oclob-core/src/lib.rs:1515-1531 | the hashed bytes of an expiry command: the domain, the market after its length, cutoff, count and the orders ascending, 32 bytes each |
| Layouts.PublicPreimageLayout | rust/oclob-core/src/lib.rs:1406-1417 | the hashed bytes of a public book: the domain, the market after its length, the sequence and 17 bytes a level |
| Scalars.InverseWorks | rust/oclob-edge/src/lib.rs:1559-1562 | modulo a prime everything not congruent to zero times its inverse is one |
| Lagrange.Moments | rust/oclob-edge/src/lib.rs:1546-1562 | the Lagrange weights at zero of any distinct points sum to one and have zero first and second moments |
| Lagrange.InterpolationAtZero | rust/oclob-edge/src/lib.rs:1546-1562 | any three or more distinct points of a degree-two polynomial give back its constant term, in any order |
| Sharing.VerifyManifest | rust/oclob-edge/src/lib.rs:96-159 | accepts exactly well-made signed manifests: version 7, market of 1 to 64 bytes, not past its deadline, non-zero digests, the commitment being the digest of the body, every point decoding, the keys not the identity; a well-made one without signature gets the signature error and any other the manifest error |
| Sharing.ManifestAcceptedExactly | rust/oclob-edge/src/lib.rs:96-159 | the verdict on a manifest, with the numbers of the protocol written out |
| Sharing.UnsignedBody | rust/oclob-edge/src/lib.rs:165-192 | appending field after field gives the manifest's body |
| ManifestBodies.BodyBinds | rust/oclob-edge/src/lib.rs:165-192 | two manifests with markets under 2^16 bytes share a body exactly when they agree in every field but commitment and signature |
| ManifestBodies.OneCommitmentOneKey | rust/oclob-edge/src/lib.rs:161-192 | two accepted manifests whose bodies the digest tells apart have one order commitment exactly when they agree in every covered field, and then commit to the same key |
| Layouts.ManifestBodyLayout | rust/oclob-edge/src/lib.rs:165-192 | where each field of a manifest stands in the body: the domain, version, market, deadline, four digests, three keys, six rows, the flag, two rows and the signer |
| Sharing.CombineCommitments | rust/oclob-edge/src/lib.rs:592-600 | combining committed coefficients with running powers is the committed polynomial at that point, or fails exactly when one does not decode |
| Sharing.VerifyKeyShare | rust/oclob-edge/src/lib.rs:574-609 | accepts exactly signed shares of an accepted signed manifest that open the committed polynomial at their party's point; errors say which of the three failed |
| Sharing.QuorumInterpolates | rust/oclob-edge/src/lib.rs:1530-1570 | the values of any quorum interpolate to the committed key |
| Sharing.LagrangeFractions | rust/oclob-edge/src/lib.rs:1547-1558 | the product loop computes the Lagrange numerator and an invertible denominator |
| Sharing.ReconstructSettlementCapabilityKey | rust/oclob-edge/src/lib.rs:1530-1570 | succeeds exactly on a well-made signed current manifest and three to seven verified shares of distinct parties, returns the committed key, and its closing comparison never fails |
| Dealing.VerifyField | rust/oclob-edge/src/lib.rs:320-336 | accepts exactly the value and blinding that open the field's commitments at the party's point; errors tell an unreduced scalar, an undecodable point and a wrong opening apart |
| Dealing.VerifyOrderShare | rust/oclob-edge/src/lib.rs:298-366 | accepts exactly the signed shares of an accepted manifest whose header matches and all of whose fields open, the settlement fields being zero where the manifest has none; manifest, header and signature errors come in that order |
| Dealing.DealFields | rust/oclob-edge/src/lib.rs:1191-1216 | every coefficient is committed, every party gets both evaluations at its point, and each opens the commitments there |
| Dealing.DealtFieldVerifies | rust/oclob-edge/src/lib.rs:1191-1216 | a dealt field share satisfies the receiver's equation |
| Dealing.DealtOrderShareVerifies | rust/oclob-edge/src/lib.rs:1191-1264 | a signed order share assembled from dealt evaluations passes its party's whole check, settlement fields or their zeros included |
| Dealing.DealtKeyShareVerifies | rust/oclob-edge/src/lib.rs:1273-1289 | a dealt key share passes its party's check and the committed key is the dealt secret |
| Dealing.DealtSharesAreQuorum | rust/oclob-edge/src/lib.rs:2179-2248 | any three to seven dealt shares of distinct parties are a quorum for the dealt secret |
| Dealing.TwoSharesFitEverySecret | rust/oclob-edge/src/lib.rs:1589-1591 | for any two evaluations and any candidate secret exactly one degree-two polynomial fits |
| Hiding.TwoPartiesLearnNothing | rust/oclob-edge/src/lib.rs:1191-1216 | for any dealt field, any two parties and any candidate value exactly one dealing of that value has the same published commitments and the same value and blinding shares at both |
| Dealing.VerifiedFieldOpens | rust/oclob-edge/src/lib.rs:320-336 | values and blindings of any three to seven distinct parties that pass a field's check interpolate to an opening of the field's own commitment |
| Dealing.VerifiedSharesOpenOrder | rust/oclob-edge/src/lib.rs:298-366 | so any three to seven verified order shares open each of the six match fields the manifest commits to |
| Dealing.VerifiedSharesOpenSettlement | rust/oclob-edge/src/lib.rs:337-356 | and both settlement fields where the manifest carries them |
| Dealing.DealtFieldReconstructs | rust/oclob-edge/src/lib.rs:2251-2294 | for dealt shares the interpolated value is the dealt field |
| Decimal.MultiplyAdd | rust/oclob-edge/src/lib.rs:1657-1667 | one byte step multiplies the number by 256 and adds the byte, every limb below 10^9, carry below 256, no machine overflow |
| Decimal.ToLimbs | rust/oclob-edge/src/lib.rs:1655-1671 | the limbs spell the little-endian integer with no zero on top |
| Decimal.LittleEndianSpells | rust/oclob-edge/src/lib.rs:1653-1656 | the number of 32 little-endian bytes is the one they spell read backwards, most significant first |
| Decimal.ScalarLeBytesToDecimal | rust/oclob-edge/src/lib.rs:1653-1676 | the text is the integer's decimal value with no leading zero |
| Decimal.DecimalUnique | rust/oclob-edge/src/lib.rs:1672-1676 | a canonical decimal is the text of its value and of no other |
| PublicReader.IntegerExactly | oclob_demo/react-flow/src/native-book.ts:11-15 | accepts exactly the canonical decimals of 0 to 18446744073709551615, zero refused when asked |
| PublicReader.AllPartiesExactly | oclob_demo/react-flow/src/native-book.ts:28-30 | seven entries with seven values means each party exactly once |
| PublicReader.KeyExactly | oclob_demo/react-flow/src/native-book.ts:45 | two levels share a duplicate key exactly when side and numeric price are equal |
| PublicReader.LevelsExactly | oclob_demo/react-flow/src/native-book.ts:39-45 | of JSON values, accepts exactly lists of at most nine records of known side with canonical positive numbers and no numeric price twice on a side |
| PublicReader.LaddersExactly | oclob_demo/react-flow/src/native-book.ts:78-83 | the two ladders show every level once, bids first, each side strictly from its best price |
| PublicReader.PublishedBookReadsBack | oclob_demo/react-flow/src/native-book.ts:39-83 | every list the publisher validates, printed in decimal, passes unchanged and the ladders end to end are that list |
| PublicBooks.AcceptedExactly | oclob_demo/react-flow/src/native-book.ts:34-66 | a JSON value is accepted as a book exactly when it is a record showing that book, its header is canonical and not behind the minimum, its levels read, all seven parties attest one current window of at most 300 seconds, and required finality is unanimous |
| PublicBooks.FreshExactly | oclob_demo/react-flow/src/native-book.ts:68-71 | an accepted book is fresh then, stays fresh exactly while the clock is in its one window, and is stale 300 seconds later at the latest |

## Left out

- Signatures, the hybrid key encapsulation, the authenticated cipher and SHA-256 are opaque; the laws hold for any of them.
- Message authentication codes, envelope key derivation and the fixed-size framing around JSON (`rust/oclob-edge/src/lib.rs:1776-2007`) only unfold definitions over an opaque hash or serialiser.
- Private and public roots inside transitions: a transition's root fields are not part of the model, and the private root's preimage is not modelled.
- The market-rule check (tick, lot and fee) is four comparisons and is not modelled.
- The constructor of a cancellation refuses four zero digests, and the older single-match input wraps the best opposite order; neither is modelled.
- The digest that a cancellation secret must open, and the bodies of the three edge signatures, are opaque functions of what they cover.
- Corporate reservation, the DeKYX adapter and the optimistic claim protocol mostly drive libraries that are not part of this repository; the demo server, command line and user interface are input and output.
- Sums the program does not check are modelled as a release build computes them, wrapping at 64 bits; a build with overflow checks stops there instead.
- BookModel.CommandKeepsInvariant: the sequence number is unbounded; the program's counter has 64 bits, and `NarrowBooks.CounterWithinRun` shows the two agree in every run of fewer than 2^64 commands.
- Sharing.ReconstructSettlementCapabilityKey: a point is modelled by its logarithm in a group of prime order greater than seven, so encodings other than canonical and undecodable ones do not occur; a commitment's 32 bytes are a function of its encoding.
- Hiding.TwoPartiesLearnNothing: is about order fields, whose commitments are blinded; the settlement key's commitments are not blinded, so for it only the evaluations alone are covered (`Dealing.TwoSharesFitEverySecret`).
- Dealing.DealFields: the coefficients, drawn at random in the program, are arguments.
- Wire.FromSecretWire: the platform's word is taken to have at least 64 bits, so a length always converts.
- PublicBooks.AcceptedExactly: a text is a sequence of Unicode characters, its length counted in UTF-16 code units, so unpaired surrogates do not occur.
