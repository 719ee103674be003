# Formal model of the batch cryptography toolkit

A Dafny 4.11 model of the repository's stateful and algorithmic core, with proofs of what each part is for. The whole
project is checked with `dafny verify dfyconfig.toml`.

Two styles stand side by side. What an operation does to a state is a function, and statements over whole runs are lemmas
about those functions. Where the program changes things in place (loops, tables, shared variables) there is also a method
or class that does the same steps in the same order, proved equal to that function.

When an operation succeeds, and what it then changes, is stated once more from the outside, in terms of its arguments and
the rows or bytes themselves and without the definitions that the operations are built from: `LedgerEffects`,
`LedgerOrders`, `AccessEffects`, `PipelineSteps`, `PoolLoans`, `Openings`, `Sealings`, `TreeHash`, `Base64Bits`, and the lemmas whose
names end in `Exactly`.

## The parts

| part | modules | what the program does there |
|---|---|---|
| Record receipts | `Words`, `Merkle`, `TreeHash`, `Receipts`, `ReceiptTheorems`, `Sealings` | trees of section 2.1 of RFC 9162: recursive construction, iterative inclusion check, signed roots, a verifier with an LRU cache (`python/batchcrypto/receipts.py`) |
| Tokens and lists | `Base64Url`, `Base64Bits`, `Json`, `JsonReader`, `Jws`, `HashLists`, `Openings` | canonical base64url, ES256 compact tokens (section 7.1 of RFC 7515), signed hash lists (`python/batchcrypto/jws.py`, `python/batchcrypto/manifests.py`) |
| Online ledger | `Identifiers`, `LedgerTables`, `HttpLedger`, `LedgerInvariant`, `LedgerRuns`, `LedgerHistory`, `LedgerEffects`, `LedgerOrders`, `ExactlyOnce`, `Ledger`, `Retries` | two-transaction issuing, spending, cancelling, exact retries (`examples/http_access/ledger.py`, `examples/http_access/service.py`) |
| Connection pool | `ConnectionPool`, `PoolLoans` | leases, quarantine and closing (`examples/http_access/ledger.py:72-189`) |
| Access book | `Savepoints`, `AccessBook`, `AccessInvariant`, `AccessRuns`, `AccessHistory`, `AccessEffects`, `Clearing` | nested savepoints, admission, redemption, composed purchases (`examples/access_book/engine.py`) |
| P-256 tables | `Modular`, `EllipticCurve`, `FixedBaseTables` | affine arithmetic, Montgomery form, the nested table loops (`tools/imported/p256_table_math.py`, `tools/generate_p256_tables.py`) |
| Pipeline | `Pipeline`, `PipelineRuns`, `PipelineReport`, `PipelineReserve`, `PipelineSteps`, `LatencyReport`, `Scheduler` | a bounded multi-queue batching scheduler, its report, and the row check of the report (`benchmarks/native/pipeline.cpp`, `benchmarks/verify_pipeline.py`) |
| Ready waves | `BarrierPool`, `Waves` | a generation barrier and strided work (`benchmarks/native/ready_wave.cpp`) |
| Break-even | `BreakEven` | whole-host break-even (`benchmarks/access_business_model.py`) |
| Keys | `KeySlots`, `GuardedSigner` | compare-and-swap key slots and the signer that trusts no device output (`src/abi/batchcrypto_abi.cpp`, `python/batchcrypto/verified.py`) |

`FiniteSums` holds the sums behind SQL `SUM` queries, `Options` the optional values with which errors propagate.

## Assumptions

Each one is a visible precondition of the lemmas that need it.

- The hash is any function to 32 bytes. Binding results never assume it injective: they name two inputs that collide.
- Signature verification is any predicate. `SignsCorrectly` describes a signer whose signatures it accepts,
  `OnlySealed` a key that verifies nothing but sealed inputs (roots alone, or roots and lists under one key).
- `ReadsBack`: parsing a text that the program wrote gives the written object back. Nothing is assumed about other texts.
  `JsonReader` is a parser for which it is proved.
- P-256: the modulus is prime, the chord-and-tangent law is associative, and the base point has the stated order. Inverses,
  closure of the formulas, and that no refused case is ever met are proved from these.
- Digests of canonical request bodies are any function; two bodies are told apart exactly as far as it tells them apart.
- Clocks, random identifiers, signer outcomes, lost messages, failing closes, device outputs and the order in which
  concurrent sections run are free parameters of the steps.

## Where a promise needs a condition

- Break-even: the code corrects the number of hosts once. With f the least number of hosts whose joint surplus covers the
  fixed cost, the result is the least profitable count on exactly its hosts if and only if there is a fixed cost and the
  whole requests that fit on f or on f + 1 hosts pay for these (`BreakEven.BreakEvenExactly`,
  `BreakEven.ReportedBreakEven`). The count alone is right in a few more cases (`BreakEven.LeastCountExactly`). A surplus of
  at least one request's contribution suffices; `BreakEven.OneCorrectionIsNotEnough` and `BreakEven.CountWithoutHosts` are
  inputs with a wrong count and with wrong hosts.
- Pipeline accounting: each worker reserves space for its latencies. If one outgrows its reserve and the next space is
  refused while it counts a verified batch, the requests already counted are counted again as failed. The final check passes
  if and only if no step of the run does that (`PipelineRuns.FinalAccounting`). It passes in every run with one worker, or
  whenever what is offered fits one worker's reserve (`PipelineReserve.OneWorkerBalances`,
  `PipelineReserve.AlwaysBalanced`); for one key that bound is exact (`PipelineReserve.BalancedExactly`).
  `PipelineReserve.InterruptedCompletion` is a run in which the check fails.
- Pool quarantine: a failed rollback closes the pool if and only if closing the broken connection succeeds; otherwise the
  error escapes before the pool is told, although the connection itself is never reused
  (`ConnectionPool.QuarantineExactly`, `ConnectionPool.ClosedExactly`, `ConnectionPool.BrokenIsNeverLeased`).
  `ConnectionPool.NeverQuarantined` is a run of a pool that stays open and is of no use to anyone.
- Without a pool, a borrower gets a connection after a quarantine if and only if it was admitted before it
  (`ConnectionPool.ClosedHandsOutNothing`); `ConnectionPool.LeasedAfterClose` is such a run.
- A different body under an accepted request id is denied as far as digests tell bodies apart
  (`ExactlyOnce.OtherBodyRefused`). The fingerprint of a purchase does not cover the book's token
  (`ExactlyOnce.SpendRetryIgnoresToken`), and a batch cancellation sorts its books before hashing, so that another order is
  the same request (`ExactlyOnce.CancelManyOrderFree`).
- A key slot at the last 64-bit epoch can neither be replaced nor emptied (`KeySlots.LastEpochIsFinal`).
- Modular inverses by exponentiation are inverses if and only if the argument is no multiple of the modulus; only an exact
  zero is refused (`Modular.InverseExactly`).

## Model

| member | source | states |
|---|---|---|
| `Words.SplitByShift` | python/batchcrypto/receipts.py:90 | The split that the tree uses, a power of two by bit length, is the largest power of two strictly below the size |
| `Words.BitLengthBounds` | python/batchcrypto/receipts.py:90 | A number has at most e bits exactly when it is below 2^e |
| `Merkle.Included` | python/batchcrypto/receipts.py:102-118 | The loop over `fn` and `sn` accepts exactly the paths whose length and left/right order the position fixes and whose climb ends in the root |
| `Merkle.LevelsFollowSplits` | python/batchcrypto/receipts.py:87-99 | The level-by-level order of the iterative check equals the order of the recursive largest-power-of-two splits, for every index of every size |
| `Merkle.PathClimbs` | python/batchcrypto/receipts.py:82-99 | Every path of the recursive tree climbs to the root of its range |
| `Merkle.Completeness` | python/batchcrypto/receipts.py:82-118 | Every path the recursive tree builds is accepted by the iterative check, at every index of every size |
| `Merkle.ProofLength` | python/batchcrypto/receipts.py:82-99 | A path is at most as long as the bit length of size - 1, and the first record attains it |
| `Merkle.ProofNodeLimit` | python/batchcrypto/receipts.py:26 | No path of a tree has more than 12 nodes if and only if the tree has at most 4096 records |
| `Merkle.ClimbBinding` | python/batchcrypto/receipts.py:102-118 | Two climbs along the same sides that end in one root start alike with equal paths, or a collision is computed |
| `Merkle.Binding` | python/batchcrypto/receipts.py:102-118 | Two records accepted at one position under one root are equal with equal paths, or an explicit collision of leaf or node hashes is named |
| `Merkle.TreeBinding` | python/batchcrypto/receipts.py:82-118 | A record accepted at a position of a built tree is the record there with its own path, or an explicit collision is named |
| `Merkle.AppendSibling` | python/batchcrypto/receipts.py:93-96 | Appending a sibling touches exactly the paths of one part |
| `Merkle.Build` | python/batchcrypto/receipts.py:87-97 | The in-place recursion returns the root of its range and appends to each path in the range exactly the rest of its proof |
| `Merkle.Tree` | python/batchcrypto/receipts.py:82-99 | One pass yields the root and every inclusion path |
| `Merkle.Push` | python/batchcrypto/receipts.py:82-99 | Merging while the low bit of the index is set keeps one perfect subtree for each set bit (section 2.1.2 of RFC 9162) |
| `Merkle.FoldPeaks` | python/batchcrypto/receipts.py:87-99 | Folding those subtrees from the right gives the recursive root |
| `Merkle.StackRoot` | python/batchcrypto/receipts.py:87-99 | The one-pass stack construction computes the recursive root for every number of records |
| `TreeHash.RootIsTreeHash` | python/batchcrypto/receipts.py:74-99 | The signed root is the tree hash of section 2.1.1 of RFC 9162 over the hash itself: a record under a zero byte, two halves under a one byte, split at the largest power of two below the size |
| `Base64Url.B64Text` | python/batchcrypto/receipts.py:33-34 | Encoded text has the exact unpadded length and only alphabet symbols |
| `Base64Url.DecodeInverts` | python/batchcrypto/receipts.py:33-45 | Padding and decoding inverts encoding for every length |
| `Base64Url.Canonical` | python/batchcrypto/receipts.py:37-45 | Decoding accepts a text as given data if and only if the text is the encoding of that data and not empty |
| `Base64Url.Injective` | python/batchcrypto/receipts.py:33-34 | Two byte strings with one encoding are equal |
| `Base64Bits.EncodedNumber` | python/batchcrypto/receipts.py:33-34 | Encoded text, read as a number by the symbol table of section 5 of RFC 4648, is the number of the data, shifted by the bits that fill the last symbol |
| `Jws.TokensSplit` | python/batchcrypto/jws.py:36-55 | Accepted payloads become one token each, in order, that splits into header, payload and a valid low-s signature; otherwise there is no token at all |
| `Jws.TokenLength` | python/batchcrypto/jws.py:36-55 | The length of a token in terms of key id and payload |
| `Jws.OpensAsSealed` | python/batchcrypto/receipts.py:199-225 | A token over a written object and a valid signature opens to exactly that object |
| `Jws.OpensOnlyAsSigned` | python/batchcrypto/receipts.py:199-225 | A token that opens has the pinned key id and opens to exactly the object whose bytes were signed |
| `Jws.DigestsRoundTrip` | python/batchcrypto/receipts.py:136 | Digests written as text in an array are read back in order |
| `Jws.ScalarsExactly` | python/batchcrypto/receipts.py:217-225 | The scalars of a signature are r and s in that order if and only if it is r and then s, each as 32 big-endian bytes, with 0 < r < n and 0 < s <= n/2 for the order n of P-256, written out |
| `Jws.SignatureIsPair` | python/batchcrypto/receipts.py:217-219 | Every string of 64 bytes is such a pair of numbers |
| `Openings.OpensExactly` | python/batchcrypto/receipts.py:188-225 | A token opens to an object if and only if it is short enough and is header, payload and signature between two dots, both parts parse, the header has exactly algorithm and pinned key id, and the pinned key verifies the r and s written in its tail, in this order |
| `Openings.RootReadsExactly` | python/batchcrypto/receipts.py:199-229 | A token is read as a root and a count if and only if it opens to an object of exactly these four fields, with profile, context, a count in range and a canonical root |
| `Openings.ReceiptReadsExactly` | python/batchcrypto/receipts.py:231-274 | A receipt is read as a path and a token if and only if it parses to an object of exactly the expected fields, index and canonical digests |
| `Openings.ListReadsExactly` | python/batchcrypto/manifests.py:95-150 | A token opens as a hash list if and only if it opens to an object of exactly these four fields, with as many canonical digests as it counts |
| `JsonReader.TextReads` | python/batchcrypto/receipts.py:29-30 | A reader of compact JSON, written independently of the writer, reads every text of the program as exactly its object, whatever its labels need to be escaped |
| `JsonReader.ReadsOwnTexts` | python/batchcrypto/receipts.py:57-61 | So a parser with the assumed property exists |
| `JsonReader.KeysAscend` | python/batchcrypto/receipts.py:29-30 | The keys of every written object ascend, each once |
| `Receipts.SealRecords` | python/batchcrypto/receipts.py:142-165 | Sealing returns what the specification says: one signed root and all paths, or nothing |
| `Receipts.MeetingIsCollision` | python/batchcrypto/receipts.py:74-79 | A collision of leaf or node hashes is a collision of the underlying hash on two named, domain-separated inputs |
| `Receipts.ReceiptVerifier.Manifest` | python/batchcrypto/receipts.py:188-229 | A cached or fresh lookup returns what the full check of that token yields, and moves the token to the most recent end |
| `Receipts.ReceiptVerifier.Verify` | python/batchcrypto/receipts.py:231-274 | The verdict is that of the verifier without a cache; only recency changes |
| `Receipts.CacheIsLeastRecentlyUsed` | python/batchcrypto/receipts.py:195-229 | After any sequence of lookups the cache is the last eight distinct tokens that opened, ordered by their last use |
| `Receipts.VerifyEach` | python/batchcrypto/receipts.py:195-274 | Over any sequence of receipts each verdict is that of the verifier without a cache, and the cache of a new verifier ends with the last eight distinct tokens that opened, ordered by their last use |
| `ReceiptTheorems.SealingSucceeds` | python/batchcrypto/receipts.py:142-165 | A correct low-s signer seals every admissible export |
| `ReceiptTheorems.ReceiptSize` | python/batchcrypto/receipts.py:24-25 | Every receipt of a sealed export stays within the receipt limit, whatever the label needs to be escaped |
| `ReceiptTheorems.SealedRootReads` | python/batchcrypto/receipts.py:188-229 | The sealed token opens to the root and count of the export |
| `ReceiptTheorems.SealThenVerify` | python/batchcrypto/receipts.py:128-165 | Every receipt of a sealed export, with or without the token inside, is accepted at its index |
| `ReceiptTheorems.OpenedRootWasSealed` | python/batchcrypto/receipts.py:188-229 | If the pinned key verifies only sealed inputs, a token that opens carries root and count of an export of this context |
| `ReceiptTheorems.VerifiedRecordWasSealed` | python/batchcrypto/receipts.py:231-274 | An accepted receipt means that the exact record stands at the expected index of an export sealed for this context, or names a hash collision |
| `HashLists.ListPayloadLength` | python/batchcrypto/manifests.py:21-22 | The largest admissible list is far below the manifest limit |
| `HashLists.SealingSucceeds` | python/batchcrypto/manifests.py:25-47 | A correct signer seals every admissible list, so that the size check never refuses one |
| `HashLists.SealThenOpen` | python/batchcrypto/manifests.py:25-150 | A sealed list opens to exactly its digests, and the sealed export passes as a whole |
| `HashLists.RootIsNoList` | python/batchcrypto/manifests.py:131-136 | A token that carries a root never opens as a list |
| `HashLists.ListIsNoRoot` | python/batchcrypto/receipts.py:204-209 | A token that carries a list never opens as a root |
| `HashLists.OpenedListWasSealed` | python/batchcrypto/manifests.py:95-150 | If the pinned key verifies only sealed roots and lists, a token that opens as a list carries exactly the record hashes of an export of this context |
| `HashLists.OpenedRootWasSealed` | python/batchcrypto/receipts.py:188-229 | With one key for roots and lists, a token that opens as a root still carries root and count of an export of this context |
| `HashLists.VerifiedRecordWasSealed` | python/batchcrypto/receipts.py:231-274 | With one key for roots and lists, an accepted receipt still means that the exact record stands at the expected index of an export sealed for this context, or names a hash collision |
| `HashLists.PassingListIsSealed` | python/batchcrypto/manifests.py:66-92 | A list that passes against the handle of a sealed export is that export, or its first difference is a hash collision |
| `HashLists.PassingExportWasSealed` | python/batchcrypto/manifests.py:66-150 | An export that passes against an opened list is the sealed export, or its first difference is a hash collision |
| `Sealings.TokensExactly` | python/batchcrypto/jws.py:36-55 | Payloads become tokens if and only if key id and payloads are within bounds and the callback answers the digests of the signing inputs with one low-s signature for each; token i is input i, a dot, and signature i |
| `Sealings.SealsExactly` | python/batchcrypto/receipts.py:142-165 | An export is sealed if and only if both labels have 1 to 128 printable characters, it has 1 to 4096 records within their bounds, and the callback signs the root; the result is that token with the paths of all records |
| `Sealings.ListSealsExactly` | python/batchcrypto/manifests.py:25-47 | A list is sealed under the same condition, and never outgrows its limit |
| `Sealings.AcceptsExactly` | python/batchcrypto/receipts.py:231-274 | A record is accepted if and only if record and receipt are within their bounds, the receipt is read as a path for this position and a token, the token as a root of more records than that, and the path leads to this root |
| `Sealings.ListAcceptsExactly` | python/batchcrypto/manifests.py:66-92 | A record or a whole export passes against an opened list if and only if it is within bounds and its hashes are those of the list |
| `FiniteSums.TotalByGroup` | examples/http_access/ledger.py:360-370 | The sum over all groups of their totals is the whole total |
| `Identifiers.SortedCanonical` | examples/http_access/ledger.py:337-340 | Sorting forgets the order of a list |
| `Identifiers.AtMostExactly` | examples/http_access/ledger.py:222-232 | Identifiers are sorted by text: one is at most another if it is a beginning of it, or smaller at the first difference |
| `LedgerInvariant.RemainingIsReserved` | examples/http_access/ledger.py:43-68 | A book's remaining units are within its buyer's reservation |
| `LedgerInvariant.SeedKeepsInv` | examples/http_access/ledger.py:191-195 | Seeding conserves |
| `LedgerInvariant.BookSpendFits` | examples/http_access/ledger.py:293-307 | An allowed purchase from a book runs into no CHECK constraint |
| `LedgerInvariant.SpendKeepsInv` | examples/http_access/ledger.py:273-318 | Every purchase conserves, and no constraint stops one |
| `LedgerInvariant.CancelKeepsInv` | examples/http_access/ledger.py:320-329 | Every cancellation conserves, repeated ones included, and no constraint stops one |
| `LedgerInvariant.CloseAllHeld` | examples/http_access/ledger.py:344-350 | Closing different books releases exactly what they held together; this is where duplicates must be refused |
| `LedgerInvariant.CancelManyKeepsInv` | examples/http_access/ledger.py:331-353 | Every batch cancellation conserves, and no constraint stops one |
| `LedgerInvariant.AddBooksHold` | examples/http_access/ledger.py:262-269 | Inserting books with their items reserves exactly their units |
| `LedgerInvariant.CommitIssueKeepsInv` | examples/http_access/ledger.py:248-271 | The write transaction of an issuance conserves whatever happened since its read transaction, and only a clash of fresh ids raises |
| `LedgerInvariant.PreparationHolds` | examples/http_access/ledger.py:214-247 | What the read transaction and signing hand over is admissible |
| `LedgerRuns.NextHolds` | examples/http_access/ledger.py:191-357 | Every transaction keeps the balance; errors other than denials come only from a repeated seed, a failing signer or a clash of ids |
| `LedgerRuns.RunsConserve` | examples/http_access/ledger.py:43-68 | Every state of every interleaving of both phases of issuing with all other operations conserves |
| `LedgerRuns.AuditNeverFails` | examples/http_access/ledger.py:359-372 | The audit of every reachable state passes |
| `LedgerRuns.EachItemPaidOnce` | examples/http_access/ledger.py:304-305 | No item of a book ever has two receipts |
| `ExactlyOnce.AcceptedIsStored` | examples/http_access/ledger.py:203-353 | An accepted delivery leaves its fingerprint and its reply on record |
| `ExactlyOnce.StoredReplays` | examples/http_access/ledger.py:203-212 | A delivery after that changes no table, and the record alone decides its reply: the recorded one for an admissible request with the recorded fingerprint, otherwise a denial; also in the second transaction of an issuance |
| `ExactlyOnce.StoredStays` | examples/http_access/ledger.py:191-357 | No operation changes or removes a recorded fingerprint or reply |
| `ExactlyOnce.RefusedChangesNothing` | examples/http_access/ledger.py:94-168 | Whatever is denied or fails changes no table, and neither does a delivery that is not accepted |
| `ExactlyOnce.AcceptedOnce` | examples/http_access/ledger.py:203-353 | Over any run, after an accepted delivery every later delivery of the operation leaves the tables alone; it gets the same reply if and only if it is admissible and has the same fingerprint, and is denied otherwise |
| `ExactlyOnce.StoredWasAccepted` | examples/http_access/ledger.py:203-353 | Over any run, whatever is on record was answered by a delivery with that fingerprint and that reply |
| `ExactlyOnce.FingerprintOfBody` | examples/http_access/ledger.py:233-271 | Over any run, a delivery carries the digest of the body it was sent with, for the second transaction of an issuance that of the order prepared by its worker |
| `ExactlyOnce.OtherBodyRefused` | examples/http_access/ledger.py:203-353 | Over any run, another body under an accepted id is denied with no table changed, or two bodies with one digest are named; the bodies are those whose digests the two deliveries carry, for the second transaction of an issuance that of the order prepared by its worker |
| `ExactlyOnce.SpendRetryIgnoresToken` | examples/http_access/ledger.py:284-290 | The fingerprint does not cover the token: a retry with another token still recovers the receipt |
| `ExactlyOnce.CancelManyOrderFree` | examples/http_access/ledger.py:337-344 | A batch cancellation depends on which books it names, not on their order |
| `LedgerHistory.ReceiptAppears` | examples/http_access/ledger.py:273-318 | Only an entitled purchase writes a receipt, its own |
| `LedgerHistory.EveryReceiptWasEntitled` | examples/http_access/ledger.py:273-318 | Over every run, each receipt goes back to a purchase entitled to it at that moment: catalog price within its budget, and from a book the own, open, current one under a live key with its token presented |
| `LedgerHistory.ManifestOfBook` | examples/http_access/ledger.py:222-232 | Each book of an order lists exactly its sorted resources as the catalog has them |
| `LedgerHistory.EveryPreparationWasOrdered` | examples/http_access/ledger.py:214-247 | What waits to be committed goes back to the order that was prepared, within its budget |
| `LedgerHistory.CommitWrites` | examples/http_access/ledger.py:262-270 | The write transaction gives each new book the columns of its preparation and exactly the lines of its manifest as items, and touches no other book or item |
| `LedgerHistory.BookStays` | examples/http_access/ledger.py:191-357 | No operation changes a column of a written book but its remaining units and its closing, or any of its items |
| `LedgerHistory.EveryBookWasOrdered` | examples/http_access/ledger.py:214-271 | Over every run, each book goes back to an order prepared within its budget and committed in time under a live key; at any later time it still has the buyer, key, token and validity of that order and, as items, exactly the sorted group ordered for it as the catalog has it |
| `LedgerHistory.RevocationIsFinal` | examples/http_access/ledger.py:355-357 | Over every run, once a key is revoked no book is committed under it and nothing is bought from a book under it |
| `LedgerEffects.SeedExactly` | examples/http_access/ledger.py:191-195 | Seeding succeeds if and only if buyer and amount are valid and the buyer has no account, and opens one with the whole amount available |
| `LedgerEffects.SpendExactly` | examples/http_access/ledger.py:273-318 | A purchase that is not on record succeeds if and only if it asks for a catalog entry as it is, within its budget, and can be paid from the balance or from an open, current, own book under a live key whose item no receipt is for; then exactly its price moves, and otherwise it is denied |
| `LedgerEffects.CancelExactly` | examples/http_access/ledger.py:320-329 | A cancellation succeeds if and only if the book is the buyer's; it answers the open units, by which exactly this account's available balance grows, and closes the book |
| `LedgerEffects.CancelManyExactly` | examples/http_access/ledger.py:331-353 | A batch cancellation that is not on record succeeds if and only if it names different books that are all the buyer's; it answers their open units together and their number, and exactly this account's available balance grows by that sum |
| `LedgerOrders.PrepareExactly` | examples/http_access/ledger.py:214-247 | An order that is not on record is prepared if and only if it is valid, its price is within its budget, and signing succeeds; each manifest is the sorted group as the catalog has it |
| `LedgerOrders.CommitExactly` | examples/http_access/ledger.py:248-271 | A prepared order is committed if and only if its key is live, its time is not over and its price is available, unless a new id is taken; each book then has the columns of the order, the price of its group and exactly its lines, and nothing else changes |
| `LedgerOrders.EveryRecordHolds` | examples/http_access/ledger.py:214-271 | Over every run, every recorded issuance goes back to an order with its fingerprint, and has one entry for each group of it: a different book of this buyer with this entry's token, whose items are exactly this entry's lines, which are the sorted group from the catalog |
| `LedgerOrders.EveryReplyHolds` | examples/http_access/ledger.py:203-271 | Over every run, the same holds of every reply to an issuance, fresh or repeated, at the moment it is given |
| `LedgerOrders.SeededOnce` | examples/http_access/ledger.py:191-195 | Over every run, an account was opened by exactly one accepted seeding of its buyer, and its initial amount is still the one of that |
| `Ledger.Database.SeedAccount` | examples/http_access/ledger.py:191-195 | Statement by statement, the effect of the seeding transaction |
| `Ledger.Database.CommitIssuance` | examples/http_access/ledger.py:255-271 | Row by row, the effect of the write transaction of an issuance, or none |
| `Ledger.Database.Purchase` | examples/http_access/ledger.py:284-318 | Statement by statement, the effect of a purchase, or none |
| `Ledger.Database.CancelBook` | examples/http_access/ledger.py:320-329 | Statement by statement, the effect of a cancellation, or none |
| `Ledger.Database.CancelBooks` | examples/http_access/ledger.py:341-353 | One account update and a loop over the books have the effect of the batch cancellation, or none |
| `Ledger.Database.RevokeKey` | examples/http_access/ledger.py:355-357 | Revocation adds the key and changes nothing else |
| `Retries.ServedIsDelivered` | examples/http_access/service.py:32-54 | Both transactions of an attempt deliver the request that was sent, whatever other clients do between them |
| `Retries.LaterAttempt` | examples/http_access/service.py:32-54 | Of two attempts of a request the one decided later repeats the reply of an accepted one and changes nothing, in whatever order they were sent |
| `Retries.OneEffect` | examples/http_access/service.py:32-54 | However many attempts reach the ledger, at most one step of them all changes its tables |
| `Retries.Rpc` | examples/http_access/service.py:32-54 | The retry loop for purchases, issuances and batch cancellations against any run of the ledger with any other clients: the outcome is that of the last attempt sent; an accepted reply is the one on record and the one every accepted attempt got; after a rejection nothing decided before it had been accepted |
| `ConnectionPool.NextKeeps` | examples/http_access/ledger.py:106-189 | Every step keeps the lease protocol: exact counter, disjoint idle and leased connections, nothing idle in a transaction, nothing open and forgotten |
| `ConnectionPool.RunsKeep` | examples/http_access/ledger.py:106-189 | So does every run of every number of borrowers |
| `ConnectionPool.HandedOut` | examples/http_access/ledger.py:112-125 | A connection is handed out only when nobody holds it, open and outside transactions, and never from a closed pool |
| `ConnectionPool.OneBorrower` | examples/http_access/ledger.py:107-157 | Between two loans of one connection lies its return |
| `ConnectionPool.BrokenIsNeverLeased` | examples/http_access/ledger.py:133-157 | After a failed rollback a connection is never handed out again |
| `ConnectionPool.LostIsNeverLeased` | examples/http_access/ledger.py:140-142 | Nor is one whose close failed |
| `ConnectionPool.ClosedStep` | examples/http_access/ledger.py:143-157 | A closed pool stays closed, admits nobody, and closes every lease that comes back |
| `ConnectionPool.ClosedHandsOutNothing` | examples/http_access/ledger.py:117-132 | After closing nothing is handed out, except that without a pool a borrower gets a connection if and only if it was admitted before and can still open one |
| `ConnectionPool.LeasedAfterClose` | examples/http_access/ledger.py:117-132 | A run in which that happens: a borrower admitted before a quarantine gets its connection after it |
| `ConnectionPool.QuarantineExactly` | examples/http_access/ledger.py:133-156 | A failed rollback closes the pool if and only if the broken connection itself could be closed |
| `ConnectionPool.ClosedExactly` | examples/http_access/ledger.py:133-189 | Over any run the pool is closed if and only if its owner closed it without leases, or a borrower that could not roll back gave its connection up |
| `ConnectionPool.NeverQuarantined` | examples/http_access/ledger.py:140-148 | A run in which a connection can neither be rolled back nor closed: its pool is never closed, the next borrower waits in vain, and the owner may not close it |
| `ConnectionPool.FullAgain` | examples/http_access/ledger.py:143-148 | An idle open pool holds its full size again |
| `ConnectionPool.CloseLeavesNothingOpen` | examples/http_access/ledger.py:179-189 | Closing is refused exactly while leases are counted, and otherwise leaves open only what could not be closed |
| `ConnectionPool.LeasePool.constructor` | examples/http_access/ledger.py:72-92 | Construction opens the configured number of connections |
| `ConnectionPool.LeasePool.Checkout` | examples/http_access/ledger.py:112-125 | Checkout as a section under the lock is the protocol step |
| `ConnectionPool.LeasePool.Return` | examples/http_access/ledger.py:143-157 | So is giving a lease up |
| `ConnectionPool.LeasePool.CloseAvailable` | examples/http_access/ledger.py:152-156 | The loop over idle connections closes them in turn and stops where one fails |
| `ConnectionPool.LeasePool.CloseOwner` | examples/http_access/ledger.py:179-189 | So is closing by the owner |
| `PoolLoans.EntersExactly` | examples/http_access/ledger.py:107-125 | A closed pool refuses; an open one lends a connection exactly while fewer are lent, or lost to a failing close, than it holds; without a pool everybody is admitted |
| `PoolLoans.LoanLeavesNoTrace` | examples/http_access/ledger.py:107-157 | A loan whose transaction is committed or rolled back leaves the pool exactly as it was |
| `PoolLoans.BrokenLoanCloses` | examples/http_access/ledger.py:127-157 | A loan whose rollback fails closes the pool, its connection and every idle one |
| `PoolLoans.LateReturnIsClosed` | examples/http_access/ledger.py:143-150 | A connection that comes back to a closed pool is closed, or lost if that fails |
| `PoolLoans.ClosesInOrder` | examples/http_access/ledger.py:179-189 | Closing without leases closes the idle connections in order until one fails to, and then keeps the list and leaves the others open |
| `PoolLoans.OwnConnectionIsClosed` | examples/http_access/ledger.py:119-157 | Without a pool a loan opens a new connection and leaves it closed |
| `Savepoints.Run` | examples/access_book/engine.py:189-210 | Running any program leaves the stack of savepoints and the nesting as found |
| `Savepoints.RunsNested` | examples/access_book/engine.py:189-205 | Inside a transaction the savepoint statements mean: a failing inner transaction has no effect, nothing becomes durable |
| `Savepoints.RunsOutermost` | examples/access_book/engine.py:206-210 | Outside, a transaction becomes durable as a whole or not at all |
| `Savepoints.FailureRestores` | examples/access_book/engine.py:189-210 | A failing transaction at any depth restores exactly the state of its entry, whatever it contains |
| `Savepoints.CaughtFailureRestores` | examples/access_book/engine.py:189-210 | Also when the caller catches the failure: what it does then, and after that, starts from the state of entry |
| `Savepoints.DurableAtOnce` | examples/access_book/engine.py:189-210 | Nothing is durable before the outermost commit, which makes all of it durable |
| `Savepoints.ComposedKeeps` | examples/access_book/engine.py:189-210 | An invariant that each operation keeps when it succeeds holds of everything composed of them |
| `AccessBook.Earliest` | examples/access_book/engine.py:297 | The expiry is the earliest of its bounds |
| `AccessInvariant.SetOfferKeeps` | examples/access_book/engine.py:224-234 | A new offer opens its publisher row and conserves |
| `AccessInvariant.IssueKeeps` | examples/access_book/engine.py:242-331 | Issuing conserves |
| `AccessInvariant.ActivateKeeps` | examples/access_book/engine.py:333-356 | Admission conserves |
| `AccessInvariant.AllowedFits` | examples/access_book/engine.py:405-431 | An allowed redemption is covered by book, reservation and publisher row: no CHECK stops it |
| `AccessInvariant.RedeemKeeps` | examples/access_book/engine.py:358-448 | Redeeming conserves, for accounts, books and publishers |
| `AccessInvariant.ReleaseKeeps` | examples/access_book/engine.py:450-470 | Releasing conserves |
| `AccessInvariant.BuyKeeps` | examples/access_book/engine.py:476-519 | So does the composed purchase |
| `AccessInvariant.AuditSucceeds` | examples/access_book/engine.py:521-560 | In a conserving state every comparison of the audit holds, for every buyer and every publisher |
| `AccessRuns.RunsKeep` | examples/access_book/engine.py:145-168 | Every reachable state conserves |
| `AccessRuns.AuditNeverFails` | examples/access_book/engine.py:521-560 | The audit of every reachable state passes |
| `AccessRuns.ClientsConserve` | examples/access_book/engine.py:189-210 | However callers nest the operations, choose them by what they read, and catch and answer their failures, durable and visible state conserve |
| `AccessRuns.NextExtends` | examples/access_book/engine.py:218-519 | No operation rewrites a book, reprices an item or adds one to an existing book, or drops a receipt |
| `AccessRuns.EveryBookWasSold` | examples/access_book/engine.py:272-331 | For every book there is the step that issued it, and its items repeat the offers in the catalog at that step |
| `AccessRuns.ReceiptsAreJustified` | examples/access_book/engine.py:376-448 | Every receipt matches its item, belongs to an admitted book, lies within its validity, and is the only one for the item |
| `AccessRuns.EveryReceiptIsJustified` | examples/access_book/engine.py:224-448 | Over every run, each receipt has the content, terms and price of an offer on sale when its book was issued, and was committed before that offer ended |
| `AccessRuns.BuyEffect` | examples/access_book/engine.py:476-519 | A first purchase that succeeds has the combined effect of issue, activate and redeem: the price leaves the available balance, nothing stays reserved, the publisher accrues it |
| `AccessRuns.BuyAgain` | examples/access_book/engine.py:476-519 | Repeating a committed purchase returns the same book, token and receipt and changes nothing, after any other operations and at any time, exactly while the key is live |
| `AccessRuns.RedeemAgain` | examples/access_book/engine.py:376-387 | A receipt alone is recovered even after revocation |
| `AccessHistory.EveryAdmissionWasVerified` | examples/access_book/engine.py:333-356 | Over every run, an admitted book carries a token that verified against its stored claims |
| `AccessHistory.NewBookWasFillable` | examples/access_book/engine.py:242-331 | A new book means a live key, current offers, a price within budget and balance, and the columns the order determines |
| `AccessHistory.EveryBookWasOrdered` | examples/access_book/engine.py:242-331 | Over every run, each book goes back to an order or purchase that could be filled then, and still has the columns written then |
| `AccessEffects.SeedExactly` | examples/access_book/engine.py:218-222 | Seeding succeeds if and only if buyer and amount are valid and the buyer has no account, and opens one with the whole amount available |
| `AccessEffects.SetOfferExactly` | examples/access_book/engine.py:224-234 | An offer is accepted if and only if it is valid, replaces the one before, and moves no accrual |
| `AccessEffects.IssueExactly` | examples/access_book/engine.py:242-331 | An order that is not on record succeeds if and only if it is valid under a live key, everything is on sale, and its price is within budget and balance, unless signing fails or the id is taken; its book then has the columns, earliest expiry, signed claims and items that the order and the offers determine, and nothing else changes |
| `AccessEffects.IssueAgain` | examples/access_book/engine.py:252-271 | An order under a recorded request id changes nothing and is answered with the recorded book if and only if it is the same order under a live key |
| `AccessEffects.ActivateExactly` | examples/access_book/engine.py:333-356 | An admission succeeds if and only if the book is open, current, the own one and its token is presented, and, the first time, the token verifies for its claims within [issued, expires); it marks the book and changes nothing else |
| `AccessEffects.RedeemExactly` | examples/access_book/engine.py:358-448 | A use that is not on record succeeds if and only if its item is listed with this content and these terms in an own, admitted, open, current book under a live key and no receipt is for it; then exactly its price moves |
| `AccessEffects.RedeemOnRecord` | examples/access_book/engine.py:376-387 | A use under a recorded request id changes nothing and gets the recorded receipt if and only if it is the same use |
| `AccessEffects.ReleaseExactly` | examples/access_book/engine.py:450-470 | A release succeeds if and only if the book is the buyer's; it answers the open units, by which exactly this account's available balance grows, and closes the book |
| `AccessEffects.BuyExactly` | examples/access_book/engine.py:476-519 | With nothing on record under its request id a purchase succeeds if and only if its arguments are valid, the key is live, the offer is on sale with this content and these terms at a price within budget and balance, minting and verification succeed, and admission, verification and redemption all fall into [issued, min(issued + 300, end of the offer)); then the price goes to the publisher and nothing stays reserved |
| `AccessEffects.BuyUnderOrder` | examples/access_book/engine.py:476-519 | Under an earlier order of the same request id that was not redeemed it succeeds if and only if that is the same order and its book can be admitted and used, and redeems from that book |
| `AccessEffects.SeededOnce` | examples/access_book/engine.py:218-222 | Over every run, an account was opened by exactly one accepted seeding of its buyer, and its initial amount is still the one of that |
| `AccessEffects.RevocationIsFinal` | examples/access_book/engine.py:236-240 | Over every run, once the key is revoked no book, no admission and no receipt is ever added |
| `Clearing.Engine.Leave` | examples/access_book/engine.py:189-210 | Whatever the statements since entering did to the current tables, leaving puts the connection back at the depth, savepoints and durable state found on entry, with the whole effect of a success and none of a failure |
| `Clearing.Engine.IssueSteps` | examples/access_book/engine.py:252-331 | The statements of issuing in order; what they leave after a failure can be partial |
| `Clearing.Engine.IssueBook` | examples/access_book/engine.py:242-331 | As a transaction: the whole effect of issuing or exactly the state found |
| `Clearing.Engine.ActivateBook` | examples/access_book/engine.py:333-356 | The same for admission |
| `Clearing.Engine.RedeemSteps` | examples/access_book/engine.py:376-448 | The statements of redeeming in order, with partial states between them |
| `Clearing.Engine.RedeemUse` | examples/access_book/engine.py:358-448 | As a transaction: the whole effect or exactly the state found |
| `Clearing.Engine.ReleaseUnused` | examples/access_book/engine.py:450-470 | The same for releasing |
| `Clearing.Engine.PutOffer` | examples/access_book/engine.py:224-234 | The same for offers |
| `Clearing.Engine.PurchaseSteps` | examples/access_book/engine.py:496-519 | Three nested operations one after the other |
| `Clearing.Engine.Purchase` | examples/access_book/engine.py:476-519 | All of issue, activate and redeem in one commit, or exactly the state found |
| `Modular.Fermat` | tools/imported/p256_table_math.py:17-21 | Fermat's theorem, from primality alone |
| `Modular.InverseExactly` | tools/imported/p256_table_math.py:17-21 | Exponentiation gives an inverse if and only if the argument is no multiple of the prime; only an exact zero is refused |
| `EllipticCurve.TangentStays` | tools/imported/p256_table_math.py:40-65 | The tangent formula leads from a curve point to a curve point |
| `EllipticCurve.ChordStays` | tools/imported/p256_table_math.py:68-100 | The chord formula leads from two curve points to a curve point |
| `EllipticCurve.DoubleStays` | tools/imported/p256_table_math.py:40-65 | Doubling stays on the curve and is refused exactly for points of order two |
| `EllipticCurve.AddStays` | tools/imported/p256_table_math.py:68-100 | Adding stays on the curve and is refused exactly where doubling is |
| `FixedBaseTables.GroupOfP256` | tools/imported/p256_table_math.py:5-10 | The constants: the base point satisfies the equation, the order is odd, (0, 0) is not on the curve |
| `FixedBaseTables.NoPointOfOrderTwo` | tools/imported/p256_table_math.py:56-57 | No multiple of the base point has order two, so that no inverse of zero is ever asked for |
| `FixedBaseTables.AddTimes` | tools/imported/p256_table_math.py:40-100 | On multiples of the base point both formulas answer, with the right multiple |
| `FixedBaseTables.MontgomeryRoundTrip` | tools/imported/p256_table_math.py:24-37 | Leaving Montgomery form inverts entering it |
| `FixedBaseTables.LittleEndianReads` | tools/generate_p256_tables.py:48-49 | Little-endian bytes read back |
| `FixedBaseTables.EntryLocated` | tools/generate_p256_tables.py:66 | The entry of a window and digit stands at index window * digits + digit - 1 |
| `FixedBaseTables.EntryDerived` | tools/generate_p256_tables.py:39-44 | The reduced scalar of an entry lies strictly between zero and the order, and derives the multiple by its unreduced factor |
| `FixedBaseTables.Fill` | tools/generate_p256_tables.py:33-56 | The nested loops produce exactly the verified entries in order; under the group assumptions no mismatch fires and no formula is refused |
| `FixedBaseTables.Generate` | tools/generate_p256_tables.py:30-74 | Both tables have the stated length; the first eight bytes are the magic, and the six fields after them read back little-endian as kind, 1, windows, digits, 64, 0 |
| `FixedBaseTables.EntriesAreMultiples` | tools/generate_p256_tables.py:38-56 | Every entry decodes to (digit * 2^(8 * window)) times the base point |
| `FixedBaseTables.TablesHoldMultiples` | tools/generate_p256_tables.py:30-56 | So it is for both tables of P-256 |
| `FixedBaseTables.HeaderStarts` | tools/generate_p256_tables.py:31-32 | Any file with this header starts with the magic and these six little-endian fields |
| `FixedBaseTables.TablesStoreMultiples` | tools/generate_p256_tables.py:38-56 | The bytes of every entry of both tables are the coordinates of (digit * 2^(8 * window)) times the base point times 2^256, each as 32 little-endian bytes |
| `PipelineRuns.NextKeeps` | benchmarks/native/pipeline.cpp:124-252 | Every section of producer and workers keeps each request in exactly one place, the queues ordered by arrival and key, batches of one key, and the counters |
| `PipelineRuns.RunsKeep` | benchmarks/native/pipeline.cpp:124-252 | So does every run of any number of workers |
| `PipelineRuns.Accounting` | benchmarks/native/pipeline.cpp:178-227 | At every step, produced plus doubly counted requests are those rejected, queued, in flight and finished |
| `PipelineRuns.DoubledByInterruption` | benchmarks/native/pipeline.cpp:217-227 | Requests are counted twice by the steps that interrupt a completion half-way, and by nothing else |
| `PipelineRuns.FinalAccounting` | benchmarks/native/pipeline.cpp:265-286 | Once all workers left, nothing is queued and every request was settled exactly once; the accounting check passes if and only if no step of the run interrupted the completion of a batch, after its first request, where a latency needed space beyond the reserve; otherwise it is off by the requests counted until then |
| `PipelineReserve.AlwaysBalanced` | benchmarks/native/pipeline.cpp:105-106 | The accounting check passes in every run of settings under which a worker that verified everything offered would stay within its reserve, or no batch has two requests |
| `PipelineReserve.OneWorkerBalances` | benchmarks/native/pipeline.cpp:105-106 | With one worker the accounting check passes in every run |
| `PipelineReserve.FailsOnlyBeyondReserve` | benchmarks/native/pipeline.cpp:217-227 | Under any settings the check fails only in runs in which the latencies and the batch of an interrupted worker together exceed its reserve |
| `PipelineReserve.FailingRunFails` | benchmarks/native/pipeline.cpp:105-286 | Beyond the reserve, a run with one key in which one worker serves everything and its last completion is interrupted: the check is off by one |
| `PipelineReserve.BalancedExactly` | benchmarks/native/pipeline.cpp:105-286 | With one key, signing on the CPU, and the last two arrivals within the objective, the check passes in every run if and only if the settings keep every worker within its reserve |
| `PipelineReserve.InterruptedCompletion` | benchmarks/native/pipeline.cpp:105-227 | That run for two workers with space for five latencies each and six requests: seven outcomes |
| `PipelineRuns.TakenBatch` | benchmarks/native/pipeline.cpp:137-169 | A taken batch is the front of one queue, no larger than allowed, and begins with a request than which none queued is older |
| `PipelineRuns.DrainsAfterDone` | benchmarks/native/pipeline.cpp:129-163 | After production no worker waits while anything is queued |
| `PipelineReport.RunsCount` | benchmarks/native/pipeline.cpp:178-227 | Every worker keeps its counters consistent with each other and with its batches |
| `PipelineReport.TotalsTally` | benchmarks/native/pipeline.cpp:268-284 | Merging the workers keeps that |
| `PipelineReport.RowsBalance` | benchmarks/verify_pipeline.py:91-121 | A finished run without failures satisfies every accounting check of the row verification |
| `PipelineReport.ReportedWithin` | benchmarks/native/pipeline.cpp:217-222 | The reported count within the objective is the sum of the workers counts |
| `PipelineSteps.ArrivesExactly` | benchmarks/native/pipeline.cpp:241-250 | The next request is refused if and only if as many as the capacity are queued; otherwise it becomes the last of its queue |
| `PipelineSteps.HighWaterIsMaximum` | benchmarks/native/pipeline.cpp:246-249 | Over every run the reported high-water mark is the largest number of requests that were ever queued together |
| `PipelineSteps.TakesExactly` | benchmarks/native/pipeline.cpp:127-164 | A waiting worker takes a batch if and only if the queue with the oldest front is full enough, old enough, or production is over; it is the front of that queue, up to the batch size |
| `PipelineSteps.LeavesExactly` | benchmarks/native/pipeline.cpp:129-136 | A waiting worker leaves if and only if production is over and nothing is queued |
| `PipelineSteps.LiveExactly` | benchmarks/native/pipeline.cpp:166-175 | Of a batch there remain, in order, exactly the requests no older than the objective |
| `PipelineSteps.DispatchesExactly` | benchmarks/native/pipeline.cpp:165-192 | After expiry nothing is dispatched, everything fails after a fault, or one batch is sent to the side that its size and the mode select, with its counters |
| `PipelineSteps.CompletesExactly` | benchmarks/native/pipeline.cpp:194-222 | A verified batch adds one latency for each request, from arrival to end, and counts those within the objective |
| `PipelineSteps.FailsExactly` | benchmarks/native/pipeline.cpp:217-227 | A batch that is not verified fails as a whole, and from then on every section sees the fault |
| `Scheduler.Run.Offer` | benchmarks/native/pipeline.cpp:241-250 | The producer's section is the arrival step |
| `Scheduler.Run.OldestKey` | benchmarks/native/pipeline.cpp:139-143 | The loop over the queues finds the first queue with the oldest front |
| `Scheduler.Run.Pop` | benchmarks/native/pipeline.cpp:157-161 | The popping loop moves the front of the queue, in order, up to a batch |
| `Scheduler.Run.TakeBatch` | benchmarks/native/pipeline.cpp:127-164 | A waiting worker's section is the taking step |
| `Scheduler.RemoveExpired` | benchmarks/native/pipeline.cpp:166-175 | Removal keeps the order of what is left and counts what is dropped |
| `Scheduler.Run.DispatchBatch` | benchmarks/native/pipeline.cpp:165-192 | Expiry, failure after a fault, or dispatch with its counters |
| `Scheduler.Count` | benchmarks/native/pipeline.cpp:217-222 | The completion loop counts request by request |
| `Scheduler.Run.CompleteBatch` | benchmarks/native/pipeline.cpp:194-222 | A verified batch is counted as a whole |
| `Scheduler.Run.FailBatch` | benchmarks/native/pipeline.cpp:217-227 | A batch fails as a whole; requests are counted before only where the completion loop ran out of reserved space |
| `Scheduler.Aggregate` | benchmarks/native/pipeline.cpp:267-284 | The final loop merges all workers |
| `LatencyReport.Histogram` | benchmarks/native/pipeline.cpp:288-290 | The histogram counts exactly the samples of each bucket |
| `LatencyReport.Summarize` | benchmarks/native/pipeline.cpp:287-330 | What is reported of the latencies passes the row verification, in whatever ascending order its buckets are read, and describes them: number, nearest-rank quantiles, maximum, count within the objective, and buckets |
| `LatencyReport.SortedWithin` | benchmarks/native/pipeline.cpp:221 | Sorting keeps the count within the objective |
| `LatencyReport.FindBucket` | benchmarks/verify_pipeline.py:143-151 | The walk over the buckets finds the one that brackets the rank |
| `LatencyReport.BucketOfRank` | benchmarks/verify_pipeline.py:142-157 | The bucket found for a rank is the one the sample of that rank lies in |
| `LatencyReport.CheckQuantile` | benchmarks/verify_pipeline.py:132-157 | One labelled quantile passes if and only if it is ordered and in its bucket |
| `LatencyReport.CheckRow` | benchmarks/verify_pipeline.py:107-169 | The latency part of the row verification, as an equivalence |
| `LatencyReport.ObjectiveBounds` | benchmarks/verify_pipeline.py:158-169 | Samples surely within the objective are at most those within it, and those at most the ones possibly within it |
| `LatencyReport.SummaryPasses` | benchmarks/native/pipeline.cpp:287-330 | Every report made from exact latencies passes those checks |
| `LatencyReport.RowPassesExactly` | benchmarks/verify_pipeline.py:107-169 | For a row with the histogram of given samples the checks detect exactly a wrong number of samples, a quantile or maximum out of order or outside the 100 microseconds of the true one, and a count within the objective that the histogram rules out |
| `LatencyReport.QuantileIsNearestRank` | benchmarks/native/pipeline.cpp:40-45 | A quantile is the least sample with at least that share of the samples at or below it |
| `LatencyReport.ReportDescribes` | benchmarks/native/pipeline.cpp:287-330 | Every field of the report means what its name says of the samples |
| `BarrierPool.NextKeeps` | benchmarks/native/ready_wave.cpp:100-158 | Every section of caller and workers keeps the generations in step and `remaining` exact |
| `BarrierPool.ExactlyOnce` | benchmarks/native/ready_wave.cpp:112-134 | At every moment each worker has executed the generations 1, 2, ... once each in order, and works only on the current one while the caller waits |
| `BarrierPool.ReturnsComplete` | benchmarks/native/ready_wave.cpp:138-148 | When a call returns every worker has executed every generation, and it fails exactly when some worker threw |
| `BarrierPool.ExitsUpToDate` | benchmarks/native/ready_wave.cpp:149-157 | No worker leaves with a generation undone |
| `BarrierPool.OnlyJobsThrow` | benchmarks/native/ready_wave.cpp:122-128 | Over every run, whoever counts as having thrown was executing the current generation for a waiting caller, and counts until the next call |
| `BarrierPool.NeverStuck` | benchmarks/native/ready_wave.cpp:112-148 | While a call waits it can return exactly if nothing is left to run, and otherwise some worker has a section to run, after which one less is left |
| `BarrierPool.CanReturn` | benchmarks/native/ready_wave.cpp:112-148 | Every started call can be brought to its return by as many sections as are left to run |
| `BarrierPool.SharedPool.BeginRun` | benchmarks/native/ready_wave.cpp:138-144 | The first section of a call is the start step |
| `BarrierPool.SharedPool.EndRun` | benchmarks/native/ready_wave.cpp:145-147 | Its last section rethrows exactly when some worker threw |
| `BarrierPool.SharedPool.Wake` | benchmarks/native/ready_wave.cpp:114-121 | A worker picks up each generation once, or leaves |
| `BarrierPool.SharedPool.FinishJob` | benchmarks/native/ready_wave.cpp:122-132 | Finishing records a failure and counts down |
| `Waves.StrideCountExact` | benchmarks/native/ready_wave.cpp:212-213 | The planned count of a key is the number of its items |
| `Waves.Plan` | benchmarks/native/ready_wave.cpp:209-217 | Marked keys and the items they have per wave |
| `Waves.SignShare` | benchmarks/native/ready_wave.cpp:241-247 | A worker's stride writes exactly its own items, once each |
| `Waves.SignShares` | benchmarks/native/ready_wave.cpp:241-248 | All workers together, in any order, write every item of an unmarked key once |
| `Waves.StrideLength` | benchmarks/native/ready_wave.cpp:249-254 | The gathered batch has the planned size |
| `Waves.Gather` | benchmarks/native/ready_wave.cpp:251-254 | Gathering takes the digests of one key in order |
| `Waves.Scatter` | benchmarks/native/ready_wave.cpp:255-259 | Scattering puts each signature back to the item whose digest it signs |
| `Waves.SignWave` | benchmarks/native/ready_wave.cpp:241-259 | In one wave every item is written exactly once, signed under its own key over its own digest |
| `BreakEven.BreakEvenExactly` | benchmarks/access_business_model.py:85-99 | The result is the least profitable count with exactly the hosts it needs if and only if there is a fixed cost and whole requests pay on the first number of hosts or on one host more |
| `BreakEven.CorrectionOvershoots` | benchmarks/access_business_model.py:94-99 | If they pay on neither, the reported count is the first that the corrected hosts no longer hold |
| `BreakEven.LeastCountExactly` | benchmarks/access_business_model.py:85-99 | The count alone is least if and only if there is nothing to pay at all, or there is a fixed cost and that condition holds or the first count beyond the corrected hosts happens to be profitable |
| `BreakEven.ProfitableSomewhere` | benchmarks/access_business_model.py:87-88 | Some count pays a fixed cost if and only if a full host earns more than it costs |
| `BreakEven.NothingSmaller` | benchmarks/access_business_model.py:89-99 | No smaller count is profitable |
| `BreakEven.AllocationsNeeded` | benchmarks/access_business_model.py:89-99 | One host fewer would not do |
| `BreakEven.SurplusSuffices` | benchmarks/access_business_model.py:86-99 | A surplus of at least one request's contribution per host is enough for that condition |
| `BreakEven.OneCorrectionIsNotEnough` | benchmarks/access_business_model.py:50-99 | Assumptions for which three requests are reported on two hosts, and three requests make a loss |
| `BreakEven.CountWithoutHosts` | benchmarks/access_business_model.py:50-99 | Assumptions for which the reported count is least but needs twice the reported hosts |
| `BreakEven.NoFixedCost` | benchmarks/access_business_model.py:89-99 | Without fixed cost the result is never the least |
| `BreakEven.SurplusIsContribution` | benchmarks/access_business_model.py:61-86 | The surplus of a host is the contribution of a full host |
| `BreakEven.ContributionByPrice` | benchmarks/access_business_model.py:57-82 | Everything but external cost and compute scales with the price |
| `BreakEven.PriceFloorExact` | benchmarks/access_business_model.py:116-118 | The contribution is non-negative exactly from the price floor on |
| `BreakEven.ReportedBreakEven` | benchmarks/access_business_model.py:50-118 | For every valid evaluation: the fields are present exactly if a full host earns more than it costs, and then are the least profitable count and its hosts exactly under that condition on the assumptions |
| `BreakEven.ProfitIsMonth` | benchmarks/access_business_model.py:50-86 | The profit that the search is about is the money of a month: spending less shares, processing of the fundings that brought it, losses, payouts, external and fixed cost, and exactly the hosts its accesses need |
| `BreakEven.ComputePaysTheHour` | benchmarks/access_business_model.py:61 | Compute per access is such that a host at its planned load is paid for every hour |
| `KeySlots.RunsKeep` | src/abi/batchcrypto_abi.cpp:189-228 | Over every run the loaded AES keys are pairwise distinct and no epoch exceeds 64 bits |
| `KeySlots.EpochNamesContent` | src/abi/batchcrypto_abi.cpp:189-228 | Epochs never fall, and between two moments with one epoch a slot did not change |
| `KeySlots.EpochsAreUnique` | src/abi/batchcrypto_abi.cpp:195-209 | No two puts into one slot return the same epoch |
| `KeySlots.AtEpochUsesItsKey` | src/abi/batchcrypto_abi.cpp:48-66 | A call that requires an epoch uses exactly the key whose put returned that epoch, and succeeds in selecting it exactly while the slot has that epoch and kind |
| `KeySlots.LastEpochIsFinal` | src/abi/batchcrypto_abi.cpp:198-199 | At the last epoch a slot can neither be replaced nor emptied |
| `KeySlots.SlotIsLastChange` | src/abi/batchcrypto_abi.cpp:189-228 | Over every run a slot holds what the last successful put or remove on it left, under an epoch that counts these |
| `KeySlots.CallGetsKey` | src/abi/batchcrypto_abi.cpp:48-66 | Over every run, for any required epoch or none, a call gets a key if and only if the last successful put or remove on its slot is a put of this kind and the required epoch, if any, is the one that put returned; it is the key of that put; and each error has its exact cause |
| `KeySlots.ChangeCodes` | src/abi/batchcrypto_abi.cpp:189-228 | The exact answer of every put and remove, in terms of what was put before |
| `KeySlots.DuplicateIsHeld` | src/abi/batchcrypto_abi.cpp:200-204 | An AES key counts as held exactly if the last successful change of some slot put it |
| `KeySlots.ErrorsCount` | src/abi/batchcrypto_abi.cpp:40-41 | The errors of a call are the number of items whose status is not fine |
| `KeySlots.Context.CountErrors` | src/abi/batchcrypto_abi.cpp:40-41 | The loop over the statuses counts these |
| `KeySlots.Context.PutKey` | src/abi/batchcrypto_abi.cpp:189-211 | Compare-and-swap with the loop over slots for duplicate AES keys |
| `KeySlots.Context.RemoveKey` | src/abi/batchcrypto_abi.cpp:212-228 | Compare-and-swap to a tombstone |
| `KeySlots.Context.Keyed` | src/abi/batchcrypto_abi.cpp:32-66 | The exact answer of a call: conflict for another required epoch, else missing exactly when the slot is not loaded, else invalid for another kind, else what the operation makes of the key of the slot; the report names the epoch used and counts exactly the failed items |
| `GuardedSigner.VerifiedSigner.LoadKey` | python/batchcrypto/verified.py:45-68 | Pins mirror the slots after loading; a wrong export closes the signer; anything refused changes nothing |
| `GuardedSigner.VerifiedSigner.RetireKey` | python/batchcrypto/verified.py:77-84 | Retiring removes pin and key together |
| `GuardedSigner.VerifiedSigner.PublicKey` | python/batchcrypto/verified.py:70-75 | The pinned public key is the one the host derived from the loaded key |
| `GuardedSigner.VerifiedSigner.Sign` | python/batchcrypto/verified.py:86-129 | A returned batch was produced under the required epoch and every signature is canonical and verifies; every other outcome of the device closes the signer, and no trusted batch does |
| `GuardedSigner.VerifiedSigner.Close` | python/batchcrypto/verified.py:131-135 | Closing drops every pin and closes the native runtime, after which no operation but another closing is accepted |
| `GuardedSigner.Session` | python/batchcrypto/verified.py:38-135 | Over any sequence of calls the first fault or closing is final: every later call but a closing is denied, and a closed signer no longer touches a slot |
| `GuardedSigner.AcceptableExactly` | python/batchcrypto/verified.py:108-121 | A signature is accepted if and only if it is a scalar and a low one, each as 32 big-endian bytes, that verify in this order |
| `GuardedSigner.PrivateExactly` | python/batchcrypto/verified.py:45-51 | A private key is a scalar as 32 big-endian bytes, and its public key the one of that scalar |

## Left out

- SHA-256, ECDSA, AES-GCM and the CUDA engine: signing, sealing and hashing are abstract operations with a status.
- JSON in general: only the fixed-shape objects of receipts, roots, lists and headers are written, with their exact texts and lengths; the reader covers compact text without white space, `\u` escapes, fractions or exponents.
- SQLite itself: each `BEGIN IMMEDIATE` body is one atomic step, constraints are explicit tests; durability, write-ahead logging, checkpoints and 64-bit overflow of sums are not modelled.
- HTTP framing, authentication, sockets, timeouts by duration and the injected response drops of the service fixture: an attempt is lost, refused for the moment, or answered, with or without its response arriving.
- Condition variables: waiting is modelled by which steps are possible, so that no claim is made about wake-ups, fairness or liveness, except that nothing waits while the finished pipeline still has queued work.
- Memory: a vector has at least the space reserved for it, and beyond that any growth may be refused; other failing allocations outside the guarded part of a worker end the process and are not modelled.
- Floating point: latencies are exact nanoseconds, costs exact reals; printed rounding and the tolerance of the row check are not needed for that and not modelled.
- Retries.Rpc: the timeout of an attempt and the limit on the size of its response are not modelled; any attempt may be lost.
- FixedBaseTables.Fill: the derivation of public points is a total function here; its refusal of a zero scalar cannot occur because no entry has one (`FixedBaseTables.EntryDerived`).
- Waves.SignWave: workers do their shares one after another in an arbitrary order; their index sets are disjoint, so finer interleavings write the same items.
- KeySlots.Context.Keyed: null arguments and batch size limits of the native calls are not modelled.
- The remaining fields of the break-even report (per-access parts, rounded counts) and its scenarios: plain arithmetic.
- Telemetry, campaign runners, plotting, packaging, extraction checks, economics and content grants: plumbing or field checks without a deep invariant.
