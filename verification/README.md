# Verified model of the trusted-lockbox marketplace core

The repository is a marketplace in which merchants, providers and operators exchange sealed documents, claims and
commissions. This project models the parts of it on which everything else relies and proves what they promise:

- `crypto/` — sharing a key among roles. The field GF(2^8) (section 4.2 of FIPS 197) is defined without tables, shown to
  be a field and shown to be polynomial arithmetic reduced by the nine-bit polynomial 0x11B; the log and exp tables
  that the source builds in a loop are proved to compute it. Polynomials over any field of characteristic two get a root
  count and Lagrange interpolation, from which the two laws of the sharing scheme follow: enough shares give back exactly
  the secret, and one share too few says nothing about it. The envelope seals a payload under a shared key and releases it.
- `economics/` — splitting money. The largest-remainder apportionment adds up exactly, gives every claimant the floor or
  the ceiling of the exact share, is optimal among all integer splits and ignores the order of the components. The
  commission ledger is reduced per accrual and per period, and the two views are compared.
- `receipt/` — the canonical JSON text over which a receipt is signed. An independent reader of RFC 8259, written in literal
  code units and sharing nothing with the encoder, reads it back as the value's normal form with ascending keys, so it is
  JSON; and two payloads have the same text exactly when they are the same up to key order.
- `storage/` — the guard that walks a possibly cyclic, possibly shared object graph before it is stored as JSON, and the
  time-sortable identifiers (section 5.7 of RFC 9562).
- `api/` — the idempotency protocol: any number of requests, interleaved in any way, over one table of reservations. The
  state machine carries the proofs, stated over the scopes and keys of requests; a class with one method per statement is
  proved to follow it.
- `ranking/` — ranking claims and matches. Both are sorts whose result is described without sorting; every factor of the
  match score is stated as a formula with the configured numbers, and the score is proved monotone in what a provider can
  improve.
- `volume/` — reconciling the volume slices of an opportunity with its offered volume.
- `evidence/` — readiness of a passport and its status over whole runs of recomputes, reads and verifications.

`Results`, `Sequences`, `Sorting`, `Text` and `Hexadecimal` hold what these share. Objects that the source updates in place
are classes or arrays here (share buffers, tables, the visited set, the reservation table, the bytes of an identifier);
loops in the source are loops here, each proved against a function that says what it computes.

Strings are sequences of 16-bit code units, compared unit by unit as JavaScript does. Integers are unbounded where the
source uses bigint; bytes are 8-bit vectors or numbers below 256. Random bytes, the clock, SHA-256, HMAC and AES-GCM are
arguments; of AES-GCM only the law that decrypting under the same key and associated data gives back the plaintext is
assumed, as a precondition.

Findings, each with a proof of exactly when it happens:

- A reserved idempotency key can get stuck for ever. That is so exactly when the request that reserved it ended without
  recording a response: because its handler threw, or because its handler returned and the second look-up or the
  recording then failed, which loses the answer of a finished effect (`IdempotencyProtocol.StuckMeans`). A key is stuck
  exactly when no further run can settle it (`StuckIffNeverSettled`); no request under it is ever answered, and every one
  that arrives is refused, although the refusal for the same body says that a retry is possible. All three ways are
  reached from the empty table by a single request.
- `canonicalJson` is documented as never giving two different payloads one text
  (`packages/crypto/src/receipt.ts:16-20`). `undefined`, NaN and the infinities get the text of `null`, and negative zero
  that of zero. `CanonicalJson.SameTextIffSame` shows that, beside key order, these are the only conflations among null,
  undefined, booleans, strings, safe integers, the numbers just named, arrays and plain objects. Receipt payloads hold
  strings only and are unaffected (`Receipts.PayloadTextIsUnique`).
- The period view and the accrual view of one accrual disagree exactly when it is reversed by another amount than its
  unpaid rest (`Ledger.ChainAgreesIff`), those of a period exactly when the gaps of its reversed accruals do not cancel
  (`Ledger.PeriodAgreesIff`). No code path writes a reversal yet (`packages/contracts/src/economics.ts:298`).
- Between recomputes a passport is shown as READY or VERIFIED although an expired fact blocks it, exactly when its latest
  recompute is at most 90 days old and the evidence of a blocking fact has run out since
  (`PassportRuns.ShownUsableThoughBlocked`).
- Volume cells are compared by their fields joined with `|`. Over arbitrary strings a key stands for one cell only exactly
  when no field of that cell holds the bar (`VolumeReconciliation.KeyIdentifiesCell`). This concerns direct calls that
  bypass the request schema: on the cells the schema admits (`packages/contracts/src/opportunity.ts:93-102`) the key is
  injective even where an MCC holds bars (`AdmittedKeysAreUnique`), and the verdict is exactly the documented one.

Verify everything with `dafny verify dfyconfig.toml`.

## Model

| member | source | states |
|---|---|---|
| Gf256.BytesFormAField | packages/crypto/src/gf256.ts:66-82 | bytes under XOR and the reduced product satisfy every field law and have characteristic two |
| Gf256.GeneratorIsPrimitive | packages/crypto/src/gf256.ts:41-45 | no power of 3 below the 255th is one |
| Gf256.EveryByteIsAPower | packages/crypto/src/gf256.ts:41-45 | repeated multiplication by 3 visits every non-zero byte |
| Gf256.ProductByLogs | packages/crypto/src/gf256.ts:71-75 | the product of non-zero bytes is the power at the sum of their logarithms modulo 255 |
| Gf256.LogOfExp | packages/crypto/src/gf256.ts:46-52 | the discrete logarithm inverts the power function on 0 to 254 |
| CarryLessProducts.ProductIsTheRemainder | packages/crypto/src/gf256.ts:27-45 | the product is the one byte that differs from the carry-less product by a multiple of 0x11B with at most seven coefficients |
| CarryLessProducts.ProductIsReducedCarryLess | packages/crypto/src/gf256.ts:27-45 | the product differs from the carry-less product by a multiple of 0x11B |
| Gf256Tables.XtimeIsTimesX | packages/crypto/src/gf256.ts:36-39 | shifting and clearing bit 8 with 0x11B is multiplication by x |
| Gf256Tables.BuildTables | packages/crypto/src/gf256.ts:46-64 | after the loop the first 255 slots of one array are the powers of 3, the other array inverts them, and slot 255 of the powers is untouched |
| Gf256Tables.Tables.constructor | packages/crypto/src/gf256.ts:24-64 | the finished tables are valid for the field defined without tables |
| Gf256Tables.Tables.GfAdd | packages/crypto/src/gf256.ts:67-69 | is the field's addition |
| Gf256Tables.Tables.GfMul | packages/crypto/src/gf256.ts:72-75 | is the field's multiplication, for zero operands too; no lookup reaches slot 255 |
| Gf256Tables.Tables.GfDiv | packages/crypto/src/gf256.ts:78-82 | fails exactly on divisor zero and otherwise undoes multiplication |
| Polynomials.RootCount | packages/crypto/src/shamir.ts:21-24 | a polynomial with as many different roots as coefficients is zero, over any such field |
| Polynomials.SameCoefficients | packages/crypto/src/shamir.ts:21-24 | two polynomials of n coefficients that agree at n different points are equal |
| Polynomials.LagrangeRecovers | packages/crypto/src/shamir.ts:94-98 | Lagrange's formula over enough points gives the polynomial's value anywhere |
| Shamir.SharesRecoverByte | packages/crypto/src/shamir.ts:137-156 | interpolating at zero gives back the byte from any points, more than the degree many |
| Shamir.SharesRecoverSecret | packages/crypto/src/shamir.ts:3-9 | for 2 <= threshold <= n <= 255 and a secret that is not empty, any shares of a split, at least the threshold many and in any order, pass the checks and combine to exactly the secret |
| Shamir.PerfectSecrecy | packages/crypto/src/shamir.ts:5-7 | whatever one share fewer than the threshold show, each secret byte explains them with exactly one choice of coefficients |
| Shamir.FewerSharesFitEverySecret | packages/crypto/src/shamir.ts:5-7 | any one share fewer than the threshold are also shares of every other secret of that length, for some coefficients of the same number |
| ShamirBuffers.EvaluateAt | packages/crypto/src/shamir.ts:81-87 | the loop over running powers evaluates the byte's polynomial at the share's index |
| ShamirBuffers.SplitSecret | packages/crypto/src/shamir.ts:53-92 | succeeds exactly for 2 <= threshold <= n <= 255 and a secret that is not empty, fails with the documented errors in order, otherwise fills n buffers with the prescribed shares |
| ShamirBuffers.FillByte | packages/crypto/src/shamir.ts:80-88 | one pass writes one byte of every share and leaves every other byte alone |
| ShamirBuffers.CheckShares | packages/crypto/src/shamir.ts:118-133 | reports the first structural problem, in the order of the source |
| ShamirBuffers.WeightAtZero | packages/crypto/src/shamir.ts:143-152 | the two running products give the Lagrange weight at zero, and the divisor is never zero |
| ShamirBuffers.CombineColumn | packages/crypto/src/shamir.ts:138-154 | the accumulated sum is Lagrange's formula at zero |
| ShamirBuffers.CombineShares | packages/crypto/src/shamir.ts:117-159 | a fresh buffer with the combined secret, or the structural problem |
| Envelope.RoleIndexBijection | packages/crypto/src/envelope.ts:69-76 | roles and indexes 1 to 3 determine each other, and no other index has a role |
| Envelope.SealPayload | packages/crypto/src/envelope.ts:88-113 | succeeds exactly when the three role keys have 32 bytes; then share 1 opens under the sealer's key, share 2 under the operator's, share 3 under the escrow's, and the payload under the key they share |
| Envelope.SealedOpens | packages/crypto/src/envelope.ts:95-101 | the three wrapped shares name sealer, operator and escrow with indexes 1 to 3, and each opens under the key field of its role |
| Envelope.ReleasePayload | packages/crypto/src/envelope.ts:129-156 | fails on fewer than two shares, on a repeated role, when a share does not open under the key of its own role or the payload under the combined key; otherwise answers the payload, error cases in source order |
| Envelope.ReleasedIsRight | packages/crypto/src/envelope.ts:135-152 | the specified answer of a release, in terms of which shares open under which key fields |
| Envelope.SealThenRelease | packages/crypto/src/envelope.ts:78-156 | any two or all three sealed shares, in any order, release exactly the payload |
| Apportionment.LeftoverBounds | packages/domain/src/economics-engine.ts:240-248 | the leftover is never negative and smaller than the number of positive remainders |
| Apportionment.WinnersHaveRemainders | packages/domain/src/economics-engine.ts:250-258 | no bonus unit goes to a component whose exact share is whole |
| Apportionment.AmountsAddUp | packages/domain/src/economics-engine.ts:234-273 | the percentage amounts add up to exactly what is left after fixed amounts |
| Apportionment.AmountsMeetQuota | packages/domain/src/economics-engine.ts:234-273 | every amount is the floor of the exact share, or the ceiling when that is not whole |
| Apportionment.AmountsAreOptimal | packages/domain/src/economics-engine.ts:250-273 | no other integer split of the same total is closer to the exact shares |
| Apportionment.AmountsIgnoreOrder | packages/domain/src/economics-engine.ts:250-253 | a claimant's amount does not depend on the order of the list |
| Apportionment.AmountsFollowBps | packages/domain/src/economics-engine.ts:234-273 | more basis points never get less, equal ones differ by at most one unit |
| Apportionment.BonusesFollowRanking | packages/domain/src/economics-engine.ts:249-258 | whoever gets a bonus unit has a larger remainder than whoever gets none, or an equal one and the smaller id |
| CommissionSplits.AddFixed | packages/domain/src/economics-engine.ts:191-198 | the total of the fixed amounts, or the error of the first bad one |
| CommissionSplits.AddBps | packages/domain/src/economics-engine.ts:221-227 | the total of the basis points, or none when one is missing or negative |
| CommissionSplits.HandOut | packages/domain/src/economics-engine.ts:255-259 | the first of the ranking get one unit each until the pool is empty |
| CommissionSplits.DistributeLeftover | packages/domain/src/economics-engine.ts:239-269 | the units go to the winners, and neither internal-error throw can be reached |
| CommissionSplits.PushPercentages | packages/domain/src/economics-engine.ts:271-274 | one entry per percentage component, in list order, with its apportioned amount |
| CommissionSplits.ComputeCommissionSplits | packages/domain/src/economics-engine.ts:173-294 | fails exactly with the first validation error that applies, otherwise returns the split; the final sum check cannot fail |
| CommissionSplits.ValidMeans | packages/domain/src/economics-engine.ts:176-232 | which inputs pass validation: a net amount of at least zero, some component, different ids, no missing or negative figure, and fixed amounts and basis points that use up the net amount |
| CommissionSplits.EachComponentIsPaid | packages/domain/src/economics-engine.ts:206-273 | every component of a valid input has exactly one entry, with its recipient and claim and its fixed or apportioned amount |
| CommissionSplits.OrganisationIsCredited | packages/domain/src/economics-engine.ts:206-273 | an organisation is credited the amounts of exactly the components that name it |
| CommissionSplits.SplitIsExact | packages/domain/src/economics-engine.ts:169-172 | the entries of a valid split add up to exactly the net amount |
| CommissionSplits.SplitAmounts | packages/domain/src/economics-engine.ts:208-274 | fixed components come first and get their amount, the others their apportionment of the rest, in order; each entry names its component, recipient and claim |
| CommissionSplits.SplitIgnoresOrder | packages/domain/src/economics-engine.ts:250-253 | reordering the components permutes the same entries and keeps the split valid |
| Ledger.ComputeAccrualBalance | packages/domain/src/economics-engine.ts:355-402 | fails exactly when the chain has not one accrual, otherwise the balance computed from totals per entry type |
| Ledger.ReconcileRevenueEvent | packages/domain/src/economics-engine.ts:442-475 | totals, outstanding amount and mismatches of a period |
| Ledger.TotalsByDirection | packages/domain/src/economics-engine.ts:366-375 | adjustments add as credits and subtract as debits; accruals, payments and reversals count in full either way |
| Ledger.BalanceAmounts | packages/domain/src/economics-engine.ts:360-391 | original, net, paid and outstanding amount of a chain, by the amounts of its entries |
| Ledger.StatusMeans | packages/domain/src/economics-engine.ts:393-398 | which of the five statuses a chain has, each exactly when its entries and amounts say so |
| Ledger.PeriodAmounts | packages/domain/src/economics-engine.ts:453-471 | what a period still owes, by the amounts of its entries |
| Ledger.ReductionsIgnoreOrder | packages/domain/src/economics-engine.ts:350-353 | neither reduction depends on the order of the entries |
| Ledger.PeriodAgainstAccruals | packages/domain/src/economics-engine.ts:355-475 | however chains interleave, the period's outstanding exceeds the sum of the accruals' by exactly the unreversed rest of the reversed chains |
| Ledger.ChainAgreesIff | packages/domain/src/economics-engine.ts:355-475 | one accrual's two views agree exactly when it is not reversed, or by just its unpaid rest |
| Ledger.PeriodAgreesIff | packages/domain/src/economics-engine.ts:355-475 | a period's two views agree exactly when the gaps of its reversed accruals cancel |
| Ledger.ViewsCanDisagree | packages/domain/src/economics-engine.ts:386-392 | an accrual paid and then reversed is owed -100 by the period and nothing by itself |
| Ledger.SplitStaysDistributed | packages/domain/src/economics-engine.ts:463-470 | accruals written from a split never show a distribution mismatch, whatever non-accruals follow |
| JsonText.QuoteReadsBack | packages/crypto/src/receipt.ts:44-48 | a quoted string can be read back from the front of any longer text, lone and paired surrogates included |
| JsonText.UnitIsWritten | packages/crypto/src/receipt.ts:44-48 | how each single code unit is written between quotation marks, the escapes spelled out |
| JsonText.IntegerReadsBack | packages/crypto/src/receipt.ts:44 | so can a decimal integer, when no digit follows |
| CanonicalJson.RenderedInKeyOrder | packages/crypto/src/receipt.ts:46-48 | rendering first and sorting then is the source's sorting of the keys |
| CanonicalJson.CanonicalIsPrinted | packages/crypto/src/receipt.ts:34-49 | the canonical text is the plain text of the normal form |
| CanonicalJson.PrintReadsBack | packages/crypto/src/receipt.ts:43-48 | the printed value can be read back from the front of any longer text |
| CanonicalJson.SameNormalIffSame | packages/crypto/src/receipt.ts:13-20 | normal forms agree exactly for values that are the same up to key order, what is written as null, and the sign of zero |
| CanonicalJson.SameTextIffSame | packages/crypto/src/receipt.ts:13-20 | two values share a text exactly when they are the same up to key order, what is written as null, and the sign of zero |
| JsonRoundTrip.CanonicalTextIsJson | packages/crypto/src/receipt.ts:34-49 | an independent JSON reader reads the canonical text of any value, to its end, as the value's normal form |
| JsonRoundTrip.CanonicalTextReadsBack | packages/crypto/src/receipt.ts:13-20 | what is read from the text of a well-formed value is the same value with the keys of every object ascending |
| CanonicalJson.UndefinedIsSignedAsNull | packages/crypto/src/receipt.ts:35-43 | a field that is undefined and one that is null are signed alike |
| CanonicalJson.NumbersAreConflated | packages/crypto/src/receipt.ts:44 | so are a field that is no finite number and one that is null, and the two zeros |
| Receipts.VerifiesExactlyTheSignature | packages/crypto/src/receipt.ts:66-84 | verification accepts the signature in either letter case and nothing else |
| Receipts.SignedTextHoldsFields | packages/crypto/src/receipt.ts:24-32 | the signed text reads as an object of five members, each named after a field of the payload and holding its value |
| Receipts.SignatureIsTheDigest | packages/crypto/src/receipt.ts:51-55 | the signature is the digest of that text in lower-case hexadecimal digits |
| Receipts.PayloadTextIsUnique | packages/crypto/src/receipt.ts:18-20 | different receipt payloads are signed over different texts |
| Receipts.ReceiptBindsPayload | packages/crypto/src/receipt.ts:51-84 | a receipt for one payload verifies for another exactly when they are equal or their texts collide in the digest |
| JsonGraphs.CheckIsRight | packages/db/src/json-guards.ts:60-75 | the walk passes exactly when no cycle and no reserved key is reachable and every reachable leaf is null, a string, a boolean or a finite number |
| JsonGraphs.LeafErrors | packages/db/src/json-guards.ts:121-131 | which error each leaf gives |
| JsonGraphs.ReservedNames | packages/db/src/json-guards.ts:46 | the reserved keys are exactly the three names |
| JsonGraphs.CircularMeansCycle | packages/db/src/json-guards.ts:133-135 | a circular reference is reported only where a cycle can be reached |
| JsonGraphs.SharedNodesAreAccepted | packages/db/src/json-guards.ts:133-148 | in a clean graph without cycles every value passes, however often its nodes are shared |
| JsonGuards.AssertJsonSerializable | packages/db/src/json-guards.ts:120-150 | answers as the specified walk does, terminates on every graph and restores the visited set on normal return |
| JsonGuards.CheckLeaf | packages/db/src/json-guards.ts:121-131 | the branches on the kinds of value that are not objects give the specified error |
| JsonGuards.AssertJsonSafePlainObject | packages/db/src/json-guards.ts:76-81 | passes exactly for objects that are not arrays and hold nothing unrepresentable |
| JsonGuards.AssertJsonSafeObjectArray | packages/db/src/json-guards.ts:91-98 | passes exactly for arrays of such objects |
| JsonGuards.AssertJsonSerializableValue | packages/db/src/json-guards.ts:113-118 | passes exactly for serializable values other than null and undefined |
| JsonGuards.SharedObjectIsAccepted | packages/db/src/json-guards.ts:136-148 | one example of it: two fields of an object that hold the same array |
| Ids.MasksAreRemainders | packages/db/src/ids.ts:39-44 | setting version and variant bits under a mask is the arithmetic used in the layout |
| Ids.NewId | packages/db/src/ids.ts:25-58 | the sixteen bytes filled in place, written in hexadecimal and grouped, are the identifier's text |
| Ids.FieldsReadBack | packages/db/src/ids.ts:10-19 | instant, version 7, variant 10 and the 74 random bits can be read back from every identifier |
| Ids.TextFormat | packages/db/src/ids.ts:54-57 | dashes in the four usual places, lower-case digits elsewhere, version digit 7 and a variant digit from 8 to b |
| Ids.IdsEqualIff | packages/db/src/ids.ts:10-24 | two identifiers are equal exactly for the same instant modulo 48 bits and the same kept random bits |
| Ids.IdsSortByTime | packages/db/src/ids.ts:21-24 | identifiers sort by instant as text, whatever their random bytes |
| IdempotencyService.HashInputIsUnique | apps/api/src/shared/idempotency.ts:29-31 | the hashed text determines method, path and body, when the method has no space and the path no line feed |
| IdempotencyService.SameHashIff | apps/api/src/shared/idempotency.ts:29-31 | under the same condition two requests have one hash exactly when they are the same or their texts collide in the digest |
| IdempotencyService.ReservationTable.Reserve | apps/api/src/shared/idempotency.ts:94-112 | inserts the row only when the key is free and says so |
| IdempotencyService.ReservationTable.Complete | apps/api/src/shared/idempotency.ts:116-119 | gives the row its response and changes no other row |
| IdempotencyService.RequestRun.Advance | apps/api/src/shared/idempotency.ts:70-122 | each statement of a request changes its position and the table exactly as the protocol's step does |
| IdempotencyProtocol.StepKeepsInv | apps/api/src/shared/idempotency.ts:70-122 | every step of every request keeps the invariant of the table and of all requests |
| IdempotencyProtocol.RunKeepsInv | apps/api/src/shared/idempotency.ts:70-122 | so does every interleaving of any number of requests |
| IdempotencyProtocol.OtherRowsStay | apps/api/src/shared/idempotency.ts:81-119 | a step changes no row but the one of its request's own scope and non-empty key |
| IdempotencyProtocol.OtherRowsAreNotRead | apps/api/src/shared/idempotency.ts:81-119 | nor does it depend on any other row |
| IdempotencyProtocol.RowsBelongToTheirKeys | apps/api/src/shared/idempotency.ts:95-102 | every row was inserted by a request with its scope and key and carries that request's hash |
| IdempotencyProtocol.ProtectedLooksFirst | apps/api/src/shared/idempotency.ts:75-92 | a request with a key first looks for its row, and what it finds decides whether it is replayed, refused or goes on to reserve |
| IdempotencyProtocol.UnprotectedStartsAtOnce | apps/api/src/shared/idempotency.ts:75-77 | a request with no key or an empty one starts its handler in its first step, whatever the table holds |
| IdempotencyProtocol.UnprotectedJustRuns | apps/api/src/shared/idempotency.ts:75-77 | over any run such a request only waits for its handler, answers its result and never touches the table |
| IdempotencyProtocol.HandlerStartsOncePerKey | apps/api/src/shared/idempotency.ts:59-68 | no two requests with the same scope and the same non-empty key both have their handler started, and no request twice |
| IdempotencyProtocol.AnswersComeFromTheOneExecution | apps/api/src/shared/idempotency.ts:61-68 | a replay repeats what the one execution under the same scope, key and hash returned; replays and conflicts start nothing |
| IdempotencyProtocol.SameRequestSameAnswer | apps/api/src/shared/idempotency.ts:61-63 | answered requests with the same scope and non-empty key get the same body |
| IdempotencyProtocol.SettledKeysReplay | apps/api/src/shared/idempotency.ts:81-92 | once a response is recorded, every later request is replayed, or refused for its other hash |
| IdempotencyProtocol.StuckMeans | apps/api/src/shared/idempotency.ts:94-121 | a key is stuck exactly when it has no response and its winner ended by a throwing handler or, after its handler returned, by a store failure |
| IdempotencyProtocol.StuckIffNeverSettled | apps/api/src/shared/idempotency.ts:81-121 | a reserved key is stuck exactly when no run whatever gives it a response |
| IdempotencyProtocol.UnstuckCanSettle | apps/api/src/shared/idempotency.ts:114-121 | a reserved key that is not stuck is settled by letting its winner run on |
| IdempotencyProtocol.StuckKeyRefuses | apps/api/src/shared/idempotency.ts:81-92 | every request that comes to a stuck key is refused, in every run |
| IdempotencyProtocol.StuckKeyNeverAnswers | apps/api/src/shared/idempotency.ts:70-122 | no request for a stuck key, wherever it is, is ever answered |
| IdempotencyProtocol.FailedHandlerBlocksItsKey | apps/api/src/shared/idempotency.ts:91-114 | after a handler throws, every later request under its key is refused |
| IdempotencyProtocol.LostResponseBlocksItsKey | apps/api/src/shared/idempotency.ts:114-121 | so it is after a store failure that follows the handler's return, whose result is then lost |
| IdempotencyProtocol.ThrowingHandlerSticks | apps/api/src/shared/idempotency.ts:114 | reached from the empty table: the handler of the first request throws |
| IdempotencyProtocol.FailedLookUpSticks | apps/api/src/shared/idempotency.ts:116 | reached from the empty table: the look-up after the handler's return throws |
| IdempotencyProtocol.FailedRecordingSticks | apps/api/src/shared/idempotency.ts:117-119 | reached from the empty table: recording the response throws |
| ClaimRanking.RankingIgnoresOrder | packages/attribution/src/ranking.ts:47-61 | claims with distinct ids rank alike in whatever order they are passed |
| ClaimRanking.EntriesDescribeClaims | packages/attribution/src/ranking.ts:85-105 | each entry describes one claim, ranked one behind the number of claims before it and tied with exactly its equals |
| ClaimRanking.RankingIsSorted | packages/attribution/src/ranking.ts:78-83 | entries descend by total, then ascend by instant, then by id |
| ClaimRanking.RankedByFields | packages/attribution/src/ranking.ts:78-103 | the same over totals, parsed instants and ids of the ranked claims, with rank, total and ties of each entry |
| ClaimRanking.RankingFailsIff | packages/attribution/src/ranking.ts:72-76 | fails exactly when some submission cannot be parsed, naming the first such claim |
| ClaimRanking.TiesAreMutualAndConsecutive | packages/attribution/src/ranking.ts:100-104 | ties are mutual, and everything ranked between two tied claims is tied with both |
| MatchScoring.ImprovementNeverLowersTotal | packages/matching/src/scoring.ts:244-277 | more capacity, a lower fee, a shorter cadence or fresher data never lowers a contribution or the rounded total |
| MatchScoring.NormalizeMonotone | packages/matching/src/scoring.ts:99-113 | the clamped bands are monotone, one upwards and one downwards |
| MatchScoring.ExtraMccNeverHelps | packages/matching/src/scoring.ts:133-153 | accepting an MCC the opportunity does not ask for never raises the fit |
| MatchScoring.LowerRatesNeverHurt | packages/matching/src/scoring.ts:177-191 | lower chargeback, fraud or refund rates never lower the risk score |
| MatchScoring.TotalInRange | packages/matching/src/scoring.ts:230-269 | two fixed factors keep every total between 6.4 and 96.4 |
| MatchFactors.MccIsCoverageLessPenalty | packages/matching/src/scoring.ts:145-153 | the covered MCCs in per cent, less 2 for every further accepted one but 20 at most, not below 0 |
| MatchFactors.GeographyIsCoverage | packages/matching/src/scoring.ts:156-161 | the covered jurisdictions in per cent: all of them 100, none of them 0 |
| MatchFactors.MoreJurisdictionsNeverHurt | packages/matching/src/scoring.ts:156-161 | one more covered jurisdiction never lowers the score |
| MatchFactors.VolumeIsHeadroom | packages/matching/src/scoring.ts:164-175 | 0 up to the demand, 100 from five times the demand, linear between; 50 without comparable figures |
| MatchFactors.RiskIsUnusedCeiling | packages/matching/src/scoring.ts:178-191 | the unused part of the ceilings, on average over the known rates; 50 without any |
| MatchFactors.SettlementIsCadence | packages/matching/src/scoring.ts:194-201 | 100 up to one day, 0 from ten, linear between; 0 in another currency |
| MatchFactors.CommercialIsFee | packages/matching/src/scoring.ts:204-212 | 100 up to 80 basis points, 0 from 450, linear between; 50 without terms |
| MatchFactors.FactorsAre | packages/matching/src/scoring.ts:257-267 | which score and weight stands in which of the nine places, the fixed scores and those of the freshness classes included |
| MatchFactors.ContributionIsWeighed | packages/matching/src/scoring.ts:257-267 | a contribution is score times weight to the nearest tenth |
| MatchFactors.TotalIsSum | packages/matching/src/scoring.ts:269 | the total is the sum of the nine contributions to the nearest tenth |
| MatchRanking.RankingIgnoresOrder | packages/matching/src/ranking.ts:27-31 | capacities with distinct ids rank alike in whatever order they are passed |
| MatchRanking.EntriesDescribeMatches | packages/matching/src/ranking.ts:44-59 | each entry describes one scored capacity, ranked one behind the number of better ones and tied with exactly its equals |
| MatchRanking.RankingIsSorted | packages/matching/src/ranking.ts:17-25 | entries descend by total, and equal totals ascend by id |
| MatchRanking.RankedByFields | packages/matching/src/ranking.ts:55-58 | an entry carries its own capacity's breakdown and rank and lists exactly the others with the same total |
| MatchRanking.OthersNeverSwap | packages/matching/src/ranking.ts:50-53 | adding or removing other capacities never swaps two remaining ones |
| MatchRanking.ImprovementNeverWorsensRank | packages/matching/src/ranking.ts:44-59 | a capacity that improves with all else fixed is not ranked worse |
| VolumeReconciliation.ReconcileOpportunityVolume | packages/domain/src/volume-reconciliation.ts:96-153 | fails exactly on a negative amount, otherwise the verdict, the total and the mismatches in order |
| VolumeReconciliation.ReconciledMeans | packages/domain/src/volume-reconciliation.ts:66-90 | reconciled exactly when all keys differ, all currencies agree, the total is as offered and the movability figures are in order |
| VolumeReconciliation.GroupingKeepsTheSum | packages/domain/src/volume-reconciliation.ts:11-18 | by any key, the group totals add up to the grand total |
| VolumeReconciliation.ReconciledInEveryGrouping | packages/domain/src/volume-reconciliation.ts:3-23 | reconciled volume by jurisdiction, by MCC and by the pair all equal the offered figure, with no cell twice |
| VolumeReconciliation.ReconciliationIgnoresOrder | packages/domain/src/volume-reconciliation.ts:104-130 | total, verdict and mismatches by kind do not depend on the order of the slices |
| VolumeReconciliation.KeyIdentifiesCell | packages/domain/src/volume-reconciliation.ts:108 | a joined key stands for one cell only, exactly when no field of that cell holds a bar |
| VolumeReconciliation.AdmittedKeysAreUnique | packages/contracts/src/opportunity.ts:93-102 | on the cells that the request schema admits the joined key is injective, even where an MCC holds bars |
| VolumeReconciliation.AdmittedVerdictIsExact | packages/domain/src/volume-reconciliation.ts:96-153 | on such cells the verdict is exactly the documented one, stated on cells |
| VolumeReconciliation.BarFreeVerdictIsExact | packages/domain/src/volume-reconciliation.ts:108-115 | so it is on any cells whose fields hold no bar |
| VolumeReconciliation.BarsCollide | packages/domain/src/volume-reconciliation.ts:108-115 | over arbitrary strings, every cell with a bar is refused beside some other cell although nothing is counted twice |
| VolumeReconciliation.CollisionExample | packages/domain/src/volume-reconciliation.ts:108 | two concrete cells with one key, neither of which the request schema admits |
| Readiness.ComputeReadiness | packages/evidence/src/readiness.ts:42-106 | fails exactly on a repeated field key, naming the first, otherwise score, blockers and warnings in order |
| Readiness.ReportedIffConcerned | packages/evidence/src/readiness.ts:24-32 | a finding is reported exactly when some requirement has it, as a blocker exactly when that requirement gates on it |
| Readiness.BlockedIffUnsatisfied | packages/evidence/src/readiness.ts:108-116 | blocked exactly when a blocking requirement has no value or only an expired one |
| Readiness.BlockedIffNoLiveFact | packages/evidence/src/readiness.ts:70-86 | blocked exactly when for some blocking requirement no fact has its key, a value and no expiry in the past |
| Readiness.ExpiryIsFinal | packages/evidence/src/freshness.ts:91-104 | what has expired stays expired |
| Readiness.BlockednessIsMonotone | packages/evidence/src/readiness.ts:42-116 | with the facts fixed, time only adds blockers |
| PassportRuns.StepsAreLegal | packages/domain/src/passport-states.ts:73-101 | every recompute, read and verification keeps the status or takes an edge of the table |
| PassportRuns.EdgesByTarget | packages/domain/src/passport-states.ts:73-80 | the edges of the table, by where they lead |
| PassportRuns.RecomputeDecides | packages/domain/src/passport-states.ts:209-217 | a recompute leads to READY or VERIFIED exactly when nothing blocks and no hold is on, to each other status exactly as the decision table says, and never newly to VERIFIED |
| PassportRuns.DraftWithoutFacts | apps/api/src/modules/passport/service.ts:138 | a recompute leaves a passport DRAFT exactly when it has no facts and some are required |
| PassportRuns.VerifiedWasReady | apps/api/src/modules/passport/service.ts:452-485 | a run shows VERIFIED only if someone verified the passport while it was READY and it has been VERIFIED ever since |
| PassportRuns.StepToStale | packages/domain/src/passport-states.ts:177-185 | a passport becomes STALE exactly by a detail read of a usable one whose latest result is over 90 days old |
| PassportRuns.ReadsAreTrustworthy | apps/api/src/modules/passport/service.ts:167-233 | a passport whose details are read as READY or VERIFIED was found unblocked by its latest recompute, at most 90 days before |
| PassportRuns.ShownUsableThoughBlocked | packages/evidence/src/readiness.ts:24-32 | a detail read shows a blocked passport as usable exactly when it was usable, its latest recompute is at most 90 days old and a blocking fact has expired since |
| PassportRuns.ReadyAfterExpiry | packages/evidence/src/readiness.ts:24-32 | it does happen: one day after the only required fact has expired |
| PassportRuns.OnceBlockedNeverUsable | packages/domain/src/passport-states.ts:193-217 | with the facts fixed and time moving forward, once found blocked never READY, VERIFIED or STALE again |
| PassportRuns.SatisfiedMeansUsable | packages/domain/src/passport-states.ts:209-217 | recomputing an unsuspended passport makes it usable exactly when every blocking requirement is met |

## Left out

- AES-256-GCM, SHA-256, HMAC, random generation and constant-time comparison are arguments of the model.
- Overwriting key buffers with zeros after use: `dek` is a value here, so its scrubbing is not captured.
- UTF-8 encoding of digest inputs: digests take the text itself.
- Texts of errors, notes and messages, and the paths in them; errors are told apart by kind.
- IEEE-754 rounding: scores, weights and ratios are exact reals, rounded to one decimal as the source does.
- Share indexes that are negative or not integers, fractional basis points, sparse arrays.
- Functions, symbols, dates and other class instances, and finite numbers that are not safe integers, in the canonical text.
- The log and exp tables become immutable sequences once they are built; nothing writes them later in the source either.
- Long source functions are split into one method per loop, which does not change the order of their effects.
- The calls between statements of one idempotent request are atomic steps; keys do not expire, because the store that would remove them is not part of this model.
- IdempotencyService.HashInputIsUnique: the serialised body is an argument, because JSON.stringify on arbitrary bodies is not modelled.
- MatchScoring.ImprovementNeverLowersTotal: asks for a non-negative demand, which the boundary schema enforces (`packages/contracts/src/opportunity.ts:34`).
- The degenerate-band error of the score normalisation: the bands are constants with different ends. Likewise the load-time checks of weights and defaults, and freshness classes outside the closed list.
- ids of schedules, versions, timestamps and input versions that the engines echo into their results.
- `selectComponentsForBasis` and `evaluateScheduleCapFloor`: one filter and two comparisons.
- `assertStringArray`, the eligibility rules, attribution scoring, the status tables other than the passport's.
- Placing and lifting compliance holds: the transition table has their edges, and runs may start in SUSPENDED, but no event takes a passport there or back.
- The list read of passports, which shows stored statuses without the staleness check.
- Skipping of repeated readiness jobs by the worker, which only leaves a passport as it was.
