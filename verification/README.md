# Lumengate, modelled and verified

This project models the logic of Lumengate that carries state, parsing or arithmetic, and proves
what that logic is relied on for. `dafny verify dfyconfig.toml` checks all of it.

| file | what it models |
|---|---|
| `Cbor.dfy`, `Truncation.dfy`, `Webauthn.dfy` | the passkey registration parser: CBOR subset, cut input, COSE key, authenticator data, attestation object |
| `ConfidentialLedger.dfy`, `ConfidentialFlow.dfy` | the confidential token's balances and the settle, shield, merge and unshield flows of the wallet |
| `EventIndex.dfy`, `ClientIndex.dfy` | the issuer's paginated, de-duplicating, sorted index of confidential events, and the client's reading of it |
| `Engine.dfy`, `PartialReplay.dfy` | the wallet's replay of events into the openings of its balances, in full and with events missing |
| `Fields.dfy`, `WrappedBlinding.dfy` | the two moduli of blinding factors, and a run where they part the wallet from the chain |
| `Accumulator.dfy`, `Revocation.dfy` | the revocation log on disk, the hash accumulator and the root on chain |
| `Session.dfy`, `ContextRules.dfy` | session rule selection over invocation trees, and the probe loop that lists an account's rules |
| `Passkey.dfy` | the promise chain that runs one passkey ceremony at a time |
| `RelayerRateLimit.dfy` | the relayer's fixed-window request limiter |
| `PublicInputs.dfy`, `Settlement.dfy` | the public-input wire format, the three settlement contracts and the policy verifier behind them |
| `Eligibility.dfy` | scoping credentials, matching proofs, asking whether a nullifier was spent |
| `AssetAmount.dfy` | parsing and printing token amounts |
| `Common.dfy`, `Text.dfy`, `Numerals.dfy`, `Balances.dfy` | shared types, text, positional numerals, sums of balances |

Code that updates state step by step is a class or a method with a loop, proved against a
specification function; code made of expressions is functions. The lemmas are about those functions.

## What is taken as given

- Hash functions are parameters that yield field elements (`YieldsField`). No hash into a field is
  injective everywhere, so results that need it assume only that the values hashed for the two lists or
  the two credentials at hand show no collision (`CollisionFree`, `NoCollision`, `Collide`).
- Curve membership (`onCurve`, `validPoint`) and proof acceptance (`accepts`) are parameters.
- Calls to the network, the chain and the disk are steps that may fail. A submitted transaction is
  rejected, lands, or lands and is still reported as failed.
- In the confidential flows, the state engine may leave any opening in the wallet's cache, and
  "verified" says exactly whether the account is registered and the cache equals the chain. An opening is
  determined by its commitment, with its blinding factor modulo the order of the curve's group.
- The proofs of transfers and withdrawals make the event hold the masked new balance and amount, and the new
  blinding factors those of its salt; sender and recipient derive the same mask (`Reports`). Hashed blinding
  factors are field elements, and all the money of a token fits the field.
- The event source only appends, in chain order. Within a ledger a transaction hash names one transaction.
  Where a result says that a sync reads to the source's head, the source's answers are truthful: they have no
  new cursor only when nothing is left, and a cursor of some ledger only behind every entry of the earlier ones
  (`EventIndex.Truthful`).
- Text decoded from CBOR is kept as its UTF-8 bytes.

## Where the code and what is said of it differ

- `smartAccount.ts`: the status is "not enabled, nothing missing" for a device without a session key
  and an empty target list (`Session.EnabledIffNothingMissing` gives the exact condition). A rule that
  never expires counts as expiring at 0, so it is chosen if and only if no usable rule is dated and none
  that is usable has a greater id (`Session.LastingRuleIsChosenIff`).
- `onChainContextRules.ts`: with the account's true rule count, the probe still misses rules when more
  than `maxMisses + 1` ids are absent in all (`ContextRules.EveryRuleIsListedIff`).
- `compliant_dex` and `compliant_payroll` pass their own configured policy to the verifier, so one proof
  backs a transfer under each policy that accepts it, and the client's question about its own policy
  does not see the other one spent (`Settlement.SameProofSettlesAgainIffPolicyDiffers`,
  `Eligibility.StepChangesOneAnswer`).
- `policy_verifier`: five-field public inputs are filed under scope (0, 0) with the asset field as the
  nullifier (`Settlement.SettlementSpendsItsScope`).
- The contracts read a field modulo 2^128, so 2^128 + 2 is read as asset 2 (`PublicInputs.LargeFieldsAlias`).
- `webauthnPublicKey.ts` accepts some truncated CBOR, because a missing byte reads as the integer 0. It
  rejects a cut item if and only if the cut falls in the content of a byte or text string, or in its head
  after the initial byte of a two-byte length or after a byte of a four-byte length
  (`Truncation.TruncatedIsRejectedIff`); what it makes of the others is `Truncation.DecodeOfCut`, and what
  that means for a key in authenticator data `Webauthn.CutAuthDataIsRead`.
- `revoke.js`: the circuit holds eight revocations, so another one leaves the root unchanged if and only if
  eight are listed already or its value is 0 (`Revocation.AnotherRevocationLeavesTheRootIff`). A fixture row
  that is not normalized comes back from the fixture on every load, behind the new rows. Log and chain fall
  out of step if and only if such a row is marked on chain and the chain does not cover eight rows already,
  or a row cannot be normalized at all (`Revocation.SavedIsInStepIff`,
  `Revocation.RejectedRevocationIsInStepIff`, `Revocation.FirstRevocationIsInStepIff`).
- `confidentialFlow.ts`: a transfer that lands and is reported failed is paid again on a retry, and what it
  took is shielded again (`ConfidentialFlow.LostTransferIsPaidTwice` reaches this;
  `ConfidentialFlow.Wallet.SettleUntilDone` says exactly how often and how much).
- `relayerRateLimit.js`: 30 requests per window means up to 59 in a minute, exactly
  (`RelayerRateLimit.NoIntervalExceedsLimit`, `RelayerRateLimit.LimitIsReached`).
- `passkeyCeremony.ts`: awaiting a ceremony from inside another never ends, as the comment at
  `smartAccount.ts:902` warns (`Passkey.AwaitSticksIff`, `Passkey.StuckForever`).
- `confidentialIndexer.js` writes numbers in hexadecimal without padding, while `hexToBytes` in the client
  throws on an odd number of digits, and `issuer-indexer.ts:117-120` always drops withdrawals. So the client
  keeps a transfer row if and only if all nine of its numbers have an even number of hexadecimal digits and
  its point is accepted (`ClientIndex.ClientReadsIff`). What that costs a wallet that starts cold is exactly
  this (`ClientIndex.ColdStartMisses`): receiving lacks the credits dropped since its last merge; spendable
  lacks the dropped credits merged since its last own spend that was read, less its own spends dropped since
  then. So the next own transfer that is read repairs spendable, whatever was dropped before.
- `policy_verifier` and `rwa_adapter` let anyone who has a proof have it verified and so used up: the key is
  filed, no transfer is made, and none can be made with it under that policy
  (`Settlement.VerifiedNeverSettles`).
- `engine.ts` adds blinding factors with `frAdd`, modulo the field, while the chain's points add in a group of
  another order (`constants.ts:25-34`). So a wallet that has missed nothing has the chain's values, and its
  receiving balance verifies if and only if the transfers' blinding factors since the last merge add up to
  less than the field's modulus, its spendable one if and only if the last own spend's and those merged since
  do (`Engine.RebuiltOpeningsVerify`, `Engine.UnwrappedInRun`). Two incoming transfers can break it, and after
  a merge no transfer or withdrawal takes the wallet's opening (`WrappedBlinding.ReceivingDoesNotVerify`,
  `WrappedBlinding.SpendableDoesNotVerify`).
- `engine.ts`: a deposit credited ahead of its event is counted once if and only if no merge of the account
  comes before that event (`PartialReplay.CreditedOnceIff`).

## Model

| member | source | states |
|---|---|---|
| Cbor.DecodeCborValue | app/src/lib/webauthnPublicKey.ts:29-91 | the recursive decoder, reads past the end included, terminates and computes the decoding function |
| Cbor.DecodeArrayItems | app/src/lib/webauthnPublicKey.ts:53-63 | the array loop collects exactly the items decoded one after the other |
| Cbor.DecodeMapEntries | app/src/lib/webauthnPublicKey.ts:65-77 | the map loop leaves the map that setting the decoded pairs in order leaves |
| Cbor.DecodeInvertsSerialize | app/src/lib/webauthnPublicKey.ts:16-91 | any item of the subset, with any legal head widths and tags, decodes to its meaning and the offset just past it, wherever it stands in the data |
| Cbor.SerializeInvertsDecode | app/src/lib/webauthnPublicKey.ts:29-91 | a result that ends inside the data comes from an item that those bytes encode |
| Cbor.DecodesExactlyWhatIsEncoded | app/src/lib/webauthnPublicKey.ts:29-91 | a value and an offset inside the data are returned if and only if those bytes encode the value |
| Cbor.SerializeIsUnambiguous | app/src/lib/webauthnPublicKey.ts:29-91 | no bytes can be read as two different items |
| Cbor.MapGetIsLastValue | app/src/lib/webauthnPublicKey.ts:65-77 | looking up a key in a decoded map finds the last value sent for it |
| Truncation.DecodeOfCut | app/src/lib/webauthnPublicKey.ts:29-91 | data that stops anywhere inside any item of the subset is rejected exactly where CutRejected says, and otherwise decodes to the value CutMeaning says, with an offset past the end of the data |
| Truncation.MissingLengthIs | app/src/lib/webauthnPublicKey.ts:12-91 | data that ends with an initial byte is read as undefined, NaN, an empty array or map where a one-byte or four-byte length is missing, and as 0 or -1 for a two-byte one |
| Truncation.TruncatedIsRejectedIff | app/src/lib/webauthnPublicKey.ts:29-91 | a proper beginning of any item's bytes is rejected if and only if the cut falls in the content of a string, or in its head after the initial byte (two-byte length) or after a length byte (four-byte length) |
| Truncation.RecoverCut | app/src/lib/webauthnPublicKey.ts:29-91 | a result that ends past the data comes from data that is a proper beginning of some item of the subset |
| Truncation.AcceptsExactly | app/src/lib/webauthnPublicKey.ts:29-91 | what is accepted is exactly the encodings of items, and their beginnings that are not cut where CutRejected says |
| Webauthn.AuthDataYieldsKey | app/src/lib/webauthnPublicKey.ts:101-142 | for any authenticator data with an ES256 key, in any entry order and with any further entries and extensions, extraction returns 0x04, x, y if that is on the curve and an error otherwise |
| Webauthn.AttestationRouteAgrees | app/src/lib/webauthnPublicKey.ts:144-154 | the attestation object yields exactly what its authenticator data yields |
| Webauthn.FieldsAreTriedInOrder | app/src/lib/webauthnPublicKey.ts:156-180 | a public key whose last 65 bytes are no point changes nothing; authenticator data that is given is final, be it a key or an error |
| Webauthn.AllRoutesAgree | app/src/lib/webauthnPublicKey.ts:156-180 | any subset of the three encodings of one registration gives the one key, none of them an error, also where the public key is given in a form that ends in no point |
| Webauthn.AcceptedKeyIsEs256 | app/src/lib/webauthnPublicKey.ts:101-121 | a COSE key that is accepted is an EC2 P-256 ES256 key with the coordinates returned |
| Webauthn.OnlyWellFormedAuthDataIsAccepted | app/src/lib/webauthnPublicKey.ts:123-142 | whatever is accepted has the specified layout, with a key that is whole or cut at the end of the data; a whole one is an ES256 key on the curve and is what was returned, and a cut one yields what its entries up to the cut say |
| Webauthn.CutAuthDataIsRead | app/src/lib/webauthnPublicKey.ts:101-142 | authenticator data that stops anywhere inside its key yields an error where the cut is rejected, and otherwise exactly what the entries up to the cut say, the missing ones read as 0 |
| Webauthn.CutInExtraEntryIsAccepted | app/src/lib/webauthnPublicKey.ts:101-142 | a key cut inside the value of a last entry that names no coordinate yields what the whole key yields |
| ConfidentialLedger.ApplyConserves | README.md:442-449 | every operation conserves public plus receiving plus spendable, and keeps the reserve equal to the confidential balances |
| ConfidentialLedger.RunConserves | README.md:442-449 | so does every interleaving of operations by any accounts |
| ConfidentialLedger.BackedCoversEveryone | README.md:442-449 | the reserve covers each account, so any withdrawal of a known spendable opening goes through |
| ConfidentialLedger.OthersOnlyCredit | README.md:442-449 | whatever others do, an account's own spendable stays and its receiving and public balances only grow |
| ConfidentialLedger.TransferDeliversExactly | README.md:442-449 | a transfer moves exactly the amount from the sender's spendable to the recipient's receiving, and nothing else |
| ConfidentialLedger.DepositMovesExactly | README.md:442-449 | a deposit moves exactly the amount from the payer's public balance into the reserve and the payee's receiving |
| ConfidentialLedger.MergeMovesExactly | README.md:442-449 | a merge moves exactly all that was received into spendable |
| ConfidentialLedger.WithdrawPaysExactly | README.md:442-449 | a withdrawal moves exactly the amount from spendable, out of the reserve, to the payee's public balance |
| ConfidentialLedger.SpendNeedsOpening | README.md:442-449 | spending needs the opening that the chain holds, and enough in it |
| ConfidentialLedger.RegisterMovesNothing | README.md:442-449 | registering moves no money and concerns no other account |
| ConfidentialLedger.PaymentMovesExactly | README.md:442-449 | a public payment goes through if and only if its payer has the money, and moves just that |
| Engine.UnmaskOfMask | app/src/lib/confidentialToken/crypto/poseidon2.ts:109-115 | unmasking gives back every value of the field |
| Engine.StateEngine.ApplyEvent | app/src/lib/confidentialToken/state/engine.ts:95-134 | an event changes the state in place as specified: marked transactions are passed over, an own spend overwrites spendable, a credit adds to receiving |
| Engine.StateEngine.Sync | app/src/lib/confidentialToken/state/engine.ts:141-165 | the loop leaves the replay of all events without a marker, keeps the markers, and is at the newest ledger of all |
| Engine.StateEngine.RebuildFromEvents | app/src/lib/confidentialToken/state/engine.ts:168-192 | a rebuild leaves the replay of all events from nothing, without markers, registered if and only if an event says so |
| Engine.ReplayFollowsChain | app/src/lib/confidentialToken/state/engine.ts:95-134 | over any run of any accounts' operations, replaying the reported events gives the values the chain then holds, and as blinding factors the same plain sums of transfers' and spends' factors as the chain, reduced modulo the field where the chain's are reduced modulo the group's order |
| Engine.RebuiltOpeningsVerify | app/src/lib/confidentialToken/state/engine.ts:168-228 | a wallet that started with nothing and rebuilds from all events has the chain's values, and each opening verifies if and only if the account is registered and the sum of blinding factors behind the opening is unwrapped |
| Engine.RegistrationFollowsChain | app/src/lib/confidentialToken/state/engine.ts:95-108 | replaying the events finds the account registered if and only if the chain registered it |
| Engine.UnwrappedInRun | app/src/lib/confidentialToken/crypto/constants.ts:17-34 | in any run of fewer operations than half the group's order, the sums behind an account's openings are unwrapped if and only if they are below the field's modulus |
| Fields.UnwrappedIff | app/src/lib/confidentialToken/crypto/constants.ts:17-34 | a sum of blinding factors is the same modulo the field as modulo the group's order if and only if the group's order divides how often it wraps in the field |
| Engine.AdditionsAgreeIff | app/src/lib/confidentialToken/crypto/field.ts:15-18 | adding two openings of the field in the wallet gives what the chain's points add up to if and only if their blinding factors add up to less than the field's modulus |
| WrappedBlinding.ReceivingDoesNotVerify | app/src/lib/confidentialToken/state/engine.ts:111-131 | from a ledger with nothing confidential, through operations that all go through: a recipient of two transfers replays every event, has their value, and its receiving balance does not verify |
| WrappedBlinding.SpendableDoesNotVerify | app/src/lib/confidentialToken/state/engine.ts:111-131 | nor does its spendable one once it has merged, and no transfer or withdrawal with that opening goes through |
| PartialReplay.PartialReplayAgreesIff | app/src/lib/confidentialToken/state/engine.ts:95-134 | for any events and any choice of those that are read, each opening is that of the full replay if and only if its gap is closed, where a merge carries the gap of receiving over to spendable, an own spend that is read closes that of spendable, and an event not read adds what it did |
| PartialReplay.PartialReplayIsChainIff | app/src/lib/confidentialToken/state/engine.ts:95-134 | for any run and any choice of the events that are read, each opening is the chain's if and only if its gap is zero in value and, taken from the plain sum of blinding factors, leaves in the field what the sum is in the group |
| PartialReplay.SpendRepairs | app/src/lib/confidentialToken/state/engine.ts:15-20 | an own spend that is read repairs spendable, whatever was missed before, until the next merge or missed spend |
| PartialReplay.MergeClearsReceiving | app/src/lib/confidentialToken/state/engine.ts:109-117 | after a merge that is read, receiving agrees until a credit is missed |
| PartialReplay.PartialReplayMisses | app/src/lib/confidentialToken/state/engine.ts:95-134 | by how much the chain exceeds a partial replay, in amounts of the run's operations |
| PartialReplay.CreditedOnceIff | app/src/lib/confidentialToken/state/engine.ts:230-238 | a deposit credited ahead and passed over when its event comes leaves the full replay's openings if and only if no own merge came before it |
| ConfidentialFlow.Wallet.Fund | app/src/lib/confidentialFlow.ts:339-390 | shields exactly the shortfall against verified funds, merges only when spendable falls short, and ends with enough, or waits; the insufficient-funds check never fires |
| ConfidentialFlow.Wallet.Send | app/src/lib/confidentialFlow.ts:392-424 | the transfer that lands is applied to a ledger on which the wallet held exactly what it had, and it moves exactly the amount to the recipient; a success leaves the local spendable equal to the chain's |
| ConfidentialFlow.Wallet.ExecuteConfidentialSettlement | app/src/lib/confidentialFlow.ts:268-427 | the transactions that land are a prefix of the plan, all of it on success. Until the last one the wallet holds all it had, shielded and was sent, and that one moves exactly the amount to the recipient; it waits, and nothing more lands, when spendable is not verified or what is verified falls short beside something that is not; errors are only sync, registration or submission errors; without one, a settlement that can be paid succeeds |
| ConfidentialFlow.Wallet.ShieldConfidentialAsset | app/src/lib/confidentialFlow.ts:442-511 | on success the deposit and the merge landed and spendable grew by at least the amount; neither sanity check ever fires |
| ConfidentialFlow.Wallet.MergeConfidentialAsset | app/src/lib/confidentialFlow.ts:525-566 | on success everything held is spendable and the cache equals the chain; it fails for want of anything to merge if and only if the receiving opening it read was zero |
| ConfidentialFlow.Wallet.UnshieldConfidentialAsset | app/src/lib/confidentialFlow.ts:579-648 | on success exactly the amount went to the public balance, from a ledger on which the wallet held all it had; before that nothing is lost; it is refused for lack of funds only if the account is registered and held less |
| ConfidentialFlow.Wallet.SettleUntilDone | app/src/lib/confidentialFlow.ts:268-427 | a holder who tries again after every failure sends the amount to the recipient once per transfer that landed and was reported failed, and once on success, and nothing to anybody else; without a failed call it succeeds if it can be paid. With receiving in step whenever balances were read, what is shielded in total exceeds the first shortfall if and only if lost transfers had taken more than others had sent; it never does when none was lost |
| ConfidentialFlow.LostTransferIsPaidTwice | app/src/lib/confidentialFlow.ts:339-424 | from any ledger where the holder has nothing confidential and twice the amount in public, two attempts that land in full pay and shield the amount twice |
| EventIndex.CoordsAreRead | issuer-service/lib/confidentialIndexer.js:51-56 | operation and event index are recovered from every RPC event id |
| EventIndex.ToidIsRead | issuer-service/lib/confidentialIndexer.js:51-57 | the coordinates are the event's index and the low 12 bits of a TOID whose high bits are the ledger |
| EventIndex.IdsAreDistinct | issuer-service/lib/confidentialIndexer.js:51-60 | distinct events of a log never share a natural id |
| EventIndex.Indexer.Sync | issuer-service/lib/confidentialIndexer.js:158-205 | a sync over any pages, from the saved cursor or the first ledger it computes, saves exactly what reading that stretch of the source leaves, or nothing when a request fails; with truthful answers it has then read to the latest ledger |
| EventIndex.AsksForLedgerIff | issuer-service/lib/confidentialIndexer.js:167-172 | a sync without a cursor asks for exactly the ledgers the source still has from the deployment on, or, where that is unknown, from 5000 before the latest one seen |
| EventIndex.SyncReadsToHead | issuer-service/lib/confidentialIndexer.js:173-199 | with truthful answers a sync that succeeds has read every entry of the ledgers before the latest; an answer that leaves one behind is followed by another request |
| EventIndex.SyncEndsWhenServed | issuer-service/lib/confidentialIndexer.js:195-198 | if answers claim to be the last only when nothing is left, a sync that succeeds has read all of the log; if they do exactly then, it ends with the first that leaves nothing |
| EventIndex.OneSyncServesTheSource | issuer-service/lib/confidentialIndexer.js:158-203 | one sync that succeeds takes an empty store to exactly the source's rows up to its end, with every entry of the ledgers before the latest |
| EventIndex.Indexer.ReadPages | issuer-service/lib/confidentialIndexer.js:177-199 | the loop stops at exactly the first answer without a cursor, with the one before or at the source's head, fails if there is none, and collects what reading all answers up to it entry by entry leaves |
| EventIndex.Indexer.ReadPage | issuer-service/lib/confidentialIndexer.js:188-194 | the page loop skips unknown topics and ids already seen, and keeps the id set true |
| EventIndex.SortRestoresOrder | issuer-service/lib/confidentialIndexer.js:201-201 | the stable sort by ledger puts rows back into source order |
| EventIndex.SyncKeepsAgreement | issuer-service/lib/confidentialIndexer.js:158-205 | after a sync the saved log is still in source order, has all it had and every known event that was read |
| EventIndex.NextSyncContinues | issuer-service/lib/confidentialIndexer.js:173-203 | a successful sync that ends with a cursor is continued by the next one just where it ended; without one the old cursor stays |
| EventIndex.SyncsMoveOn | issuer-service/lib/confidentialIndexer.js:158-205 | after any number of such syncs the index is at the end of the last |
| EventIndex.NothingNewChangesNothing | issuer-service/lib/confidentialIndexer.js:188-202 | a sync with nothing new changes no row |
| EventIndex.AgreementMeansNoDuplicates | issuer-service/lib/confidentialIndexer.js:175-193 | the saved log has no duplicate id and ascending ledgers |
| EventIndex.AnyRunAgrees | issuer-service/lib/confidentialIndexer.js:158-205 | over any run of syncs, failing or not, against a growing source the saved log agrees with it, without gaps between its start and its cursor, and never loses an event; from a store without a cursor the start is that of the first sync that returned one |
| EventIndex.ListedIff | issuer-service/lib/confidentialIndexer.js:205-221 | a saved row is served for an account if and only if it names the account |
| EventIndex.ReplayOfListedEvents | issuer-service/lib/confidentialIndexer.js:205-225 | whoever goes over an account's listed events and cares for no others comes to what going over the whole log comes to |
| PartialReplay.ListedEventsSuffice | app/src/lib/confidentialToken/state/engine.ts:95-134 | to the engine in particular |
| PartialReplay.ListedEventsRegister | app/src/lib/confidentialToken/state/engine.ts:95-108 | and the listed events register the account if and only if the whole log does |
| EventIndex.CaughtUpIndexServesTheSource | issuer-service/lib/confidentialIndexer.js:158-225 | an index that agrees with the source from its first event on and is caught up serves every account what the source itself would |
| EventIndex.FreshIndexIsTheSource | issuer-service/lib/confidentialIndexer.js:158-225 | after any run of syncs from an empty store, whose first successful one starts at or before the first event and which is caught up, the saved log is exactly the source's |
| EventIndex.FreshIndexServesTheSource | issuer-service/lib/confidentialIndexer.js:158-225 | and what is served for an account comes to what going over the source itself would |
| ClientIndex.ClientReadsIff | app/src/lib/confidentialToken/chain/issuer-indexer.ts:49-127 | the client reads a served row back unchanged if and only if it keeps it: never a withdrawal, and a transfer only when its point is accepted and each of its nine numbers has an even number of hexadecimal digits |
| ClientIndex.PaddedCipherIsReadIff | app/src/lib/confidentialToken/chain/issuer-indexer.ts:49-61 | written as 32 bytes each, the numbers of a transfer would be read back if and only if its point is accepted or the identity |
| ClientIndex.PrefixIsOptional | app/src/lib/confidentialToken/chain/issuer-indexer.ts:49-53 | a prefix in either case is passed over, and no text is an error |
| ClientIndex.ColdStartAgreesIff | app/src/lib/confidentialToken/chain/event-source.ts:80-145 | a wallet that rebuilds from the index before the seam and the RPC after it has an opening the chain holds if and only if the gap its dropped rows leave makes up for the sum of blinding factors: where the sum has not wrapped, if and only if the gap is closed, and where the gap is closed, if and only if the sum has not wrapped |
| ClientIndex.ColdStartMisses | app/src/lib/confidentialToken/chain/event-source.ts:80-145 | in amounts: receiving lacks the credits dropped since the last own merge, and spendable the dropped credits merged since the last own spend that was read, less the own spends dropped since then |
| ClientIndex.FreshIndexColdStart | app/src/lib/confidentialToken/chain/event-source.ts:80-145 | so it is end to end: from any run of the token over any run of the issuer's syncs from an empty store to the wallet's openings |
| ClientIndex.NothingMissed | app/src/lib/confidentialToken/chain/event-source.ts:80-145 | when the client keeps every row before the seam that names the account, the rebuilt values are the chain's, and each opening is if and only if the sum of blinding factors behind it has not wrapped |
| Accumulator.ComputeRevocationRootFromSiblings | issuer-service/lib/poseidonFields.js:57-64 | the loop computes the eight-step fold over the padded list |
| Accumulator.ComputeNoteRootFromLeaves | issuer-service/lib/poseidonFields.js:47-55 | padding first gives the same fold |
| Accumulator.RootIsEightSteps | issuer-service/lib/poseidonFields.js:47-66 | the root is eight hashes, one leaf after the other onto zero; a longer list is cut, a shorter one filled up with zeros |
| Accumulator.EqualValuesCollide | issuer-service/lib/poseidonFields.js:57-64 | two different lists with one accumulated value exhibit a step at which different pairs hash alike |
| Accumulator.RootsAreInjective | issuer-service/lib/poseidonFields.js:15-66 | equal root texts force equal zero-padded lists of eight, unless hashing the two lists exhibits a collision |
| Revocation.NormalizeIsIdempotent | issuer-service/lib/revoke.js:49-55 | normalizing yields normal text, and leaves exactly normal text as it is |
| Revocation.NormalizeReads | issuer-service/lib/revoke.js:49-55 | 64 hexadecimal digits in either case, with or without a prefix in either case, become one text of the same value |
| Revocation.OnlyHexNormalizes | issuer-service/lib/revoke.js:49-55 | nothing else is accepted |
| Revocation.ValueOfHex | scripts/compute_revocation_root.js:14-18 | hexadecimal text denotes its number, whatever its case and whether or not it is prefixed |
| Revocation.RootTellsCommitments | scripts/compute_revocation_root.js:24-37 | barring a collision, two lists of normalized commitments have one root if and only if their first eight, filled up with the zero commitment, are the same texts |
| Revocation.RootTellsNonzeroCommitments | scripts/compute_revocation_root.js:24-37 | and, where none is zero, if and only if their first eight are |
| Revocation.TextIsRead | issuer-service/lib/poseidonFields.js:16-20 | below 2^256, the text of a number is a normalized commitment that is read as that number |
| Revocation.MergeRows | issuer-service/lib/revoke.js:18-27 | the merge loop computes the merge function, errors included |
| Revocation.MergeAppends | issuer-service/lib/revoke.js:18-27 | merging succeeds if and only if every fixture row can be normalized; then it only appends and leaves nothing of the fixture out, and what it appends is off chain if and only if no row on chain comes back |
| Revocation.LoadAfterSave | issuer-service/lib/revoke.js:29-47 | loading what was saved gives it back once the normal form of every fixture row is in it |
| Revocation.ComputeRevocationWitness | scripts/compute_revocation_root.js:24-37 | the siblings are the first eight commitments, zero-padded, and the root is their fold, the empty list included |
| Revocation.Revoker.RevokeCredential | issuer-service/lib/revoke.js:82-149 | the call, failing at any step, has exactly the effect and answer of the specification |
| Revocation.RevokeKeepsInStep | issuer-service/lib/revoke.js:82-149 | with a safe fixture, whatever fails, the chain's root covers a prefix of the log with every row marked on chain, and the prefix never shrinks; a call that succeeds makes it all the rows it published |
| Revocation.RevokedWhenReturned | issuer-service/lib/revoke.js:82-149 | a call that returns has revoked its commitment: the log lists it as marked on chain in a row the chain covers; it says "already revoked" if and only if that was so before, and then changes nothing |
| Revocation.ReturnsIff | issuer-service/lib/revoke.js:82-149 | a call returns if and only if its commitment normalizes and is revoked already or everything it has to do succeeds; the chain's root moves only if a transaction lands |
| Revocation.CallKeepsRows | issuer-service/lib/revoke.js:82-149 | no call, whatever fails, drops a row or alters any but its own, which it can only mark or append |
| Revocation.RevokedForever | issuer-service/lib/revoke.js:82-149 | over any run of calls, what is revoked stays revoked |
| Revocation.EveryRunStaysInStep | issuer-service/lib/revoke.js:29-149 | so it is after any sequence of calls; a fixture is safe if its rows can be normalized and, before anything is saved, none that is on chain comes back from it or the chain covers eight rows already; the rows below say exactly when a first revocation stays in step |
| Revocation.DeploymentStartsInStep | issuer-service/lib/revoke.js:29-42 | a new deployment whose chain has the fixture's root starts in such a state, and is safe when its fixture is normalized |
| Revocation.SavedIsInStepIff | issuer-service/lib/revoke.js:29-47 | barring a collision, a saved log whose first p rows the chain covers is in step with it when loaded again if and only if every fixture row can be normalized, and p is eight or more or no row on chain comes back from the fixture |
| Revocation.RejectedRevocationIsInStepIff | issuer-service/lib/revoke.js:82-149 | so it is for a first revocation whose transaction is rejected, for a fixture of any length |
| Revocation.FirstRevocationIsInStepIff | issuer-service/lib/revoke.js:82-149 | and for a first revocation that succeeds, where the chain covers one row more |
| Revocation.ProverAcceptsIffCovered | scripts/generate_prover_toml.js:77-88 | for nonzero commitments, and barring a collision of the two lists, the prover's revocation check passes if and only if the rows the chain covers include all of the first eight |
| Revocation.AnotherRevocationLeavesTheRootIff | scripts/compute_revocation_root.js:26-29 | barring a collision, one more revocation leaves the root unchanged if and only if eight are listed already or its value is 0 |
| Session.CallContractsFromInvocation | app/src/lib/smartAccount.ts:349-360 | the recursive collection computes the preorder list of contract calls |
| Session.SortedHeadIsBest | app/src/lib/smartAccount.ts:289-297 | the head after the sort is a match that no other one beats |
| Session.BestRuleIsTheMaximum | app/src/lib/smartAccount.ts:283-298 | a rule id is chosen if and only if it is that of the usable rule with the lexicographically greatest expiry and id; none is chosen if and only if no rule is usable |
| Session.BestRuleIgnoresOrder | app/src/lib/smartAccount.ts:330-347 | the choice does not depend on the order or repetition of rules |
| Session.ChosenRuleAdmits | app/src/lib/smartAccount.ts:217-298 | the id chosen is that of a rule of the context whose signers have the session key, whose policies have the configured policy and that has more than 100 ledgers to go; one is chosen whenever such a rule has a number |
| Session.EachIsResolved | app/src/lib/smartAccount.ts:381-387 | the mapping succeeds if and only if each contract has a rule, and then each id authorizes the contract at its place |
| Session.EnabledExactlyWhenResolved | app/src/lib/smartAccount.ts:366-388 | resolution succeeds if and only if the tree calls a contract and the session is enabled for all it calls; a walk over the tree that consumes one authorizing id per call then accepts the ids and uses every one |
| Session.ResolvesByDefaultFirst | app/src/lib/smartAccount.ts:366-388 | the ids are the default rule's wherever there is one, and otherwise each contract's own; an error names the first contract that has none |
| Session.EnabledCoversTrees | app/src/lib/smartAccount.ts:300-313 | enabled for a list of contracts means every tree calling only those resolves, one id per call |
| Session.SessionsOnlyLapse | app/src/lib/smartAccount.ts:268-328 | with unchanged rules, what is enabled at a later ledger was enabled before |
| Session.MissingIsWhatDoesNotResolve | app/src/lib/smartAccount.ts:1036-1039 | a target is missing if and only if resolving a call to it throws, and installed otherwise |
| Session.EnabledIffNothingMissing | app/src/lib/smartAccount.ts:1007-1047 | enabled agrees with an empty missing list if and only if there is a session key or a target |
| Session.ShownExpiryIsTheLatest | app/src/lib/smartAccount.ts:1029-1035 | the expiry shown is the latest of the usable default rules that expire |
| Session.NoExpiryIsShown | app/src/lib/smartAccount.ts:1029-1035 | none is shown when no usable default rule expires |
| Session.LastingRuleIsChosenIff | app/src/lib/smartAccount.ts:289-298 | with distinct ids, the id of a rule without expiry is chosen if and only if the rule is usable, no usable rule expires and none that is usable has a greater id |
| ContextRules.ListOnChainContextRules | app/src/lib/onChainContextRules.ts:429-453 | the probe loop returns, in strictly increasing id order, exactly the rules within the bound that no run of max(1, maxMisses) absent ids precedes |
| ContextRules.SortOfIncreasing | app/src/lib/onChainContextRules.ts:452-452 | the final sort changes nothing |
| ContextRules.EveryRuleIsListedIff | app/src/lib/onChainContextRules.ts:434-450 | given the true count, all rules are listed if and only if the highest id is within the cap, no long run precedes it and at most maxMisses + 1 ids are absent in all |
| Passkey.Passkeys.SetBusy | app/src/lib/passkeyCeremony.ts:9-19 | the count moves by one, clamped at zero, and every listener is told whether it is positive |
| Passkey.Passkeys.RunPasskeyCeremony | app/src/lib/passkeyCeremony.ts:31-42 | a call hangs a new ceremony on the last promise and makes it the last |
| Passkey.Passkeys.SettleCallback | app/src/lib/passkeyCeremony.ts:34-38 | a body that returns or throws settles its promise and runs the finally block |
| Passkey.AtMostOneRuns | app/src/lib/passkeyCeremony.ts:31-42 | in every state that a run from the empty one reaches at most one ceremony is running, and then the count is one |
| Passkey.StepKeepsTruth | app/src/lib/passkeyCeremony.ts:9-19 | the count is the number running, each listener was last told the truth, and the clamp at zero never acts |
| Passkey.EveryRunKeepsOrder | app/src/lib/passkeyCeremony.ts:5-42 | over every run ceremonies start in call order, each after all earlier ones have settled |
| Passkey.OutcomeIsKept | app/src/lib/passkeyCeremony.ts:31-42 | a ceremony settles as its body did, and stays so over every run, whatever becomes of the others |
| Passkey.ListenersAreTold | app/src/lib/passkeyCeremony.ts:15-25 | over every run exactly those are told whose last word was to subscribe |
| Passkey.StuckForever | app/src/lib/smartAccount.ts:902-903 | a ceremony that awaits a nested one never settles in any continuation, and no later ceremony ever starts |
| Passkey.AllCanSettle | app/src/lib/passkeyCeremony.ts:40-41 | while none awaits a later one, all ceremonies can settle, however earlier ones ended |
| RelayerRateLimit.Limiter.AllowRelayerRequest | issuer-service/lib/relayerRateLimit.js:14-27 | the in-place bucket update answers and leaves what the specification says |
| RelayerRateLimit.ClientsAreIndependent | issuer-service/lib/relayerRateLimit.js:14-27 | in any trace, a client's answers are those it would get alone |
| RelayerRateLimit.RefusedIff | issuer-service/lib/relayerRateLimit.js:14-27 | a request is refused if and only if 30 requests of its client, accepted or not, came before it in its window; then exactly 30 were accepted in the window, and in the last 60000 ms as many more as the window before let through there |
| RelayerRateLimit.NextWindowOpens | issuer-service/lib/relayerRateLimit.js:18-21 | whatever a client tries meanwhile, its first request more than 60000 ms after its window opened gets through |
| RelayerRateLimit.RefusalsLeaveNoTrace | issuer-service/lib/relayerRateLimit.js:22-24 | without a refused request all others, of any client, are answered the same |
| RelayerRateLimit.NoIntervalExceedsLimit | issuer-service/lib/relayerRateLimit.js:14-27 | in any closed interval of L ms a client gets at most Limit(L) requests through, which is at most 30 (2 + (L - 1) / 60001), and 59 for a minute |
| RelayerRateLimit.LimitIsReached | issuer-service/lib/relayerRateLimit.js:14-27 | for every L some client gets exactly Limit(L) through |
| RelayerRateLimit.PoliteClientIsNeverRefused | issuer-service/lib/relayerRateLimit.js:14-27 | a client with at most 30 requests in any 60000 ms is never refused |
| PublicInputs.ExtractInvertsBuild | app/src/lib/contracts.ts:959-1001 | extracting from the built hex returns the fields if and only if all are below 2^256 |
| PublicInputs.PrefixIsOptional | app/src/lib/contracts.ts:983-1006 | a leading 0x changes nothing, and only text of fewer than 384 digits is refused |
| PublicInputs.FieldBytesToU32 | contracts/compliance_sac_admin/src/lib.rs:95-104 | the loop with its wrapping 128-bit accumulator returns the value modulo 2^128 if that fits 32 bits, and 0 otherwise |
| PublicInputs.ContractReadsWhatClientBuilt | contracts/compliance_sac_admin/src/lib.rs:106-134 | from the client's 192 bytes the contracts read policy, asset and action as meant for every nonzero 32-bit number, and the nullifier unchanged |
| PublicInputs.LargeFieldsAlias | contracts/compliant_dex/src/lib.rs:67-93 | a field of 2^128 + 2 is read as 2 |
| PublicInputs.BundleRoutesAgree | app/src/lib/contracts.ts:1009-1040 | the prover's two output forms give the same bundle, for six fields or more |
| Settlement.Contracts.VerifyPassport | contracts/policy_verifier/src/lib.rs:155-210 | each check in order; on success the key is spent, on failure nothing changes |
| Settlement.Contracts.Invoke | contracts/compliance_sac_admin/src/lib.rs:154-254 | an entry point settles as specified or fails and changes nothing |
| Settlement.SettlesIff | contracts/compliance_sac_admin/src/lib.rs:154-254 | a call settles if and only if its payer authorized it and has the money, the payee's balance stays below 2^127, and its proof is an unspent one for the entry point's asset and a settlement that the policy's verifier accepts |
| Settlement.OnlyOwnersPay | contracts/compliance_sac_admin/src/lib.rs:174-254 | over any run an account loses no more than what it pays itself and what is settled from it with its authorization, each time with such a proof |
| Settlement.LessOnlyIfPaid | contracts/compliant_payroll/src/lib.rs:112-149 | a balance is lower after a run only if a step of it was a payment or a settlement of that account of this kind |
| Settlement.UnauthorizedChangesNothing | contracts/compliant_dex/src/lib.rs:113-150 | a run leaves exactly the state it would without its settlements that the payer did not authorize |
| Settlement.SettlementSpendsItsScope | contracts/compliance_sac_admin/src/lib.rs:136-144 | the key spent was unspent and names policy, asset, settlement action and nullifier; with five fields it names no scope and holds the asset field |
| Settlement.SettlementMovesExactly | contracts/compliant_payroll/src/lib.rs:94-149 | a success moves exactly a positive amount of the scoped token between the two parties and touches no other token |
| Settlement.SpentByRun | contracts/policy_verifier/src/lib.rs:202-207 | over any run of settlements and of verifications by anyone, what is spent is what was spent before and what the run's successful settlements and verifications filed |
| Settlement.KeysAreSpentOnce | contracts/policy_verifier/src/lib.rs:155-210 | over any run each key is filed at most once, for one settlement or by one verification without any |
| Settlement.SameInputsSettleOncePerPolicy | contracts/compliant_dex/src/lib.rs:94-150 | the same public inputs are filed twice, by settlements or otherwise, only under two policies |
| Settlement.VerifiedNeverSettles | contracts/policy_verifier/src/lib.rs:212-219 | once anyone has had a proof verified, no entry point settles with its public inputs under that policy in any state that follows |
| Settlement.SameProofSettlesAgainIffPolicyDiffers | contracts/compliant_dex/src/lib.rs:94-150 | after a settlement the same proof settles again if and only if another policy is passed, with a verifier that accepts it and the key unspent |
| Settlement.RunKeepsTotals | contracts/compliance_sac_admin/src/lib.rs:154-254 | over any run the total of every token is conserved |
| Eligibility.RescopingIsLastWriteWins | app/src/lib/assetScope.ts:64-93 | scoping to one scope and then another is scoping to the second, failures included |
| Eligibility.ScopingHashesIdentity | app/src/lib/assetScope.ts:38-93 | scoping fails just when secret or policy cannot be read, and otherwise stores the scope and the nullifier of secret, policy and scope, in decimal and hexadecimal, and keeps secret and policy |
| Eligibility.HexIsRead | app/src/lib/assetScope.ts:30-32 | the hexadecimal text of a nullifier is read as the nullifier |
| Eligibility.NumbersAreRead | app/src/lib/assetScope.ts:20-28 | decimal digits, or none, and prefixed hexadecimal ones in either case are read at their value |
| Eligibility.OnlyNumbersAreRead | app/src/lib/assetScope.ts:20-28 | nothing else is read |
| Eligibility.PolicyOfIdentity | app/src/lib/assetScope.ts:70-72 | the policy is that of the prover's inputs, or else the credential's, or else 1 |
| Eligibility.RescopingKeepsMatches | app/src/lib/credentialProof.ts:16-44 | rescoping a credential never changes which proofs of a known scope match it |
| Eligibility.MatchWithoutSecret | app/src/lib/credentialProof.ts:16-44 | without a note secret the stored nullifier decides, and without inputs, a proof or a credential nothing matches |
| Eligibility.RescopingMovesOtherMatches | app/src/lib/credentialProof.ts:31-32 | a proof of an unknown scope is matched with the scope the credential was moved to last |
| Eligibility.MatchesOneIdentity | app/src/lib/credentialProof.ts:34-44 | a proof that matches one credential matches another if and only if that has the same secret and policy, barring a collision of the two |
| Eligibility.AskedKeyIsExact | app/src/lib/scopeNullifier.ts:12-39 | the key asked about holds the credential's policy, the scope and the nullifier in 32 bytes |
| Eligibility.AskedIffPolicyFits | app/src/lib/scopeNullifier.ts:26-39 | the chain can be asked if and only if the policy is below 2^32 |
| Eligibility.KeysAreOfIdentityAndScope | app/src/lib/scopeNullifier.ts:26-39 | keys are equal if and only if secret, policy and scope are, barring a collision |
| Eligibility.StepChangesOneAnswer | app/src/lib/scopeNullifier.ts:26-39 | a settlement, or a verification by anyone, with what the client built makes the answer yes for its credential and scope if it succeeds under that policy, and, barring a collision, no step changes any other answer |
| Eligibility.AnswerAfterRun | app/src/lib/scopeNullifier.ts:26-39 | over any run of settlements and verifications, each with a proof made for some credential and scope, an answer is yes afterwards if and only if it was before, or a settlement succeeded for this credential and scope under its policy, or someone had such a proof verified under it, barring collisions |
| Eligibility.OneHolderChangesNoOther | app/src/lib/scopeNullifier.ts:26-39 | settlements and verifications of proofs for one credential and scope change no answer for another scope or, barring a collision, another credential |
| AssetAmount.ParseInvertsFormat | app/src/lib/assetAmount.ts:2-21 | for every amount and number of decimals, parsing what was printed gives the amount back, or zero for a negative one |
| AssetAmount.FormatOfParse | app/src/lib/assetAmount.ts:2-21 | printing a parsed amount gives its canonical text, without needless zeros |
| AssetAmount.SameAmountIffSameForm | app/src/lib/assetAmount.ts:2-21 | two texts that parse are the same amount if and only if their canonical forms are |
| AssetAmount.ParsesExactly | app/src/lib/assetAmount.ts:2-13 | a numeral is read at its value in units of the last decimal, and refused with more decimals |
| AssetAmount.OnlyNumeralsParse | app/src/lib/assetAmount.ts:3-6 | nothing but digits, or digits, a dot and more digits, is read |
| AssetAmount.NoTextIsZero | issuer-service/lib/sacLiquidity.js:126-131 | the issuer reads no text as zero, where the parser fails |
| Text.TrimCuts | app/src/lib/assetAmount.ts:3-3 | trimming cuts only spaces, and all of them at either end |
| Text.SpacesAre | app/src/lib/assetAmount.ts:3-3 | the characters that count as spaces are those of ECMAScript |
| Text.LowerOfLetters | issuer-service/lib/revoke.js:50-50 | lower case turns the 26 capitals into their small letters and leaves the rest |
| AssetAmount.IssuerAgreesWithParser | issuer-service/lib/sacLiquidity.js:126-131 | on every text the parser accepts the issuer's conversion gives the same amount in seven decimals, rounded down; at seven decimals they agree exactly |

## Left out

- User interface, routing, error texts, journey steps, session and faucet records: no contract worth proving.
- Proof generation and verification, hashing, curve arithmetic and signing: foreign code, parameters here.
- The Stellar SDK, XDR, RPC, Horizon, Friendbot and command-line calls: steps that succeed or fail.
- The waits of `StateEngine` (`waitUntilVerified`, `reconcileForRead`, its timeouts) and its local merges: to the flows it is an interface that may leave any cache and says truthfully whether it is verified.
- `hybridFetchEvents` from a saved cursor or with a failing index, and `dedupeById`: the index's rows and the RPC's are of disjoint ledgers.
- The local `registered` flag and progress callbacks of the confidential flows, and the transaction hashes they return.
- `bundleFromHonkProof` on hexadecimal with a sign or upper-case digits, and `assertProofScope`, `proofScopeMatches`: one comparison each.
- The credential-root comparison in `generate_prover_toml.js` and the rest of the prover's input record.
- `parseRpcEvent` on malformed event data, where it throws.
- The asset key of the index, `fromLedger` and `endLedger` in its queries, and the paging of what it serves.
- `ClientIndex`: served rows are those this index writes; text in them that is not hexadecimal or decimal is not modelled.
- Two processes writing one store at a time, and corrupted JSON in the saved files.
- `revokedAt` and the reasons of revocation rows; commitments on disk that are neither hexadecimal nor empty.
- `clientKey`: a request is taken with the client it was attributed to. Clocks that run backwards.
- Rules whose `valid_until` is not a number, and `normalizeSessionContractIds`: targets are taken as normalized.
- The kit cache of `smartAccount.ts`, and the writing of rules on chain.
- Listeners that subscribe or unsubscribe while they are being told.
- Roles, pausing, trustlines and event publishing of the contracts; `check` and `validate` of the verifier, which file nothing; `verify_vec`, `verify_and_record` and rwa tokens, which have proofs verified like anyone.
- That a proof's witness is a field element: a spendable balance whose blinding factor in the group is not below the field's modulus cannot be proved by anyone.
- Cbor.DecodesExactlyWhatIsEncoded: text is compared as UTF-8 bytes, so invalid UTF-8 and a byte-order mark, which `TextDecoder` changes, are not modelled; nor are the depth of the JavaScript stack and its memory, which a cut array of many items may exceed.
- Settlement.KeysAreSpentOnce: runs keep one adapter and one verifier; an administrator's `set_adapter` and `set_verifier` can bring in another, with nothing spent.
- Webauthn.AllRoutesAgree: `base64url` decoding of the three fields is not modelled.
- Eligibility.ScopingHashesIdentity: numbers written with a sign, `0o` or `0b`, which `BigInt` reads, are errors here.
- AssetAmount.IssuerAgreesWithParser: on texts the parser rejects the issuer's conversion also reads signs and prefixes, which are errors here.
- Eligibility.StepChangesOneAnswer: takes credentials whose policy is below 2^32; for others the question to the chain fails.
