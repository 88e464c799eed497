# web3hook-emit core, modelled in Dafny

web3hook-emit watches an EVM chain and sends one webhook for each transaction that
matches a user's trigger. It also meters each user's usage with a credit counter. This
project models the deterministic logic inside the network and database glue:

- **Trigger eligibility** (`queryDatabase`). The store query is modelled as a boolean
  filter over a trigger table. A trigger is eligible when its chain id matches, it has
  no ABI, the address clause holds, and its owner is at or below 1000 credits or paid.
- **Payload builder** (`getHookResponse`). It lower-cases the recipient (`""` when the
  recipient is absent), copies the sender as received, and renders `value` and
  `gasLimit` in base 10. A parser reads those strings back.
- **Credit metering** (`emit` and `incrementCredits`). This is a fold over the block's
  transactions and their matched triggers. Each pair appends one post request and adds
  one credit to the trigger owner. Nothing about the delivery outcome feeds back.
- **Poll loop** (`evmTransaction`). A step function takes the watermark `lastBlock` and
  one cycle's node outcome. It returns the next watermark and the hashes for which a
  post chain is started. A run folds this step over a finite sequence of outcomes. The
  module also models the per-hash body, the merge `{ ...response, ...receipt }`.

Modules: `Wrappers` (Option/Result), `Ascii`, `Decimal`, `Records` (transaction, trigger,
user, store), `Matcher`, `Payload`, `Ledger`, `Emit`, `PollLoop`.

The address clause is a parameter, `Matcher.AddressClause`:

- `BothAddresses` is the code as written. The trigger address must equal the
  lower-cased sender AND the lower-cased recipient.
- `EitherAddress` is the reading in the SQL comment above the query
  (`src/Transaction.ts:61`). The address must equal either one.

`Emit` is generic in the clause, so every metering property holds for both readings.

Where the code departs from what its own comments or purpose evidently mean, the model follows
the code:

- The code requires both addresses to match, while the SQL comment at `src/Transaction.ts:61`
  asks for the watched address to equal `from` OR `to`.
- The payload's `fromAddress` is not lower-cased, while `toAddress` is (`src/Transaction.ts:113-114`)
  and the matcher compares the lower-cased sender (`src/Transaction.ts:70`).
- Only the transaction side is lower-cased (`src/Transaction.ts:70`, `src/Transaction.ts:73`).
  The model assumes the store compares the trigger's `address` exactly, as PostgreSQL and
  SQLite do by default. Under that assumption a trigger stored in mixed case, such as `0xAA`,
  is never selected (`Matcher.MixedCaseAddressNeverSelected`), so the code relies on trigger
  addresses being stored in lower case. Under a case-insensitive collation, the default for
  MySQL and SQL Server, such a trigger would match and that lemma would not describe the
  program.
- The loop jumps the watermark to whatever height the node reports. This does not fit the
  "check if there are new blocks" step at `src/evmTransaction.ts:11`: blocks in between are
  skipped, and a lower height is processed as if it were new.

The first and fourth are logged under Findings.

## Model

| member | source | states |
|---|---|---|
| Ascii.Lower | src/Transaction.ts:70 | lower-casing keeps the length, leaves the result with no upper-case letter, and maps each upper-case letter to its lower-case partner; every other character is kept |
| Ascii.LowerIdempotent | src/Transaction.ts:73 | lower-casing an already lower-cased address changes nothing |
| Records.RecipientKey | src/Transaction.ts:73 | the recipient key is `""` for a contract creation and otherwise the lower-cased `to`; it is always lower case |
| Decimal.ToDecimal | src/Transaction.ts:115 | a natural renders as a non-empty digit string with no leading zero, and it is `"0"` exactly when the natural is zero |
| Decimal.ParseToDecimal | src/Transaction.ts:115 | parsing the decimal rendering of any natural gives that natural back |
| Decimal.ToDecimalValueOf | src/Transaction.ts:119 | every canonical digit string is the rendering of its own value, so renderings and naturals correspond one to one |
| Decimal.ToDecimalInjective | src/Transaction.ts:119 | two naturals have the same rendering if and only if they are equal |
| Matcher.QueryDatabase | src/Transaction.ts:60-96 | a trigger is returned if and only if it is in the table and satisfies the where clause (chain id, no ABI, address clause, owner quota or paid); each eligible row occurs as often as in the table, and no other row occurs |
| Matcher.SelectedTriggerFacts | src/Transaction.ts:64-91 | a selected trigger is on the transaction's chain, has no ABI, and its owner exists with credits at most 1000 or paid |
| Matcher.AsWrittenOnlySelfTransfers | src/Transaction.ts:66-76 | as written, a selected trigger's address equals both the lower-cased sender and the recipient key; a contract creation can match only an empty sender |
| Matcher.IntendedSelectsEitherParty | src/Transaction.ts:61 | with the OR reading, an otherwise eligible trigger on either the sender or the recipient (including a contract creation's sender) is selected |
| Matcher.MixedCaseAddressNeverSelected | src/Transaction.ts:66-76 | on a store that compares `address` exactly, a trigger whose stored address contains an upper-case letter is never selected, under either address clause, because only the transaction's addresses are lower-cased |
| Matcher.AsWrittenWithinIntended | src/Transaction.ts:61-76 | the as-written selection is a sub-multiset of the OR reading's selection |
| Matcher.AsWrittenMissesSenderMatch | src/Transaction.ts:66-76 | for a transfer 0xAA to 0xBB with a trigger on 0xaa, the as-written query selects nothing and the OR reading selects the trigger |
| Payload.GetHookResponse | src/Transaction.ts:111-121 | `toAddress` is the recipient key; `fromAddress`, hash, chain id and data are copied unchanged; `value` and `gasLimit` are canonical decimals that parse back to exactly the transaction's numbers |
| Payload.HookResponseLossless | src/Transaction.ts:111-121 | two transactions give the same payload if and only if they agree on hash, sender, recipient key, value, chain id, data and gas limit |
| Ledger.IncrementCredits | src/Transaction.ts:98-109 | the update succeeds if and only if the owner's row exists; it then adds exactly 1 to that row's credits and keeps its id and paid flag; every other row and the key set are unchanged; a missing row is reported as an error |
| Emit.FireMeters | src/Transaction.ts:35-37 | one matched trigger appends exactly one post carrying the transaction's payload; the owner's row, if present, is the same row with one more credit; every other row is unchanged, as is the key set |
| Emit.FireAllPosts | src/Transaction.ts:34-38 | the triggers of one transaction yield exactly one post each, in order, after the posts made before |
| Emit.FireAllCredits | src/Transaction.ts:34-38 | each user gains one credit per new post for a trigger they own; ids, paid flags and the key set are unchanged |
| Emit.FireAllExact | src/Transaction.ts:34-38 | one transaction's triggers leave exactly their posts appended and the table charged one credit per post to the post's owner, in closed form |
| Emit.EmitEntryMeters | src/Transaction.ts:32-39 | an unfetched transaction changes nothing; a fetched one appends exactly one post per trigger its query selects, each matching its body, and charges one credit per post to its owner |
| Emit.EmitBlockMeters | src/Transaction.ts:30-42 | for a block, the new posts are exactly the (transaction, selected trigger) pairs, entry by entry, one post each; each entry's query sees the table as charged so far; the final table is the old one charged one credit per pair to the owner, whatever the delivery outcome; every new post's trigger matches its body on chain, ABI and address clause |
| Emit.EmitForBlockMeters | src/Transaction.ts:29-53 | if the block's hashes cannot be read, nothing changes; otherwise the posts and the table are exactly those of the block metering |
| Emit.SenderTriggerScenario | src/Transaction.ts:30-38 | for the 0xAA to 0xBB transfer with an owner at 5 credits, the as-written code leaves state unchanged; the OR reading posts once to the trigger's URL with value `"1000000000000000000"` and the owner ends at 6 |
| PollLoop.EvmStep | src/evmTransaction.ts:5-40 | a failure keeps the watermark and fetches nothing; an equal height fetches nothing; any other height is the one fetched; on success it becomes the watermark and the block's hashes are the requests, one per hash |
| PollLoop.RunWatermarkIsObserved | src/evmTransaction.ts:12-36 | after any run, the watermark is the initial one or a height the node reported; every processed height was reported, so a height the node never reports is never processed |
| PollLoop.RunStallsKeepWatermark | src/evmTransaction.ts:6-38 | if every cycle fails, sees an unchanged height or fails to fetch the block, the watermark never moves and nothing is requested |
| PollLoop.EmptyBlockAdvances | src/evmTransaction.ts:14-36 | a fetched block with no transactions requests nothing and still moves the watermark to its height |
| PollLoop.AsWrittenSkipsAndRegresses | src/evmTransaction.ts:12-36 | from 100, observing 102 processes only 102 (101 is skipped); observing 99 processes 99 and moves the watermark back |
| PollLoop.SequentialStep | src/evmTransaction.ts:11-14 | the corrected step moves the watermark by at most one; it advances if and only if the chain is ahead and block `lastBlock + 1` was fetched |
| PollLoop.SequentialRunConsecutive | src/evmTransaction.ts:12-36 | the corrected loop processes `lastBlock + 1, lastBlock + 2, ...` in order, each once, none skipped; its watermark is the initial one plus the number processed |
| PollLoop.MergeBody | src/evmTransaction.ts:24 | the body's keys are the union of both key sets; receipt keys take the receipt's value and response-only keys keep the response's; a null receipt leaves the response as is |
| PollLoop.Bodies | src/evmTransaction.ts:18-34 | at most one body per requested hash; when every chain succeeds there is exactly one per hash, in order, each the merge of that hash's response and receipt; when every chain is lost there is none |
| PollLoop.BodiesAppend | src/evmTransaction.ts:18-34 | the chains run independently: the bodies of two runs of requests are those of the first followed by those of the second |
| PollLoop.BodiesSingle | src/evmTransaction.ts:20-34 | a single hash posts exactly its merged body when its chain succeeds and nothing when it is lost |

## Left out

- Node calls: ethers `JsonRpcProvider.getBlockNumber`, `getBlock`, `getTransaction` and `getTransactionReceipt` are network I/O. Their results are inputs: `PollLoop.Outcome`, the `Fetch` oracle and the `Option<Tx>` entries of a block.
- Store collation: the database provider and the collation of the `address` column are not part of this model. The comparison is modelled as exact string equality, a case-sensitive collation, so a case-insensitive store (MySQL, SQL Server) would select mixed-case trigger addresses that the model never selects.
- Store: the Prisma client and SQL semantics. The trigger table is a sequence and the user table a map. The store's row order is unspecified, so the query's contract is stated on multisets. Database atomicity is not modelled.
- Posts: axios, the hard-coded admin URL, the `admin-key` header and `JSON.stringify` are outbound I/O. A post is a request record (`Emit.Post`) or a merged body (`PollLoop.Bodies`). Whether a post is delivered is not observed by the code and is not modelled.
- Time and recursion: the 500 ms `setTimeout` delay and the never-ending recursion. These become one step function driven by a finite sequence of outcomes.
- Concurrency: the fire-and-forget promises, their interleavings and unhandled rejections. Per-match work is a sequential fold in iteration order, so the quota gate sees the credits as they stand when a transaction's turn comes. Concurrent increments are treated as atomic.
- A transaction whose fetch or query rejects is an absent entry that affects nothing else. A hash whose transaction or receipt call rejects is `Lost`.
- Ascii.Lower: folds only ASCII letters. JavaScript's `toLowerCase` also folds other Unicode letters, which hexadecimal addresses do not contain.
- Ledger.IncrementCredits: does not model the 32-bit limit of the credits column, because a counter that reaches 2^31 is outside any realistic use.
- ethers `BigNumber`: replaced by `nat` and a hand-written decimal renderer and parser. The 256-bit upper bound of chain values is not imposed; the round trip holds for every natural.
- The `Transaction` constructor, the unused `blockNumber` field and the thin wrappers `getBlockNumber`, `getTransactionHashes` and `getTransactionResponse` only forward node calls. They are inputs here.
- How `evmTransaction` and `Transaction.emit` are started and wired together happens in a caller, which is not part of this model.

## Findings

| source | as written | input that shows it | evidently intended | confidence | as-written member | corrected member |
|---|---|---|---|---|---|---|
| src/Transaction.ts:66-76 | the trigger address must equal both the lower-cased `from` and the lower-cased `to` (or `""`), so only self-transfers can match | transfer from 0xAA to 0xBB on chain 1, a trigger on 0xaa whose owner has 5 credits: nothing is selected, no webhook, credits stay 5 | equal to either address, as the SQL comment at line 61 says | high; not executed | Matcher.AsWrittenMissesSenderMatch | Matcher.IntendedSelectsEitherParty |
| src/evmTransaction.ts:12-36 | the loop fetches the block at whatever height the node reports when it differs from `lastBlock`, and makes that height the watermark | `lastBlock` 100, node reports 102: block 101 is never fetched; node reports 99: block 99 is processed and the watermark moves back | fetch `lastBlock + 1` while the chain is ahead, so that every block is processed once, in increasing order | medium; not executed | PollLoop.AsWrittenSkipsAndRegresses | PollLoop.SequentialRunConsecutive |
