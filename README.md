# cw3-fixed-multisig drain contract, modelled in Dafny

This project models a CosmWasm contract built from the cw3 fixed multisig for Terra
Classic. It has been repurposed to drain its own `uusd` balance.

- `instantiate` refuses every deployment.
- `execute` and `migrate` each take the contract's uusd balance, deduct the Terra tax and
  send the rest to a fixed burn address in one bank message.
- `query` still answers the multisig's read-only queries: the threshold, single proposals,
  votes and voters, and paginated lists of proposals (ascending and descending), of the
  votes on one proposal, and of the voters.

Everything in the contract is pure, so the model is pure too: datatypes, functions and
lemmas, with no state and no loops.

- `fixed_point.dfy` — `Decimal`: an unsigned fixed-point number, held as a u128 count
  of 10^-18 units. It models the four operations the drain uses: `from_atomics`,
  `checked_mul`, `checked_sub` and `to_uint_floor`.
- `cosmos.dfy` — errors, coins, bank messages and the response builder. It also holds
  the environment, the host's address validator and the querier, which supplies the
  balance and the Terra tax rate.
- `cw3.dfy` — proposals, ballots and the response records. `Proposal::current_status`
  and `Threshold::to_response` come from crates outside this model. They are taken as
  function values (`Cw3Lib`), so every statement holds whatever they compute.
- `msg.dfy` — the `QueryMsg` enum (eight variants) and the `Voter` record
  (`contracts/cw3-fixed-multisig/src/msg.rs`).
  - Proposal-list cursors are optional u64 ids.
  - Address arguments and address cursors are unvalidated strings.
  - Every list takes an optional u32 limit.
- `ordered.dfy` — an ordered store is a finite map together with its keys in storage order.
  - A range scan with an exclusive cursor followed by `take(limit)` gives a page.
  - The module proves what pages are, how they concatenate, and that descending scans
    are ascending scans under the reversed order.
  - It also proves what a client collects by walking a store page by page.
- `keys.dfy` — the key orders:
  - proposal ids as numbers;
  - addresses lexicographically;
  - ballot keys `(proposal id, voter)` by id, then by voter;
  - the voters under one proposal id (`BALLOTS.prefix`).
- `state.dfy` — the stored configuration and the PROPOSALS, BALLOTS and VOTERS maps.
- `contract.dfy` — `do_burn`, the entry points, the query dispatcher and its eight
  handlers.
- `walks.dfy` — client-side walks through each paginated query, and the agreement
  between the lists and the single lookups.

The amount sent by the drain is proved to be `floor(B * (10^18 - r) / 10^18)`. Here B is
the balance in uusd and r is the tax rate in 10^-18 units. The proof says which error
arises first, and exactly when.

List limits are capped at 30 with no lower bound, so a limit of 0 gives an empty page;
an absent limit means 10.

## Model

| member | source | states |
|---|---|---|
| FixedPoint.FromAtomics | contracts/cw3-fixed-multisig/src/contract.rs:33 | `Decimal::from_atomics` never fails with 18 or more places; its full meaning is `FixedPoint.FromAtomicsValue`. |
| FixedPoint.FromAtomicsValue | contracts/cw3-fixed-multisig/src/contract.rs:33-34 | `Decimal::from_atomics(atomics, places)` is atomics / 10^places rounded down to a multiple of 10^-18. It fails exactly when that value exceeds the largest Decimal. |
| FixedPoint.CheckedMul | contracts/cw3-fixed-multisig/src/contract.rs:39 | The product of two decimals is rounded down to a multiple of 10^-18. It fails with an overflow on `Mul` exactly when the result does not fit in a u128. |
| FixedPoint.CheckedSub | contracts/cw3-fixed-multisig/src/contract.rs:40 | The difference of two decimals. It fails with an overflow on `Sub` exactly when the subtrahend is larger. |
| FixedPoint.ToUintFloor | contracts/cw3-fixed-multisig/src/contract.rs:40 | The largest integer not above the decimal. |
| Contract.OverflowToStd | contracts/cw3-fixed-multisig/src/contract.rs:39-40 | `?` turns an `OverflowError` into `StdError::Overflow` and keeps a success unchanged. |
| Contract.DoBurn | contracts/cw3-fixed-multisig/src/contract.rs:22-57 | A successful drain returns exactly one bank message. It goes to `where_to` and carries a single coin in `uusd`. |
| Contract.DrainedAmount | contracts/cw3-fixed-multisig/src/contract.rs:33-40 | The amount sent never exceeds the balance. |
| Contract.DoBurnMatchesReference | contracts/cw3-fixed-multisig/src/contract.rs:22-57 | `do_burn` equals a plain-integer reference. Errors come in source order. A failed balance query is passed on. The conversion fails with "invalid uusd balance" exactly when B * 10^18 exceeds u128::MAX. A failed tax-rate query is passed on. The multiply fails exactly when r * B exceeds u128::MAX. The subtraction fails exactly when the tax exceeds the balance. An error response carries no message. On success one `Send` carries floor((B * 10^18 - r * B) / 10^18) uusd. |
| Contract.ConvertBalance | contracts/cw3-fixed-multisig/src/contract.rs:33-34 | A whole-unit balance converts to B * 10^18 atomics, or fails when that exceeds u128::MAX. |
| Contract.TaxProduct | contracts/cw3-fixed-multisig/src/contract.rs:39 | The rate times the converted balance is exactly r * B atomics, with no rounding loss. The multiply fails exactly when r * B does not fit. |
| Contract.DrainedAmountValue | contracts/cw3-fixed-multisig/src/contract.rs:33-40 | The amount sent is floor(B * (10^18 - r) / 10^18) and never more than B. A zero rate sends all of B. A rate of one sends 0. |
| Contract.DrainNoTax | contracts/cw3-fixed-multisig/src/contract.rs:33-55 | At a zero tax rate a convertible balance is sent whole, in one message. |
| Contract.DrainFullTax | contracts/cw3-fixed-multisig/src/contract.rs:33-55 | At a tax rate of one the drain still succeeds and still emits its one bank message, carrying 0 uusd, since nothing checks for a zero amount. |
| Contract.SubtractFailsIffRateAboveOne | contracts/cw3-fixed-multisig/src/contract.rs:39-40 | The subtraction fails exactly when the rate is above one and the balance is positive. |
| Contract.DrainExample | contracts/cw3-fixed-multisig/src/contract.rs:22-57 | A balance of 1,000,000 uusd at rate 0.02 sends exactly 980,000 uusd, in one message. |
| Contract.LiftStd | contracts/cw3-fixed-multisig/src/contract.rs:68 | `Ok(do_burn(..)?)` wraps a `StdError` in `ContractError::Std` and passes a response through. |
| Contract.Migrate | contracts/cw3-fixed-multisig/src/contract.rs:59-70 | On success, migrate sends exactly one bank message, to the burn address. |
| Contract.Instantiate | contracts/cw3-fixed-multisig/src/contract.rs:72-85 | Instantiate always fails. |
| Contract.Execute | contracts/cw3-fixed-multisig/src/contract.rs:87-98 | Execute gives exactly what migrate gives, whatever the sender and the message. |
| Contract.Dispatch | contracts/cw3-fixed-multisig/src/contract.rs:59-98 | Instantiate gives "Do not instantiate this code!"; execute and migrate both give what migrate gives. |
| Contract.EntryPointRouting | contracts/cw3-fixed-multisig/src/contract.rs:59-98 | Instantiate always returns "Do not instantiate this code!". Execute and migrate give identical results for the same balance and tax rate, whoever calls and whatever the message. That result is the drain to `BURN_ADDR`. |
| Contract.EffectiveLimit | contracts/cw3-fixed-multisig/src/contract.rs:167 | The limit is at most 30 and at most the request, which defaults to 10. It equals one of the two. There is no lower bound. |
| Contract.DefaultLimit | contracts/cw3-fixed-multisig/src/contract.rs:159 | In all four lists an absent limit gives exactly the answer of the limit 10. |
| Contract.QueryThreshold | contracts/cw3-fixed-multisig/src/contract.rs:132-138 | It fails with NotFound exactly when no configuration is stored. Otherwise it returns `AbsoluteCount` with the stored required and total weights, unchanged. |
| Contract.QueryProposal | contracts/cw3-fixed-multisig/src/contract.rs:140-155 | It fails with NotFound exactly when the id is absent. Otherwise its answer equals `map_proposal` applied to the stored proposal. |
| Contract.MapProposal | contracts/cw3-fixed-multisig/src/contract.rs:195-214 | A report carries the id, copies title, description, messages, deposit, proposer and expiry from the stored proposal, takes its status at the given block, and its threshold applied to its own total weight. |
| Contract.Reports | contracts/cw3-fixed-multisig/src/contract.rs:195-214 | Mapping `map_proposal` over listed ids keeps the ids in order. Each report is the stored proposal as `map_proposal` shows it. |
| Contract.ListProposals | contracts/cw3-fixed-multisig/src/contract.rs:161-176 | The ids are at most `limit` stored ids above `start_after`, strictly ascending. No stored id above the cursor is skipped. Each entry is its proposal as `map_proposal` reports it. |
| Contract.ReverseProposals | contracts/cw3-fixed-multisig/src/contract.rs:178-193 | The ids are at most `limit` stored ids below `start_before`, strictly descending. No stored id below the cursor is skipped. Each entry is reported by `map_proposal`. |
| Contract.QueryVote | contracts/cw3-fixed-multisig/src/contract.rs:216-226 | An address the validator rejects gives the validator's error. For a valid address there is a vote exactly when a ballot exists. That vote carries the proposal id, the validated address, and the ballot's vote and weight. No ballot means no vote, not an error. |
| Contract.ListVotes | contracts/cw3-fixed-multisig/src/contract.rs:228-252 | It lists at most `limit` voters holding a ballot on `proposal_id`, above the raw cursor, ascending, none skipped. Each entry carries that proposal id and the ballot's vote and weight. |
| Contract.VoteInfos | contracts/cw3-fixed-multisig/src/contract.rs:241-248 | Each listed voter's ballot becomes a `VoteInfo` with the proposal id, the voter, and the ballot's vote and weight, in the page's order. |
| Contract.QueryVoter | contracts/cw3-fixed-multisig/src/contract.rs:254-258 | An address the validator rejects gives the validator's error. For a valid address there is a weight exactly when it is a voter, and it is the stored weight. |
| Contract.ListVoters | contracts/cw3-fixed-multisig/src/contract.rs:260-280 | It lists at most `limit` voters above the raw cursor, ascending, none skipped, each with its stored weight. |
| Contract.Details | contracts/cw3-fixed-multisig/src/contract.rs:271-276 | Each listed address is paired with its stored weight, in the page's order. |
| Contract.VoterPage | contracts/cw3-fixed-multisig/src/contract.rs:268-270 | A range scan of VOTERS with `take(limit)` is a page of the voter store in address order. |
| Contract.Query | contracts/cw3-fixed-multisig/src/contract.rs:100-130 | Each of the eight `QueryMsg` variants goes to its own handler with its own fields: a list query answers with that list, and a lookup passes on its handler's error or wraps its answer. Every variant gets an answer of its own kind. The dispatcher fails exactly when: the threshold has no configuration; the proposal id is absent; or the validator rejects the address of `Vote` or `Voter`. The list queries never fail. |
| Cosmos.NewResponse | contracts/cw3-fixed-multisig/src/contract.rs:53 | A new response has no messages. |
| Cosmos.AddMessage | contracts/cw3-fixed-multisig/src/contract.rs:53-54 | Adding a message appends exactly that message and keeps the earlier ones. |
| Keys.AddrOrder | contracts/cw3-fixed-multisig/src/contract.rs:266-269 | Address order is a strict total order. |
| Keys.BallotKeyOrder | contracts/cw3-fixed-multisig/src/contract.rs:237-239 | Ballot keys ordered by id, then by voter, form a strict total order. |
| Keys.PrefixKeys | contracts/cw3-fixed-multisig/src/contract.rs:237-238 | `BALLOTS.prefix(id)` holds exactly the voters with a ballot key under that id. |
| Keys.PrefixAscending | contracts/cw3-fixed-multisig/src/contract.rs:237-239 | The voters under one id come out in address order. |
| State.Prefix | contracts/cw3-fixed-multisig/src/contract.rs:237-238 | The prefixed store is sorted by voter and holds exactly the ballots on that proposal, with their stored values. |
| Ordered.Page | contracts/cw3-fixed-multisig/src/contract.rs:168-171 | An ascending range scan with `take(limit)` holds at most `limit` keys, each stored and strictly beyond the cursor. |
| Ordered.ReversePage | contracts/cw3-fixed-multisig/src/contract.rs:185-188 | A descending range scan with `take(limit)` holds at most `limit` keys, each stored and strictly below the cursor. |
| Ordered.AfterMembers | contracts/cw3-fixed-multisig/src/contract.rs:168-170 | The exclusive lower bound keeps exactly the stored keys beyond the cursor. |
| Ordered.PageIsPrefix | contracts/cw3-fixed-multisig/src/contract.rs:168-171 | A page is ascending and has length min(limit, number of keys beyond the cursor). No key beyond the cursor up to the page's last key is left out. A short page holds every key beyond the cursor. |
| Ordered.StorePage | contracts/cw3-fixed-multisig/src/contract.rs:169-171 | A page of a sound store satisfies the page contract. |
| Ordered.PageSplit | contracts/cw3-fixed-multisig/src/contract.rs:168-171 | The keys beyond a cursor are the page followed by the keys beyond the page's last key, and fewer keys remain. With a positive limit, an empty page means nothing is left. |
| Ordered.PagesConcatenate | contracts/cw3-fixed-multisig/src/contract.rs:168-171 | A full page of n, then the page of m continuing from its last key, is the page of n + m. |
| Ordered.ReversePageIsPage | contracts/cw3-fixed-multisig/src/contract.rs:185-188 | A descending scan equals an ascending scan of the reversed keys under the reversed order. Those reversed keys are sorted under it. |
| Ordered.ReversePageIsPrefix | contracts/cw3-fixed-multisig/src/contract.rs:185-188 | A descending page is strictly descending. No key below the cursor down to the page's last key is left out. A short page holds every key below the cursor. |
| Ordered.ReverseStorePage | contracts/cw3-fixed-multisig/src/contract.rs:185-188 | A descending page of a sound store satisfies the page contract under the reversed order. |
| Ordered.WalkCovers | contracts/cw3-fixed-multisig/src/contract.rs:168-171 | Feeding each page's last key back as the cursor, until a page is empty, meets every key beyond the start exactly once, in order. |
| Ordered.WalkKeeps | contracts/cw3-fixed-multisig/src/contract.rs:168-173 | A property of every entry of every page holds of every entry of the walk. |
| Walks.ProposalWalkCoversStore | contracts/cw3-fixed-multisig/src/contract.rs:161-176 | Walking `list_proposals` with any positive limit reports every stored proposal exactly once, ascending by id. Each report is as `map_proposal` makes it. |
| Walks.ReverseProposalWalkCoversStore | contracts/cw3-fixed-multisig/src/contract.rs:178-193 | Walking `reverse_proposals` with any positive limit reports every stored proposal exactly once, descending by id. |
| Walks.ReverseListMirrorsList | contracts/cw3-fixed-multisig/src/contract.rs:161-193 | When one page holds the whole store, `reverse_proposals` lists exactly the reverse of `list_proposals`. |
| Walks.WalksMirror | contracts/cw3-fixed-multisig/src/contract.rs:161-193 | Over the whole store, for any positive page sizes, the descending walk of `reverse_proposals` is exactly the ascending walk of `list_proposals` back to front. |
| Walks.VoteWalkCoversProposal | contracts/cw3-fixed-multisig/src/contract.rs:228-252 | Walking `list_votes` reports every ballot on the proposal exactly once, ascending by voter. It reports no ballot on another proposal. |
| Walks.VoterWalkCoversVoters | contracts/cw3-fixed-multisig/src/contract.rs:260-280 | Walking `list_voters` reports every voter exactly once, ascending by address, each with its weight. |
| Walks.ListedProposalMatchesLookup | contracts/cw3-fixed-multisig/src/contract.rs:140-214 | Every proposal either list reports is exactly what `query_proposal` returns for its id. |
| Walks.ListedVoteMatchesLookup | contracts/cw3-fixed-multisig/src/contract.rs:216-252 | Every listed vote is what `query_vote` returns for that proposal and voter, when the validator accepts the voter unchanged. |
| Walks.ListedVoterMatchesLookup | contracts/cw3-fixed-multisig/src/contract.rs:254-280 | Every listed voter's weight is what `query_voter` returns, when the validator accepts the address unchanged. |

## Left out

- The host querier is not modelled as a call.
  - `query_balance` becomes a function value.
  - `TerraQuerier::query_tax_rate` becomes a result value.
  - Their errors are passed on as given.
  - No range is assumed for the tax rate, so rates above one are covered and lead to the subtraction error.
- `addr_validate` is a function value. The agreement lemmas assume it accepts the listed address unchanged.
- `Proposal::current_status` and `Threshold::to_response` live in the cw3 and cw_utils crates, which are not part of this model. They are parameters (`Cw3Lib`), and the pass/reject rules are not modelled.
- Storage is modelled as typed maps, not bytes.
  - The byte-level key encoding of `cw_storage_plus` is not modelled. Keys are ordered as u64 numbers and as character strings, and a list cursor is compared as a key.
  - Errors from decoding stored values are not modelled, so the list handlers and lookups never fail for that reason.
  - `Item::load` failing on a missing configuration is modelled.
- `to_binary` is not modelled. `Contract.Query` returns the typed answer.
- The `#[entry_point]` and `cfg(feature = "library")` attributes only concern building, and are not modelled.
- `Response` keeps only its message list. Attributes, events and data are never set by this contract.
- `StdError` keeps only three variants: `GenericErr`, `NotFound` and `Overflow`. Errors the host returns are confined to these, so variants such as `ParseErr` cannot be represented.
- `OverflowError` keeps only its operation. The two operand strings that `checked_mul` and `checked_sub` fill in, and that `?` carries into `StdError::Overflow`, are not modelled.
- FixedPoint.FromAtomics: its own ensures only say it cannot fail with 18 or more places. Its value and failure condition are stated by `FixedPoint.FromAtomicsValue`.
- Config is reduced to the two weights `query_threshold` reads.
- A stray `op` token at contracts/cw3-fixed-multisig/src/contract.rs:35 is not valid Rust. The drain is modelled as the straight-line computation of lines 33-40 without it.
- `Contract.DoBurn`: its own ensures only states the shape of a success. The full behaviour, including every error case, is stated by `Contract.DoBurnMatchesReference`.
- Walks.ProposalWalk, Walks.ReverseProposalWalk, Walks.VoteWalk, Walks.VoterWalk: these require a positive limit. With a limit of 0 every page is empty, so a client walk would stop at once and see nothing.
- The proposal, ballot and voter records are written by code that is not part of this model: proposal creation, voting and instantiation with voters. Only their stored form is modelled.
