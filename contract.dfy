/** The contract's entry points. `instantiate` is disabled, `execute` and `migrate` both
    drain the contract's uusd balance, net of the Terra tax, to a fixed burn address, and
    `query` answers the read-only multisig queries over the stored proposals, ballots and
    voters. */
module Contract {
  import opened Wrappers
  import opened Ints
  import opened FixedPoint
  import opened Cosmos
  import opened Ordered
  import opened Keys
  import opened Cw3
  import opened State
  import Msg

  const BURN_ADDR: Addr := "terra1sk06e3dyexuq4shw77y3dsv480xv42mq73anxu"
  const UUSD: string := "uusd"
  const INVALID_BALANCE: string := "invalid uusd balance"
  const NO_INSTANTIATE: string := "Do not instantiate this code!"

  /** The contract's error type; every error here is a wrapped StdError. */
  datatype ContractError = Std(error: StdError)

  // ---------------------------------------------------------------------------------
  // The drain

  /** `?` on an OverflowError: it becomes StdError::Overflow. */
  function OverflowToStd<T>(r: Result<T, OverflowError>): (s: StdResult<T>)
    ensures s.Ok? <==> r.Ok?
    ensures r.Ok? ==> s.value == r.value
    ensures r.Err? ==> s.error == Overflow(r.error)
  {
    match r
    case Ok(v) => Ok(v)
    case Err(e) => Err(Overflow(e))
  }

  /** do_burn: read the contract's uusd balance and the tax rate, and send the balance net
      of tax, rounded down, to `whereTo` in one bank message. Every step's error aborts
      the drain, and then nothing is sent. */
  function DoBurn(deps: Deps, env: Env, whereTo: Addr): (r: StdResult<Response>)
    ensures r.Ok? ==> && |r.value.messages| == 1
                      && r.value.messages[0].Bank?
                      && r.value.messages[0].bank.toAddress == whereTo
                      && |r.value.messages[0].bank.amount| == 1
                      && r.value.messages[0].bank.amount[0].denom == UUSD
  {
    var balanceCoin :- deps.querier.balance(env.contract.address, UUSD);
    var uusdBalance :- match FromAtomics(balanceCoin.amount, 0)
      case Ok(d) => Ok(d)
      case Err(_) => Err(GenericErr(INVALID_BALANCE));
    var taxRate :- deps.querier.taxRate;
    var tax :- OverflowToStd(CheckedMul(taxRate, uusdBalance));
    var net :- OverflowToStd(CheckedSub(uusdBalance, tax));
    var toSend := ToUintFloor(net);
    var message := Send(whereTo, [Coin(toSend, UUSD)]);
    Ok(AddMessage(NewResponse(), message))
  }

  /** The uusd amount a successful drain of balance b at tax rate `rate` (in 10^-18 units)
      sends: (b * 10^18 - rate * b) / 10^18, rounded down. */
  function DrainedAmount(b: Uint128, rate: nat): (n: Uint128)
    requires rate * b <= b * DECIMAL_FRACTIONAL
    ensures n <= b
  {
    var x := b * DECIMAL_FRACTIONAL - rate * b;
    QuotientBelow(x, b);
    x / DECIMAL_FRACTIONAL
  }

  lemma QuotientBelow(x: nat, b: nat)
    requires x <= b * DECIMAL_FRACTIONAL
    ensures x / DECIMAL_FRACTIONAL <= b
  {
    DivBounds(x, DECIMAL_FRACTIONAL);
  }

  /** The drain written with plain integers instead of Decimal operations: the errors in
      the order the steps run, and on success one bank message carrying the net amount. */
  ghost function DrainReference(balance: StdResult<Coin>, taxRate: StdResult<Decimal>, whereTo: Addr): StdResult<Response>
  {
    if balance.Err? then Err(balance.error)
    else
      var b := balance.value.amount;
      if b * DECIMAL_FRACTIONAL > U128_MAX then Err(GenericErr(INVALID_BALANCE))
      else if taxRate.Err? then Err(taxRate.error)
      else
        var tax := taxRate.value.atomics * b;
        if tax > U128_MAX then Err(Overflow(OverflowError(Mul)))
        else if tax > b * DECIMAL_FRACTIONAL then Err(Overflow(OverflowError(Sub)))
        else Ok(Response([Bank(Send(whereTo, [Coin(DrainedAmount(b, taxRate.value.atomics), UUSD)]))]))
  }

  /** Converting a whole-unit balance gives b * 10^18 atomics, or fails when that does
      not fit in a u128. */
  lemma ConvertBalance(b: Uint128)
    ensures FromAtomics(b, 0)
         == if b * DECIMAL_FRACTIONAL <= U128_MAX then Ok(Decimal(b * DECIMAL_FRACTIONAL))
            else Err(DecimalRangeExceeded)
  {
    FromAtomicsValue(b, 0);
  }

  /** Multiplying the rate by a converted whole-unit balance loses nothing: the tax is
      exactly rate * b atomics, and the multiplication fails exactly when that does not fit. */
  lemma TaxProduct(rate: Decimal, b: Uint128)
    requires b * DECIMAL_FRACTIONAL <= U128_MAX
    ensures CheckedMul(rate, Decimal(b * DECIMAL_FRACTIONAL))
         == if rate.atomics * b <= U128_MAX then Ok(Decimal(rate.atomics * b))
            else Err(OverflowError(Mul))
  {
    var d := DECIMAL_FRACTIONAL;
    var y := rate.atomics * b;
    assert rate.atomics * (b * d) == y * d;
    var mul := CheckedMul(rate, Decimal(b * d));
    if y <= U128_MAX {
      MulLt(y, U128_MAX + 1, d);
      FloorUnique(y * d, d, mul.value.atomics);
      FloorUnique(y * d, d, y);
    } else {
      MulLe(U128_MAX + 1, y, d);
    }
  }

  /** The Decimal steps of do_burn compute exactly the plain-integer drain: the errors
      arise in the same order under the same conditions, and the amounts agree. */
  lemma DoBurnMatchesReference(deps: Deps, env: Env, whereTo: Addr)
    ensures DoBurn(deps, env, whereTo)
         == DrainReference(deps.querier.balance(env.contract.address, UUSD), deps.querier.taxRate, whereTo)
  {
    var balance := deps.querier.balance(env.contract.address, UUSD);
    if balance.Ok? {
      var b := balance.value.amount;
      ConvertBalance(b);
      if b * DECIMAL_FRACTIONAL <= U128_MAX && deps.querier.taxRate.Ok? {
        TaxProduct(deps.querier.taxRate.value, b);
      }
    }
  }

  /** The amount sent is b * (1 - rate) rounded down, never more than the balance; a zero
      rate sends the whole balance and a rate of one sends nothing (the message is still
      emitted). */
  lemma DrainedAmountValue(b: Uint128, rate: nat)
    requires rate * b <= b * DECIMAL_FRACTIONAL
    ensures rate <= DECIMAL_FRACTIONAL || b == 0
    ensures b > 0 ==> DrainedAmount(b, rate) == b * (DECIMAL_FRACTIONAL - rate) / DECIMAL_FRACTIONAL
    ensures DrainedAmount(b, rate) <= b
    ensures rate == 0 ==> DrainedAmount(b, rate) == b
    ensures rate == DECIMAL_FRACTIONAL ==> DrainedAmount(b, rate) == 0
  {
    var d := DECIMAL_FRACTIONAL;
    if b > 0 && rate > d {
      MulLt(d, rate, b);
    }
    if b > 0 {
      assert b * d - rate * b == b * (d - rate);
    }
    if rate == 0 {
      FloorUnique(b * d, d, b);
    }
  }

  /** The subtraction step fails exactly when the tax exceeds the balance, which happens
      exactly when the rate is above one and the balance is not zero. */
  lemma SubtractFailsIffRateAboveOne(b: nat, rate: nat)
    ensures rate * b > b * DECIMAL_FRACTIONAL <==> b > 0 && rate > DECIMAL_FRACTIONAL
  {
    if b > 0 && rate > DECIMAL_FRACTIONAL {
      MulLt(DECIMAL_FRACTIONAL, rate, b);
    } else if b > 0 {
      MulLe(rate, DECIMAL_FRACTIONAL, b);
    }
  }

  /** 1,000,000 uusd at a tax rate of 0.02 sends 980,000 uusd to the destination. */
  lemma DrainExample(deps: Deps, env: Env, whereTo: Addr)
    requires deps.querier.balance(env.contract.address, UUSD) == Ok(Coin(1_000_000, UUSD))
    requires deps.querier.taxRate == Ok(Decimal(20_000_000_000_000_000))
    ensures DoBurn(deps, env, whereTo) == Ok(Response([Bank(Send(whereTo, [Coin(980_000, UUSD)]))]))
  {
    DoBurnMatchesReference(deps, env, whereTo);
  }

  /** A zero tax rate sends the whole balance. */
  lemma DrainNoTax(deps: Deps, env: Env, whereTo: Addr, coin: Coin)
    requires deps.querier.balance(env.contract.address, UUSD) == Ok(coin)
    requires coin.amount * DECIMAL_FRACTIONAL <= U128_MAX
    requires deps.querier.taxRate == Ok(ZERO)
    ensures DoBurn(deps, env, whereTo) == Ok(Response([Bank(Send(whereTo, [Coin(coin.amount, UUSD)]))]))
  {
    DoBurnMatchesReference(deps, env, whereTo);
    DrainedAmountValue(coin.amount, 0);
  }

  /** A tax rate of one takes the whole balance as tax; the drain still succeeds and still
      emits its bank message, carrying 0 uusd, since nothing checks for a zero amount. */
  lemma DrainFullTax(deps: Deps, env: Env, whereTo: Addr, coin: Coin)
    requires deps.querier.balance(env.contract.address, UUSD) == Ok(coin)
    requires coin.amount * DECIMAL_FRACTIONAL <= U128_MAX
    requires deps.querier.taxRate == Ok(ONE)
    ensures DoBurn(deps, env, whereTo) == Ok(Response([Bank(Send(whereTo, [Coin(0, UUSD)]))]))
  {
    DoBurnMatchesReference(deps, env, whereTo);
    DrainedAmountValue(coin.amount, DECIMAL_FRACTIONAL);
  }

  // ---------------------------------------------------------------------------------
  // Entry points

  /** `Ok(do_burn(...)?)`: a StdError becomes ContractError::Std, a response passes through. */
  function LiftStd(r: StdResult<Response>): (c: Result<Response, ContractError>)
    ensures c.Ok? <==> r.Ok?
    ensures r.Ok? ==> c.value == r.value
    ensures r.Err? ==> c.error == Std(r.error)
  {
    match r
    case Ok(resp) => Ok(resp)
    case Err(e) => Err(Std(e))
  }

  /** migrate: ignores its message and drains to the burn address. */
  function Migrate(deps: Deps, env: Env, msg: Empty): (r: Result<Response, ContractError>)
    ensures r.Ok? ==> && |r.value.messages| == 1
                      && r.value.messages[0].Bank?
                      && r.value.messages[0].bank.toAddress == BURN_ADDR
  {
    LiftStd(DoBurn(deps, env, BURN_ADDR))
  }

  /** instantiate: refuses every deployment with the same generic error. */
  function Instantiate(deps: Deps, env: Env, info: MessageInfo, msg: Empty): (r: Result<Response, ContractError>)
    ensures r.Err?
  {
    Err(Std(GenericErr(NO_INSTANTIATE)))
  }

  /** execute: ignores the sender and message and does exactly what migrate does. */
  function Execute(deps: Deps, env: Env, info: MessageInfo, msg: Empty): (r: Result<Response, ContractError>)
    ensures r == Migrate(deps, env, msg)
  {
    LiftStd(DoBurn(deps, env, BURN_ADDR))
  }

  /** A call of one of the three state-changing entry points. */
  datatype EntryCall =
    | InstantiateCall(info: MessageInfo, msg: Empty)
    | ExecuteCall(info: MessageInfo, msg: Empty)
    | MigrateCall(msg: Empty)

  /** The runtime's choice of entry point: instantiate refuses, and the other two both come
      down to migrate. */
  function Dispatch(deps: Deps, env: Env, call: EntryCall): (r: Result<Response, ContractError>)
    ensures call.InstantiateCall? ==> r == Err(Std(GenericErr(NO_INSTANTIATE)))
    ensures !call.InstantiateCall? ==> r == Migrate(deps, env, Empty)
  {
    match call
    case InstantiateCall(info, msg) => Instantiate(deps, env, info, msg)
    case ExecuteCall(info, msg) => Execute(deps, env, info, msg)
    case MigrateCall(msg) => Migrate(deps, env, msg)
  }

  /** Instantiation always fails with "Do not instantiate this code!"; execute and migrate
      give the same result for the same balance and tax rate, whoever calls and whatever
      the message, and that result is the drain to the burn address. */
  lemma EntryPointRouting(deps: Deps, env: Env, call: EntryCall, other: EntryCall)
    requires !other.InstantiateCall?
    ensures call.InstantiateCall? ==> Dispatch(deps, env, call) == Err(Std(GenericErr(NO_INSTANTIATE)))
    ensures !call.InstantiateCall? ==> Dispatch(deps, env, call) == Dispatch(deps, env, other)
    ensures !call.InstantiateCall? ==>
      Dispatch(deps, env, call)
        == LiftStd(DrainReference(deps.querier.balance(env.contract.address, UUSD), deps.querier.taxRate, BURN_ADDR))
  {
    DoBurnMatchesReference(deps, env, BURN_ADDR);
  }

  // ---------------------------------------------------------------------------------
  // Queries

  const MAX_LIMIT: nat := 30
  const DEFAULT_LIMIT: nat := 10

  /** The Rust type names that `load` reports when an item or key is missing. */
  const CONFIG_KIND: string := "cw3_fixed_multisig::state::Config"
  const PROPOSAL_KIND: string := "cw3::proposal::Proposal"

  /** `limit.unwrap_or(DEFAULT_LIMIT).min(MAX_LIMIT)`: at most 30, at most the request (10
      when absent), and one of the two. There is no lower bound: a limit of 0 stays 0. */
  function EffectiveLimit(limit: Option<Uint32>): (n: nat)
    ensures n <= MAX_LIMIT && n <= limit.UnwrapOr(DEFAULT_LIMIT)
    ensures n == MAX_LIMIT || n == limit.UnwrapOr(DEFAULT_LIMIT)
  {
    var requested := limit.UnwrapOr(DEFAULT_LIMIT);
    if requested < MAX_LIMIT then requested else MAX_LIMIT
  }

  /** An absent limit is the limit 10, in every list. */
  lemma DefaultLimit(deps: Deps, lib: Cw3Lib, env: Env, proposalId: Uint64, id: Option<Uint64>, addr: Option<string>)
    ensures ListProposals(deps, lib, env, id, None) == ListProposals(deps, lib, env, id, Some(DEFAULT_LIMIT as Uint32))
    ensures ReverseProposals(deps, lib, env, id, None) == ReverseProposals(deps, lib, env, id, Some(DEFAULT_LIMIT as Uint32))
    ensures ListVotes(deps, proposalId, addr, None) == ListVotes(deps, proposalId, addr, Some(DEFAULT_LIMIT as Uint32))
    ensures ListVoters(deps, addr, None) == ListVoters(deps, addr, Some(DEFAULT_LIMIT as Uint32))
  {
  }

  /** query_threshold: the configured weights, verbatim, as an absolute-count threshold. */
  function QueryThreshold(deps: Deps): (r: StdResult<ThresholdResponse>)
    ensures r.Err? <==> deps.storage.config.None?
    ensures r.Err? ==> r.error == NotFound(CONFIG_KIND)
    ensures r.Ok? ==> && r.value.AbsoluteCount?
                      && r.value.weight == deps.storage.config.value.requiredWeight
                      && r.value.totalWeight == deps.storage.config.value.totalWeight
  {
    match deps.storage.config
    case None => Err(NotFound(CONFIG_KIND))
    case Some(cfg) => Ok(ThresholdResponse.AbsoluteCount(cfg.requiredWeight, cfg.totalWeight))
  }

  /** map_proposal: a stored proposal as reported, with its status at `block` and its
      threshold applied to its own total weight. */
  function MapProposal(lib: Cw3Lib, block: BlockInfo, id: Uint64, prop: Proposal): (r: ProposalResponse)
    ensures r.id == id
    ensures && r.title == prop.title && r.description == prop.description && r.msgs == prop.msgs
            && r.deposit == prop.deposit && r.proposer == prop.proposer && r.expires == prop.expires
    ensures r.status == lib.currentStatus(prop, block)
    ensures r.threshold == lib.thresholdResponse(prop.threshold, prop.totalWeight)
  {
    ProposalResponse(
      id := id,
      title := prop.title,
      description := prop.description,
      msgs := prop.msgs,
      status := lib.currentStatus(prop, block),
      deposit := prop.deposit,
      proposer := prop.proposer,
      expires := prop.expires,
      threshold := lib.thresholdResponse(prop.threshold, prop.totalWeight))
  }

  /** query_proposal: fails with NotFound exactly when no proposal has the id; otherwise
      reports it exactly as the list queries do. */
  function QueryProposal(deps: Deps, lib: Cw3Lib, env: Env, id: Uint64): (r: StdResult<ProposalResponse>)
    ensures r.Err? <==> id !in deps.storage.proposals.entries
    ensures r.Err? ==> r.error == NotFound(PROPOSAL_KIND)
    ensures r.Ok? ==> r.value == MapProposal(lib, env.block, id, deps.storage.proposals.entries[id])
  {
    if id !in deps.storage.proposals.entries then Err(NotFound(PROPOSAL_KIND))
    else
      var prop := deps.storage.proposals.entries[id];
      var status := lib.currentStatus(prop, env.block);
      var threshold := lib.thresholdResponse(prop.threshold, prop.totalWeight);
      Ok(ProposalResponse(
        id := id,
        title := prop.title,
        description := prop.description,
        msgs := prop.msgs,
        status := status,
        expires := prop.expires,
        deposit := prop.deposit,
        proposer := prop.proposer,
        threshold := threshold))
  }

  function Ids(ps: seq<ProposalResponse>): (ids: seq<Uint64>)
    ensures |ids| == |ps| && forall i :: 0 <= i < |ps| ==> ids[i] == ps[i].id
  {
    seq(|ps|, i requires 0 <= i < |ps| => ps[i].id)
  }

  function Reports(deps: Deps, lib: Cw3Lib, env: Env, ids: seq<Uint64>): (ps: seq<ProposalResponse>)
    requires forall id :: id in ids ==> id in deps.storage.proposals.entries
    ensures Ids(ps) == ids
    ensures ReportsStored(deps, lib, env, ps)
  {
    var ps := seq(|ids|, i requires 0 <= i < |ids| =>
      MapProposal(lib, env.block, ids[i], deps.storage.proposals.entries[ids[i]]));
    assert Ids(ps) == ids;
    ps
  }

  /** A report of a stored proposal: map_proposal applied to the proposal under its id. */
  predicate Reported(deps: Deps, lib: Cw3Lib, env: Env, p: ProposalResponse) {
    p.id in deps.storage.proposals.entries
    && p == MapProposal(lib, env.block, p.id, deps.storage.proposals.entries[p.id])
  }

  /** Every report is of a stored proposal. */
  ghost predicate ReportsStored(deps: Deps, lib: Cw3Lib, env: Env, ps: seq<ProposalResponse>) {
    forall p :: p in ps ==> Reported(deps, lib, env, p)
  }

  /** list_proposals: the first `limit` stored proposals with an id above `startAfter`, in
      ascending id order, with none skipped, each as map_proposal reports it. */
  function ListProposals(deps: Deps, lib: Cw3Lib, env: Env, startAfter: Option<Uint64>, limit: Option<Uint32>)
    : (r: ProposalListResponse)
    ensures IsPage(deps.storage.proposals, IdLess, startAfter, EffectiveLimit(limit), Ids(r.proposals))
    ensures ReportsStored(deps, lib, env, r.proposals)
  {
    var store := deps.storage.proposals;
    var ids := Page(store.keys, IdLess, startAfter, EffectiveLimit(limit));
    IdOrder();
    StorePage(store, IdLess, startAfter, EffectiveLimit(limit));
    ProposalListResponse(Reports(deps, lib, env, ids))
  }

  /** reverse_proposals: the first `limit` stored proposals with an id below `startBefore`,
      in descending id order, with none skipped: a page under the flipped id order. */
  function ReverseProposals(deps: Deps, lib: Cw3Lib, env: Env, startBefore: Option<Uint64>, limit: Option<Uint32>)
    : (r: ProposalListResponse)
    ensures IsPage(deps.storage.proposals, Flip(IdLess), startBefore, EffectiveLimit(limit), Ids(r.proposals))
    ensures ReportsStored(deps, lib, env, r.proposals)
  {
    var store := deps.storage.proposals;
    var ids := ReversePage(store.keys, IdLess, startBefore, EffectiveLimit(limit));
    IdOrder();
    ReverseStorePage(store, IdLess, startBefore, EffectiveLimit(limit));
    ProposalListResponse(Reports(deps, lib, env, ids))
  }

  /** query_vote: validates the address first and fails with the validator's error; for a
      valid address it reports the ballot cast on the proposal, or no vote at all (not an
      error) when there is none. */
  function QueryVote(deps: Deps, proposalId: Uint64, voter: string): (r: StdResult<VoteResponse>)
    ensures deps.api.addrValidate(voter).Err? ==> r == Err(deps.api.addrValidate(voter).error)
    ensures deps.api.addrValidate(voter).Ok? ==>
      r.Ok? &&
      var addr := deps.api.addrValidate(voter).value;
      var ballots := deps.storage.ballots.entries;
      && (r.value.vote.Some? <==> (proposalId, addr) in ballots)
      && (r.value.vote.Some? ==>
            r.value.vote.value
              == VoteInfo(proposalId, addr, ballots[(proposalId, addr)].vote, ballots[(proposalId, addr)].weight))
  {
    var addr :- deps.api.addrValidate(voter);
    var ballot := if (proposalId, addr) in deps.storage.ballots.entries
      then Some(deps.storage.ballots.entries[(proposalId, addr)]) else None;
    var vote := if ballot.Some?
      then Some(VoteInfo(proposalId := proposalId, voter := addr, vote := ballot.value.vote, weight := ballot.value.weight))
      else None;
    Ok(VoteResponse(vote))
  }

  function Voters(votes: seq<VoteInfo>): (vs: seq<string>)
    ensures |vs| == |votes| && forall i :: 0 <= i < |votes| ==> vs[i] == votes[i].voter
  {
    seq(|votes|, i requires 0 <= i < |votes| => votes[i].voter)
  }

  /** list_votes: the first `limit` ballots on proposal `proposalId` whose voter comes after
      the raw cursor `startAfter`, in ascending voter order, none skipped, each reported
      with that proposal id and the ballot's vote and weight. */
  function ListVotes(deps: Deps, proposalId: Uint64, startAfter: Option<string>, limit: Option<Uint32>)
    : (r: VoteListResponse)
    ensures IsPage(Prefix(deps.storage.ballots, proposalId), AddrLess, startAfter, EffectiveLimit(limit), Voters(r.votes))
    ensures forall v :: v in r.votes ==>
      var ballots := deps.storage.ballots.entries;
      && v.proposalId == proposalId
      && (proposalId, v.voter) in ballots
      && v.vote == ballots[(proposalId, v.voter)].vote
      && v.weight == ballots[(proposalId, v.voter)].weight
  {
    var ballots := Prefix(deps.storage.ballots, proposalId);
    var voters := Page(ballots.keys, AddrLess, startAfter, EffectiveLimit(limit));
    AddrOrder();
    StorePage(ballots, AddrLess, startAfter, EffectiveLimit(limit));
    VoteListResponse(VoteInfos(deps.storage.ballots, proposalId, voters))
  }

  /** Each listed voter's ballot on proposal `proposalId`. */
  function VoteInfos(ballots: BallotStore, proposalId: Uint64, voters: seq<string>): (vs: seq<VoteInfo>)
    requires forall i :: 0 <= i < |voters| ==> (proposalId, voters[i]) in ballots.entries
    ensures Voters(vs) == voters
    ensures forall v :: v in vs ==>
      && v.proposalId == proposalId
      && (proposalId, v.voter) in ballots.entries
      && v.vote == ballots.entries[(proposalId, v.voter)].vote
      && v.weight == ballots.entries[(proposalId, v.voter)].weight
  {
    var vs := seq(|voters|, i requires 0 <= i < |voters| =>
      var ballot := ballots.entries[(proposalId, voters[i])];
      VoteInfo(proposalId := proposalId, voter := voters[i], vote := ballot.vote, weight := ballot.weight));
    assert Voters(vs) == voters;
    vs
  }

  /** query_voter: validates the address first and fails with the validator's error; for
      a valid address it reports the voter's weight, or none (not an error) for an address
      that is not a voter. */
  function QueryVoter(deps: Deps, voter: string): (r: StdResult<VoterResponse>)
    ensures deps.api.addrValidate(voter).Err? ==> r == Err(deps.api.addrValidate(voter).error)
    ensures deps.api.addrValidate(voter).Ok? ==>
      r.Ok? &&
      var addr := deps.api.addrValidate(voter).value;
      && (r.value.weight.Some? <==> addr in deps.storage.voters.entries)
      && (r.value.weight.Some? ==> r.value.weight.value == deps.storage.voters.entries[addr])
  {
    var addr :- deps.api.addrValidate(voter);
    var weight := if addr in deps.storage.voters.entries then Some(deps.storage.voters.entries[addr]) else None;
    Ok(VoterResponse(weight))
  }

  function Addrs(ds: seq<VoterDetail>): (as_: seq<string>)
    ensures |as_| == |ds| && forall i :: 0 <= i < |ds| ==> as_[i] == ds[i].addr
  {
    seq(|ds|, i requires 0 <= i < |ds| => ds[i].addr)
  }

  /** Each listed address together with its stored weight. */
  function Details(store: VoterStore, addrs: seq<string>): (ds: seq<VoterDetail>)
    requires forall i :: 0 <= i < |addrs| ==> addrs[i] in store.entries
    ensures Addrs(ds) == addrs
    ensures forall d :: d in ds ==> d.addr in store.entries && d.weight == store.entries[d.addr]
  {
    var ds := seq(|addrs|, i requires 0 <= i < |addrs| => VoterDetail(addr := addrs[i], weight := store.entries[addrs[i]]));
    assert Addrs(ds) == addrs;
    ds
  }

  /** list_voters: the first `limit` voters whose address comes after the raw cursor
      `startAfter`, in ascending address order, none skipped, each with its weight. */
  function ListVoters(deps: Deps, startAfter: Option<string>, limit: Option<Uint32>): (r: VoterListResponse)
    ensures IsPage(deps.storage.voters, AddrLess, startAfter, EffectiveLimit(limit), Addrs(r.voters))
    ensures forall d :: d in r.voters ==> d.addr in deps.storage.voters.entries && d.weight == deps.storage.voters.entries[d.addr]
  {
    var store := deps.storage.voters;
    var addrs := Page(store.keys, AddrLess, startAfter, EffectiveLimit(limit));
    VoterPage(store, startAfter, EffectiveLimit(limit));
    VoterListResponse(Details(store, addrs))
  }

  lemma VoterPage(store: VoterStore, cursor: Option<string>, limit: nat)
    ensures IsPage(store, AddrLess, cursor, limit, Page(store.keys, AddrLess, cursor, limit))
  {
    AddrOrder();
    StorePage(store, AddrLess, cursor, limit);
  }

  // ---------------------------------------------------------------------------------
  // The query dispatcher

  /** The answer `query` serialises, one kind per response type. */
  datatype QueryResponse =
    | ThresholdAnswer(threshold: ThresholdResponse)
    | ProposalAnswer(proposal: ProposalResponse)
    | ProposalListAnswer(proposals: ProposalListResponse)
    | VoteAnswer(vote: VoteResponse)
    | VoteListAnswer(votes: VoteListResponse)
    | VoterAnswer(voter: VoterResponse)
    | VoterListAnswer(voters: VoterListResponse)

  /** The queries that can fail, and when: a missing configuration, an unknown proposal id,
      an address the validator rejects. The list queries never fail. */
  ghost predicate QueryFails(deps: Deps, msg: Msg.QueryMsg) {
    match msg
    case Threshold => deps.storage.config.None?
    case Proposal(id) => id !in deps.storage.proposals.entries
    case Vote(_, voter) => deps.api.addrValidate(voter).Err?
    case Voter(address) => deps.api.addrValidate(address).Err?
    case _ => false
  }

  /** The kind of answer each query gets. */
  ghost predicate AnswersKind(msg: Msg.QueryMsg, answer: QueryResponse) {
    match msg
    case Threshold => answer.ThresholdAnswer?
    case Proposal(_) => answer.ProposalAnswer?
    case ListProposals(_, _) => answer.ProposalListAnswer?
    case ReverseProposals(_, _) => answer.ProposalListAnswer?
    case Vote(_, _) => answer.VoteAnswer?
    case ListVotes(_, _, _) => answer.VoteListAnswer?
    case Voter(_) => answer.VoterAnswer?
    case ListVoters(_, _) => answer.VoterListAnswer?
  }

  /** query: every variant is routed to its own handler with its own fields, fails only as
      QueryFails says, and gets an answer of its own kind; a lookup's error is passed on
      unchanged and its answer wrapped. */
  function Query(deps: Deps, lib: Cw3Lib, env: Env, msg: Msg.QueryMsg): (r: StdResult<QueryResponse>)
    ensures r.Err? <==> QueryFails(deps, msg)
    ensures r.Ok? ==> AnswersKind(msg, r.value)
    ensures msg.Threshold? ==>
      var t := QueryThreshold(deps);
      r == if t.Ok? then Ok(ThresholdAnswer(t.value)) else Err(t.error)
    ensures msg.Proposal? ==>
      var p := QueryProposal(deps, lib, env, msg.proposalId);
      r == if p.Ok? then Ok(ProposalAnswer(p.value)) else Err(p.error)
    ensures msg.Vote? ==>
      var v := QueryVote(deps, msg.proposalId, msg.voter);
      r == if v.Ok? then Ok(VoteAnswer(v.value)) else Err(v.error)
    ensures msg.Voter? ==>
      var v := QueryVoter(deps, msg.address);
      r == if v.Ok? then Ok(VoterAnswer(v.value)) else Err(v.error)
    ensures msg.ListProposals? ==> r == Ok(ProposalListAnswer(ListProposals(deps, lib, env, msg.startAfter, msg.limit)))
    ensures msg.ReverseProposals? ==>
      r == Ok(ProposalListAnswer(ReverseProposals(deps, lib, env, msg.startBefore, msg.limit)))
    ensures msg.ListVotes? ==>
      r == Ok(VoteListAnswer(ListVotes(deps, msg.proposalId, msg.startAfterAddr, msg.limit)))
    ensures msg.ListVoters? ==> r == Ok(VoterListAnswer(ListVoters(deps, msg.startAfterAddr, msg.limit)))
  {
    match msg
    case Threshold =>
      var t :- QueryThreshold(deps);
      Ok(ThresholdAnswer(t))
    case Proposal(proposalId) =>
      var p :- QueryProposal(deps, lib, env, proposalId);
      Ok(ProposalAnswer(p))
    case Vote(proposalId, voter) =>
      var v :- QueryVote(deps, proposalId, voter);
      Ok(VoteAnswer(v))
    case ListProposals(startAfter, limit) =>
      Ok(ProposalListAnswer(ListProposals(deps, lib, env, startAfter, limit)))
    case ReverseProposals(startBefore, limit) =>
      Ok(ProposalListAnswer(ReverseProposals(deps, lib, env, startBefore, limit)))
    case ListVotes(proposalId, startAfter, limit) =>
      Ok(VoteListAnswer(ListVotes(deps, proposalId, startAfter, limit)))
    case Voter(address) =>
      var v :- QueryVoter(deps, address);
      Ok(VoterAnswer(v))
    case ListVoters(startAfter, limit) =>
      Ok(VoterListAnswer(ListVoters(deps, startAfter, limit)))
  }
}
