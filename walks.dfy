/** How a client reads a whole list through the paginated queries: it asks for one page,
    feeds the key of the last entry back as the cursor, and stops at the first empty page.
    Each list query answers every cursor with a page of its store (`Pages`), so the
    generic walk lemmas of `Ordered` apply: the walk returns every stored entry exactly
    once, in key order. */
module Walks {
  import opened Wrappers
  import opened Ints
  import opened Ordered
  import opened Keys
  import opened Cosmos
  import opened Cw3
  import opened State
  import opened Contract

  // ---------------------------------------------------------------------------------
  // list_proposals

  function ProposalId(p: ProposalResponse): Uint64 {
    p.id
  }

  /** list_proposals with a fixed limit, as a function of the cursor. */
  function ProposalFetch(deps: Deps, lib: Cw3Lib, env: Env, limit: Option<Uint32>): Option<Uint64> -> seq<ProposalResponse> {
    cursor => ListProposals(deps, lib, env, cursor, limit).proposals
  }

  /** A list_proposals page reports exactly the stored ids of the key page. */
  lemma ListProposalsIds(deps: Deps, lib: Cw3Lib, env: Env, cursor: Option<Uint64>, limit: Option<Uint32>)
    ensures Ids(ListProposals(deps, lib, env, cursor, limit).proposals)
         == Page(deps.storage.proposals.keys, IdLess, cursor, EffectiveLimit(limit))
  {
  }

  lemma ProposalPages(deps: Deps, lib: Cw3Lib, env: Env, limit: Option<Uint32>)
    ensures Pages(ProposalFetch(deps, lib, env, limit), ProposalId, deps.storage.proposals.keys, IdLess, EffectiveLimit(limit))
    ensures forall c, p :: p in ProposalFetch(deps, lib, env, limit)(c) ==> Reported(deps, lib, env, p)
  {
    forall cursor ensures Project(ProposalId, ProposalFetch(deps, lib, env, limit)(cursor))
                       == Page(deps.storage.proposals.keys, IdLess, cursor, EffectiveLimit(limit)) {
      var ps := ListProposals(deps, lib, env, cursor, limit).proposals;
      ListProposalsIds(deps, lib, env, cursor, limit);
      assert Project(ProposalId, ps) == Ids(ps);
    }
  }

  /** The proposals a client collects through list_proposals from no cursor. */
  ghost function ProposalWalk(deps: Deps, lib: Cw3Lib, env: Env, limit: Uint32): seq<ProposalResponse>
    requires limit > 0
  {
    ProposalPages(deps, lib, env, Some(limit));
    IdOrder();
    Walk(ProposalFetch(deps, lib, env, Some(limit)), ProposalId, deps.storage.proposals.keys, IdLess,
         EffectiveLimit(Some(limit)), None)
  }

  lemma ProposalWalkIds(deps: Deps, lib: Cw3Lib, env: Env, limit: Uint32)
    requires limit > 0
    ensures Ids(ProposalWalk(deps, lib, env, limit)) == deps.storage.proposals.keys
  {
    var ks := deps.storage.proposals.keys;
    var fetch := ProposalFetch(deps, lib, env, Some(limit));
    var w := ProposalWalk(deps, lib, env, limit);
    ProposalPages(deps, lib, env, Some(limit));
    IdOrder();
    WalkAll(fetch, ProposalId, ks, IdLess, EffectiveLimit(Some(limit)));
    assert Ids(w) == Project(ProposalId, w);
  }

  lemma ProposalWalkReports(deps: Deps, lib: Cw3Lib, env: Env, limit: Uint32)
    requires limit > 0
    ensures ReportsStored(deps, lib, env, ProposalWalk(deps, lib, env, limit))
  {
    ProposalPages(deps, lib, env, Some(limit));
    IdOrder();
    WalkKeeps(ProposalFetch(deps, lib, env, Some(limit)), ProposalId, deps.storage.proposals.keys, IdLess,
              EffectiveLimit(Some(limit)), None, p => Reported(deps, lib, env, p));
  }

  /** Walking list_proposals with any positive limit reports every stored proposal exactly
      once, in ascending id order, each as map_proposal shows it. */
  lemma ProposalWalkCoversStore(deps: Deps, lib: Cw3Lib, env: Env, limit: Uint32)
    requires limit > 0
    ensures var w := ProposalWalk(deps, lib, env, limit);
      Ids(w) == deps.storage.proposals.keys && ReportsStored(deps, lib, env, w)
  {
    ProposalWalkIds(deps, lib, env, limit);
    ProposalWalkReports(deps, lib, env, limit);
  }

  // ---------------------------------------------------------------------------------
  // reverse_proposals

  /** reverse_proposals with a fixed limit, as a function of the cursor. */
  function ReverseProposalFetch(deps: Deps, lib: Cw3Lib, env: Env, limit: Option<Uint32>)
    : Option<Uint64> -> seq<ProposalResponse>
  {
    cursor => ReverseProposals(deps, lib, env, cursor, limit).proposals
  }

  /** A reverse_proposals page reports exactly the stored ids of the descending key page. */
  lemma ReverseProposalsIds(deps: Deps, lib: Cw3Lib, env: Env, cursor: Option<Uint64>, limit: Option<Uint32>)
    ensures Ids(ReverseProposals(deps, lib, env, cursor, limit).proposals)
         == ReversePage(deps.storage.proposals.keys, IdLess, cursor, EffectiveLimit(limit))
  {
  }

  /** reverse_proposals pages through the reversed ids under the reversed order. */
  lemma ReverseProposalPages(deps: Deps, lib: Cw3Lib, env: Env, limit: Option<Uint32>)
    ensures StrictTotalOrder(Flip(IdLess)) && Ascending(Reverse(deps.storage.proposals.keys), Flip(IdLess))
    ensures Pages(ReverseProposalFetch(deps, lib, env, limit), ProposalId, Reverse(deps.storage.proposals.keys),
                  Flip(IdLess), EffectiveLimit(limit))
    ensures forall c, p :: p in ReverseProposalFetch(deps, lib, env, limit)(c) ==> Reported(deps, lib, env, p)
  {
    var ks := deps.storage.proposals.keys;
    var n := EffectiveLimit(limit);
    IdOrder();
    ReversePageIsPage(ks, IdLess, None, n);
    forall cursor ensures Project(ProposalId, ReverseProposalFetch(deps, lib, env, limit)(cursor))
                       == Page(Reverse(ks), Flip(IdLess), cursor, n) {
      var ps := ReverseProposals(deps, lib, env, cursor, limit).proposals;
      ReverseProposalsIds(deps, lib, env, cursor, limit);
      ReversePageIsPage(ks, IdLess, cursor, n);
      assert Project(ProposalId, ps) == Ids(ps);
    }
  }

  /** The proposals a client collects through reverse_proposals from no cursor. */
  ghost function ReverseProposalWalk(deps: Deps, lib: Cw3Lib, env: Env, limit: Uint32): seq<ProposalResponse>
    requires limit > 0
  {
    ReverseProposalPages(deps, lib, env, Some(limit));
    Walk(ReverseProposalFetch(deps, lib, env, Some(limit)), ProposalId, Reverse(deps.storage.proposals.keys),
         Flip(IdLess), EffectiveLimit(Some(limit)), None)
  }

  lemma ReverseProposalWalkIds(deps: Deps, lib: Cw3Lib, env: Env, limit: Uint32)
    requires limit > 0
    ensures Ids(ReverseProposalWalk(deps, lib, env, limit)) == Reverse(deps.storage.proposals.keys)
  {
    var w := ReverseProposalWalk(deps, lib, env, limit);
    ReverseProposalPages(deps, lib, env, Some(limit));
    WalkAll(ReverseProposalFetch(deps, lib, env, Some(limit)), ProposalId, Reverse(deps.storage.proposals.keys),
            Flip(IdLess), EffectiveLimit(Some(limit)));
    assert Ids(w) == Project(ProposalId, w);
  }

  lemma ReverseProposalWalkReports(deps: Deps, lib: Cw3Lib, env: Env, limit: Uint32)
    requires limit > 0
    ensures ReportsStored(deps, lib, env, ReverseProposalWalk(deps, lib, env, limit))
  {
    ReverseProposalPages(deps, lib, env, Some(limit));
    WalkKeeps(ReverseProposalFetch(deps, lib, env, Some(limit)), ProposalId, Reverse(deps.storage.proposals.keys),
              Flip(IdLess), EffectiveLimit(Some(limit)), None, p => Reported(deps, lib, env, p));
  }

  /** Walking reverse_proposals with any positive limit reports every stored proposal
      exactly once, in descending id order. */
  lemma ReverseProposalWalkCoversStore(deps: Deps, lib: Cw3Lib, env: Env, limit: Uint32)
    requires limit > 0
    ensures var w := ReverseProposalWalk(deps, lib, env, limit);
      Ids(w) == Reverse(deps.storage.proposals.keys) && ReportsStored(deps, lib, env, w)
  {
    ReverseProposalWalkIds(deps, lib, env, limit);
    ReverseProposalWalkReports(deps, lib, env, limit);
  }

  /** Reports of stored proposals are fixed by their ids. */
  lemma ReportsDeterminedByIds(deps: Deps, lib: Cw3Lib, env: Env, a: seq<ProposalResponse>, b: seq<ProposalResponse>)
    requires ReportsStored(deps, lib, env, a) && ReportsStored(deps, lib, env, b) && Ids(a) == Ids(b)
    ensures a == b
  {
    forall i | 0 <= i < |a| ensures a[i] == b[i] {
      assert Ids(a)[i] == Ids(b)[i];
      assert a[i] in a && b[i] in b;
    }
  }

  lemma ReverseReports(deps: Deps, lib: Cw3Lib, env: Env, a: seq<ProposalResponse>)
    requires ReportsStored(deps, lib, env, a)
    ensures ReportsStored(deps, lib, env, Reverse(a)) && Ids(Reverse(a)) == Reverse(Ids(a))
  {
    ReverseHasSameKeys(a);
    assert Ids(Reverse(a)) == Reverse(Ids(a));
  }

  /** When one page holds the whole store, reverse_proposals lists exactly what
      list_proposals lists, back to front. */
  lemma ReverseListMirrorsList(deps: Deps, lib: Cw3Lib, env: Env, limit: Option<Uint32>)
    requires |deps.storage.proposals.keys| <= EffectiveLimit(limit)
    ensures ReverseProposals(deps, lib, env, None, limit).proposals
         == Reverse(ListProposals(deps, lib, env, None, limit).proposals)
  {
    var ks := deps.storage.proposals.keys;
    var fwd := ListProposals(deps, lib, env, None, limit).proposals;
    var bwd := ReverseProposals(deps, lib, env, None, limit).proposals;
    ListProposalsIds(deps, lib, env, None, limit);
    ReverseProposalsIds(deps, lib, env, None, limit);
    AllBeyond(ks, IdLess, None);
    AllBeyond(ks, Flip(IdLess), None);
    assert Ids(fwd) == ks;
    assert Ids(bwd) == Reverse(ks);
    ReverseReports(deps, lib, env, fwd);
    ReportsDeterminedByIds(deps, lib, env, bwd, Reverse(fwd));
  }

  /** Over the whole store, whatever the page sizes, the descending walk is the ascending
      walk back to front. */
  lemma WalksMirror(deps: Deps, lib: Cw3Lib, env: Env, n: Uint32, m: Uint32)
    requires n > 0 && m > 0
    ensures ReverseProposalWalk(deps, lib, env, n) == Reverse(ProposalWalk(deps, lib, env, m))
  {
    var fwd := ProposalWalk(deps, lib, env, m);
    ProposalWalkCoversStore(deps, lib, env, m);
    ReverseProposalWalkCoversStore(deps, lib, env, n);
    ReverseReports(deps, lib, env, fwd);
    ReportsDeterminedByIds(deps, lib, env, ReverseProposalWalk(deps, lib, env, n), Reverse(fwd));
  }

  // ---------------------------------------------------------------------------------
  // list_votes

  function VoteVoter(v: VoteInfo): string {
    v.voter
  }

  /** list_votes on one proposal with a fixed limit, as a function of the cursor. */
  function VoteFetch(deps: Deps, proposalId: Uint64, limit: Option<Uint32>): Option<string> -> seq<VoteInfo> {
    cursor => ListVotes(deps, proposalId, cursor, limit).votes
  }

  /** The ballot stored for the vote's proposal and voter, as list_votes reports it. */
  predicate BallotReported(deps: Deps, proposalId: Uint64, v: VoteInfo) {
    var ballots := deps.storage.ballots.entries;
    && v.proposalId == proposalId
    && (proposalId, v.voter) in ballots
    && v.vote == ballots[(proposalId, v.voter)].vote
    && v.weight == ballots[(proposalId, v.voter)].weight
  }

  /** A list_votes page lists exactly the voters of the page of the proposal's ballots. */
  lemma ListVotesVoters(deps: Deps, proposalId: Uint64, cursor: Option<string>, limit: Option<Uint32>)
    ensures Voters(ListVotes(deps, proposalId, cursor, limit).votes)
         == Page(Prefix(deps.storage.ballots, proposalId).keys, AddrLess, cursor, EffectiveLimit(limit))
  {
  }

  lemma VotePages(deps: Deps, proposalId: Uint64, limit: Option<Uint32>)
    ensures Pages(VoteFetch(deps, proposalId, limit), VoteVoter, Prefix(deps.storage.ballots, proposalId).keys, AddrLess,
                  EffectiveLimit(limit))
    ensures forall c, v :: v in VoteFetch(deps, proposalId, limit)(c) ==> BallotReported(deps, proposalId, v)
  {
    forall cursor ensures Project(VoteVoter, VoteFetch(deps, proposalId, limit)(cursor))
                       == Page(Prefix(deps.storage.ballots, proposalId).keys, AddrLess, cursor, EffectiveLimit(limit)) {
      var vs := ListVotes(deps, proposalId, cursor, limit).votes;
      ListVotesVoters(deps, proposalId, cursor, limit);
      assert Project(VoteVoter, vs) == Voters(vs);
    }
  }

  /** The votes on one proposal a client collects through list_votes from no cursor. */
  ghost function VoteWalk(deps: Deps, proposalId: Uint64, limit: Uint32): seq<VoteInfo>
    requires limit > 0
  {
    VotePages(deps, proposalId, Some(limit));
    AddrOrder();
    Walk(VoteFetch(deps, proposalId, Some(limit)), VoteVoter, Prefix(deps.storage.ballots, proposalId).keys, AddrLess,
         EffectiveLimit(Some(limit)), None)
  }

  lemma VoteWalkVoters(deps: Deps, proposalId: Uint64, limit: Uint32)
    requires limit > 0
    ensures Voters(VoteWalk(deps, proposalId, limit)) == Prefix(deps.storage.ballots, proposalId).keys
  {
    var vs := Prefix(deps.storage.ballots, proposalId).keys;
    var fetch := VoteFetch(deps, proposalId, Some(limit));
    var w := VoteWalk(deps, proposalId, limit);
    VotePages(deps, proposalId, Some(limit));
    AddrOrder();
    WalkAll(fetch, VoteVoter, vs, AddrLess, EffectiveLimit(Some(limit)));
    assert Voters(w) == Project(VoteVoter, w);
  }

  lemma VoteWalkBallots(deps: Deps, proposalId: Uint64, limit: Uint32)
    requires limit > 0
    ensures forall v :: v in VoteWalk(deps, proposalId, limit) ==> BallotReported(deps, proposalId, v)
  {
    VotePages(deps, proposalId, Some(limit));
    AddrOrder();
    WalkKeeps(VoteFetch(deps, proposalId, Some(limit)), VoteVoter, Prefix(deps.storage.ballots, proposalId).keys,
              AddrLess, EffectiveLimit(Some(limit)), None, v => BallotReported(deps, proposalId, v));
  }

  /** Walking list_votes for one proposal reports every ballot on that proposal exactly
      once, in ascending voter order, and no ballot on another proposal. */
  lemma VoteWalkCoversProposal(deps: Deps, proposalId: Uint64, limit: Uint32)
    requires limit > 0
    ensures var w := VoteWalk(deps, proposalId, limit);
      && Voters(w) == Prefix(deps.storage.ballots, proposalId).keys
      && (forall a :: a in Voters(w) <==> (proposalId, a) in deps.storage.ballots.entries)
      && (forall v :: v in w ==> BallotReported(deps, proposalId, v))
  {
    var p := Prefix(deps.storage.ballots, proposalId);
    VoteWalkVoters(deps, proposalId, limit);
    VoteWalkBallots(deps, proposalId, limit);
    assert forall a :: a in p.keys <==> a in p.entries;
  }

  // ---------------------------------------------------------------------------------
  // list_voters

  function VoterAddr(d: VoterDetail): string {
    d.addr
  }

  /** list_voters with a fixed limit, as a function of the cursor. */
  function VoterFetch(deps: Deps, limit: Option<Uint32>): Option<string> -> seq<VoterDetail> {
    cursor => ListVoters(deps, cursor, limit).voters
  }

  /** The voter's stored weight, as list_voters reports it. */
  predicate WeightReported(deps: Deps, d: VoterDetail) {
    d.addr in deps.storage.voters.entries && d.weight == deps.storage.voters.entries[d.addr]
  }

  /** A list_voters page lists exactly the addresses of the page of the voters. */
  lemma ListVotersAddrs(deps: Deps, cursor: Option<string>, limit: Option<Uint32>)
    ensures Addrs(ListVoters(deps, cursor, limit).voters)
         == Page(deps.storage.voters.keys, AddrLess, cursor, EffectiveLimit(limit))
  {
  }

  lemma VoterPages(deps: Deps, limit: Option<Uint32>)
    ensures Pages(VoterFetch(deps, limit), VoterAddr, deps.storage.voters.keys, AddrLess, EffectiveLimit(limit))
    ensures forall c, d :: d in VoterFetch(deps, limit)(c) ==> WeightReported(deps, d)
  {
    forall cursor ensures Project(VoterAddr, VoterFetch(deps, limit)(cursor))
                       == Page(deps.storage.voters.keys, AddrLess, cursor, EffectiveLimit(limit)) {
      var ds := ListVoters(deps, cursor, limit).voters;
      ListVotersAddrs(deps, cursor, limit);
      assert Project(VoterAddr, ds) == Addrs(ds);
    }
  }

  /** The voters a client collects through list_voters from no cursor. */
  ghost function VoterWalk(deps: Deps, limit: Uint32): seq<VoterDetail>
    requires limit > 0
  {
    VoterPages(deps, Some(limit));
    AddrOrder();
    Walk(VoterFetch(deps, Some(limit)), VoterAddr, deps.storage.voters.keys, AddrLess, EffectiveLimit(Some(limit)), None)
  }

  lemma VoterWalkAddrs(deps: Deps, limit: Uint32)
    requires limit > 0
    ensures Addrs(VoterWalk(deps, limit)) == deps.storage.voters.keys
  {
    var w := VoterWalk(deps, limit);
    VoterPages(deps, Some(limit));
    AddrOrder();
    WalkAll(VoterFetch(deps, Some(limit)), VoterAddr, deps.storage.voters.keys, AddrLess, EffectiveLimit(Some(limit)));
    assert Addrs(w) == Project(VoterAddr, w);
  }

  lemma VoterWalkWeights(deps: Deps, limit: Uint32)
    requires limit > 0
    ensures forall d :: d in VoterWalk(deps, limit) ==> WeightReported(deps, d)
  {
    VoterPages(deps, Some(limit));
    AddrOrder();
    WalkKeeps(VoterFetch(deps, Some(limit)), VoterAddr, deps.storage.voters.keys, AddrLess, EffectiveLimit(Some(limit)),
              None, d => WeightReported(deps, d));
  }

  /** Walking list_voters with any positive limit reports every voter exactly once, in
      ascending address order, each with its weight. */
  lemma VoterWalkCoversVoters(deps: Deps, limit: Uint32)
    requires limit > 0
    ensures var w := VoterWalk(deps, limit);
      Addrs(w) == deps.storage.voters.keys && forall d :: d in w ==> WeightReported(deps, d)
  {
    VoterWalkAddrs(deps, limit);
    VoterWalkWeights(deps, limit);
  }

  // ---------------------------------------------------------------------------------
  // The lists and the single lookups agree

  /** Every proposal list_proposals or reverse_proposals reports is what query_proposal
      reports for its id. */
  lemma ListedProposalMatchesLookup(deps: Deps, lib: Cw3Lib, env: Env, p: ProposalResponse,
                                    cursor: Option<Uint64>, limit: Option<Uint32>)
    requires p in ListProposals(deps, lib, env, cursor, limit).proposals
          || p in ReverseProposals(deps, lib, env, cursor, limit).proposals
    ensures QueryProposal(deps, lib, env, p.id) == Ok(p)
  {
  }

  /** Every vote list_votes reports is what query_vote reports for the same proposal and
      voter, whenever the validator accepts the voter string unchanged. */
  lemma ListedVoteMatchesLookup(deps: Deps, proposalId: Uint64, v: VoteInfo, cursor: Option<string>,
                                limit: Option<Uint32>)
    requires v in ListVotes(deps, proposalId, cursor, limit).votes
    requires deps.api.addrValidate(v.voter) == Ok(v.voter)
    ensures QueryVote(deps, proposalId, v.voter) == Ok(VoteResponse(Some(v)))
  {
  }

  /** Every voter list_voters reports has the weight query_voter reports, whenever the
      validator accepts the address unchanged. */
  lemma ListedVoterMatchesLookup(deps: Deps, d: VoterDetail, cursor: Option<string>, limit: Option<Uint32>)
    requires d in ListVoters(deps, cursor, limit).voters
    requires deps.api.addrValidate(d.addr) == Ok(d.addr)
    ensures QueryVoter(deps, d.addr) == Ok(VoterResponse(Some(d.weight)))
  {
  }
}
