/** The governance types the contract reads and answers with, from the cw3 and cw_utils
    crates. Their behaviour (`Proposal::current_status`, `Threshold::to_response`) lives in
    those crates, which are not part of this model: `Cw3Lib` carries them as function
    values, so every statement here holds whatever they compute. */
module Cw3 {
  import opened Wrappers
  import opened Ints
  import opened FixedPoint
  import opened Cosmos

  datatype Vote = Yes | No | Abstain | Veto

  datatype Status = Pending | Open | Rejected | Passed | Executed

  datatype Expiration = AtHeight(height: Uint64) | AtTime(time: nat) | Never

  /** The pass rule a proposal was created with. */
  datatype Threshold =
    | AbsoluteCount(weight: Uint64)
    | AbsolutePercentage(percentage: Decimal)
    | ThresholdQuorum(threshold: Decimal, quorum: Decimal)

  /** A pass rule as reported to callers, together with the total weight it applies to. */
  datatype ThresholdResponse =
    | AbsoluteCount(weight: Uint64, totalWeight: Uint64)
    | AbsolutePercentage(percentage: Decimal, totalWeight: Uint64)
    | ThresholdQuorum(threshold: Decimal, quorum: Decimal, totalWeight: Uint64)

  datatype Votes = Votes(yes: Uint64, no: Uint64, abstain: Uint64, veto: Uint64)

  datatype DepositInfo = DepositInfo(amount: Uint128, denom: string, refundFailedProposals: bool)

  datatype Proposal = Proposal(
    title: string,
    description: string,
    startHeight: Uint64,
    expires: Expiration,
    msgs: seq<CosmosMsg>,
    status: Status,
    threshold: Threshold,
    totalWeight: Uint64,
    votes: Votes,
    proposer: Addr,
    deposit: Option<DepositInfo>)

  /** One voter's recorded vote on one proposal, with the weight it carried. */
  datatype Ballot = Ballot(weight: Uint64, vote: Vote)

  datatype ProposalResponse = ProposalResponse(
    id: Uint64,
    title: string,
    description: string,
    msgs: seq<CosmosMsg>,
    status: Status,
    expires: Expiration,
    deposit: Option<DepositInfo>,
    proposer: Addr,
    threshold: ThresholdResponse)

  datatype ProposalListResponse = ProposalListResponse(proposals: seq<ProposalResponse>)

  datatype VoteInfo = VoteInfo(proposalId: Uint64, voter: string, vote: Vote, weight: Uint64)
  datatype VoteResponse = VoteResponse(vote: Option<VoteInfo>)
  datatype VoteListResponse = VoteListResponse(votes: seq<VoteInfo>)

  datatype VoterResponse = VoterResponse(weight: Option<Uint64>)
  datatype VoterDetail = VoterDetail(addr: string, weight: Uint64)
  datatype VoterListResponse = VoterListResponse(voters: seq<VoterDetail>)

  /** `Proposal::current_status(block)` and `Threshold::to_response(total_weight)`. */
  datatype Cw3Lib = Cw3Lib(
    currentStatus: (Proposal, BlockInfo) -> Status,
    thresholdResponse: (Threshold, Uint64) -> ThresholdResponse)
}
