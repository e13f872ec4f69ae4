/** The contract's query message and the voter record of its interface. Addresses arrive as
    unvalidated strings; validating them is the handlers' job. */
module Msg {
  import opened Wrappers
  import opened Ints

  datatype Voter = Voter(addr: string, weight: Uint64)

  /** One variant per query; proposal cursors are ids, vote and voter cursors raw strings,
      and every list takes an optional u32 limit. (Dafny needs distinct field names where
      the Rust variants share `start_after` with different types.) */
  datatype QueryMsg =
    | Threshold
    | Proposal(proposalId: Uint64)
    | ListProposals(startAfter: Option<Uint64>, limit: Option<Uint32>)
    | ReverseProposals(startBefore: Option<Uint64>, limit: Option<Uint32>)
    | Vote(proposalId: Uint64, voter: string)
    | ListVotes(proposalId: Uint64, startAfterAddr: Option<string>, limit: Option<Uint32>)
    | Voter(address: string)
    | ListVoters(startAfterAddr: Option<string>, limit: Option<Uint32>)
}
