/** The contract's persistent state as the query handlers see it: the configuration item
    and the three maps PROPOSALS, BALLOTS and VOTERS, each an ordered store whose key list
    is sorted in the map's key order and lists exactly the map's keys. */
module State {
  import opened Wrappers
  import opened Ints
  import opened Cosmos
  import opened Cw3
  import opened Ordered
  import opened Keys

  /** CONFIG, reduced to the two fields the contract reads. */
  datatype Config = Config(requiredWeight: Uint64, totalWeight: Uint64)

  type ProposalStore = s: Store<Uint64, Proposal> | Sound(s, IdLess) witness Store([], map[])
  type BallotStore = s: Store<BallotKey, Ballot> | Sound(s, BallotKeyLess) witness Store([], map[])
  type VoterStore = s: Store<Addr, Uint64> | Sound(s, AddrLess) witness Store([], map[])

  /** `BALLOTS.prefix(proposal_id)`: the ballots on one proposal, keyed by voter, in voter
      order. */
  function Prefix(ballots: BallotStore, proposalId: Uint64): (p: Store<Addr, Ballot>)
    ensures Sound(p, AddrLess)
    ensures forall a :: a in p.entries <==> (proposalId, a) in ballots.entries
    ensures forall a :: a in p.entries ==> p.entries[a] == ballots.entries[(proposalId, a)]
  {
    var voters := PrefixKeys(ballots.keys, proposalId);
    PrefixAscending(ballots.keys, proposalId);
    Store(voters, map a | a in voters :: ballots.entries[(proposalId, a)])
  }

  /** The configuration item may be missing, as `Item::load` allows for. */
  datatype Storage = Storage(
    config: Option<Config>,
    proposals: ProposalStore,
    ballots: BallotStore,
    voters: VoterStore)

  /** `Deps`/`DepsMut`: storage, the address validator and the querier. */
  datatype Deps = Deps(storage: Storage, api: Api, querier: Querier)
}
