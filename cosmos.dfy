/** The parts of cosmwasm_std (and the Terra querier binding) that the contract touches:
    errors, coins, bank messages, the response builder, the environment, and the host's
    address validator and querier, which are given as function values. */
module Cosmos {
  import opened Wrappers
  import opened Ints
  import opened FixedPoint

  type Addr = string

  /** StdError, reduced to the variants this contract can produce itself; errors that come
      from the host (querier, address validation) are whatever value the host returns. */
  datatype StdError =
    | GenericErr(msg: string)
    | NotFound(kind: string)
    | Overflow(source: OverflowError)

  type StdResult<T> = Result<T, StdError>

  datatype Coin = Coin(amount: Uint128, denom: string)

  datatype BankMsg = Send(toAddress: Addr, amount: seq<Coin>)

  /** A message a contract asks the chain to dispatch. Only bank messages are built here;
      `Custom` stands for every other kind, whose content this model does not inspect. */
  datatype CosmosMsg = Bank(bank: BankMsg) | Custom(payload: string)

  /** Response, reduced to its message list (attributes, events and data stay empty). */
  datatype Response = Response(messages: seq<CosmosMsg>)

  /** Response::new */
  function NewResponse(): (r: Response)
    ensures r.messages == []
  {
    Response([])
  }

  /** Response::add_message: appends one message, keeping those already there. */
  function AddMessage(resp: Response, msg: BankMsg): (r: Response)
    ensures |r.messages| == |resp.messages| + 1
    ensures r.messages[..|resp.messages|] == resp.messages && r.messages[|resp.messages|] == Bank(msg)
  {
    Response(resp.messages + [Bank(msg)])
  }

  datatype BlockInfo = BlockInfo(height: Uint64, time: nat, chainId: string)
  datatype ContractInfo = ContractInfo(address: Addr)
  datatype Env = Env(block: BlockInfo, contract: ContractInfo)
  datatype MessageInfo = MessageInfo(sender: Addr, funds: seq<Coin>)

  /** cosmwasm_std::Empty, the message type of instantiate, execute and migrate. */
  datatype Empty = Empty

  /** The host's address validator, `Api::addr_validate`. */
  datatype Api = Api(addrValidate: string -> StdResult<Addr>)

  /** The host's querier: `query_balance(address, denom)` and the Terra tax-rate oracle
      (`TerraQuerier::query_tax_rate`). */
  datatype Querier = Querier(
    balance: (Addr, string) -> StdResult<Coin>,
    taxRate: StdResult<Decimal>)
}
