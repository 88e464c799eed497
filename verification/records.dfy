/** The records the core reads: an ethers transaction response, a trigger
    row and a user row of the store. */
module Records {
  import opened Wrappers
  import Ascii

  type Address = string
  type Hash = string
  type UserId = string

  /** A transaction as returned by the node. `to` is absent for a contract
      creation; `value` and `gasLimit` are unsigned big integers. */
  datatype Tx = Tx(
    hash: Hash,
    from: Address,
    to: Option<Address>,
    value: nat,
    chainId: int,
    data: string,
    gasLimit: nat)

  /** A user-registered filter with its webhook endpoint. A trigger with an
      `abi` is not dispatched by this core. */
  datatype Trigger = Trigger(
    id: string,
    userId: UserId,
    chainId: int,
    address: Address,
    webhookUrl: string,
    abi: Option<string>)

  /** A user account: a usage counter and the paid flag. */
  datatype User = User(id: UserId, credits: int, paid: bool)

  /** The user table, keyed by user id. */
  type Store = map<UserId, User>

  /** The recipient as both the matcher and the payload builder use it:
      lower-cased, with the empty string standing for a missing recipient. */
  function RecipientKey(tx: Tx): (k: Address)
    ensures tx.to.None? ==> k == ""
    ensures tx.to.Some? ==> k == Ascii.Lower(tx.to.value)
    ensures Ascii.IsLowerCase(k)
  {
    match tx.to
    case None => ""
    case Some(a) => Ascii.Lower(a)
  }
}
