/** `getHookResponse`: the notification body built from a transaction. */
module Payload {
  import opened Wrappers
  import opened Records
  import Ascii
  import Decimal

  /** The webhook body. Every field is a string except `chainId`. */
  datatype HookResponse = HookResponse(
    transactionHash: string,
    fromAddress: string,
    toAddress: string,
    value: string,
    chainId: int,
    data: string,
    gasLimit: string)

  /** The body for `tx`: the recipient lower-cased (empty for a contract
      creation), the sender copied as received, and the two big integers in
      base 10 such that parsing them gives the transaction's numbers back. */
  function GetHookResponse(tx: Tx): (p: HookResponse)
    ensures p.toAddress == RecipientKey(tx) && Ascii.IsLowerCase(p.toAddress)
    ensures p.fromAddress == tx.from
    ensures p.transactionHash == tx.hash && p.chainId == tx.chainId && p.data == tx.data
    ensures Decimal.IsCanonical(p.value) && Decimal.Parse(p.value) == Some(tx.value)
    ensures Decimal.IsCanonical(p.gasLimit) && Decimal.Parse(p.gasLimit) == Some(tx.gasLimit)
  {
    Decimal.ParseToDecimal(tx.value);
    Decimal.ParseToDecimal(tx.gasLimit);
    HookResponse(
      transactionHash := tx.hash,
      fromAddress := tx.from,
      toAddress := RecipientKey(tx),
      value := Decimal.ToDecimal(tx.value),
      chainId := tx.chainId,
      data := tx.data,
      gasLimit := Decimal.ToDecimal(tx.gasLimit))
  }

  /** The transaction fields the body carries. */
  predicate SameReportedFields(a: Tx, b: Tx) {
    && a.hash == b.hash
    && a.from == b.from
    && RecipientKey(a) == RecipientKey(b)
    && a.value == b.value
    && a.chainId == b.chainId
    && a.data == b.data
    && a.gasLimit == b.gasLimit
  }

  /** Two transactions give the same body exactly when they agree on the
      reported fields: the builder depends on nothing else (it is
      deterministic) and loses nothing of them (the numbers survive the
      decimal rendering exactly). */
  lemma HookResponseLossless(a: Tx, b: Tx)
    ensures GetHookResponse(a) == GetHookResponse(b) <==> SameReportedFields(a, b)
  {
    if GetHookResponse(a) == GetHookResponse(b) {
      Decimal.ToDecimalInjective(a.value, b.value);
      Decimal.ToDecimalInjective(a.gasLimit, b.gasLimit);
    }
  }
}
