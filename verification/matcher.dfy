/** The trigger selection of `queryDatabase`: the `where` clause of the store
    query, read as a boolean filter over the trigger table. */
module Matcher {
  import opened Wrappers
  import opened Records
  import Ascii

  /** Owners at or below this many credits are served without paying. */
  const FreeCredits: int := 1000

  /** How the address condition combines sender and recipient. The query as
      written requires the trigger address to equal both; the SQL in the
      comment above it requires it to equal either one. */
  datatype AddressClause = BothAddresses | EitherAddress

  predicate AddressMatches(clause: AddressClause, tx: Tx, address: Address) {
    match clause
    case BothAddresses => address == Ascii.Lower(tx.from) && address == RecipientKey(tx)
    case EitherAddress => address == Ascii.Lower(tx.from) || address == RecipientKey(tx)
  }

  /** The owner is in the store and either under the free quota or paid. A
      trigger whose owner row is missing fails the relation filter. */
  predicate OwnerEligible(users: Store, id: UserId) {
    id in users && (users[id].credits <= FreeCredits || users[id].paid)
  }

  /** The four conditions of the `where` clause. */
  predicate Eligible(clause: AddressClause, tx: Tx, t: Trigger, users: Store) {
    && t.chainId == tx.chainId
    && t.abi.None?
    && AddressMatches(clause, tx, t.address)
    && OwnerEligible(users, t.userId)
  }

  /** `queryDatabase`: the rows of `triggers` that satisfy the clause, each as
      often as it occurs in the table. The store returns rows in no
      particular order, so the contract speaks of the multiset only. */
  function QueryDatabase(clause: AddressClause, tx: Tx, triggers: seq<Trigger>, users: Store): (r: seq<Trigger>)
    ensures |r| <= |triggers|
    ensures forall t :: t in r <==> t in triggers && Eligible(clause, tx, t, users)
    ensures forall t :: multiset(r)[t] == if Eligible(clause, tx, t, users) then multiset(triggers)[t] else 0
    decreases |triggers|
  {
    if triggers == [] then []
    else
      var rest := QueryDatabase(clause, tx, triggers[1..], users);
      assert triggers == [triggers[0]] + triggers[1..];
      if Eligible(clause, tx, triggers[0], users) then [triggers[0]] + rest else rest
  }

  /** What every selected trigger satisfies, whichever address clause is
      used: the chain matches, no ABI filter is set, and the owner is under
      the quota or paid. */
  lemma SelectedTriggerFacts(clause: AddressClause, tx: Tx, triggers: seq<Trigger>, users: Store, t: Trigger)
    requires t in QueryDatabase(clause, tx, triggers, users)
    ensures t.chainId == tx.chainId
    ensures t.abi.None?
    ensures t.userId in users
    ensures users[t.userId].credits <= FreeCredits || users[t.userId].paid
  {
  }

  /** As written, a trigger is selected only when its address equals the
      lower-cased sender AND the lower-cased recipient, so only transactions
      sent to their own sender can match, and a contract creation matches
      only a sender whose address lower-cases to the empty string. */
  lemma {:induction false} AsWrittenOnlySelfTransfers(tx: Tx, triggers: seq<Trigger>, users: Store, t: Trigger)
    requires t in QueryDatabase(BothAddresses, tx, triggers, users)
    ensures t.address == Ascii.Lower(tx.from) == RecipientKey(tx)
    ensures tx.to.None? ==> tx.from == ""
  {
    if tx.to.None? {
      assert |Ascii.Lower(tx.from)| == |tx.from|;
    }
  }

  /** With the OR clause of the comment a trigger watching either party is selected
      when the other conditions hold; in particular a contract creation is
      matched by a trigger on its sender. */
  lemma IntendedSelectsEitherParty(tx: Tx, triggers: seq<Trigger>, users: Store, t: Trigger)
    requires t in triggers
    requires t.chainId == tx.chainId && t.abi.None? && OwnerEligible(users, t.userId)
    ensures t.address == Ascii.Lower(tx.from) ==> t in QueryDatabase(EitherAddress, tx, triggers, users)
    ensures t.address == RecipientKey(tx) ==> t in QueryDatabase(EitherAddress, tx, triggers, users)
  {
  }

  /** The model compares the stored trigger address exactly, as a store
      with a case-sensitive collation does; only the transaction's
      addresses are lower-cased. On such a store a trigger saved with an
      upper-case letter is never selected, under either clause. */
  lemma MixedCaseAddressNeverSelected(clause: AddressClause, tx: Tx, triggers: seq<Trigger>, users: Store, t: Trigger)
    requires !Ascii.IsLowerCase(t.address)
    ensures t !in QueryDatabase(clause, tx, triggers, users)
  {
    assert Ascii.IsLowerCase(Ascii.Lower(tx.from));
    assert Ascii.IsLowerCase(RecipientKey(tx));
  }

  /** Every trigger the as-written query selects is also selected by the
      OR clause: the code only ever under-matches. */
  lemma AsWrittenWithinIntended(tx: Tx, triggers: seq<Trigger>, users: Store)
    ensures multiset(QueryDatabase(BothAddresses, tx, triggers, users)) <= multiset(QueryDatabase(EitherAddress, tx, triggers, users))
  {
  }

  /** The scenario of a transfer from 0xAA.. to 0xBB.. on chain 1 with a
      trigger on 0xaa.. whose owner has 5 credits: the OR query
      selects the trigger, the query as written selects nothing. */
  lemma AsWrittenMissesSenderMatch()
    ensures
      var tx := Tx("0x01", "0xAA", Some("0xBB"), 1000000000000000000, 1, "0x", 21000);
      var t := Trigger("t1", "u1", 1, "0xaa", "https://hook.example", None);
      var users := map["u1" := User("u1", 5, false)];
      && QueryDatabase(BothAddresses, tx, [t], users) == []
      && QueryDatabase(EitherAddress, tx, [t], users) == [t]
  {
    var tx := Tx("0x01", "0xAA", Some("0xBB"), 1000000000000000000, 1, "0x", 21000);
    assert Ascii.Lower("0xAA") == "0xaa";
    assert Ascii.Lower("0xBB") == "0xbb";
  }
}
