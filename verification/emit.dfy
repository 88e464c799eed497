/** `emit`: for every transaction of a block, select the eligible triggers
    and, per selected trigger, request a webhook post and add one credit to
    the owner. The asynchronous fan-out is modelled as a sequential fold in
    the source's iteration order. */
module Emit {
  import opened Wrappers
  import opened Records
  import Ascii
  import Matcher
  import Payload
  import Ledger
  import Decimal

  /** A requested webhook post: the trigger whose `webhookUrl` it goes to,
      and the body. Whether the endpoint accepts it is not observed. */
  datatype Post = Post(trigger: Trigger, body: Payload.HookResponse)

  /** The user table and the posts requested so far. */
  datatype Emitted = Emitted(users: Store, posts: seq<Post>)

  /** One matched trigger: the post is requested without waiting for it,
      then the owner's credits are incremented. A failed increment leaves
      the table as it was and does not withdraw the post. */
  function Fire(st: Emitted, tx: Tx, t: Trigger): Emitted {
    var posts := st.posts + [Post(t, Payload.GetHookResponse(tx))];
    match Ledger.IncrementCredits(st.users, t)
    case Ok(u) => Emitted(u.users, posts)
    case Err(_) => Emitted(st.users, posts)
  }

  /** `triggers.forEach` over the triggers selected for one transaction. */
  function FireAll(st: Emitted, tx: Tx, ts: seq<Trigger>): Emitted
    decreases |ts|
  {
    if ts == [] then st else FireAll(Fire(st, tx, ts[0]), tx, ts[1..])
  }

  /** One transaction: the query sees the table as it is when the
      transaction's turn comes, and all its matches are fired. */
  function EmitTransaction(clause: Matcher.AddressClause, st: Emitted, tx: Tx, triggers: seq<Trigger>): Emitted {
    FireAll(st, tx, Matcher.QueryDatabase(clause, tx, triggers, st.users))
  }

  /** `transactionHashes.forEach`: one entry per hash of the block, `None`
      where fetching the transaction (or querying for it) failed, which
      abandons that transaction only. */
  function EmitBlock(clause: Matcher.AddressClause, st: Emitted, fetched: seq<Option<Tx>>, triggers: seq<Trigger>): Emitted
    decreases |fetched|
  {
    if fetched == [] then st
    else EmitBlock(clause, EmitEntry(clause, st, fetched[0], triggers), fetched[1..], triggers)
  }

  /** One entry of the block: a transaction that could not be fetched is
      skipped. */
  function EmitEntry(clause: Matcher.AddressClause, st: Emitted, entry: Option<Tx>, triggers: seq<Trigger>): Emitted {
    match entry
    case None => st
    case Some(tx) => EmitTransaction(clause, st, tx, triggers)
  }

  /** `emit(blockNumber)`: `None` when reading the block's hashes failed, in
      which case nothing happens. */
  function EmitForBlock(clause: Matcher.AddressClause, st: Emitted, block: Option<seq<Option<Tx>>>, triggers: seq<Trigger>): Emitted {
    match block
    case None => st
    case Some(fetched) => EmitBlock(clause, st, fetched, triggers)
  }

  /** The number of posts made for triggers owned by `id`. */
  function Owned(posts: seq<Post>, id: UserId): nat
    decreases |posts|
  {
    if posts == [] then 0
    else (if posts[0].trigger.userId == id then 1 else 0) + Owned(posts[1..], id)
  }

  lemma {:induction false} OwnedAppend(a: seq<Post>, b: seq<Post>, id: UserId)
    ensures Owned(a + b, id) == Owned(a, id) + Owned(b, id)
    decreases |a|
  {
    if a == [] {
      assert a + b == b;
    } else {
      assert (a + b)[0] == a[0];
      assert (a + b)[1..] == a[1..] + b;
      OwnedAppend(a[1..], b, id);
    }
  }

  /** A post's trigger and body agree on chain and address the way the
      query demands, and the trigger has no ABI filter. */
  predicate PostMatches(clause: Matcher.AddressClause, p: Post) {
    && p.trigger.chainId == p.body.chainId
    && p.trigger.abi.None?
    && match clause
       case BothAddresses =>
         p.trigger.address == Ascii.Lower(p.body.fromAddress) && p.trigger.address == p.body.toAddress
       case EitherAddress =>
         p.trigger.address == Ascii.Lower(p.body.fromAddress) || p.trigger.address == p.body.toAddress
  }

  /** One fired trigger: one post appended, one credit to its owner if the
      owner has a row, every other row as it was. */
  lemma FireMeters(st: Emitted, tx: Tx, t: Trigger)
    ensures var r := Fire(st, tx, t);
      && r.posts == st.posts + [Post(t, Payload.GetHookResponse(tx))]
      && r.users.Keys == st.users.Keys
      && (t.userId in st.users ==>
            r.users[t.userId] == st.users[t.userId].(credits := st.users[t.userId].credits + 1))
      && (forall id :: id in st.users && id != t.userId ==> r.users[id] == st.users[id])
  {
  }

  /** One transaction's triggers yield exactly one post each, in order,
      each carrying the transaction's body, after the posts made before. */
  lemma {:induction false} FireAllPosts(st: Emitted, tx: Tx, ts: seq<Trigger>)
    ensures var r := FireAll(st, tx, ts);
      && |r.posts| == |st.posts| + |ts|
      && r.posts[..|st.posts|] == st.posts
      && forall i :: 0 <= i < |ts| ==> r.posts[|st.posts| + i] == Post(ts[i], Payload.GetHookResponse(tx))
    decreases |ts|
  {
    if ts != [] {
      var s1 := Fire(st, tx, ts[0]);
      FireMeters(st, tx, ts[0]);
      FireAllPosts(s1, tx, ts[1..]);
      var r := FireAll(s1, tx, ts[1..]);
      assert r.posts[..|st.posts|] == st.posts by {
        assert r.posts[..|s1.posts|][..|st.posts|] == r.posts[..|st.posts|];
      }
      forall i | 0 <= i < |ts|
        ensures r.posts[|st.posts| + i] == Post(ts[i], Payload.GetHookResponse(tx))
      {
        if i > 0 {
          assert ts[i] == ts[1..][i - 1];
        }
      }
    }
  }

  /** The credit metering of one transaction's triggers: every user in the
      table gains exactly one credit per new post for a trigger they own,
      whatever becomes of the post; no row appears or disappears, and the
      paid flags stay as they were. */
  lemma {:induction false} FireAllCredits(st: Emitted, tx: Tx, ts: seq<Trigger>)
    ensures var r := FireAll(st, tx, ts);
      && r.users.Keys == st.users.Keys
      && |st.posts| <= |r.posts|
      && forall id :: id in st.users ==>
           && r.users[id].credits == st.users[id].credits + Owned(r.posts[|st.posts|..], id)
           && r.users[id].paid == st.users[id].paid
           && r.users[id].id == st.users[id].id
    decreases |ts|
  {
    if ts != [] {
      var p := Post(ts[0], Payload.GetHookResponse(tx));
      var s1 := Fire(st, tx, ts[0]);
      FireMeters(st, tx, ts[0]);
      FireAllCredits(s1, tx, ts[1..]);
      FireAllPosts(s1, tx, ts[1..]);
      var r := FireAll(s1, tx, ts[1..]);
      assert r.posts == s1.posts + r.posts[|s1.posts|..];
      var rest := r.posts[|s1.posts|..];
      assert r.posts[|st.posts|..] == [p] + rest;
      assert ([p] + rest)[1..] == rest;
      forall id | id in st.users
        ensures r.users[id].credits == st.users[id].credits + Owned(r.posts[|st.posts|..], id)
      {
        assert Owned([p] + rest, id) == (if ts[0].userId == id then 1 else 0) + Owned(rest, id);
        if id != ts[0].userId {
          assert s1.users[id] == st.users[id];
        }
      }
    }
  }

  /** `after` keeps the posts of `before` and adds only posts whose
      trigger matches their body. */
  predicate PostsExtend(clause: Matcher.AddressClause, before: Emitted, after: Emitted) {
    && |before.posts| <= |after.posts|
    && after.posts[..|before.posts|] == before.posts
    && forall i :: |before.posts| <= i < |after.posts| ==> PostMatches(clause, after.posts[i])
  }

  /** From `before` to `after`, every user in the table gains one credit
      per new post for a trigger they own, the ids and paid flags are kept,
      and no user row appears or disappears. */
  predicate CreditsMetered(before: Emitted, after: Emitted) {
    && after.users.Keys == before.users.Keys
    && |before.posts| <= |after.posts|
    && forall id :: id in before.users ==>
         && after.users[id].credits == before.users[id].credits + Owned(after.posts[|before.posts|..], id)
         && after.users[id].paid == before.users[id].paid
         && after.users[id].id == before.users[id].id
  }

  lemma PostsExtendTransitive(clause: Matcher.AddressClause, a: Emitted, b: Emitted, c: Emitted)
    requires PostsExtend(clause, a, b) && PostsExtend(clause, b, c)
    ensures PostsExtend(clause, a, c)
  {
    assert c.posts[..|b.posts|][..|a.posts|] == c.posts[..|a.posts|];
  }

  lemma CreditsMeteredTransitive(a: Emitted, b: Emitted, c: Emitted)
    requires |a.posts| <= |b.posts| && b.posts[..|a.posts|] == a.posts
    requires |b.posts| <= |c.posts| && c.posts[..|b.posts|] == b.posts
    requires CreditsMetered(a, b) && CreditsMetered(b, c)
    ensures CreditsMetered(a, c)
  {
    var early := b.posts[|a.posts|..];
    var late := c.posts[|b.posts|..];
    assert c.posts[|a.posts|..] == early + late;
    forall id | id in a.users
      ensures c.users[id].credits == a.users[id].credits + Owned(c.posts[|a.posts|..], id)
    {
      OwnedAppend(early, late, id);
    }
  }

  /** The posts one transaction's selected triggers call for: one per
      trigger, in order, each carrying the transaction's payload. */
  function PostsFor(tx: Tx, ts: seq<Trigger>): seq<Post> {
    seq(|ts|, i requires 0 <= i < |ts| => Post(ts[i], Payload.GetHookResponse(tx)))
  }

  /** The user table after one credit per post has been charged to the
      post's trigger owner, written in closed form. */
  function Credited(users: Store, posts: seq<Post>): Store {
    map id | id in users :: users[id].(credits := users[id].credits + Owned(posts, id))
  }

  /** The (transaction, selected trigger) pairs of one block entry, as
      posts, for the table `users` seen by its query. */
  function EntryPosts(clause: Matcher.AddressClause, users: Store, entry: Option<Tx>, triggers: seq<Trigger>): seq<Post> {
    match entry
    case None => []
    case Some(tx) => PostsFor(tx, Matcher.QueryDatabase(clause, tx, triggers, users))
  }

  /** The (transaction, selected trigger) pairs of a whole block, entry by
      entry, each entry's query seeing the table charged for the pairs
      before it. */
  function BlockPosts(clause: Matcher.AddressClause, users: Store, fetched: seq<Option<Tx>>, triggers: seq<Trigger>): seq<Post>
    decreases |fetched|
  {
    if fetched == [] then []
    else
      var ps := EntryPosts(clause, users, fetched[0], triggers);
      ps + BlockPosts(clause, Credited(users, ps), fetched[1..], triggers)
  }

  lemma CreditedAppend(users: Store, a: seq<Post>, b: seq<Post>)
    ensures Credited(Credited(users, a), b) == Credited(users, a + b)
  {
    forall id | id in users
      ensures Credited(Credited(users, a), b)[id] == Credited(users, a + b)[id]
    {
      OwnedAppend(a, b, id);
    }
  }

  /** Firing one transaction's triggers appends exactly their posts and
      charges exactly one credit per post to its owner. */
  lemma FireAllExact(st: Emitted, tx: Tx, ts: seq<Trigger>)
    ensures FireAll(st, tx, ts) == Emitted(Credited(st.users, PostsFor(tx, ts)), st.posts + PostsFor(tx, ts))
  {
    var r := FireAll(st, tx, ts);
    var ps := PostsFor(tx, ts);
    FireAllPosts(st, tx, ts);
    FireAllCredits(st, tx, ts);
    assert r.posts == st.posts + ps;
    assert r.posts[|st.posts|..] == ps;
    forall id | id in st.users
      ensures r.users[id] == Credited(st.users, ps)[id]
    {
    }
    assert r.users == Credited(st.users, ps);
  }

  /** One block entry: an unfetched transaction changes nothing; a fetched
      one appends exactly one post per selected trigger, every new post
      matching its body, and charges one credit per post to its owner. */
  lemma EmitEntryMeters(clause: Matcher.AddressClause, st: Emitted, entry: Option<Tx>, triggers: seq<Trigger>)
    ensures entry.None? ==> EmitEntry(clause, st, entry, triggers) == st
    ensures var ps := EntryPosts(clause, st.users, entry, triggers);
      EmitEntry(clause, st, entry, triggers) == Emitted(Credited(st.users, ps), st.posts + ps)
    ensures PostsExtend(clause, st, EmitEntry(clause, st, entry, triggers))
    ensures CreditsMetered(st, EmitEntry(clause, st, entry, triggers))
  {
    var r := EmitEntry(clause, st, entry, triggers);
    if entry.Some? {
      var tx := entry.value;
      var ts := Matcher.QueryDatabase(clause, tx, triggers, st.users);
      FireAllExact(st, tx, ts);
      FireAllPosts(st, tx, ts);
      FireAllCredits(st, tx, ts);
      forall i | |st.posts| <= i < |r.posts|
        ensures PostMatches(clause, r.posts[i])
      {
        var k := i - |st.posts|;
        assert r.posts[|st.posts| + k] == Post(ts[k], Payload.GetHookResponse(tx));
        assert ts[k] in ts;
      }
    } else {
      assert r.posts[|st.posts|..] == [];
      assert st.posts + [] == st.posts;
      assert Credited(st.users, []) == st.users;
    }
  }

  /** The metering of a whole block: the new posts are exactly the block's
      (transaction, selected trigger) pairs, one post each, and the table is
      the old one charged one credit per pair to the trigger's owner,
      independently of the delivery. Hence the posts made before are kept,
      every new post is for a trigger that matches its body, and no user row
      appears or disappears. */
  lemma {:induction false} EmitBlockMeters(clause: Matcher.AddressClause, st: Emitted, fetched: seq<Option<Tx>>, triggers: seq<Trigger>)
    ensures var ps := BlockPosts(clause, st.users, fetched, triggers);
      EmitBlock(clause, st, fetched, triggers) == Emitted(Credited(st.users, ps), st.posts + ps)
    ensures PostsExtend(clause, st, EmitBlock(clause, st, fetched, triggers))
    ensures CreditsMetered(st, EmitBlock(clause, st, fetched, triggers))
    decreases |fetched|
  {
    if fetched == [] {
      assert st.posts[|st.posts|..] == [];
      assert st.posts + [] == st.posts;
      assert Credited(st.users, []) == st.users;
    } else {
      var s1 := EmitEntry(clause, st, fetched[0], triggers);
      var r := EmitBlock(clause, s1, fetched[1..], triggers);
      var ep := EntryPosts(clause, st.users, fetched[0], triggers);
      EmitEntryMeters(clause, st, fetched[0], triggers);
      EmitBlockMeters(clause, s1, fetched[1..], triggers);
      var rest := BlockPosts(clause, s1.users, fetched[1..], triggers);
      CreditedAppend(st.users, ep, rest);
      assert st.posts + ep + rest == st.posts + (ep + rest);
      PostsExtendTransitive(clause, st, s1, r);
      CreditsMeteredTransitive(st, s1, r);
    }
  }

  /** `emit` as a whole: when the block's hashes cannot be read nothing
      happens; otherwise the block is metered as above. */
  lemma EmitForBlockMeters(clause: Matcher.AddressClause, st: Emitted, block: Option<seq<Option<Tx>>>, triggers: seq<Trigger>)
    ensures block.None? ==> EmitForBlock(clause, st, block, triggers) == st
    ensures block.Some? ==>
      var ps := BlockPosts(clause, st.users, block.value, triggers);
      EmitForBlock(clause, st, block, triggers) == Emitted(Credited(st.users, ps), st.posts + ps)
    ensures PostsExtend(clause, st, EmitForBlock(clause, st, block, triggers))
    ensures CreditsMetered(st, EmitForBlock(clause, st, block, triggers))
  {
    if block.Some? {
      EmitBlockMeters(clause, st, block.value, triggers);
    } else {
      EmitBlockMeters(clause, st, [], triggers);
    }
  }

  /** A transfer from 0xAA.. to 0xBB.. on chain 1 and a trigger on 0xaa..
      whose owner has 5 credits: as written no post is requested and the
      owner keeps 5 credits; with the OR clause one post goes to the
      trigger's endpoint, carrying the value "1000000000000000000", and the
      owner ends with 6. */
  lemma SenderTriggerScenario()
    ensures
      var tx := Tx("0x01", "0xAA", Some("0xBB"), 1000000000000000000, 1, "0x", 21000);
      var t := Trigger("t1", "u1", 1, "0xaa", "https://hook.example", None);
      var st := Emitted(map["u1" := User("u1", 5, false)], []);
      var asWritten := EmitTransaction(Matcher.BothAddresses, st, tx, [t]);
      var intended := EmitTransaction(Matcher.EitherAddress, st, tx, [t]);
      && asWritten == st
      && |intended.posts| == 1 && intended.posts[0].trigger.webhookUrl == "https://hook.example"
      && intended.posts[0].body.value == "1000000000000000000"
      && intended.users["u1"].credits == 6
  {
    var tx := Tx("0x01", "0xAA", Some("0xBB"), 1000000000000000000, 1, "0x", 21000);
    var t := Trigger("t1", "u1", 1, "0xaa", "https://hook.example", None);
    var users := map["u1" := User("u1", 5, false)];
    Matcher.AsWrittenMissesSenderMatch();
    assert Matcher.QueryDatabase(Matcher.EitherAddress, tx, [t], users) == [t];
    FireAllExact(Emitted(users, []), tx, [t]);
    assert Payload.GetHookResponse(tx).value == Decimal.ToDecimal(tx.value);
    Decimal.ToDecimalOneEther();
  }
}
