/** Properties of whole runs: any users, any calls, in any order, whatever each call's status. */
module Runs {
  import opened Base
  import opened Crypto
  import opened KeyRights
  import opened Protocol
  import opened Consistency
  import opened DocumentTable

  datatype Event = Event(c: Client, call: Call, rnd: Random)

  const NOTHING := Stores(map[], map[])

  function After(cs: Credentials, es: seq<Event>): Stores {
    if es == [] then NOTHING
    else
      var e := es[|es| - 1];
      Step(cs, After(cs, es[..|es| - 1]), e.c, e.call, e.rnd).1
  }

  function Replies(cs: Credentials, es: seq<Event>): seq<Reply> {
    if es == [] then []
    else
      var e := es[|es| - 1];
      Replies(cs, es[..|es| - 1]) + [Step(cs, After(cs, es[..|es| - 1]), e.c, e.call, e.rnd).0]
  }

  function TableAfter(cs: Credentials, es: seq<Event>): Table {
    if es == [] then Table(map[], map[])
    else
      var e := es[|es| - 1];
      TableStep(cs.Keys, TableAfter(cs, es[..|es| - 1]), e.c.id, Authentic(cs, e.c), e.call, e.rnd.id).1
  }

  function TableReplies(cs: Credentials, es: seq<Event>): seq<Reply> {
    if es == [] then []
    else
      var e := es[|es| - 1];
      TableReplies(cs, es[..|es| - 1])
      + [TableStep(cs.Keys, TableAfter(cs, es[..|es| - 1]), e.c.id, Authentic(cs, e.c), e.call, e.rnd.id).0]
  }

  // Someone other than `u` still has a right on `b`.
  ghost predicate Claimed(t: Table, b: BlockId, u: UserId) {
    exists v | v in Listed(t, b, u) :: CanRead(t, b, v) || CanWrite(t, b, v)
  }

  // A call that creates a document does so under an identifier on which nobody else has rights: a
  // condition on the plain table that the creator can check before the call.
  ghost predicate Unclaimed(cs: Credentials, t: Table, e: Event) {
    var reply := TableStep(cs.Keys, t, e.c.id, Authentic(cs, e.c), e.call, e.rnd.id).0;
    reply.Created? ==> !Claimed(t, reply.id, e.c.id)
  }

  // No document is created under an identifier on which another user still has rights.  Attempts that
  // are refused do not matter.
  ghost predicate NoReuse(cs: Credentials, es: seq<Event>) {
    es == [] ||
    (NoReuse(cs, es[..|es| - 1]) && Unclaimed(cs, TableAfter(cs, es[..|es| - 1]), es[|es| - 1]))
  }

  lemma LeftoverIsClaimed(s: Stores, b: BlockId, u: UserId)
    ensures Leftover(s.ks, b, u) <==> Claimed(Abs(s), b, u)
  {
    var t := Abs(s);
    forall v ensures v in Listed(t, b, u) <==> v in Others(s.ks, b, u) {
      UserListed(s.ks, b, v);
      if (b, v) in t.rights { assert (b, v).0 == b && (b, v).1 == v; }
    }
    forall v ensures Holds(s.ks, Read, b, v) == CanRead(t, b, v) && Holds(s.ks, Write, b, v) == CanWrite(t, b, v) {}
  }

  // One event of a run, on both sides.
  lemma EventRefines(cs: Credentials, s: Stores, e: Event)
    requires Consistent(cs, s) && Unclaimed(cs, Abs(s), e)
    ensures var (reply, s') := Step(cs, s, e.c, e.call, e.rnd);
            && TableStep(cs.Keys, Abs(s), e.c.id, Authentic(cs, e.c), e.call, e.rnd.id) == (reply, Abs(s'))
            && Consistent(cs, s')
  {
    hide Step, TableStep, Consistent, Claimed, Leftover, Abs;
    StepRefinesTable(cs, s, e.c, e.call, e.rnd);
    StepKeepsConsistent(cs, s, e.c, e.call, e.rnd);
    var reply := Step(cs, s, e.c, e.call, e.rnd).0;
    if reply.Created? {
      LeftoverIsClaimed(s, reply.id, e.c.id);
    }
  }

  // The encrypted stores are indistinguishable from the plain table: over every run in which no
  // identifier is reused while others hold rights on it, all replies are the table's, the stores
  // stand for the table, and every stored token opens.
  lemma {:induction false} RunRefinesTable(cs: Credentials, es: seq<Event>)
    requires NoReuse(cs, es)
    ensures Consistent(cs, After(cs, es))
    ensures Abs(After(cs, es)) == TableAfter(cs, es)
    ensures Replies(cs, es) == TableReplies(cs, es)
  {
    if es != [] {
      RunRefinesTable(cs, es[..|es| - 1]);
      EventRefines(cs, After(cs, es[..|es| - 1]), es[|es| - 1]);
    }
  }

  // Every creation of a run drew keys that no token held at the time.
  ghost predicate FreshDraws(cs: Credentials, es: seq<Event>) {
    es == [] ||
    (FreshDraws(cs, es[..|es| - 1])
     && (es[|es| - 1].call.Create? ==> FreshKeys(After(cs, es[..|es| - 1]).ks, es[|es| - 1].rnd)))
  }

  // With such keys, every stored token opens throughout a run exactly when no identifier is reused
  // while others hold rights on it.
  lemma {:induction false} ConsistentThroughoutExactlyWhen(cs: Credentials, es: seq<Event>)
    requires FreshDraws(cs, es)
    ensures (forall k | 0 <= k <= |es| :: Consistent(cs, After(cs, es[..k]))) <==> NoReuse(cs, es)
  {
    hide Consistent, Step, TableStep, Claimed, Leftover, FreshKeys;
    assert es[..|es|] == es;
    if es == [] {
      RunRefinesTable(cs, es);
      assert es[..0] == es;
    } else {
      var before, e := es[..|es| - 1], es[|es| - 1];
      forall k | 0 <= k <= |before| ensures before[..k] == es[..k] {}
      ConsistentThroughoutExactlyWhen(cs, before);
      if NoReuse(cs, before) {
        RunRefinesTable(cs, before);
        EventKeepsExactlyWhen(cs, After(cs, before), e);
        assert forall k | 0 <= k <= |before| :: Consistent(cs, After(cs, es[..k]));
      } else {
        var k :| 0 <= k <= |before| && !Consistent(cs, After(cs, before[..k]));
        assert !Consistent(cs, After(cs, es[..k]));
      }
    }
  }

  lemma EventKeepsExactlyWhen(cs: Credentials, s: Stores, e: Event)
    requires Consistent(cs, s) && (e.call.Create? ==> FreshKeys(s.ks, e.rnd))
    ensures Consistent(cs, Step(cs, s, e.c, e.call, e.rnd).1) <==> Unclaimed(cs, Abs(s), e)
  {
    hide Step, TableStep, Consistent, Claimed, Leftover, Abs, FreshKeys;
    StepRefinesTable(cs, s, e.c, e.call, e.rnd);
    StepKeepsConsistent(cs, s, e.c, e.call, e.rnd);
    var reply := Step(cs, s, e.c, e.call, e.rnd).0;
    if reply.Created? {
      CreatedByCreate(cs, s, e);
      LeftoverIsClaimed(s, reply.id, e.c.id);
    }
  }

  lemma CreatedByCreate(cs: Credentials, s: Stores, e: Event)
    ensures Step(cs, s, e.c, e.call, e.rnd).0.Created? ==> e.call.Create?
  {
  }

  // A run with one more event at its end.
  lemma Snoc(cs: Credentials, es: seq<Event>, e: Event)
    ensures After(cs, es + [e]) == Step(cs, After(cs, es), e.c, e.call, e.rnd).1
    ensures Replies(cs, es + [e]) == Replies(cs, es) + [Step(cs, After(cs, es), e.c, e.call, e.rnd).0]
    ensures var step := TableStep(cs.Keys, TableAfter(cs, es), e.c.id, Authentic(cs, e.c), e.call, e.rnd.id);
            TableReplies(cs, es + [e]) == TableReplies(cs, es) + [step.0] && TableAfter(cs, es + [e]) == step.1
    ensures NoReuse(cs, es + [e]) <==> NoReuse(cs, es) && Unclaimed(cs, TableAfter(cs, es), e)
  {
    assert (es + [e])[..|es + [e]| - 1] == es;
  }

  // The content a call writes to the data store, when the store accepts the write.  A rotation
  // writes the content it loaded.
  function Written(cs: Credentials, s: Stores, e: Event): Option<(BlockId, Doc)> {
    var reply := Step(cs, s, e.c, e.call, e.rnd).0;
    match e.call
    case Create(_, data, meta) => if reply.Created? then Some((reply.id, Doc(data, meta))) else None
    case Update(b, data, meta) =>
      var o := Load(cs, s, e.c, b);
      if b != [] && data != [] && meta != [] && o.Some? && o.value.wkey.Some?
         && Accepts(s.ds, b, Some(Presented(o.value)))
      then Some((b, Doc(data, meta))) else None
    case Rotate(b) =>
      var o := Load(cs, s, e.c, b);
      if reply.Done? && o.Some? then Some((b, Doc(o.value.data, o.value.meta))) else None
    case _ => None
  }

  function Deleted(cs: Credentials, s: Stores, e: Event): Option<BlockId> {
    if e.call.Delete? && e.call.b in s.ds && e.call.b !in Step(cs, s, e.c, e.call, e.rnd).1.ds then Some(e.call.b)
    else None
  }

  // The content of the last accepted write to `b`, unless the document was deleted since.
  function LastWrite(cs: Credentials, es: seq<Event>, b: BlockId): Option<Doc> {
    if es == [] then None
    else
      var e, before := es[|es| - 1], es[..|es| - 1];
      var w, d := Written(cs, After(cs, before), e), Deleted(cs, After(cs, before), e);
      if w.Some? && w.value.0 == b then Some(w.value.1)
      else if d == Some(b) then None
      else LastWrite(cs, before, b)
  }

  // What a call does to the document `b`: it stores what it writes there, removes it, or leaves it.
  ghost predicate Effect(cs: Credentials, s: Stores, e: Event, b: BlockId) {
    var s' := Step(cs, s, e.c, e.call, e.rnd).1;
    var w, d := Written(cs, s, e), Deleted(cs, s, e);
    if w.Some? && w.value.0 == b then b in s'.ds && Doc(s'.ds[b].block.data, s'.ds[b].meta) == w.value.1
    else if d == Some(b) then b !in s'.ds
    else (b in s'.ds <==> b in s.ds) && (b in s.ds ==> s'.ds[b] == s.ds[b])
  }

  lemma CreateWrites(cs: Credentials, s: Stores, e: Event, b: BlockId)
    requires e.call.Create?
    ensures Effect(cs, s, e, b)
  {
  }

  lemma UpdateWrites(cs: Credentials, s: Stores, e: Event, b: BlockId)
    requires e.call.Update?
    ensures Effect(cs, s, e, b)
  {
    hide Load;
  }

  lemma DeleteWrites(cs: Credentials, s: Stores, e: Event, b: BlockId)
    requires e.call.Delete?
    ensures Effect(cs, s, e, b)
  {
    hide Load, Listable, Others;
  }

  lemma RotateWrites(cs: Credentials, s: Stores, e: Event, b: BlockId)
    requires e.call.Rotate?
    ensures Effect(cs, s, e, b)
  {
    hide Load, Listable, RotatedKeys;
  }

  lemma OthersWriteNothing(cs: Credentials, s: Stores, e: Event, b: BlockId)
    requires !e.call.Create? && !e.call.Update? && !e.call.Delete? && !e.call.Rotate?
    ensures Effect(cs, s, e, b)
  {
    hide Load;
  }

  // From any state of the stores.
  lemma StepWrites(cs: Credentials, s: Stores, e: Event, b: BlockId)
    ensures Effect(cs, s, e, b)
  {
    hide Effect;
    match e.call
    case Create(_, _, _) => CreateWrites(cs, s, e, b);
    case Update(_, _, _) => UpdateWrites(cs, s, e, b);
    case Delete(_) => DeleteWrites(cs, s, e, b);
    case Rotate(_) => RotateWrites(cs, s, e, b);
    case _ => OthersWriteNothing(cs, s, e, b);
  }

  lemma {:induction false} StoredIsLastWrite(cs: Credentials, es: seq<Event>, b: BlockId)
    requires NoReuse(cs, es)
    ensures var t := Abs(After(cs, es));
            LastWrite(cs, es, b) == if b in t.docs then Some(t.docs[b]) else None
  {
    if es != [] {
      var e, before := es[|es| - 1], es[..|es| - 1];
      RunRefinesTable(cs, before);
      StoredIsLastWrite(cs, before, b);
      StepWrites(cs, After(cs, before), e, b);
    }
  }

  // Reading, after any run: a caller who presents the right key and has a read token gets exactly
  // the data and metadata of the last accepted write; everyone else gets nothing.
  lemma ReadReturnsLastWrite(cs: Credentials, es: seq<Event>, c: Client, b: BlockId)
    requires NoReuse(cs, es) && b != []
    ensures var s, w := After(cs, es), LastWrite(cs, es, b);
            ReadStep(cs, s, c, b) ==
            if Authentic(cs, c) && Holds(s.ks, Read, b, c.id) && w.Some? then Document(w.value.data, w.value.meta)
            else Failed(HM_FAIL)
  {
    RunRefinesTable(cs, es);
    StoredIsLastWrite(cs, es, b);
    LoadMeans(cs, After(cs, es), c, b);
  }

  // Deleting a document leaves every other user's entry behind, and reports a failure exactly when
  // there is one besides the caller's and all of them could be listed.
  lemma DeleteLeavesOthers(cs: Credentials, s: Stores, c: Client, b: BlockId)
    requires Consistent(cs, s) && b != []
    requires Authentic(cs, c) && b in s.ds && Holds(s.ks, Read, b, c.id) && Holds(s.ks, Write, b, c.id)
    ensures var (reply, s') := DeleteStep(cs, s, c, b);
            && b !in s'.ds && (b, c.id) !in s'.ks
            && (forall k | k in s.ks && k != (b, c.id) :: k in s'.ks && s'.ks[k] == s.ks[k])
            && (reply == Failed(HM_FAIL) <==> Others(s.ks, b, c.id) != {} && AllCanRead(Abs(s), b, c.id))
  {
    LoadMeans(cs, s, c, b);
    ListingsAgree(cs, s, b, c.id);
  }

  // What a deletion leaves behind is what breaks a later creation under the same identifier: every
  // reader left over is still listed, holds a token that no private key opens the document with,
  // and is refused a read that the plain table grants.
  lemma ReuseBreaksReaders(cs: Credentials, s: Stores, c: Client, call: Call, rnd: Random, v: Client)
    requires Consistent(cs, s) && call.Create? && FreshKeys(s.ks, rnd) && v.id != c.id
    requires var reply := CreateStep(cs, s, c, call, rnd).0;
             reply.Created? && Holds(s.ks, Read, reply.id, v.id)
    ensures var (reply, s') := CreateStep(cs, s, c, call, rnd);
            && CanRead(Abs(s'), reply.id, v.id)
            && ReadStep(cs, s', v, reply.id) == Failed(HM_FAIL)
            && TableStep(cs.Keys, Abs(s'), v.id, true, ReadDoc(reply.id), []).0 == Document(call.data, call.meta)
  {
  }

  // An update by a caller who may read and write always writes; it reports success exactly when the
  // granters of the caller's rights still hold the same rights.
  lemma UpdateReportsExactlyWhen(cs: Credentials, s: Stores, c: Client, b: BlockId, data: Bytes, meta: Bytes)
    requires Consistent(cs, s) && b != [] && data != [] && meta != []
    requires Authentic(cs, c) && b in s.ds && Holds(s.ks, Read, b, c.id) && Holds(s.ks, Write, b, c.id)
    ensures var (reply, s') := UpdateStep(cs, s, c, b, data, meta);
            && s' == s.(ds := s.ds[b := NewRecord(s.ds[b].block.key, s.ds[b].mac.key, data, meta)])
            && (reply == Done <==> Backed(Abs(s), b, c.id)) && (reply != Done ==> reply == Failed(1))
  {
    LoadYields(cs, s, c, b);
    LoadMeans(cs, s, c, b);
  }

  // Concrete runs, of users 1, 2 and 3 and the document [9].
  const CREDS: Credentials := map[[1] := PublicOf(1), [2] := PublicOf(2), [3] := PublicOf(3)]

  const ME := Client([1], 1)
  const SECOND := Client([2], 2)
  const THIRD := Client([3], 3)
  const DRAWN := Random(10, 11, [])

  const CREATED := Event(ME, Create(Some([9]), [7], [8]), DRAWN)

  // 1 creates the document, lets 2 read and write, 2 does the same for 3, and 1 takes it away from 2.
  const PASSED_ON := [
    CREATED,
    Event(ME, GrantRead([9], [2]), DRAWN),
    Event(ME, GrantUpdate([9], [2]), DRAWN),
    Event(SECOND, GrantRead([9], [3]), DRAWN),
    Event(SECOND, GrantUpdate([9], [3]), DRAWN),
    Event(ME, DenyRead([9], [2]), DRAWN)]

  // The rights after `k` of these calls.
  function RightsAfter(k: nat): map<(BlockId, UserId), Right> {
    if k == 0 then map[]
    else if k == 1 then map[([9], [1]) := Right(Some([1]), Some([1]))]
    else if k == 2 then RightsAfter(1)[([9], [2]) := Right(Some([1]), None)]
    else if k == 3 then RightsAfter(1)[([9], [2]) := Right(Some([1]), Some([1]))]
    else if k == 4 then RightsAfter(3)[([9], [3]) := Right(Some([2]), None)]
    else if k == 5 then RightsAfter(3)[([9], [3]) := Right(Some([2]), Some([2]))]
    else RightsAfter(5) - {([9], [2])}
  }

  lemma PassedOnStep(k: nat)
    requires k < 6
    ensures var e, t := PASSED_ON[k], PassedTable(k);
            && TableStep(CREDS.Keys, t, e.c.id, Authentic(CREDS, e.c), e.call, e.rnd.id).1 == PassedTable(k + 1)
            && Unclaimed(CREDS, t, e)
  {
    if k == 0 {} else if k == 1 {} else if k == 2 {} else if k == 3 {} else if k == 4 {} else {}
  }

  // The table after `k` of the calls.
  function PassedTable(k: nat): Table {
    Table(if k == 0 then map[] else map[[9] := Doc([7], [8])], RightsAfter(k))
  }

  lemma {:induction false} PassedOnTable(k: nat)
    requires k <= 6
    ensures NoReuse(CREDS, PASSED_ON[..k]) && TableAfter(CREDS, PASSED_ON[..k]) == PassedTable(k)
  {
    assert |PASSED_ON| == 6;
    hide *;
    if k == 0 {
      NoCalls(PASSED_ON[..k]);
    } else {
      PassedOnTable(k - 1);
      PassedOnStep(k - 1);
      Snoc(CREDS, PASSED_ON[..k - 1], PASSED_ON[k - 1]);
      assert PASSED_ON[..k - 1] + [PASSED_ON[k - 1]] == PASSED_ON[..k];
    }
  }

  lemma NoCalls(es: seq<Event>)
    requires es == []
    ensures NoReuse(CREDS, es) && TableAfter(CREDS, es) == PassedTable(0)
  {
  }

  // Then 3's update is reported as a failure, and the new content is stored all the same.
  lemma UpdateExample()
    ensures NoReuse(CREDS, PASSED_ON)
    ensures var (reply, s) := Step(CREDS, After(CREDS, PASSED_ON), THIRD, Update([9], [5], [6]), DRAWN);
            reply == Failed(1) && [9] in s.ds && Abs(s).docs[[9]] == Doc([5], [6])
  {
    hide After, Abs, Consistent, NoReuse, TableAfter, RightsAfter;
    assert PASSED_ON[..6] == PASSED_ON;
    PassedOnTable(6);
    RunRefinesTable(CREDS, PASSED_ON);
    UpdateExampleStep(After(CREDS, PASSED_ON));
  }

  lemma UpdateExampleStep(s: Stores)
    requires Consistent(CREDS, s) && Abs(s) == Table(map[[9] := Doc([7], [8])], RightsAfter(6))
    ensures var (reply, s') := UpdateStep(CREDS, s, THIRD, [9], [5], [6]);
            reply == Failed(1) && [9] in s'.ds && Abs(s').docs[[9]] == Doc([5], [6])
  {
    assert RightsAfter(6) == map[([9], [1]) := Right(Some([1]), Some([1])), ([9], [3]) := Right(Some([2]), Some([2]))];
    assert CanRead(Abs(s), [9], [3]) && CanWrite(Abs(s), [9], [3]) && !CanRead(Abs(s), [9], [2]);
    assert [9] in Abs(s).docs && ([9], [3]) in Abs(s).rights;
    UpdateReportsExactlyWhen(CREDS, s, THIRD, [9], [5], [6]);
  }

  // 1 creates the document, lets 2 read it, and deletes it: 2's entry is left over.
  const LEFT_OVER := [CREATED, Event(ME, GrantRead([9], [2]), DRAWN), Event(ME, Delete([9]), DRAWN)]

  const LEFT := Stores(map[([9], [2]) := Entry(Some(Stored(Wrapped(1, PublicOf(2), 10), [1])), None)], map[])

  // The stores on the way there.
  const OWN := Entry(Some(Stored(Wrapped(1, PublicOf(1), 10), [1])), Some(Stored(Wrapped(1, PublicOf(1), 11), [1])))
  const STORED: DataMap := map[[9] := NewRecord(10, 11, [7], [8])]
  const SHARED: KeyMap := map[([9], [1]) := OWN, ([9], [2]) := LEFT.ks[([9], [2])]]

  lemma LeftSteps()
    ensures CreateStep(CREDS, NOTHING, ME, CREATED.call, DRAWN).1 == Stores(map[([9], [1]) := OWN], STORED)
    ensures GrantStep(CREDS, Stores(map[([9], [1]) := OWN], STORED), ME, Read, [9], [2]).1 == Stores(SHARED, STORED)
  {
  }

  lemma LeftByDelete()
    ensures DeleteStep(CREDS, Stores(SHARED, STORED), ME, [9]).1 == LEFT
  {
    assert SHARED - {([9], [1])} == LEFT.ks && STORED - {[9]} == map[];
  }

  lemma LeftIsReached()
    ensures After(CREDS, LEFT_OVER) == LEFT
  {
    hide CreateStep, GrantStep, DeleteStep, NewRecord, NoReuse, TableAfter, TableReplies, Replies;
    assert LEFT_OVER == (([] + [LEFT_OVER[0]]) + [LEFT_OVER[1]]) + [LEFT_OVER[2]];
    Snoc(CREDS, [], LEFT_OVER[0]);
    Snoc(CREDS, [] + [LEFT_OVER[0]], LEFT_OVER[1]);
    Snoc(CREDS, ([] + [LEFT_OVER[0]]) + [LEFT_OVER[1]], LEFT_OVER[2]);
    LeftSteps();
    LeftByDelete();
  }

  // Created again, the document is closed to 2, although 2 is listed as a reader.
  lemma ReuseExample()
    ensures Consistent(CREDS, After(CREDS, LEFT_OVER))
    ensures var (reply, s) := Step(CREDS, After(CREDS, LEFT_OVER), ME, Create(Some([9]), [7], [8]), Random(12, 13, []));
            && reply == Created([9]) && !Consistent(CREDS, s)
            && ReadStep(CREDS, s, SECOND, [9]) == Failed(HM_FAIL)
            && TableStep(CREDS.Keys, Abs(s), [2], true, ReadDoc([9]), []).0 == Document([7], [8])
  {
    LeftIsReached();
    var call, rnd := Create(Some([9]), [7], [8]), Random(12, 13, []);
    UserListed(LEFT.ks, [9], [2]);
    assert Holds(LEFT.ks, Read, [9], [2]);
    StepKeepsConsistent(CREDS, LEFT, ME, call, rnd);
    ReuseBreaksReaders(CREDS, LEFT, ME, call, rnd, SECOND);
  }
}
