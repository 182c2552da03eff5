/**
  A plain document table with an access list: no keys, no ciphertexts, no tokens, no tags.  The
  encrypted stores behave exactly like it, call by call and over whole runs.
 */
module DocumentTable {
  import opened Base
  import opened Crypto
  import opened KeyRights
  import opened Protocol
  import opened Consistency

  datatype Doc = Doc(data: Bytes, meta: Bytes)

  // For each right, the user who granted it.
  datatype Right = Right(read: Option<UserId>, write: Option<UserId>)

  datatype Table = Table(docs: map<BlockId, Doc>, rights: map<(BlockId, UserId), Right>)

  function Granter(t: Option<Stored>): Option<UserId> {
    if t.Some? then Some(t.value.owner) else None
  }

  function RightOf(e: Entry): Right {
    Right(Granter(e.read), Granter(e.write))
  }

  // The table a pair of stores stands for.
  function Abs(s: Stores): Table {
    Table(map b | b in s.ds :: Doc(s.ds[b].block.data, s.ds[b].meta),
          map k | k in s.ks :: RightOf(s.ks[k]))
  }

  predicate CanRead(t: Table, b: BlockId, u: UserId) {
    (b, u) in t.rights && t.rights[(b, u)].read.Some?
  }

  predicate CanWrite(t: Table, b: BlockId, u: UserId) {
    (b, u) in t.rights && t.rights[(b, u)].write.Some?
  }

  function ReadGranter(t: Table, b: BlockId, u: UserId): Option<UserId> {
    if (b, u) in t.rights then t.rights[(b, u)].read else None
  }

  function WriteGranter(t: Table, b: BlockId, u: UserId): Option<UserId> {
    if (b, u) in t.rights then t.rights[(b, u)].write else None
  }

  function Listed(t: Table, b: BlockId, u: UserId): set<UserId> {
    (set k | k in t.rights && k.0 == b :: k.1) - {u}
  }

  predicate AllCanRead(t: Table, b: BlockId, u: UserId) {
    forall v | v in Listed(t, b, u) :: CanRead(t, b, v)
  }

  function WithRead(t: Table, b: BlockId, v: UserId, granter: UserId): Table {
    t.(rights := t.rights[(b, v) := Right(Some(granter), WriteGranter(t, b, v))])
  }

  function WithWrite(t: Table, b: BlockId, v: UserId, granter: UserId): Table {
    t.(rights := t.rights[(b, v) := Right(ReadGranter(t, b, v), Some(granter))])
  }

  function WithoutEntry(t: Table, b: BlockId, v: UserId): Table {
    t.(rights := t.rights - {(b, v)})
  }

  function WithoutWrite(t: Table, b: BlockId, v: UserId): Table {
    if (b, v) in t.rights then t.(rights := t.rights[(b, v) := t.rights[(b, v)].(write := None)]) else t
  }

  // Whether the granter of the user's own right still holds it, so that storing the right again
  // is not refused.
  predicate Backed(t: Table, b: BlockId, u: UserId) {
    var ro, wo := ReadGranter(t, b, u), WriteGranter(t, b, u);
    (ro.Some? ==> ro.value == u || CanRead(t, b, ro.value)) &&
    (wo.Some? ==> wo.value == u || CanWrite(t, b, wo.value))
  }

  // One call on the table.  `auth` says that the caller presented the private key matching its
  // credentials; `newId` is the identifier the store draws.
  function TableStep(users: set<UserId>, t: Table, u: UserId, auth: bool, call: Call, newId: BlockId): (Reply, Table) {
    match call
    case Create(wanted, data, meta) =>
      var b := if wanted.Some? then wanted.value else newId;
      if data == [] || meta == [] then (Failed(HM_INVALID_PARAMETER), t)
      else if !auth || b == [] || (wanted.Some? && b in t.docs) then (Failed(HM_FAIL), t)
      else (Created(b), Table(t.docs[b := Doc(data, meta)], t.rights[(b, u) := Right(Some(u), Some(u))]))
    case ReadDoc(b) =>
      if b == [] then (Failed(HM_INVALID_PARAMETER), t)
      else if !auth || b !in t.docs || !CanRead(t, b, u) then (Failed(HM_FAIL), t)
      else (Document(t.docs[b].data, t.docs[b].meta), t)
    case Update(b, data, meta) =>
      if b == [] || data == [] || meta == [] then (Failed(HM_INVALID_PARAMETER), t)
      else if !auth || b !in t.docs || !CanRead(t, b, u) || !CanWrite(t, b, u) then (Failed(1), t)
      else (if Backed(t, b, u) then Done else Failed(1), t.(docs := t.docs[b := Doc(data, meta)]))
    case Delete(b) =>
      if b == [] then (Failed(HM_INVALID_PARAMETER), t)
      else if !auth || b !in t.docs || !CanRead(t, b, u) then (Failed(1), t)
      else if !CanWrite(t, b, u) then (Failed(HM_FAIL), t)
      else (if AllCanRead(t, b, u) && Listed(t, b, u) != {} then Failed(HM_FAIL) else Done,
            WithoutEntry(t.(docs := t.docs - {b}), b, u))
    case Rotate(b) =>
      if b == [] then (Failed(HM_INVALID_PARAMETER), t)
      else if !auth || b !in t.docs || !CanRead(t, b, u) || !CanWrite(t, b, u) || !AllCanRead(t, b, u)
      then (Failed(HM_FAIL), t)
      else (Done, t.(rights := map k | k in t.rights ::
              if k.0 == b then Right(Some(u), if t.rights[k].write.Some? then Some(u) else None) else t.rights[k]))
    case GrantRead(b, v) =>
      if b == [] || v == [] then (Failed(HM_INVALID_PARAMETER), t)
      else if !auth || b !in t.docs || !CanRead(t, b, u) || v !in users then (Failed(HM_FAIL), t)
      else (Done, WithRead(t, b, v, u))
    case GrantUpdate(b, v) =>
      if b == [] || v == [] then (Failed(HM_INVALID_PARAMETER), t)
      else if !auth || b !in t.docs || !CanRead(t, b, u) || !CanWrite(t, b, u) || v !in users then (Failed(HM_FAIL), t)
      else (Done, WithWrite(t, b, v, u))
    case DenyRead(b, v) =>
      if b == [] || v == [] then (Failed(HM_INVALID_PARAMETER), t)
      else if !auth || b !in t.docs || !CanRead(t, b, u) || !CanWrite(t, b, u) || v !in users then (Failed(HM_FAIL), t)
      else if v == u then (Failed(HM_FAIL), WithoutWrite(t, b, v))
      else (Done, WithoutEntry(t, b, v))
    case DenyUpdate(b, v) =>
      if b == [] || v == [] then (Failed(HM_INVALID_PARAMETER), t)
      else if !auth || b !in t.docs || !CanRead(t, b, u) || !CanWrite(t, b, u) || v !in users then (Failed(HM_FAIL), t)
      else (Done, WithoutWrite(t, b, v))
  }

  // The listings on both sides name the same users, and a rights listing fails on the stores
  // exactly when some listed user cannot read.
  lemma ListingsAgree(cs: Credentials, s: Stores, b: BlockId, u: UserId)
    requires Consistent(cs, s) && b in s.ds
    ensures Listed(Abs(s), b, u) == Others(s.ks, b, u)
    ensures AllCanRead(Abs(s), b, u) <==> Listable(cs, s.ks, b, u)
  {
    assert BlockConsistent(cs, s, b);
    var t := Abs(s);
    assert t.rights.Keys == s.ks.Keys;
    forall v ensures v in Listed(t, b, u) <==> v in Others(s.ks, b, u) {
      UserListed(s.ks, b, v);
      if (b, v) in t.rights { assert (b, v).0 == b && (b, v).1 == v; }
    }
    forall v | v in Others(s.ks, b, u)
      ensures CanRead(t, b, v) <==> Registered(cs, v) && Loadable(cs, ReadOf(s.ks, b, v)).Some?
    {
      UserListed(s.ks, b, v);
      assert EntryOpens(cs, v, s.ks[(b, v)], s.ds[b]);
    }
  }

  lemma AbsWrite(s: Stores, b: BlockId, r: Record)
    ensures Abs(s.(ds := s.ds[b := r])) == Abs(s).(docs := Abs(s).docs[b := Doc(r.block.data, r.meta)])
  {
  }

  lemma AbsPut(s: Stores, kind: Kind, b: BlockId, v: UserId, t: Stored)
    ensures Abs(s.(ks := Put(s.ks, kind, b, v, t))) ==
            if kind.Read? then WithRead(Abs(s), b, v, t.owner) else WithWrite(Abs(s), b, v, t.owner)
  {
  }

  lemma AbsDrop(s: Stores, kind: Kind, b: BlockId, v: UserId)
    ensures Abs(s.(ks := Drop(s.ks, kind, b, v))) ==
            if kind.Read? then WithoutEntry(Abs(s), b, v) else WithoutWrite(Abs(s), b, v)
  {
  }

  lemma AbsRemove(s: Stores, b: BlockId)
    ensures Abs(s.(ds := s.ds - {b})) == Abs(s).(docs := Abs(s).docs - {b})
  {
  }

  // What the caller may do to a block, read off the table.
  predicate MayRead(t: Table, b: BlockId, u: UserId, auth: bool) {
    auth && b in t.docs && CanRead(t, b, u)
  }

  lemma LoadMeans(cs: Credentials, s: Stores, c: Client, b: BlockId)
    requires Consistent(cs, s)
    ensures var o, t, auth := Load(cs, s, c, b), Abs(s), Authentic(cs, c);
            && (o.Some? <==> MayRead(t, b, c.id, auth))
            && (o.Some? ==>
                  && Doc(o.value.data, o.value.meta) == t.docs[b]
                  && o.value.data != [] && o.value.meta != []
                  && (o.value.wkey.Some? <==> CanWrite(t, b, c.id))
                  && (o.value.wkey.Some? ==>
                        && Accepts(s.ds, b, Some(Presented(o.value)))
                        && Backed(t, b, c.id) ==
                           (&& MaySet(s.ks, Read, b, c.id, o.value.rowner)
                            && MaySet(s.ks, Write, b, c.id, o.value.wowner))))
  {
    LoadYields(cs, s, c, b);
    if b in s.ds { assert BlockConsistent(cs, s, b); }
  }

  lemma CreateRefines(cs: Credentials, s: Stores, c: Client, call: Call, rnd: Random)
    requires call.Create?
    ensures var (reply, s') := CreateStep(cs, s, c, call, rnd);
            TableStep(cs.Keys, Abs(s), c.id, Authentic(cs, c), call, rnd.id) == (reply, Abs(s'))
  {
    var (reply, s') := CreateStep(cs, s, c, call, rnd);
    if reply.Created? {
      assert Abs(s').docs == Abs(s).docs[reply.id := Doc(call.data, call.meta)];
      assert Abs(s').rights == Abs(s).rights[(reply.id, c.id) := Right(Some(c.id), Some(c.id))];
    }
  }

  lemma UpdateRefines(cs: Credentials, s: Stores, c: Client, b: BlockId, data: Bytes, meta: Bytes, newId: BlockId)
    requires Consistent(cs, s)
    ensures var (reply, s') := UpdateStep(cs, s, c, b, data, meta);
            TableStep(cs.Keys, Abs(s), c.id, Authentic(cs, c), Call.Update(b, data, meta), newId) == (reply, Abs(s'))
  {
    LoadMeans(cs, s, c, b);
    var o := Load(cs, s, c, b);
    if o.Some? && o.value.wkey.Some? {
      AbsWrite(s, b, NewRecord(o.value.rkey, o.value.wkey.value, data, meta));
    }
  }

  lemma DeleteRefines(cs: Credentials, s: Stores, c: Client, b: BlockId, newId: BlockId)
    requires Consistent(cs, s)
    ensures var (reply, s') := DeleteStep(cs, s, c, b);
            TableStep(cs.Keys, Abs(s), c.id, Authentic(cs, c), Call.Delete(b), newId) == (reply, Abs(s'))
  {
    LoadMeans(cs, s, c, b);
    var o := Load(cs, s, c, b);
    if o.Some? {
      ListingsAgree(cs, s, b, c.id);
      AbsRemove(s, b);
      AbsDrop(s.(ds := s.ds - {b}), Read, b, c.id);
    }
  }

  lemma RotateRefines(cs: Credentials, s: Stores, c: Client, b: BlockId, rnd: Random)
    requires Consistent(cs, s)
    ensures var (reply, s') := RotateStep(cs, s, c, b, rnd);
            TableStep(cs.Keys, Abs(s), c.id, Authentic(cs, c), Call.Rotate(b), rnd.id) == (reply, Abs(s'))
  {
    hide Load, Consistent, Listable, AllCanRead, Listed, Backed, RotatedEntry;
    LoadMeans(cs, s, c, b);
    var o := Load(cs, s, c, b);
    if o.Some? && o.value.wkey.Some? {
      ListingsAgree(cs, s, b, c.id);
      if Listable(cs, s.ks, b, c.id) {
        RotatedRights(cs, s, c, b, rnd);
        var s', t' := RotateStep(cs, s, c, b, rnd).1, TableStep(cs.Keys, Abs(s), c.id, true, Call.Rotate(b), rnd.id).1;
        assert Abs(s').docs == t'.docs;
        assert Abs(s').rights == t'.rights;
      }
    }
  }

  // A rotation keeps who can read and who can write, and makes the rotator the granter of it all.
  lemma RotatedRights(cs: Credentials, s: Stores, c: Client, b: BlockId, rnd: Random)
    requires Consistent(cs, s) && b in s.ds && Authentic(cs, c) && Listable(cs, s.ks, b, c.id)
    requires Holds(s.ks, Read, b, c.id) && Holds(s.ks, Write, b, c.id)
    ensures forall k | k in s.ks && k.0 == b ::
              Registered(cs, k.1) &&
              RightOf(RotatedEntry(cs, c, k.1, s.ks[k], rnd)) ==
              Right(Some(c.id), if s.ks[k].write.Some? then Some(c.id) else None)
  {
    assert BlockConsistent(cs, s, b);
    forall k | k in s.ks && k.0 == b
      ensures Registered(cs, k.1) && Loadable(cs, s.ks[k].write) == s.ks[k].write
    {
      assert (b, k.1) == k;
      UserListed(s.ks, b, k.1);
      assert EntryOpens(cs, k.1, s.ks[(b, k.1)], s.ds[b]);
      assert k.1 == c.id || k.1 in Others(s.ks, b, c.id);
    }
  }

  lemma GrantRefines(cs: Credentials, s: Stores, c: Client, kind: Kind, b: BlockId, v: UserId, newId: BlockId)
    requires Consistent(cs, s)
    ensures var (reply, s') := GrantStep(cs, s, c, kind, b, v);
            var call := if kind.Read? then GrantRead(b, v) else GrantUpdate(b, v);
            TableStep(cs.Keys, Abs(s), c.id, Authentic(cs, c), call, newId) == (reply, Abs(s'))
  {
    LoadMeans(cs, s, c, b);
    var o := Load(cs, s, c, b);
    if o.Some? && Registered(cs, v) && (kind.Write? ==> o.value.wkey.Some?) {
      var secret := if kind.Read? then o.value.rkey else o.value.wkey.value;
      AbsPut(s, kind, b, v, Stored(Wrap(c.sk, cs[v], secret), c.id));
    }
  }

  lemma DenyRefines(cs: Credentials, s: Stores, c: Client, kind: Kind, b: BlockId, v: UserId, newId: BlockId)
    requires Consistent(cs, s)
    ensures var (reply, s') := DenyStep(cs, s, c, kind, b, v);
            var call := if kind.Read? then DenyRead(b, v) else DenyUpdate(b, v);
            TableStep(cs.Keys, Abs(s), c.id, Authentic(cs, c), call, newId) == (reply, Abs(s'))
  {
    hide Load, Consistent, AllCanRead, Listed, Backed, Abs;
    LoadMeans(cs, s, c, b);
    AbsDrop(s, Read, b, v);
    AbsDrop(s, Write, b, v);
  }

  // One call: the caller's reply and the resulting documents and rights are those of the table.
  lemma StepRefinesTable(cs: Credentials, s: Stores, c: Client, call: Call, rnd: Random)
    requires Consistent(cs, s)
    ensures var (reply, s') := Step(cs, s, c, call, rnd);
            TableStep(cs.Keys, Abs(s), c.id, Authentic(cs, c), call, rnd.id) == (reply, Abs(s'))
  {
    match call
    case Create(_, _, _) => CreateRefines(cs, s, c, call, rnd);
    case ReadDoc(b) => LoadMeans(cs, s, c, b);
    case Update(b, data, meta) => UpdateRefines(cs, s, c, b, data, meta, rnd.id);
    case Delete(b) => DeleteRefines(cs, s, c, b, rnd.id);
    case Rotate(b) => RotateRefines(cs, s, c, b, rnd);
    case GrantRead(b, v) => GrantRefines(cs, s, c, Read, b, v, rnd.id);
    case GrantUpdate(b, v) => GrantRefines(cs, s, c, Write, b, v, rnd.id);
    case DenyRead(b, v) => DenyRefines(cs, s, c, Read, b, v, rnd.id);
    case DenyUpdate(b, v) => DenyRefines(cs, s, c, Write, b, v, rnd.id);
  }
}
