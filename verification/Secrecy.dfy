/**
  Who can read a document: someone who sees everything in both stores, holds some private keys and
  remembers some read and write keys.
 */
module Secrecy {
  import opened Base
  import opened Crypto
  import opened KeyRights
  import opened Protocol
  import opened Consistency
  import opened DocumentTable
  import opened Runs
  import opened Access

  // A key wrapped in some stored token.
  ghost predicate InToken(ks: KeyMap, kind: Kind, b: BlockId, u: UserId, k: Key) {
    Holds(ks, kind, b, u) && Lookup(ks, kind, b, u).value.token.secret == k
  }

  // The drawn read key is in no stored token and on no stored document, and the drawn write key is
  // not a read key.
  ghost predicate Unused(s: Stores, rnd: Random) {
    && rnd.rkey != rnd.wkey
    && (forall kind, b, u :: !InToken(s.ks, kind, b, u, rnd.rkey))
    && (forall b | b in s.ds :: rnd.rkey != s.ds[b].block.key && rnd.rkey != s.ds[b].mac.key)
    && (forall b | b in s.ds :: rnd.wkey != s.ds[b].block.key)
  }

  // A creation and a rotation draw keys.
  ghost predicate DrawsUnused(s: Stores, e: Event) {
    e.call.Create? || e.call.Rotate? ==> Unused(s, e.rnd)
  }

  ghost predicate UnusedDraws(cs: Credentials, es: seq<Event>) {
    es == [] ||
    (UnusedDraws(cs, es[..|es| - 1]) && DrawsUnused(After(cs, es[..|es| - 1]), es[|es| - 1]))
  }

  // The read key of a document is in no token but the read tokens of that document, and on no other
  // document.
  ghost predicate KeysApart(s: Stores) {
    && (forall b, c | b in s.ds && c in s.ds :: s.ds[b].block.key != s.ds[c].mac.key)
    && (forall b, c | b in s.ds && c in s.ds && b != c :: s.ds[b].block.key != s.ds[c].block.key)
    && (forall b, kind, c, u | b in s.ds && InToken(s.ks, kind, c, u, s.ds[b].block.key) :: kind.Read? && c == b)
  }

  // What a load gives the caller: the read key that is on the document, and a write key out of a
  // write token.
  lemma LoadedKeys(cs: Credentials, s: Stores, c: Client, b: BlockId)
    ensures var o := Load(cs, s, c, b);
            o.Some? ==> b in s.ds && o.value.rkey == s.ds[b].block.key
                        && (o.value.wkey.Some? ==> InToken(s.ks, Write, b, c.id, o.value.wkey.value))
  {
  }

  lemma PutTokens(ks: KeyMap, kind: Kind, b: BlockId, v: UserId, t: Stored)
    ensures forall other, c, u, k :: InToken(Put(ks, kind, b, v, t), other, c, u, k) ==>
              (other == kind && c == b && k == t.token.secret) || InToken(ks, other, c, u, k)
  {
  }

  lemma DropTokens(ks: KeyMap, kind: Kind, b: BlockId, v: UserId)
    ensures forall other, c, u, k :: InToken(Drop(ks, kind, b, v), other, c, u, k) ==> InToken(ks, other, c, u, k)
  {
  }

  lemma RotatedTokens(cs: Credentials, c: Client, ks: KeyMap, b: BlockId, rnd: Random)
    ensures forall kind, d, u, k :: InToken(RotatedKeys(cs, c, ks, b, rnd), kind, d, u, k) ==>
              (d == b && k == if kind.Read? then rnd.rkey else rnd.wkey) || InToken(ks, kind, d, u, k)
  {
  }

  lemma CreateKeepsApart(cs: Credentials, s: Stores, c: Client, call: Call, rnd: Random)
    requires KeysApart(s) && Unused(s, rnd) && call.Create?
    ensures KeysApart(CreateStep(cs, s, c, call, rnd).1)
  {
    var s' := CreateStep(cs, s, c, call, rnd).1;
    forall kind, b, u, k | InToken(s'.ks, kind, b, u, k)
      ensures InToken(s.ks, kind, b, u, k) || (s' != s && k == if kind.Read? then rnd.rkey else rnd.wkey)
      ensures InToken(s.ks, kind, b, u, k) || b == CreateStep(cs, s, c, call, rnd).0.id
    {
    }
    hide InToken;
  }

  lemma UpdateKeepsApart(cs: Credentials, s: Stores, c: Client, b: BlockId, data: Bytes, meta: Bytes)
    requires KeysApart(s)
    ensures KeysApart(UpdateStep(cs, s, c, b, data, meta).1)
  {
    hide Load;
    LoadedKeys(cs, s, c, b);
  }

  lemma RotateKeepsApart(cs: Credentials, s: Stores, c: Client, b: BlockId, rnd: Random)
    requires KeysApart(s) && Unused(s, rnd)
    ensures KeysApart(RotateStep(cs, s, c, b, rnd).1)
  {
    hide Load, Listable, RotatedKeys, InToken;
    RotatedTokens(cs, c, s.ks, b, rnd);
  }

  lemma GrantKeepsApart(cs: Credentials, s: Stores, c: Client, kind: Kind, b: BlockId, v: UserId)
    requires KeysApart(s)
    ensures KeysApart(GrantStep(cs, s, c, kind, b, v).1)
  {
    hide Load, Put, InToken;
    LoadedKeys(cs, s, c, b);
    var o := Load(cs, s, c, b);
    if o.Some? && v in cs && (kind.Write? ==> o.value.wkey.Some?) {
      var secret := if kind.Read? then o.value.rkey else o.value.wkey.value;
      PutTokens(s.ks, kind, b, v, Stored(Wrap(c.sk, cs[v], secret), c.id));
    }
  }

  lemma DropKeepsApart(s: Stores, s': Stores, kind: Kind, b: BlockId, v: UserId)
    requires KeysApart(s) && s'.ks == Drop(s.ks, kind, b, v)
    requires forall c | c in s'.ds :: c in s.ds && s'.ds[c] == s.ds[c]
    ensures KeysApart(s')
  {
    hide Drop, InToken;
    DropTokens(s.ks, kind, b, v);
  }

  // Every call keeps the read keys apart, from any state in which they are.
  lemma StepKeepsApart(cs: Credentials, s: Stores, e: Event)
    requires KeysApart(s) && DrawsUnused(s, e)
    ensures KeysApart(Step(cs, s, e.c, e.call, e.rnd).1)
  {
    hide KeysApart, Unused;
    var s' := Step(cs, s, e.c, e.call, e.rnd).1;
    match e.call
    case Create(_, _, _) => CreateKeepsApart(cs, s, e.c, e.call, e.rnd);
    case ReadDoc(_) =>
    case Update(b, data, meta) => UpdateKeepsApart(cs, s, e.c, b, data, meta);
    case Delete(b) => if s' != s { DropKeepsApart(s, s', Read, b, e.c.id); }
    case Rotate(b) => RotateKeepsApart(cs, s, e.c, b, e.rnd);
    case GrantRead(b, v) => GrantKeepsApart(cs, s, e.c, Read, b, v);
    case GrantUpdate(b, v) => GrantKeepsApart(cs, s, e.c, Write, b, v);
    case DenyRead(b, v) =>
      if s' != s { DropKeepsApart(s, s', if v == e.c.id then Write else Read, b, v); }
    case DenyUpdate(b, v) => if s' != s { DropKeepsApart(s, s', Write, b, v); }
  }

  lemma {:induction false} RunKeepsApart(cs: Credentials, es: seq<Event>)
    requires UnusedDraws(cs, es)
    ensures KeysApart(After(cs, es))
  {
    if es != [] {
      var before, e := es[..|es| - 1], es[|es| - 1];
      RunKeepsApart(cs, before);
      StepKeepsApart(cs, After(cs, before), e);
    }
  }

  // Some stored token opens to the key with one of these private keys; public keys are known to all.
  ghost predicate Unwraps(sks: set<SecretKey>, ks: KeyMap, k: Key) {
    exists kind, b, u, sk, sender | sk in sks && Holds(ks, kind, b, u) ::
      Unwrap(sk, sender, Lookup(ks, kind, b, u).value.token) == Some(k)
  }

  // The stored document opens with a remembered key, or with one out of a stored token.
  ghost predicate CanOpen(sks: set<SecretKey>, keys: set<Key>, s: Stores, b: BlockId)
    requires b in s.ds
  {
    exists k | k in keys || Unwraps(sks, s.ks, k) :: Decrypt(k, s.ds[b].block, s.ds[b].meta).Some?
  }

  // After any run in which no identifier is reused while others hold rights on it and every drawn key
  // is new: whoever sees both stores, holds these private keys and remembers these keys can open a
  // document exactly when its present read key is among those remembered, or one of the private keys is
  // that of a user who can read it now, by the plain table.
  lemma OpensExactlyWhen(cs: Credentials, es: seq<Event>, sks: set<SecretKey>, keys: set<Key>, b: BlockId)
    requires NoReuse(cs, es) && UnusedDraws(cs, es) && b in After(cs, es).ds
    ensures CanOpen(sks, keys, After(cs, es), b) <==>
            After(cs, es).ds[b].block.key in keys
            || exists u | CanRead(TableAfter(cs, es), b, u) :: u in cs && cs[u].sk in sks
  {
    hide After, TableAfter, NoReuse, UnusedDraws;
    RunRefinesTable(cs, es);
    RunKeepsApart(cs, es);
    var s := After(cs, es);
    var key := s.ds[b].block.key;
    UnwrapsExactlyWhen(cs, s, sks, b);
    assert forall u :: CanRead(Abs(s), b, u) <==> Holds(s.ks, Read, b, u);
    assert BlockConsistent(cs, s, b);
    assert Decrypt(key, s.ds[b].block, s.ds[b].meta).Some?;
  }

  lemma UnwrapsExactlyWhen(cs: Credentials, s: Stores, sks: set<SecretKey>, b: BlockId)
    requires Consistent(cs, s) && KeysApart(s) && b in s.ds
    ensures Unwraps(sks, s.ks, s.ds[b].block.key) <==>
            exists u | Holds(s.ks, Read, b, u) :: u in cs && cs[u].sk in sks
  {
    var key := s.ds[b].block.key;
    forall u | Holds(s.ks, Read, b, u) ensures Opens(cs, u, ReadOf(s.ks, b, u).value, key) {
      UserListed(s.ks, b, u);
      assert BlockConsistent(cs, s, b);
      assert EntryOpens(cs, u, s.ks[(b, u)], s.ds[b]);
    }
    if u :| Holds(s.ks, Read, b, u) && u in cs && cs[u].sk in sks {
      var t := Lookup(s.ks, Read, b, u).value;
      assert Unwrap(cs[u].sk, cs[t.owner], t.token) == Some(key);
    }
    if kind, c, u, sk, sender :| sk in sks && Holds(s.ks, kind, c, u)
                                 && Unwrap(sk, sender, Lookup(s.ks, kind, c, u).value.token) == Some(key) {
      assert InToken(s.ks, kind, c, u, key);
      assert Holds(s.ks, Read, b, u) && cs[u].sk == sk;
    }
  }

  // The stores alone open nothing.
  lemma StoresOpenNothing(cs: Credentials, es: seq<Event>, b: BlockId)
    requires NoReuse(cs, es) && UnusedDraws(cs, es) && b in After(cs, es).ds
    ensures !CanOpen({}, {}, After(cs, es), b)
  {
    OpensExactlyWhen(cs, es, {}, {}, b);
  }

  // A rotation makes the keys remembered so far worthless: only the private key of a present reader
  // opens the document after it.
  lemma RotationShutsOut(cs: Credentials, es: seq<Event>, e: Event, sks: set<SecretKey>, keys: set<Key>, b: BlockId)
    requires NoReuse(cs, es) && UnusedDraws(cs, es + [e]) && e.call == Rotate(b) && e.rnd.rkey !in keys
    requires Step(cs, After(cs, es), e.c, e.call, e.rnd).0.Done?
    ensures b in After(cs, es + [e]).ds
    ensures CanOpen(sks, keys, After(cs, es + [e]), b) <==>
            exists u | CanRead(TableAfter(cs, es), b, u) :: u in cs && cs[u].sk in sks
  {
    hide RotateStep, UnusedDraws, NoReuse, CanOpen, Consistent;
    RunRefinesTable(cs, es);
    Snoc(cs, es, e);
    RotationPreserves(cs, After(cs, es), e.c, b, e.rnd);
    RotationCreatesNothing(cs, es, e);
    OpensExactlyWhen(cs, es + [e], sks, keys, b);
    RunRefinesTable(cs, es + [e]);
    var t, t' := TableAfter(cs, es), TableAfter(cs, es + [e]);
    forall u ensures CanRead(t, b, u) == CanRead(t', b, u) {
      assert CanRead(t, b, u) == Holds(After(cs, es).ks, Read, b, u);
      assert CanRead(t', b, u) == Holds(After(cs, es + [e]).ks, Read, b, u);
    }
  }

  // A rotation creates no document.
  lemma RotationCreatesNothing(cs: Credentials, es: seq<Event>, e: Event)
    requires e.call.Rotate?
    ensures Unclaimed(cs, TableAfter(cs, es), e)
  {
    hide TableAfter;
  }
}
