/** What the key-store requests of a save or a deletion add up to. */
module Saving {
  import opened Base
  import opened Crypto
  import opened KeyRights
  import opened Protocol
  import opened Consistency
  import opened Tokens
  import opened RightsList
  import opened BlockObject

  // Storing the tokens just loaded changes nothing; it is accepted when their granters still hold
  // tokens.
  lemma ResavingIsIdle(cs: Credentials, ks: KeyMap, b: BlockId, user: User, r: Token, w: Token)
    requires b != [] && user.id != []
    requires LoadToken(cs, ks, Read, b, user) == Some(r) && LoadToken(cs, ks, Write, b, user) == Some(w)
    ensures SaveTokens(ks, b, r, Some(w), []) ==
            (MaySet(ks, Read, b, user.id, r.owner.id) && MaySet(ks, Write, b, user.id, w.owner.id), ks)
  {
    assert Put(ks, Read, b, user.id, Stored(r.token, r.owner.id)) == ks;
    assert Put(ks, Write, b, user.id, Stored(w.token, w.owner.id)) == ks;
  }

  // A new document's own tokens are always accepted, and replace whatever entry the user had.
  lemma SavingNew(ks: KeyMap, b: BlockId, user: User, rkey: Key, wkey: Key)
    requires b != [] && user.id != [] && user.sk.Some?
    ensures var r, w := GenerateToken(user, rkey), GenerateToken(user, wkey);
            SaveTokens(ks, b, r, Some(w), []) ==
            (true, ks[(b, user.id) := Entry(Some(Stored(r.token, user.id)), Some(Stored(w.token, user.id)))])
  {
    var r, w := GenerateToken(user, rkey), GenerateToken(user, wkey);
    var mid := Put(ks, Read, b, user.id, Stored(r.token, user.id));
    assert Put(mid, Write, b, user.id, Stored(w.token, user.id)) ==
           ks[(b, user.id) := Entry(Some(Stored(r.token, user.id)), Some(Stored(w.token, user.id)))];
  }

  // A share as a listing makes it from the key store.
  ghost predicate FromStore(cs: Credentials, ks: KeyMap, b: BlockId, self: UserId, sh: Share) {
    var v := sh.user.id;
    && v != self && LoadUser(cs, v) == Some(sh.user) && (b, v) in ks
    && LoadToken(cs, ks, Read, b, sh.user) == Some(sh.rtoken)
    && LoadToken(cs, ks, Write, b, sh.user) == sh.wtoken
  }

  function Names(shares: seq<Share>, k: nat): set<UserId>
    requires k <= |shares|
  {
    if k == 0 then {} else Names(shares, k - 1) + {shares[k - 1].user.id}
  }

  // A listing succeeds exactly when everyone listed has credentials and a read token, and then names
  // everyone but the local user.
  lemma {:induction false} ListingNames(cs: Credentials, ks: KeyMap, b: BlockId, self: UserId, users: seq<UserId>,
                                        k: nat)
    requires k <= |users| && forall i | 0 <= i < k :: (b, users[i]) in ks
    ensures SharesOf(cs, ks, b, self, users, k).Some? <==>
            forall i | 0 <= i < k && users[i] != self ::
              Registered(cs, users[i]) && Loadable(cs, ReadOf(ks, b, users[i])).Some?
    ensures SharesOf(cs, ks, b, self, users, k).Some? ==>
              var shares := SharesOf(cs, ks, b, self, users, k).value;
              && (forall i | 0 <= i < |shares| :: FromStore(cs, ks, b, self, shares[i]))
              && (forall v :: v in Names(shares, |shares|) <==> v != self && exists i | 0 <= i < k :: users[i] == v)
  {
    if k > 0 {
      ListingNames(cs, ks, b, self, users, k - 1);
      var front := SharesOf(cs, ks, b, self, users, k - 1);
      var all := SharesOf(cs, ks, b, self, users, k);
      if all.Some? && users[k - 1] != self {
        NamesPrefix(all.value, front.value, |front.value|);
      }
    }
  }

  lemma {:induction false} NamesPrefix(long: seq<Share>, short: seq<Share>, k: nat)
    requires k <= |short| <= |long| && forall i | 0 <= i < |short| :: long[i] == short[i]
    ensures Names(long, k) == Names(short, k)
  {
    if k > 0 {
      NamesPrefix(long, short, k - 1);
    }
  }

  // The key store with the entries of some users of the block rotated.
  function RotatedFor(cs: Credentials, c: Client, ks: KeyMap, b: BlockId, rnd: Random, done: set<UserId>): KeyMap {
    map k | k in ks :: if k.0 == b && k.1 in done && k.1 in cs then RotatedEntry(cs, c, k.1, ks[k], rnd) else ks[k]
  }

  // Saving one rewrapped share rotates that user's entry, and is never refused once the rotator's
  // own tokens are in.
  lemma SaveRotatedShare(cs: Credentials, c: Client, ks: KeyMap, b: BlockId, rnd: Random, done: set<UserId>,
                         r: Token, w: Token, sh: Share)
    requires b != [] && Authentic(cs, c) && (b, c.id) in ks && c.id in done
    requires r == GenerateToken(User(c.id, Some(c.sk), cs[c.id]), rnd.rkey)
    requires w == GenerateToken(User(c.id, Some(c.sk), cs[c.id]), rnd.wkey)
    requires FromStore(cs, ks, b, c.id, sh)
    ensures var made := Rewrapped(r, w, sh);
            SaveShare(RotatedFor(cs, c, ks, b, rnd, done), b, made.rtoken, made.wtoken) ==
            (true, RotatedFor(cs, c, ks, b, rnd, done + {sh.user.id}))
  {
    var v, made := sh.user.id, Rewrapped(r, w, sh);
    var start, end := RotatedFor(cs, c, ks, b, rnd, done), RotatedFor(cs, c, ks, b, rnd, done + {v});
    assert start[(b, c.id)] == RotatedEntry(cs, c, c.id, ks[(b, c.id)], rnd);
    assert start[(b, v)] == if v in done then RotatedEntry(cs, c, v, ks[(b, v)], rnd) else ks[(b, v)];
    var mid := Put(start, Read, b, v, Stored(made.rtoken.token, c.id));
    assert SaveToken(start, Read, b, made.rtoken) == (true, mid);
    if made.wtoken.Some? {
      assert SaveToken(mid, Write, b, made.wtoken.value)
             == (true, Put(mid, Write, b, v, Stored(made.wtoken.value.token, c.id)));
      assert Put(mid, Write, b, v, Stored(made.wtoken.value.token, c.id)) == end;
    } else {
      assert mid == end;
    }
  }

  // Saving the whole rewrapped list.
  lemma {:induction false} SaveRotatedShares(
    cs: Credentials, c: Client, ks: KeyMap, b: BlockId, rnd: Random, r: Token, w: Token,
    shares: seq<Share>, made: seq<Share>, k: nat)
    requires b != [] && Authentic(cs, c) && (b, c.id) in ks && k <= |shares| == |made|
    requires r == GenerateToken(User(c.id, Some(c.sk), cs[c.id]), rnd.rkey)
    requires w == GenerateToken(User(c.id, Some(c.sk), cs[c.id]), rnd.wkey)
    requires forall i | 0 <= i < |shares| ::
               FromStore(cs, ks, b, c.id, shares[i]) && made[i] == Rewrapped(r, w, shares[i])
    ensures SaveShares(RotatedFor(cs, c, ks, b, rnd, {c.id}), b, made, k) ==
            (true, RotatedFor(cs, c, ks, b, rnd, Names(shares, k) + {c.id}))
  {
    if k == 0 {
      assert Names(shares, 0) + {c.id} == {c.id};
    } else {
      SaveRotatedShares(cs, c, ks, b, rnd, r, w, shares, made, k - 1);
      var done, sh := Names(shares, k - 1) + {c.id}, shares[k - 1];
      SaveRotatedShare(cs, c, ks, b, rnd, done, r, w, sh);
      assert done + {sh.user.id} == Names(shares, k) + {c.id};
    }
  }

  // The rotator's own tokens.
  lemma SaveOwnRotated(cs: Credentials, c: Client, ks: KeyMap, b: BlockId, rnd: Random, r: Token, w: Token)
    requires b != [] && Authentic(cs, c) && (b, c.id) in ks
    requires r == GenerateToken(User(c.id, Some(c.sk), cs[c.id]), rnd.rkey)
    requires w == GenerateToken(User(c.id, Some(c.sk), cs[c.id]), rnd.wkey)
    ensures SaveShare(ks, b, r, Some(w)) == (true, RotatedFor(cs, c, ks, b, rnd, {c.id}))
  {
    var mid := Put(ks, Read, b, c.id, Stored(r.token, c.id));
    assert SaveToken(ks, Read, b, r) == (true, mid);
    assert SaveToken(mid, Write, b, w) == (true, Put(mid, Write, b, c.id, Stored(w.token, c.id)));
    assert Put(mid, Write, b, c.id, Stored(w.token, c.id)) == RotatedFor(cs, c, ks, b, rnd, {c.id});
  }

  // Once everyone listed has been served, that is every entry of the block.
  lemma RotatedForAll(cs: Credentials, c: Client, ks: KeyMap, b: BlockId, rnd: Random, shares: seq<Share>)
    requires Authentic(cs, c)
    requires forall i | 0 <= i < |shares| :: FromStore(cs, ks, b, c.id, shares[i])
    requires forall v :: v in Names(shares, |shares|) <==> v in Others(ks, b, c.id)
    ensures RotatedFor(cs, c, ks, b, rnd, Names(shares, |shares|) + {c.id}) == RotatedKeys(cs, c, ks, b, rnd)
  {
    forall k | k in ks && k.0 == b
      ensures k.1 in Names(shares, |shares|) + {c.id} && (k.1 in cs <==> Registered(cs, k.1))
    {
      assert (b, k.1) == k;
      UserListed(ks, b, k.1);
      if k.1 != c.id { NamedFromStore(cs, ks, b, c.id, shares, |shares|, k.1); }
    }
  }

  // Nobody is refused in a rotation's save, and every entry of the block comes out rotated.
  lemma SavingRotates(cs: Credentials, c: Client, ks: KeyMap, b: BlockId, rnd: Random, r: Token, w: Token,
                      shares: seq<Share>)
    requires b != [] && Authentic(cs, c) && (b, c.id) in ks
    requires r == GenerateToken(User(c.id, Some(c.sk), cs[c.id]), rnd.rkey)
    requires w == GenerateToken(User(c.id, Some(c.sk), cs[c.id]), rnd.wkey)
    requires forall i | 0 <= i < |shares| :: FromStore(cs, ks, b, c.id, shares[i])
    requires forall v :: v in Names(shares, |shares|) <==> v in Others(ks, b, c.id)
    ensures SaveTokens(ks, b, r, Some(w), RewrapAll(r, w, shares)) ==
            (true, RotatedKeys(cs, c, ks, b, rnd))
  {
    SaveOwnRotated(cs, c, ks, b, rnd, r, w);
    SaveRotatedShares(cs, c, ks, b, rnd, r, w, shares, RewrapAll(r, w, shares), |shares|);
    RotatedForAll(cs, c, ks, b, rnd, shares);
  }

  lemma {:induction false} NamedFromStore(cs: Credentials, ks: KeyMap, b: BlockId, self: UserId, shares: seq<Share>,
                                          k: nat, v: UserId)
    requires k <= |shares| && v in Names(shares, k)
    requires forall i | 0 <= i < |shares| :: FromStore(cs, ks, b, self, shares[i])
    ensures Registered(cs, v)
  {
    if shares[k - 1].user.id != v {
      NamedFromStore(cs, ks, b, self, shares, k - 1, v);
    }
  }

  // After the deleter's own entry is gone, the first deletion for anyone else is refused.
  lemma {:induction false} DroppingIsRefused(ks: KeyMap, b: BlockId, requester: UserId, shares: seq<Share>, k: nat)
    requires k <= |shares| && !Holds(ks, Write, b, requester)
    ensures DropShares(ks, b, requester, shares, k) == (k == 0, ks)
  {
    if k > 0 {
      DroppingIsRefused(ks, b, requester, shares, k - 1);
    }
  }

  // What a rights list read off the key store tells: whether it exists, and whom it names.
  lemma ListingMeans(cs: Credentials, ks: KeyMap, b: BlockId, self: UserId, users: seq<UserId>)
    requires forall u :: u in users <==> u in UsersOf(ks, b)
    ensures SharesOf(cs, ks, b, self, users, |users|).Some? <==> Listable(cs, ks, b, self)
    ensures SharesOf(cs, ks, b, self, users, |users|).Some? ==>
              var shares := SharesOf(cs, ks, b, self, users, |users|).value;
              && (forall i | 0 <= i < |shares| :: FromStore(cs, ks, b, self, shares[i]))
              && (forall v :: v in Names(shares, |shares|) <==> v in Others(ks, b, self))
              && (shares == [] <==> Others(ks, b, self) == {})
  {
    forall i | 0 <= i < |users| ensures (b, users[i]) in ks {
      UserListed(ks, b, users[i]);
      assert users[i] in users;
    }
    ListingNames(cs, ks, b, self, users, |users|);
    var all := SharesOf(cs, ks, b, self, users, |users|);
    forall v | v in Others(ks, b, self) ensures exists i | 0 <= i < |users| :: users[i] == v {
      assert v in users;
    }
    if all.Some? && all.value != [] {
      assert all.value[|all.value| - 1].user.id in Names(all.value, |all.value|);
    }
  }
}
