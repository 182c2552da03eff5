/** The user-level calls, each made of block-object steps against the stores, and each amounting to one
    step of the protocol. */
module MidHermes {
  import opened Base
  import opened Crypto
  import opened KeyRights
  import opened Protocol
  import opened Consistency
  import opened Tokens
  import opened StoreServers
  import opened RightsList
  import opened BlockObject
  import opened Saving

  class Session {
    const user: User
    const cs: Credentials
    const ks: KeyStore
    const ds: DataStore

    ghost predicate Valid()
      reads ks
    {
      ks.Valid() && user.sk.Some? && Registered(cs, user.id) && user.pk == cs[user.id]
    }

    function Now(): Stores
      reads ks, ds
    {
      Stores(ks.entries, ds.blocks)
    }

    function Me(): Client
      requires user.sk.Some?
    {
      Client(user.id, user.sk.value)
    }

    constructor (id: UserId, sk: SecretKey, cs: Credentials, ks: KeyStore, ds: DataStore)
      requires Registered(cs, id) && ks.Valid()
      ensures Valid() && Me() == Client(id, sk) && this.cs == cs && this.ks == ks && this.ds == ds
    {
      user := User(id, Some(sk), cs[id]);
      this.cs, this.ks, this.ds := cs, ks, ds;
    }

    method CreateBlock(wanted: Option<BlockId>, data: Bytes, meta: Bytes, rnd: Random) returns (reply: Reply)
      requires Valid() && rnd.id != []
      modifies ks, ds
      ensures Valid() && (reply, Now()) == CreateStep(cs, old(Now()), Me(), Create(wanted, data, meta), rnd)
    {
      if data == [] || meta == [] {
        return Failed(HM_INVALID_PARAMETER);
      }
      var bl := new Block(user);
      var ok := bl.InitNew(wanted, data, meta, rnd.rkey, rnd.wkey);
      if !ok {
        return Failed(HM_FAIL);
      }
      ghost var id := if wanted.Some? then wanted.value else rnd.id;
      if id != [] { SavingNew(ks.entries, id, user, rnd.rkey, rnd.wkey); }
      ok := bl.Save(null, ds, ks, rnd.id, []);
      if !ok {
        return Failed(HM_FAIL);
      }
      return Created(bl.id.value);
    }

    method ReadBlock(b: BlockId) returns (reply: Reply)
      requires Valid()
      ensures reply == ReadStep(cs, Now(), Me(), b)
    {
      if b == [] {
        return Failed(HM_INVALID_PARAMETER);
      }
      var bl := new Block(user);
      var ok := bl.Load(b, ds, ks, cs);
      if !ok {
        return Failed(HM_FAIL);
      }
      return Document(bl.data.value, bl.meta.value);
    }

    method UpdateBlock(b: BlockId, data: Bytes, meta: Bytes) returns (reply: Reply)
      requires Valid()
      modifies ks, ds
      ensures Valid() && (reply, Now()) == UpdateStep(cs, old(Now()), Me(), b, data, meta)
    {
      if b == [] || data == [] || meta == [] {
        return Failed(HM_INVALID_PARAMETER);
      }
      var bl := new Block(user);
      var ok := bl.Load(b, ds, ks, cs);
      if !ok {
        return Failed(1);
      }
      ok := bl.Update(data, meta);
      if !ok {
        return Failed(1);
      }
      ResavingIsIdle(cs, ks.entries, b, user, bl.rtoken.value, bl.wtoken.value);
      ok := bl.Save(null, ds, ks, [], []);
      if !ok {
        return Failed(1);
      }
      return Done;
    }

    // The rights list of a block the caller could load: there is an entry for the caller at least.
    method ListRights(bl: Block, b: BlockId) returns (rights: List?, ghost shares: seq<Share>)
      requires Valid() && bl.id == Some(b) && bl.user == user && (b, user.id) in ks.entries
      ensures rights == null <==> bl.mac.None? || !Listable(cs, ks.entries, b, user.id)
      ensures rights == null ==> shares == []
      ensures rights != null ==>
                && fresh(rights) && (forall i | 0 <= i < |rights.nodes| :: fresh(rights.nodes[i])) && rights.Valid()
                && Shows(rights.nodes, shares)
                && (forall i | 0 <= i < |shares| :: FromStore(cs, ks.entries, b, user.id, shares[i]))
                && (forall v :: v in Names(shares, |shares|) <==> v in Others(ks.entries, b, user.id))
                && (shares == [] <==> Others(ks.entries, b, user.id) == {})
    {
      assert user.id in ks.Listing(b);
      ks.ListingIsUsers(b);
      ListingMeans(cs, ks.entries, b, user.id, ks.Listing(b));
      rights, shares := bl.AccessRights(ks, cs);
      if rights == null {
        shares := [];
      }
    }

    method RotateBlock(b: BlockId, rnd: Random) returns (reply: Reply)
      requires Valid()
      modifies ks, ds
      ensures Valid() && (reply, Now()) == RotateStep(cs, old(Now()), Me(), b, rnd)
    {
      if b == [] {
        return Failed(HM_INVALID_PARAMETER);
      }
      var bl := new Block(user);
      var ok := bl.Load(b, ds, ks, cs);
      if !ok {
        return Failed(HM_FAIL);
      }
      ghost var shares;
      var rights;
      rights, shares := ListRights(bl, b);
      if rights == null {
        return Failed(HM_FAIL);
      }
      ok := RotateAndSave(bl, rights, b, rnd, shares);
      if !ok {
        return Failed(HM_FAIL);
      }
      return Done;
    }

    // The second half of a rotation: new keys for a loaded block and its rights list, then the save.
    method RotateAndSave(bl: Block, rights: List, b: BlockId, rnd: Random, ghost shares: seq<Share>) returns (ok: bool)
      requires Valid() && b != [] && bl.Coherent() && bl.user == user && bl.id == Some(b)
      requires bl.oldMac.None? && bl.wtoken.Some?
      requires rights.Valid() && Shows(rights.nodes, shares) && (b, user.id) in ks.entries
      requires forall i | 0 <= i < |shares| :: FromStore(cs, ks.entries, b, user.id, shares[i])
      requires forall v :: v in Names(shares, |shares|) <==> v in Others(ks.entries, b, user.id)
      modifies ks, ds, bl, rights.nodes`rtoken, rights.nodes`wtoken
      ensures Valid()
      ensures ok <==>
              && Authentic(cs, Me()) && bl.data != Some([]) && bl.meta != Some([])
              && Accepts(old(ds.blocks), b, old(bl.mac))
      ensures !ok ==> Now() == old(Now())
      ensures bl.data == old(bl.data) && bl.meta == old(bl.meta) && bl.data.Some? && bl.meta.Some?
      ensures ok ==>
                && ks.entries == RotatedKeys(cs, Me(), old(ks.entries), b, rnd)
                && ds.blocks == old(ds.blocks)[b := NewRecord(rnd.rkey, rnd.wkey, bl.data.value, bl.meta.value)]
    {
      hide SaveTokens, RotatedKeys, RewrapAll, FromStore, Others, Names;
      ok := bl.Rotate(rights, rnd.rkey, rnd.wkey, shares);
      if !ok {
        return false;
      }
      SavingRotates(cs, Me(), ks.entries, b, rnd, bl.rtoken.value, bl.wtoken.value, shares);
      ok := bl.Save(rights, ds, ks, [], RewrapAll(bl.rtoken.value, bl.wtoken.value, shares));
    }

    method DeleteBlock(b: BlockId) returns (reply: Reply)
      requires Valid()
      modifies ks, ds
      ensures Valid() && (reply, Now()) == DeleteStep(cs, old(Now()), Me(), b)
    {
      if b == [] {
        return Failed(HM_INVALID_PARAMETER);
      }
      var bl := new Block(user);
      var ok := bl.Load(b, ds, ks, cs);
      if !ok {
        return Failed(1);
      }
      ghost var shares;
      var rights;
      rights, shares := ListRights(bl, b);
      DroppingIsRefused(Drop(ks.entries, Read, b, user.id), b, user.id, shares, |shares|);
      ok := bl.Delete(rights, ds, ks, shares);
      if !ok {
        return Failed(HM_FAIL);
      }
      return Done;
    }

    // Pass the caller's own key of a block on to another user.
    method Grant(kind: Kind, b: BlockId, v: UserId) returns (reply: Reply)
      requires Valid()
      modifies ks
      ensures Valid() && (reply, Now()) == GrantStep(cs, old(Now()), Me(), kind, b, v)
    {
      if b == [] || v == [] {
        return Failed(HM_INVALID_PARAMETER);
      }
      var bl := new Block(user);
      var ok := bl.Load(b, ds, ks, cs);
      if !ok {
        return Failed(HM_FAIL);
      }
      var forUser := LoadUser(cs, v);
      var own := if kind.Read? then bl.rtoken else bl.wtoken;
      if forUser.None? || own.None? {
        return Failed(HM_FAIL);
      }
      var t := TokenForUser(own.value, forUser.value);
      if t.None? {
        return Failed(HM_FAIL);
      }
      ok := bl.PushToken(ks, kind, t.value);
      if !ok {
        return Failed(HM_FAIL);
      }
      return Done;
    }

    // Take a user's write token away, and for a denial of reading their whole entry after it.
    method Deny(kind: Kind, b: BlockId, v: UserId) returns (reply: Reply)
      requires Valid()
      modifies ks
      ensures Valid() && (reply, Now()) == DenyStep(cs, old(Now()), Me(), kind, b, v)
    {
      if b == [] || v == [] {
        return Failed(HM_INVALID_PARAMETER);
      }
      var bl := new Block(user);
      var ok := bl.Load(b, ds, ks, cs);
      if !ok {
        return Failed(HM_FAIL);
      }
      var forUser := LoadUser(cs, v);
      if forUser.None? || bl.wtoken.None? || TokenForUser(bl.wtoken.value, forUser.value).None? {
        return Failed(HM_FAIL);
      }
      assert Drop(Drop(ks.entries, Kind.Write, b, v), Read, b, v) == Drop(ks.entries, Read, b, v);
      var status := ks.Delete(Kind.Write, b, v, user.id);
      if kind.Read? {
        status := ks.Delete(Kind.Read, b, v, user.id);
      }
      if status != HM_SUCCESS {
        return Failed(HM_FAIL);
      }
      return Done;
    }
  }
}
