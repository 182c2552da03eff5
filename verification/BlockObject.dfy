/** The block object of one client: its fields, what loading, updating and rotating make of them, and
    what saving and deleting do to the stores. */
module BlockObject {
  import opened Base
  import opened Crypto
  import opened KeyRights
  import opened Protocol
  import opened Tokens
  import opened StoreServers
  import opened RightsList

  // Storing one token is a key-store request in the names the token carries.
  function SaveToken(ks: KeyMap, kind: Kind, b: BlockId, t: Token): (bool, KeyMap) {
    var (status, ks') := SetToken(ks, kind, b, t.user.id, t.owner.id, t.token);
    (status == HM_SUCCESS, ks')
  }

  // Storing a user's tokens, the read token first, stopping at the first refusal.
  function SaveShare(ks: KeyMap, b: BlockId, r: Token, w: Option<Token>): (bool, KeyMap) {
    var (ok, ks') := SaveToken(ks, Read, b, r);
    if !ok || w.None? then (ok, ks') else SaveToken(ks', Write, b, w.value)
  }

  // The first `k` shares of the rights list, stopping at the first refusal.
  function SaveShares(ks: KeyMap, b: BlockId, shares: seq<Share>, k: nat): (bool, KeyMap)
    requires k <= |shares|
  {
    if k == 0 then (true, ks)
    else
      var (ok, ks') := SaveShares(ks, b, shares, k - 1);
      if ok then SaveShare(ks', b, shares[k - 1].rtoken, shares[k - 1].wtoken) else (false, ks')
  }

  // Storing everything a block saves: the user's own tokens, both required, then the rights list.
  function SaveTokens(ks: KeyMap, b: BlockId, r: Token, w: Option<Token>, shares: seq<Share>): (bool, KeyMap) {
    var (ok, ks') := SaveShare(ks, b, r, w);
    if !ok || w.None? then (false, ks') else SaveShares(ks', b, shares, |shares|)
  }

  // Deleting the entries of the first `k` listed users, in the name of one requester, stopping at
  // the first refusal.
  function DropShares(ks: KeyMap, b: BlockId, requester: UserId, shares: seq<Share>, k: nat): (bool, KeyMap)
    requires k <= |shares|
  {
    if k == 0 then (true, ks)
    else
      var (ok, ks') := DropShares(ks, b, requester, shares, k - 1);
      if ok then DropShare(ks', b, requester, shares[k - 1]) else (false, ks')
  }

  // Read token and entry in the requester's name, then the write token in its owner's name.
  function DropShare(ks: KeyMap, b: BlockId, requester: UserId, sh: Share): (bool, KeyMap) {
    var (status, ks') := DelToken(ks, Read, b, sh.rtoken.user.id, requester);
    if status != HM_SUCCESS || sh.wtoken.None? then (status == HM_SUCCESS, ks')
    else
      var (status', ks'') := DelToken(ks', Write, b, sh.wtoken.value.user.id, sh.wtoken.value.owner.id);
      (status' == HM_SUCCESS, ks'')
  }

  // The stored token a user loads, when its owner has credentials.
  function LoadToken(cs: Credentials, ks: KeyMap, kind: Kind, b: BlockId, user: User): Option<Token> {
    var t := Loadable(cs, Lookup(ks, kind, b, user.id));
    if t.None? then None else Some(Token(user, User(t.value.owner, None, cs[t.value.owner]), t.value.token))
  }

  // The rights list made of the first `k` users of a directory, the local user left out; nothing
  // when one of them has no credentials or no read token.
  function SharesOf(cs: Credentials, ks: KeyMap, b: BlockId, self: UserId, users: seq<UserId>, k: nat)
    : Option<seq<Share>>
    requires k <= |users|
  {
    if k == 0 then Some([])
    else
      var front, v := SharesOf(cs, ks, b, self, users, k - 1), users[k - 1];
      if front.None? || v == self then front
      else
        var user := LoadUser(cs, v);
        if user.None? then None
        else
          var r := LoadToken(cs, ks, Read, b, user.value);
          if r.None? then None
          else Some(front.value + [Share(user.value, r.value, LoadToken(cs, ks, Write, b, user.value))])
  }

  // A share after a rotation: both keys wrapped anew for its user, the write key only if they had
  // one before.
  function Rewrapped(r: Token, w: Token, sh: Share): Share
    requires TokenData(r).Some?
  {
    Share(sh.user, TokenForUser(r, sh.user).value, if sh.wtoken.Some? then TokenForUser(w, sh.user) else None)
  }

  function RewrapAll(r: Token, w: Token, shares: seq<Share>): (out: seq<Share>)
    requires TokenData(r).Some?
  {
    seq(|shares|, i requires 0 <= i < |shares| => Rewrapped(r, w, shares[i]))
  }

  // The list with its first `k` nodes rewrapped.
  ghost predicate Partly(nodes: seq<Node>, before: seq<Share>, k: int, r: Token, w: Token)
    requires TokenData(r).Some?
    reads nodes`rtoken, nodes`wtoken
  {
    |nodes| == |before| &&
    forall i {:trigger nodes[i].View()} | 0 <= i < |nodes| ::
      nodes[i].View() == if i < k then Rewrapped(r, w, before[i]) else before[i]
  }

  // One node of the list: the tokens of its user are replaced, everybody else's stay.
  method RewrapNode(rights: List, node: Node, r: Token, w: Token, ghost at: nat, ghost before: seq<Share>)
    requires TokenData(r).Some? && rights.Valid() && Partly(rights.nodes, before, at, r, w)
    requires at < |rights.nodes| && rights.nodes[at] == node
    modifies node`rtoken, node`wtoken
    ensures Partly(rights.nodes, before, at + 1, r, w)
  {
    assert node.View() == rights.nodes[at].View();
    var nw: Option<Token> := None;
    if node.wtoken.Some? {
      nw := TokenForUser(w, node.user);
    }
    node.rtoken := TokenForUser(r, node.user).value;
    node.wtoken := nw;
  }

  method RewrapShares(rights: List, r: Token, w: Token, ghost before: seq<Share>)
    requires rights.Valid() && TokenData(r).Some? && Shows(rights.nodes, before)
    modifies rights.nodes`rtoken, rights.nodes`wtoken
    ensures Shows(rights.nodes, RewrapAll(r, w, before))
  {
    ghost var k := 0;
    var node, cursor := rights.Next(rights.head, 0);
    while node != null
      invariant k <= |before| && node == At(rights.nodes, k) && cursor == At(rights.nodes, k + 1)
      invariant Partly(rights.nodes, before, k, r, w)
      decreases |rights.nodes| - k
    {
      RewrapNode(rights, node, r, w, k, before);
      k := k + 1;
      node, cursor := rights.Next(cursor, k);
    }
  }

  class Block {
    var user: User
    var id: Option<BlockId>
    var block: Option<Cipher>
    var data: Option<Bytes>
    var meta: Option<Bytes>
    var oldMac: Option<Tag>
    var mac: Option<Tag>
    var rtoken: Option<Token>
    var wtoken: Option<Token>

    // The ciphertext and the tag are those of the current data and metadata under the keys inside
    // the current tokens.
    ghost predicate Coherent()
      reads this
    {
      && rtoken.Some? && data.Some? && meta.Some? && TokenData(rtoken.value).Some?
      && block == Some(Seal(TokenData(rtoken.value).value, data.value, meta.value))
      && (wtoken.None? ==> mac.None? && oldMac.None?)
      && (wtoken.Some? ==>
            && TokenData(wtoken.value).Some?
            && mac == Some(Tag(TokenData(wtoken.value).value, data.value + meta.value)))
    }

    // The tag that stands for what the data store holds.
    function Standing(): Option<Tag>
      reads this
    {
      if oldMac.Some? then oldMac else mac
    }

    constructor (user: User)
      ensures this.user == user && id.None? && block.None? && data.None? && meta.None?
      ensures oldMac.None? && mac.None? && rtoken.None? && wtoken.None?
    {
      this.user := user;
      id, block, data, meta, oldMac, mac, rtoken, wtoken := None, None, None, None, None, None, None, None;
    }

    // A new document: tokens for the user alone, around freshly drawn keys.
    method InitNew(wanted: Option<BlockId>, newData: Bytes, newMeta: Bytes, rkey: Key, wkey: Key) returns (ok: bool)
      requires user.sk.Some?
      modifies this
      ensures user == old(user)
      ensures ok <==> user.pk == PublicOf(user.sk.value) && newData != []
      ensures ok ==>
                && Coherent() && id == wanted && data == Some(newData) && meta == Some(newMeta) && oldMac == old(oldMac)
                && rtoken == Some(GenerateToken(user, rkey)) && TokenData(rtoken.value) == Some(rkey)
                && wtoken == Some(GenerateToken(user, wkey)) && TokenData(wtoken.value) == Some(wkey)
    {
      rtoken := Some(GenerateToken(user, rkey));
      wtoken := Some(GenerateToken(user, wkey));
      var rt := TokenData(rtoken.value);
      if rt.None? {
        return false;
      }
      block := Encrypt(rt.value, newData, newMeta);
      if block.None? {
        return false;
      }
      var wt := TokenData(wtoken.value);
      if wt.None? {
        return false;
      }
      mac := MacCreate(wt.value, newData, newMeta);
      if mac.None? {
        return false;
      }
      id, meta, data := wanted, Some(newMeta), Some(newData);
      return true;
    }

    // A stored document opened with the user's tokens; the tag is recomputed, never fetched.
    method InitLoaded(b: BlockId, cipher: Cipher, newMeta: Bytes, r: Token, w: Option<Token>) returns (ok: bool)
      requires wtoken.None? && mac.None? && oldMac.None?
      modifies this
      ensures ok <==>
              && TokenData(r).Some? && Decrypt(TokenData(r).value, cipher, newMeta).Some?
              && (w.Some? ==> TokenData(w.value).Some? && Decrypt(TokenData(r).value, cipher, newMeta).value != [])
      ensures user == old(user)
      ensures ok ==>
                && Coherent() && id == Some(b)
                && data == Decrypt(TokenData(r).value, cipher, newMeta) && meta == Some(newMeta)
                && block == Some(cipher) && oldMac.None? && rtoken == Some(r) && wtoken == w
    {
      var rt := TokenData(r);
      if rt.None? {
        return false;
      }
      data := Decrypt(rt.value, cipher, newMeta);
      if data.None? {
        return false;
      }
      if w.Some? {
        var wt := TokenData(w.value);
        if wt.None? {
          return false;
        }
        mac := MacCreate(wt.value, data.value, newMeta);
        if mac.None? {
          return false;
        }
      }
      id, meta, block, rtoken, wtoken := Some(b), Some(newMeta), Some(cipher), Some(r), w;
      return true;
    }

    // New content under the same keys.  The tag the store holds stays on record until a save.
    method Update(newData: Bytes, newMeta: Bytes) returns (ok: bool)
      requires Coherent()
      modifies this
      ensures ok <==> old(wtoken).Some? && newData != []
      ensures Coherent() && Standing() == old(Standing())
      ensures user == old(user) && id == old(id) && rtoken == old(rtoken) && wtoken == old(wtoken)
      ensures ok ==> data == Some(newData) && meta == Some(newMeta) && oldMac.Some?
      ensures !ok ==> data == old(data) && meta == old(meta) && oldMac == old(oldMac)
    {
      if rtoken.None? || wtoken.None? {
        return false;
      }
      var rt, wt := TokenData(rtoken.value), TokenData(wtoken.value);
      if rt.None? || wt.None? {
        return false;
      }
      var newBlock, newMac := Encrypt(rt.value, newData, newMeta), MacCreate(wt.value, newData, newMeta);
      if newBlock.None? || newMac.None? {
        return false;
      }
      meta, data, block := Some(newMeta), Some(newData), newBlock;
      if oldMac.None? {
        oldMac := mac;
      }
      mac := newMac;
      return true;
    }

    // The same content under new keys, wrapped for the user and for everybody on the list.
    method Rotate(rights: List, rkey: Key, wkey: Key, ghost before: seq<Share>) returns (ok: bool)
      requires Coherent() && user.sk.Some? && rights.Valid() && Shows(rights.nodes, before)
      modifies this, rights.nodes`rtoken, rights.nodes`wtoken
      ensures user == old(user) && id == old(id) && data == old(data) && meta == old(meta)
      ensures ok <==> old(wtoken).Some? && user.pk == PublicOf(user.sk.value) && data != Some([])
      ensures Coherent() && Standing() == old(Standing())
      ensures ok ==>
                && rtoken == Some(GenerateToken(user, rkey)) && TokenData(rtoken.value) == Some(rkey)
                && wtoken == Some(GenerateToken(user, wkey)) && TokenData(wtoken.value) == Some(wkey)
                && oldMac.Some?
                && Shows(rights.nodes, RewrapAll(rtoken.value, wtoken.value, before))
      ensures !ok ==>
                && rtoken == old(rtoken) && wtoken == old(wtoken) && oldMac == old(oldMac)
                && Shows(rights.nodes, before)
    {
      if rtoken.None? || wtoken.None? {
        return false;
      }
      var newRead, newWrite := GenerateToken(user, rkey), GenerateToken(user, wkey);
      var rt, wt := TokenData(newRead), TokenData(newWrite);
      if rt.None? || wt.None? {
        return false;
      }
      var newBlock, newMac := Encrypt(rt.value, data.value, meta.value), MacCreate(wt.value, data.value, meta.value);
      if newBlock.None? || newMac.None? {
        return false;
      }
      rtoken, wtoken, block := Some(newRead), Some(newWrite), newBlock;
      if oldMac.None? {
        oldMac := mac;
      }
      mac := newMac;
      RewrapShares(rights, newRead, newWrite, before);
      return true;
    }

    // The stored token of a user for this block, as loaded through the key store.
    method FetchToken(ks: KeyStore, cs: Credentials, kind: Kind, b: BlockId, holder: User) returns (t: Option<Token>)
      ensures t == LoadToken(cs, ks.entries, kind, b, holder)
    {
      var stored := ks.ReadFiles(kind, b, holder.id);
      if stored.None? {
        return None;
      }
      var owner := LoadUser(cs, stored.value.owner);
      if owner.None? {
        return None;
      }
      return Some(Token(holder, owner.value, stored.value.token));
    }

    // Load a block through the three stores.
    method Load(b: BlockId, ds: DataStore, ks: KeyStore, cs: Credentials) returns (ok: bool)
      requires b != [] && user.sk.Some? && wtoken.None? && mac.None? && oldMac.None?
      modifies this
      ensures user == old(user)
      ensures var o := Protocol.Load(cs, Stores(ks.entries, ds.blocks), Client(user.id, user.sk.value), b);
              && (ok <==> o.Some?)
              && (ok ==>
                    && Coherent() && id == Some(b) && oldMac.None?
                    && data == Some(o.value.data) && meta == Some(o.value.meta)
                    && rtoken == LoadToken(cs, ks.entries, Read, b, user)
                    && TokenData(rtoken.value) == Some(o.value.rkey)
                    && wtoken == LoadToken(cs, ks.entries, Write, b, user)
                    && o.value.wkey == (if wtoken.Some? then TokenData(wtoken.value) else None))
    {
      var r := FetchToken(ks, cs, Read, b, user);
      var w := FetchToken(ks, cs, Write, b, user);
      if r.None? {
        return false;
      }
      var stored := ds.GetBlock(b);
      if stored.None? {
        return false;
      }
      ok := InitLoaded(b, stored.value.0, stored.value.1, r.value, w);
    }

    // One directory entry: the local user is passed over, anyone else is added if they have
    // credentials and a read token.
    method Visit(list: List, ks: KeyStore, cs: Credentials, v: UserId,
                 ghost users: seq<UserId>, ghost k: nat, ghost shares: seq<Share>)
      returns (ok: bool, ghost more: seq<Share>)
      requires id.Some? && list.Valid() && Shows(list.nodes, shares)
      requires k < |users| && users[k] == v && SharesOf(cs, ks.entries, id.value, user.id, users, k) == Some(shares)
      modifies list, list.End()`next
      ensures list.Valid() && Shows(list.nodes, more)
      ensures old(list.nodes) <= list.nodes && |list.nodes| <= old(|list.nodes|) + 1
      ensures |list.nodes| > old(|list.nodes|) ==> fresh(list.nodes[|list.nodes| - 1])
      ensures SharesOf(cs, ks.entries, id.value, user.id, users, k + 1) == if ok then Some(more) else None
    {
      more := shares;
      if v == user.id {
        return true, more;
      }
      var holder := LoadUser(cs, v);
      if holder.None? {
        return false, more;
      }
      var r := FetchToken(ks, cs, Read, id.value, holder.value);
      var w := FetchToken(ks, cs, Write, id.value, holder.value);
      if r.None? {
        return false, more;
      }
      list.RPushVal(holder.value, r.value, w, shares);
      return true, shares + [Share(holder.value, r.value, w)];
    }

    // The rights list, read off the key store one directory entry at a time.
    method AccessRights(ks: KeyStore, cs: Credentials) returns (rights: List?, ghost shares: seq<Share>)
      requires id.Some? && ks.Valid() && ks.Listing(id.value) != []
      ensures var users := ks.Listing(id.value);
              rights == null <==> mac.None? || SharesOf(cs, ks.entries, id.value, user.id, users, |users|).None?
      ensures rights != null ==>
                && fresh(rights) && (forall i | 0 <= i < |rights.nodes| :: fresh(rights.nodes[i])) && rights.Valid()
                && Shows(rights.nodes, shares)
                && var users := ks.Listing(id.value);
                   Some(shares) == SharesOf(cs, ks.entries, id.value, user.id, users, |users|)
    {
      rights, shares := null, [];
      if mac.None? {
        return;
      }
      hide SharesOf, PromisedMask, RightsAt, Holds;
      var list := new List();
      ghost var users := ks.Listing(id.value);
      NoShares(cs, ks.entries, id.value, user.id, users);
      var index := 0;
      var entry := ks.IndexedRights(id.value, index);
      while entry.Some?
        invariant list.Valid() && fresh(list) && forall i | 0 <= i < |list.nodes| :: fresh(list.nodes[i])
        invariant Shows(list.nodes, shares) && index <= |users|
        invariant (entry.Some? <==> index < |users|) && (entry.Some? ==> entry.value.0 == users[index])
        invariant SharesOf(cs, ks.entries, id.value, user.id, users, index) == Some(shares)
        decreases |users| - index
      {
        var ok;
        ok, shares := Visit(list, ks, cs, entry.value.0, users, index, shares);
        index := index + 1;
        if !ok {
          PrefixFails(cs, ks.entries, id.value, user.id, users, index, |users|);
          return;
        }
        entry := ks.IndexedRights(id.value, index);
      }
      rights := list;
    }

    method PushToken(ks: KeyStore, kind: Kind, t: Token) returns (ok: bool)
      requires id.Some? && ks.Valid()
      modifies ks
      ensures ks.Valid() && (ok, ks.entries) == SaveToken(old(ks.entries), kind, id.value, t)
    {
      var status := ks.Set(kind, id.value, t.user.id, t.owner.id, t.token);
      ok := status == HM_SUCCESS;
    }

    method PushTokens(ks: KeyStore, r: Token, w: Option<Token>) returns (ok: bool)
      requires id.Some? && ks.Valid()
      modifies ks
      ensures ks.Valid() && (ok, ks.entries) == SaveShare(old(ks.entries), id.value, r, w)
    {
      ok := PushToken(ks, Read, r);
      if ok && w.Some? {
        ok := PushToken(ks, Kind.Write, w.value);
      }
    }

    // Save to the data store, against the standing tag when there is one to replace, then the
    // user's tokens, then everybody else's.
    method Save(rights: List?, ds: DataStore, ks: KeyStore, drawn: BlockId, ghost shares: seq<Share>) returns (ok: bool)
      requires ks.Valid() && block.Some? && meta.Some? && mac.Some? && rtoken.Some?
      requires if rights == null then shares == [] else rights.Valid() && Shows(rights.nodes, shares)
      modifies `id, `oldMac, ds, ks
      ensures ks.Valid()
      ensures var accepted := meta != Some([]) &&
                if old(id).Some? then old(id).value != [] && Accepts(old(ds.blocks), old(id).value, old(oldMac))
                else old(oldMac).None?;
              && (!accepted ==>
                    && !ok && ds.blocks == old(ds.blocks) && ks.entries == old(ks.entries)
                    && id == old(id) && oldMac == old(oldMac) && Standing() == old(Standing()))
              && (accepted ==>
                    && id == Some(if old(id).Some? then old(id).value else drawn) && oldMac.None?
                    && ds.blocks == old(ds.blocks)[id.value := Record(block.value, meta.value, mac.value)]
                    && Standing() == Some(ds.blocks[id.value].mac)
                    && (ok, ks.entries) == SaveTokens(old(ks.entries), id.value, rtoken.value, wtoken, shares))
    {
      var at := ds.SetBlock(id, drawn, Record(block.value, meta.value, mac.value), oldMac);
      if at.None? {
        return false;
      }
      id, oldMac := at, None;
      ok := PushTokens(ks, rtoken.value, wtoken);
      if !ok || wtoken.None? {
        return false;
      }
      if rights != null {
        ok := SaveList(rights, ks, shares);
      }
    }

    method SaveList(rights: List, ks: KeyStore, ghost shares: seq<Share>) returns (ok: bool)
      requires id.Some? && ks.Valid() && rights.Linked() && Shows(rights.nodes, shares)
      modifies ks
      ensures ks.Valid() && (ok, ks.entries) == SaveShares(old(ks.entries), id.value, shares, |shares|)
    {
      hide SaveShare;
      ghost var k := 0;
      var node, cursor := rights.Next(rights.head, 0);
      while node != null
        invariant ks.Valid() && rights.Linked()
        invariant k <= |shares| && node == At(rights.nodes, k) && cursor == At(rights.nodes, k + 1)
        invariant SaveShares(old(ks.entries), id.value, shares, k) == (true, ks.entries)
        decreases |rights.nodes| - k
      {
        assert node.View() == rights.nodes[k].View();
        ok := SaveNode(ks, node.rtoken, node.wtoken, old(ks.entries), shares, k);
        if !ok {
          return false;
        }
        k := k + 1;
        node, cursor := rights.Next(cursor, k);
      }
      return true;
    }

    method SaveNode(ks: KeyStore, r: Token, w: Option<Token>,
                    ghost start: KeyMap, ghost shares: seq<Share>, ghost k: nat)
      returns (ok: bool)
      requires id.Some? && ks.Valid() && k < |shares| && shares[k].rtoken == r && shares[k].wtoken == w
      requires SaveShares(start, id.value, shares, k) == (true, ks.entries)
      modifies ks
      ensures ks.Valid() && SaveShares(start, id.value, shares, k + 1) == (ok, ks.entries)
      ensures !ok ==> SaveShares(start, id.value, shares, |shares|) == (false, ks.entries)
    {
      ok := PushTokens(ks, r, w);
      if !ok {
        SaveStops(start, id.value, shares, k + 1, |shares|);
      }
    }

    method DropNode(ks: KeyStore, sh: Share, ghost start: KeyMap, ghost shares: seq<Share>, ghost k: nat)
      returns (ok: bool)
      requires id.Some? && ks.Valid() && k < |shares| && shares[k] == sh
      requires DropShares(start, id.value, user.id, shares, k) == (true, ks.entries)
      modifies ks
      ensures ks.Valid() && DropShares(start, id.value, user.id, shares, k + 1) == (ok, ks.entries)
      ensures !ok ==> DropShares(start, id.value, user.id, shares, |shares|) == (false, ks.entries)
    {
      var status := ks.Delete(Read, id.value, sh.rtoken.user.id, user.id);
      if status == HM_SUCCESS && sh.wtoken.Some? {
        status := ks.Delete(Kind.Write, id.value, sh.wtoken.value.user.id, sh.wtoken.value.owner.id);
      }
      ok := status == HM_SUCCESS;
      if !ok {
        DropStops(start, id.value, user.id, shares, k + 1, |shares|);
      }
    }

    method DropList(rights: List, ks: KeyStore, ghost shares: seq<Share>) returns (ok: bool)
      requires id.Some? && ks.Valid() && rights.Linked() && Shows(rights.nodes, shares)
      modifies ks
      ensures ks.Valid() && (ok, ks.entries) == DropShares(old(ks.entries), id.value, user.id, shares, |shares|)
    {
      ghost var k := 0;
      var node, cursor := rights.Next(rights.head, 0);
      while node != null
        invariant ks.Valid() && rights.Linked()
        invariant k <= |shares| && node == At(rights.nodes, k) && cursor == At(rights.nodes, k + 1)
        invariant DropShares(old(ks.entries), id.value, user.id, shares, k) == (true, ks.entries)
        decreases |rights.nodes| - k
      {
        assert node.View() == rights.nodes[k].View();
        ok := DropNode(ks, node.View(), old(ks.entries), shares, k);
        if !ok {
          return false;
        }
        k := k + 1;
        node, cursor := rights.Next(cursor, k);
      }
      return true;
    }

    // Delete from the data store against the standing tag, then the user's own entry, then the
    // entries of everybody on the list.
    method Delete(rights: List?, ds: DataStore, ks: KeyStore, ghost shares: seq<Share>) returns (ok: bool)
      requires ks.Valid() && id.Some? && rtoken.Some? && rtoken.value.user == user
      requires if rights == null then shares == [] else rights.Valid() && Shows(rights.nodes, shares)
      modifies ds, ks
      ensures ks.Valid()
      ensures var b := id.value;
              var accepted := mac.Some? && b != [] && b in old(ds.blocks) && Standing() == Some(old(ds.blocks)[b].mac);
              && (!accepted ==> !ok && ds.blocks == old(ds.blocks) && ks.entries == old(ks.entries))
              && (accepted ==>
                    && ds.blocks == old(ds.blocks) - {b}
                    && var (status, ks') := DelToken(old(ks.entries), Read, b, user.id, user.id);
                       (ok, ks.entries) ==
                       if status == HM_SUCCESS then DropShares(ks', b, user.id, shares, |shares|) else (false, ks'))
    {
      if mac.None? {
        return false;
      }
      ok := ds.RemBlock(id.value, Standing().value);
      if !ok {
        return false;
      }
      var status := ks.Delete(Read, id.value, rtoken.value.user.id, user.id);
      if status != HM_SUCCESS {
        return false;
      }
      if rights != null {
        ok := DropList(rights, ks, shares);
      }
    }
  }

  // A refusal ends the saving: what was stored by then is what is stored.
  lemma {:induction false} SaveStops(ks: KeyMap, b: BlockId, shares: seq<Share>, k: nat, n: nat)
    requires k <= n <= |shares| && !SaveShares(ks, b, shares, k).0
    ensures SaveShares(ks, b, shares, n) == SaveShares(ks, b, shares, k)
  {
    if k < n {
      SaveStops(ks, b, shares, k, n - 1);
    }
  }

  lemma {:induction false} DropStops(ks: KeyMap, b: BlockId, requester: UserId, shares: seq<Share>, k: nat, n: nat)
    requires k <= n <= |shares| && !DropShares(ks, b, requester, shares, k).0
    ensures DropShares(ks, b, requester, shares, n) == DropShares(ks, b, requester, shares, k)
  {
    if k < n {
      DropStops(ks, b, requester, shares, k, n - 1);
    }
  }

  lemma NoShares(cs: Credentials, ks: KeyMap, b: BlockId, self: UserId, users: seq<UserId>)
    ensures SharesOf(cs, ks, b, self, users, 0) == Some([])
  {
  }

  // A listing that fails on a prefix fails as a whole.
  lemma {:induction false} PrefixFails(cs: Credentials, ks: KeyMap, b: BlockId, self: UserId, users: seq<UserId>,
                                       k: nat, n: nat)
    requires k <= n <= |users| && SharesOf(cs, ks, b, self, users, k).None?
    ensures SharesOf(cs, ks, b, self, users, n).None?
  {
    if k < n {
      PrefixFails(cs, ks, b, self, users, k, n - 1);
    }
  }
}
