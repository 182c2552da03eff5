/**
  The document access protocol: what one whole user-level call does to the two stores, in closed
  form.  The classes of MidHermes.dfy compute the same step by step.
 */
module Protocol {
  import opened Base
  import opened Crypto
  import opened KeyRights

  // A stored document: ciphertext, metadata in the clear, and the tag guarding the next write.
  datatype Record = Record(block: Cipher, meta: Bytes, mac: Tag)

  type DataMap = map<BlockId, Record>

  // The credential store: public keys by user, never changed by the protocol.
  type Credentials = map<UserId, PublicKey>

  datatype Stores = Stores(ks: KeyMap, ds: DataMap)

  // The caller: an identity and the private key it presents, matching or not.
  datatype Client = Client(id: UserId, sk: SecretKey)

  datatype Call =
    | Create(wanted: Option<BlockId>, data: Bytes, meta: Bytes)
    | ReadDoc(b: BlockId)
    | Update(b: BlockId, data: Bytes, meta: Bytes)
    | Delete(b: BlockId)
    | Rotate(b: BlockId)
    | GrantRead(b: BlockId, v: UserId)
    | GrantUpdate(b: BlockId, v: UserId)
    | DenyRead(b: BlockId, v: UserId)
    | DenyUpdate(b: BlockId, v: UserId)

  // The random values a call may draw.
  datatype Random = Random(rkey: Key, wkey: Key, id: BlockId)

  // What the caller gets back: the status, and an identifier or a document where the call has one.
  datatype Reply = Failed(status: int) | Done | Created(id: BlockId) | Document(data: Bytes, meta: Bytes)

  // A loaded document as the caller sees it.
  datatype Opened = Opened(rkey: Key, wkey: Option<Key>, data: Bytes, meta: Bytes, rowner: UserId, wowner: UserId)

  predicate Registered(cs: Credentials, u: UserId) {
    u != [] && u in cs
  }

  predicate Authentic(cs: Credentials, c: Client) {
    Registered(cs, c.id) && cs[c.id] == PublicOf(c.sk)
  }

  // A token counts as loaded only when the user who wrapped it has credentials.
  function Loadable(cs: Credentials, t: Option<Stored>): (r: Option<Stored>) {
    if t.Some? && Registered(cs, t.value.owner) then t else None
  }

  // The caller's read key and write key for a block.
  function OpenToken(cs: Credentials, c: Client, t: Stored): Option<Key>
    requires Registered(cs, t.owner)
  {
    Unwrap(c.sk, cs[t.owner], t.token)
  }

  // Loading a block: the read token must open the stored document; a write token is optional, but
  // one that is present must open too.
  function Load(cs: Credentials, s: Stores, c: Client, b: BlockId): (r: Option<Opened>) {
    var rt := Loadable(cs, ReadOf(s.ks, b, c.id));
    var wt := Loadable(cs, WriteOf(s.ks, b, c.id));
    if rt.None? || b !in s.ds then None
    else
      var rkey := OpenToken(cs, c, rt.value);
      if rkey.None? then None
      else
        var data := Decrypt(rkey.value, s.ds[b].block, s.ds[b].meta);
        if data.None? then None
        else if wt.None? then Some(Opened(rkey.value, None, data.value, s.ds[b].meta, rt.value.owner, []))
        else
          var wkey := OpenToken(cs, c, wt.value);
          if wkey.None? || data.value == [] then None
          else Some(Opened(rkey.value, wkey, data.value, s.ds[b].meta, rt.value.owner, wt.value.owner))
  }

  // The data store accepts a write to an existing document only against its stored tag.
  predicate Accepts(ds: DataMap, b: BlockId, oldMac: Option<Tag>) {
    b in ds ==> oldMac == Some(ds[b].mac)
  }

  // The tag a loaded block presents: recomputed from what was loaded, not read from the store.
  function Presented(o: Opened): Tag
    requires o.wkey.Some?
  {
    Tag(o.wkey.value, o.data + o.meta)
  }

  function NewRecord(rkey: Key, wkey: Key, data: Bytes, meta: Bytes): Record {
    Record(Seal(rkey, data, meta), meta, Tag(wkey, data + meta))
  }

  function CreateStep(cs: Credentials, s: Stores, c: Client, call: Call, rnd: Random): (Reply, Stores)
    requires call.Create?
  {
    var id := if call.wanted.Some? then call.wanted.value else rnd.id;
    if call.data == [] || call.meta == [] then (Failed(HM_INVALID_PARAMETER), s)
    else if !Authentic(cs, c) || id == [] || (call.wanted.Some? && id in s.ds) then (Failed(HM_FAIL), s)
    else
      var entry := Entry(Some(Stored(Wrap(c.sk, cs[c.id], rnd.rkey), c.id)),
                         Some(Stored(Wrap(c.sk, cs[c.id], rnd.wkey), c.id)));
      (Created(id),
       Stores(s.ks[(id, c.id) := entry], s.ds[id := NewRecord(rnd.rkey, rnd.wkey, call.data, call.meta)]))
  }

  function ReadStep(cs: Credentials, s: Stores, c: Client, b: BlockId): Reply {
    if b == [] then Failed(HM_INVALID_PARAMETER)
    else
      var o := Load(cs, s, c, b);
      if o.None? then Failed(HM_FAIL) else Document(o.value.data, o.value.meta)
  }

  // The caller's two tokens are stored again unchanged, so only the status depends on whether
  // their granters still hold a token.
  function UpdateStep(cs: Credentials, s: Stores, c: Client, b: BlockId, data: Bytes, meta: Bytes): (Reply, Stores) {
    if b == [] || data == [] || meta == [] then (Failed(HM_INVALID_PARAMETER), s)
    else
      var o := Load(cs, s, c, b);
      if o.None? || o.value.wkey.None? || !Accepts(s.ds, b, Some(Presented(o.value))) then (Failed(1), s)
      else
        var s' := s.(ds := s.ds[b := NewRecord(o.value.rkey, o.value.wkey.value, data, meta)]);
        if MaySet(s.ks, Read, b, c.id, o.value.rowner) && MaySet(s.ks, Write, b, c.id, o.value.wowner)
        then (Done, s')
        else (Failed(1), s')
  }

  // The users a rights listing would name, besides the caller.
  function Others(ks: KeyMap, b: BlockId, u: UserId): set<UserId> {
    UsersOf(ks, b) - {u}
  }

  // A rights listing fails when one of the users has no credentials or no readable token.
  predicate Listable(cs: Credentials, ks: KeyMap, b: BlockId, u: UserId) {
    forall v | v in Others(ks, b, u) :: Registered(cs, v) && Loadable(cs, ReadOf(ks, b, v)).Some?
  }

  // Every entry of the block after a rotation by `c`.
  function RotatedEntry(cs: Credentials, c: Client, v: UserId, e: Entry, rnd: Random): Entry
    requires v in cs
  {
    var r := Some(Stored(Wrap(c.sk, cs[v], rnd.rkey), c.id));
    var w := Some(Stored(Wrap(c.sk, cs[v], rnd.wkey), c.id));
    Entry(r, if v == c.id || Loadable(cs, e.write).Some? then w else e.write)
  }

  // The key store with every entry of one block rotated.
  function RotatedKeys(cs: Credentials, c: Client, ks: KeyMap, b: BlockId, rnd: Random): KeyMap {
    map k | k in ks :: if k.0 == b && Registered(cs, k.1) then RotatedEntry(cs, c, k.1, ks[k], rnd) else ks[k]
  }

  function RotateStep(cs: Credentials, s: Stores, c: Client, b: BlockId, rnd: Random): (Reply, Stores) {
    if b == [] then (Failed(HM_INVALID_PARAMETER), s)
    else
      var o := Load(cs, s, c, b);
      if o.None? || o.value.wkey.None? || !Listable(cs, s.ks, b, c.id) || !Authentic(cs, c)
         || o.value.data == [] || o.value.meta == [] || !Accepts(s.ds, b, Some(Presented(o.value)))
      then (Failed(HM_FAIL), s)
      else
        (Done,
         Stores(RotatedKeys(cs, c, s.ks, b, rnd),
                s.ds[b := NewRecord(rnd.rkey, rnd.wkey, o.value.data, o.value.meta)]))
  }

  function GrantStep(cs: Credentials, s: Stores, c: Client, kind: Kind, b: BlockId, v: UserId): (Reply, Stores) {
    if b == [] || v == [] then (Failed(HM_INVALID_PARAMETER), s)
    else
      var o := Load(cs, s, c, b);
      if o.None? || !Registered(cs, v) || (kind.Write? && o.value.wkey.None?) then (Failed(HM_FAIL), s)
      else
        var secret := if kind.Read? then o.value.rkey else o.value.wkey.value;
        (Done, s.(ks := Put(s.ks, kind, b, v, Stored(Wrap(c.sk, cs[v], secret), c.id))))
  }

  // Denying read access first drops the target's write token; the second deletion is then
  // refused when the caller has just dropped their own.
  function DenyStep(cs: Credentials, s: Stores, c: Client, kind: Kind, b: BlockId, v: UserId): (Reply, Stores) {
    if b == [] || v == [] then (Failed(HM_INVALID_PARAMETER), s)
    else
      var o := Load(cs, s, c, b);
      if o.None? || o.value.wkey.None? || !Registered(cs, v) then (Failed(HM_FAIL), s)
      else if kind.Read? && v != c.id then (Done, s.(ks := Drop(s.ks, Read, b, v)))
      else (if kind.Write? then Done else Failed(HM_FAIL), s.(ks := Drop(s.ks, Write, b, v)))
  }

  // Deletion removes the document, then the caller's own entry; the deletions of the other listed
  // users' entries are refused, because the caller's write token is gone by then.
  function DeleteStep(cs: Credentials, s: Stores, c: Client, b: BlockId): (Reply, Stores) {
    if b == [] then (Failed(HM_INVALID_PARAMETER), s)
    else
      var o := Load(cs, s, c, b);
      if o.None? then (Failed(1), s)
      else if o.value.wkey.None? || s.ds[b].mac != Presented(o.value) then (Failed(HM_FAIL), s)
      else
        var s' := Stores(Drop(s.ks, Read, b, c.id), s.ds - {b});
        if !Listable(cs, s.ks, b, c.id) || Others(s.ks, b, c.id) == {} then (Done, s') else (Failed(HM_FAIL), s')
  }

  function Step(cs: Credentials, s: Stores, c: Client, call: Call, rnd: Random): (r: (Reply, Stores)) {
    match call
    case Create(_, _, _) => CreateStep(cs, s, c, call, rnd)
    case ReadDoc(b) => (ReadStep(cs, s, c, b), s)
    case Update(b, data, meta) => UpdateStep(cs, s, c, b, data, meta)
    case Delete(b) => DeleteStep(cs, s, c, b)
    case Rotate(b) => RotateStep(cs, s, c, b, rnd)
    case GrantRead(b, v) => GrantStep(cs, s, c, Read, b, v)
    case GrantUpdate(b, v) => GrantStep(cs, s, c, Write, b, v)
    case DenyRead(b, v) => DenyStep(cs, s, c, Read, b, v)
    case DenyUpdate(b, v) => DenyStep(cs, s, c, Write, b, v)
  }
}
