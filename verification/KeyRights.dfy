/**
  The key store as a value: one entry for each (block, user) directory, holding an optional read
  token and an optional write token, each with the user who wrapped it.  The functions are the
  authorised operations of src/key_store/functions.c over the map semantics of the service backend.
 */
module KeyRights {
  import opened Base
  import opened Crypto

  type UserId = Bytes
  type BlockId = Bytes

  datatype Stored = Stored(token: Wrapped, owner: UserId)

  datatype Entry = Entry(read: Option<Stored>, write: Option<Stored>)

  datatype Kind = Read | Write

  type KeyMap = map<(BlockId, UserId), Entry>

  function ReadOf(ks: KeyMap, b: BlockId, u: UserId): Option<Stored> {
    if (b, u) in ks then ks[(b, u)].read else None
  }

  function WriteOf(ks: KeyMap, b: BlockId, u: UserId): Option<Stored> {
    if (b, u) in ks then ks[(b, u)].write else None
  }

  function Lookup(ks: KeyMap, kind: Kind, b: BlockId, u: UserId): Option<Stored> {
    if kind.Read? then ReadOf(ks, b, u) else WriteOf(ks, b, u)
  }

  predicate Holds(ks: KeyMap, kind: Kind, b: BlockId, u: UserId) {
    Lookup(ks, kind, b, u).Some?
  }

  // Writing a token creates the user's directory when it is missing.
  function Put(ks: KeyMap, kind: Kind, b: BlockId, u: UserId, t: Stored): KeyMap {
    if kind.Read? then ks[(b, u) := Entry(Some(t), WriteOf(ks, b, u))]
    else ks[(b, u) := Entry(ReadOf(ks, b, u), Some(t))]
  }

  // Dropping a read token removes the whole directory of the user; dropping a write token only
  // the part below it.  Both succeed when there is nothing to remove.
  function Drop(ks: KeyMap, kind: Kind, b: BlockId, u: UserId): KeyMap {
    if kind.Read? then ks - {(b, u)}
    else if (b, u) in ks then ks[(b, u) := ks[(b, u)].(write := None)]
    else ks
  }

  // A user may always store a token they wrapped for themselves; anyone else's token must come
  // from a holder of the same kind of token.
  predicate MaySet(ks: KeyMap, kind: Kind, b: BlockId, u: UserId, owner: UserId) {
    u == owner || Holds(ks, kind, b, owner)
  }

  function SetToken(ks: KeyMap, kind: Kind, b: BlockId, u: UserId, owner: UserId, token: Wrapped): (r: (int, KeyMap)) {
    if b == [] || u == [] || owner == [] then (HM_INVALID_PARAMETER, ks)
    else if !MaySet(ks, kind, b, u, owner) then (HM_FAIL, ks)
    else (HM_SUCCESS, Put(ks, kind, b, u, Stored(token, owner)))
  }

  // Deleting either kind of token takes a write token of the requester.
  function DelToken(ks: KeyMap, kind: Kind, b: BlockId, u: UserId, requester: UserId): (r: (int, KeyMap)) {
    if b == [] || u == [] || requester == [] then (HM_INVALID_PARAMETER, ks)
    else if !Holds(ks, Write, b, requester) then (HM_FAIL, ks)
    else (HM_SUCCESS, Drop(ks, kind, b, u))
  }

  // The users with a directory under a block.
  function UsersOf(ks: KeyMap, b: BlockId): set<UserId> {
    set k | k in ks && k.0 == b :: k.1
  }
}
