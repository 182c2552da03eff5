/** The two stores as the services keep them, with the checks of the server functions in front. */
module StoreServers {
  import opened Base
  import opened Crypto
  import opened KeyRights
  import opened Protocol
  import opened Consistency

  function Without(us: seq<UserId>, u: UserId): (r: seq<UserId>)
    ensures forall v :: v in r <==> v in us && v != u
  {
    if us == [] then []
    else
      if us[0] == u then Without(us[1..], u) else [us[0]] + Without(us[1..], u)
  }

  // The directories of the blocks, each in the order it is read back.
  type Directories = map<BlockId, seq<UserId>>

  function UsersIn(names: Directories, b: BlockId): seq<UserId> {
    if b in names then names[b] else []
  }

  // Writing a user's token makes their directory, unless it is there.
  function Added(ks: KeyMap, names: Directories, b: BlockId, u: UserId): Directories {
    if (b, u) in ks then names else names[b := UsersIn(names, b) + [u]]
  }

  function Removed(names: Directories, kind: Kind, b: BlockId, u: UserId): Directories {
    if kind.Read? && b in names then names[b := Without(names[b], u)] else names
  }

  const READ_MASK := 1
  const WRITE_MASK := 2

  // The mask that goes with a listed user: the write bit is set when there is no write token.
  function RightsMask(e: Entry): (mask: nat)
    ensures mask < 4
  {
    if e.write.None? then READ_MASK + WRITE_MASK else READ_MASK
  }

  // What the comment at the query promises: 0 for reading only, 1 for reading and writing.
  function PromisedMask(e: Entry): nat {
    if e.write.Some? then 1 else 0
  }

  // The mask is the promised one exactly for a user who can write.
  lemma MaskIsPromisedExactlyWhen(e: Entry)
    ensures RightsMask(e) == PromisedMask(e) <==> e.write.Some?
  {
  }

  // A user who can only read gets the mask of both bits.
  lemma MaskExample(t: Stored)
    ensures RightsMask(Entry(Some(t), None)) == READ_MASK + WRITE_MASK && PromisedMask(Entry(Some(t), None)) == 0
  {
  }

  // The user at a position of a block's directory, with their mask.
  function RightsAt(ks: KeyMap, names: Directories, b: BlockId, index: nat): (r: Option<(UserId, nat)>)
    ensures r.Some? ==> r.value.0 != [] && r.value.1 < 4
  {
    if index >= |UsersIn(names, b)| then None
    else
      var u := UsersIn(names, b)[index];
      if u == [] || (b, u) !in ks then None else Some((u, RightsMask(ks[(b, u)])))
  }

  /**
    The key store: one directory for each user of each block, holding up to two tokens.  `names` is
    the order in which a block's directory is read back.
   */
  class KeyStore {
    var entries: KeyMap
    var names: Directories

    ghost predicate Valid()
      reads this
    {
      && (forall b, u :: (b, u) in entries <==> u in Listing(b))
      && (forall b, u :: (b, u) in entries ==> u != [])
    }

    function Listing(b: BlockId): seq<UserId>
      reads this
    {
      UsersIn(names, b)
    }

    constructor ()
      ensures Valid() && entries == map[] && names == map[]
    {
      entries, names := map[], map[];
    }

    // Writing a token creates the user's directory when it is missing.
    method WriteFiles(kind: Kind, b: BlockId, u: UserId, t: Stored)
      requires Valid() && u != []
      modifies this
      ensures Valid() && entries == Put(old(entries), kind, b, u, t)
      ensures names == Added(old(entries), old(names), b, u)
    {
      if (b, u) !in entries {
        names := names[b := Listing(b) + [u]];
        entries := entries[(b, u) := Entry(None, None)];
      }
      if kind.Read? {
        entries := entries[(b, u) := entries[(b, u)].(read := Some(t))];
      } else {
        entries := entries[(b, u) := entries[(b, u)].(write := Some(t))];
      }
    }

    // Removing a read token removes the whole directory of the user, write token and all.
    method RemoveFiles(kind: Kind, b: BlockId, u: UserId)
      requires Valid()
      modifies this
      ensures Valid() && entries == Drop(old(entries), kind, b, u)
      ensures names == Removed(old(names), kind, b, u)
    {
      if kind.Read? {
        if b in names {
          names := names[b := Without(names[b], u)];
        }
        entries := entries - {(b, u)};
      } else if (b, u) in entries {
        entries := entries[(b, u) := entries[(b, u)].(write := None)];
      }
    }

    method ReadFiles(kind: Kind, b: BlockId, u: UserId) returns (t: Option<Stored>)
      ensures t == Lookup(entries, kind, b, u)
    {
      if (b, u) !in entries {
        t := None;
      } else if kind.Read? {
        t := entries[(b, u)].read;
      } else {
        t := entries[(b, u)].write;
      }
    }

    // The user at a position of the directory, found by counting down while reading it, and their
    // mask; every listed user has an entry.
    method IndexedRights(b: BlockId, index: nat) returns (rights: Option<(UserId, nat)>)
      requires Valid()
      ensures rights == RightsAt(entries, names, b, index)
      ensures rights.Some? <==> index < |Listing(b)|
      ensures rights.Some? ==>
                var (u, mask) := rights.value;
                && u == Listing(b)[index] && (b, u) in entries
                && (mask == PromisedMask(entries[(b, u)]) <==> Holds(entries, Write, b, u))
    {
      var dir := Listing(b);
      var i, at := index, 0;
      while at < |dir|
        invariant 0 <= at <= |dir| && i == index - at
      {
        if i == 0 {
          assert dir[at] in Listing(b);
          return Some((dir[at], RightsMask(entries[(b, dir[at])])));
        }
        i, at := i - 1, at + 1;
      }
      return None;
    }

    // A token for someone other than its owner is accepted only when the owner holds one too.
    method Set(kind: Kind, b: BlockId, u: UserId, owner: UserId, token: Wrapped) returns (status: int)
      requires Valid()
      modifies this
      ensures Valid() && (status, entries) == SetToken(old(entries), kind, b, u, owner, token)
      ensures names == if status == HM_SUCCESS then Added(old(entries), old(names), b, u) else old(names)
    {
      if b == [] || u == [] || owner == [] {
        return HM_INVALID_PARAMETER;
      }
      if u != owner {
        var held := ReadFiles(kind, b, owner);
        if held.None? {
          return HM_FAIL;
        }
      }
      WriteFiles(kind, b, u, Stored(token, owner));
      return HM_SUCCESS;
    }

    // Either kind of deletion asks for a write token of the requester.
    method Delete(kind: Kind, b: BlockId, u: UserId, requester: UserId) returns (status: int)
      requires Valid()
      modifies this
      ensures Valid() && (status, entries) == DelToken(old(entries), kind, b, u, requester)
      ensures names == if status == HM_SUCCESS then Removed(old(names), kind, b, u) else old(names)
    {
      if b == [] || u == [] || requester == [] {
        return HM_INVALID_PARAMETER;
      }
      var held := ReadFiles(Kind.Write, b, requester);
      if held.None? {
        return HM_FAIL;
      }
      RemoveFiles(kind, b, u);
      return HM_SUCCESS;
    }

    // The listing names exactly the users with an entry.
    lemma ListingIsUsers(b: BlockId)
      requires Valid()
      ensures forall u :: u in Listing(b) <==> u in UsersOf(entries, b)
    {
      forall u ensures u in Listing(b) <==> u in UsersOf(entries, b) {
        UserListed(entries, b, u);
      }
    }
  }

  /** The data store: the last accepted ciphertext, metadata and tag of each document. */
  class DataStore {
    var blocks: DataMap

    constructor ()
      ensures blocks == map[]
    {
      blocks := map[];
    }

    // A document that exists is replaced only against its stored tag.  An identifier that is not
    // given is drawn, and nothing is compared then; a tag to compare needs an identifier.
    method SetBlock(wanted: Option<BlockId>, drawn: BlockId, r: Record, oldMac: Option<Tag>)
      returns (id: Option<BlockId>)
      modifies this
      ensures id.Some? <==>
                r.meta != [] &&
                if wanted.Some? then wanted.value != [] && Accepts(old(blocks), wanted.value, oldMac) else oldMac.None?
      ensures id.Some? ==>
                id.value == (if wanted.Some? then wanted.value else drawn) && blocks == old(blocks)[id.value := r]
      ensures id.None? ==> blocks == old(blocks)
    {
      if r.meta == [] || (wanted.None? && oldMac.Some?) {
        return None;
      }
      var at := drawn;
      if wanted.Some? {
        at := wanted.value;
        if at == [] {
          return None;
        }
        if at in blocks {
          var stored := blocks[at].mac;
          if oldMac.None? || stored != oldMac.value {
            return None;
          }
        }
      }
      blocks := blocks[at := r];
      return Some(at);
    }

    method GetBlock(b: BlockId) returns (r: Option<(Cipher, Bytes)>)
      ensures r == if b != [] && b in blocks then Some((blocks[b].block, blocks[b].meta)) else None
    {
      if b == [] || b !in blocks {
        return None;
      }
      return Some((blocks[b].block, blocks[b].meta));
    }

    method RemBlock(b: BlockId, oldMac: Tag) returns (ok: bool)
      modifies this
      ensures ok <==> b != [] && b in old(blocks) && old(blocks)[b].mac == oldMac
      ensures blocks == if ok then old(blocks) - {b} else old(blocks)
    {
      if b == [] || b !in blocks || blocks[b].mac != oldMac {
        return false;
      }
      blocks := blocks - {b};
      return true;
    }
  }
}
