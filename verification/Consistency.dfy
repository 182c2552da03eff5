/**
  The invariant tying the three stores together, kept by every whole call whatever its status:
  each stored token of a live document unwraps, for its holder, to the key that opens the stored
  ciphertext, or to the key under which the stored tag was made.
 */
module Consistency {
  import opened Base
  import opened Crypto
  import opened KeyRights
  import opened Protocol

  // `t` gives its holder `u`, using u's private key and the public key of the user who wrapped it,
  // the key `k`.
  ghost predicate Opens(cs: Credentials, u: UserId, t: Stored, k: Key) {
    Registered(cs, u) && Registered(cs, t.owner) && Unwrap(cs[u].sk, cs[t.owner], t.token) == Some(k)
  }

  ghost predicate SoundRecord(r: Record) {
    r.block.data != [] && r.meta != [] &&
    Decrypt(r.block.key, r.block, r.meta) == Some(r.block.data) &&
    MacCreate(r.mac.key, r.block.data, r.meta) == Some(r.mac)
  }

  ghost predicate EntryOpens(cs: Credentials, u: UserId, e: Entry, r: Record) {
    (e.read.Some? ==> Opens(cs, u, e.read.value, r.block.key)) &&
    (e.write.Some? ==> Opens(cs, u, e.write.value, r.mac.key))
  }

  ghost predicate BlockConsistent(cs: Credentials, s: Stores, b: BlockId)
    requires b in s.ds
  {
    SoundRecord(s.ds[b]) &&
    forall v | v in UsersOf(s.ks, b) :: EntryOpens(cs, v, s.ks[(b, v)], s.ds[b])
  }

  ghost predicate Consistent(cs: Credentials, s: Stores) {
    forall b | b in s.ds :: BlockConsistent(cs, s, b)
  }

  lemma UserListed(ks: KeyMap, b: BlockId, v: UserId)
    ensures v in UsersOf(ks, b) <==> (b, v) in ks
  {
    if (b, v) in ks {
      assert (b, v).0 == b && (b, v).1 == v;
    }
  }

  // What a load yields, with no cryptography left in it.
  function ExpectedLoad(cs: Credentials, s: Stores, c: Client, b: BlockId): Option<Opened> {
    if b !in s.ds || !Authentic(cs, c) || ReadOf(s.ks, b, c.id).None? then None
    else
      var r, rt, wt := s.ds[b], ReadOf(s.ks, b, c.id).value, WriteOf(s.ks, b, c.id);
      Some(Opened(r.block.key, if wt.Some? then Some(r.mac.key) else None, r.block.data, r.meta,
                  rt.owner, if wt.Some? then wt.value.owner else []))
  }

  // In a consistent state a load succeeds exactly for a caller who presents the right private key
  // and has a read token, and it yields the stored document and the keys in force.
  lemma LoadYields(cs: Credentials, s: Stores, c: Client, b: BlockId)
    requires Consistent(cs, s)
    ensures Load(cs, s, c, b) == ExpectedLoad(cs, s, c, b)
    ensures Load(cs, s, c, b).Some? && Load(cs, s, c, b).value.wkey.Some? ==>
              Accepts(s.ds, b, Some(Presented(Load(cs, s, c, b).value)))
  {
    UserListed(s.ks, b, c.id);
    if b in s.ds {
      assert BlockConsistent(cs, s, b);
      if (b, c.id) in s.ks {
        assert EntryOpens(cs, c.id, s.ks[(b, c.id)], s.ds[b]);
      }
    }
  }

  // Some user other than `u` has a token under `b`.
  ghost predicate Leftover(ks: KeyMap, b: BlockId, u: UserId) {
    exists v | v in Others(ks, b, u) :: Holds(ks, Read, b, v) || Holds(ks, Write, b, v)
  }

  // The drawn keys are in no stored token.
  ghost predicate FreshKeys(ks: KeyMap, rnd: Random) {
    forall k | k in ks ::
      (ks[k].read.Some? ==> ks[k].read.value.token.secret != rnd.rkey) &&
      (ks[k].write.Some? ==> ks[k].write.value.token.secret != rnd.wkey)
  }

  // A step confined to one block: the rest of the stores keeps the invariant.
  lemma OnlyBlock(cs: Credentials, s: Stores, s': Stores, b: BlockId)
    requires Consistent(cs, s)
    requires forall b' | b' in s'.ds && b' != b :: b' in s.ds && s'.ds[b'] == s.ds[b']
    requires forall k | k in s'.ks && k.0 != b :: k in s.ks && s'.ks[k] == s.ks[k]
    requires b in s'.ds ==> BlockConsistent(cs, s', b)
    ensures Consistent(cs, s')
  {
    forall b' | b' in s'.ds && b' != b ensures BlockConsistent(cs, s', b') {
      assert BlockConsistent(cs, s, b');
      forall v | v in UsersOf(s'.ks, b') ensures EntryOpens(cs, v, s'.ks[(b', v)], s'.ds[b']) {
        UserListed(s.ks, b', v);
      }
    }
  }

  lemma CreateKeeps(cs: Credentials, s: Stores, c: Client, call: Call, rnd: Random)
    requires Consistent(cs, s) && call.Create?
    ensures var (reply, s') := CreateStep(cs, s, c, call, rnd);
            if reply.Created? && Leftover(s.ks, reply.id, c.id) then FreshKeys(s.ks, rnd) ==> !Consistent(cs, s')
            else Consistent(cs, s')
  {
    var (reply, s') := CreateStep(cs, s, c, call, rnd);
    if reply.Created? {
      var b := reply.id;
      if Leftover(s.ks, b, c.id) && FreshKeys(s.ks, rnd) {
        var v :| v in Others(s.ks, b, c.id) && (Holds(s.ks, Read, b, v) || Holds(s.ks, Write, b, v));
        UserListed(s'.ks, b, v);
        assert !EntryOpens(cs, v, s'.ks[(b, v)], s'.ds[b]);
        assert !BlockConsistent(cs, s', b);
      }
      if !Leftover(s.ks, b, c.id) {
        forall v | v in UsersOf(s'.ks, b) ensures EntryOpens(cs, v, s'.ks[(b, v)], s'.ds[b]) {
          UserListed(s.ks, b, v);
          if v != c.id {
            assert v in Others(s.ks, b, c.id);
            assert !Holds(s.ks, Read, b, v) && !Holds(s.ks, Write, b, v);
          }
        }
        OnlyBlock(cs, s, s', b);
      }
    }
  }

  lemma UpdateKeeps(cs: Credentials, s: Stores, c: Client, b: BlockId, data: Bytes, meta: Bytes)
    requires Consistent(cs, s)
    ensures Consistent(cs, UpdateStep(cs, s, c, b, data, meta).1)
  {
    LoadYields(cs, s, c, b);
    var s' := UpdateStep(cs, s, c, b, data, meta).1;
    if s' != s {
      assert BlockConsistent(cs, s, b);
      OnlyBlock(cs, s, s', b);
    }
  }

  lemma RotateKeeps(cs: Credentials, s: Stores, c: Client, b: BlockId, rnd: Random)
    requires Consistent(cs, s)
    ensures Consistent(cs, RotateStep(cs, s, c, b, rnd).1)
  {
    LoadYields(cs, s, c, b);
    var s' := RotateStep(cs, s, c, b, rnd).1;
    if s' != s {
      assert BlockConsistent(cs, s, b);
      forall v | v in UsersOf(s'.ks, b) ensures EntryOpens(cs, v, s'.ks[(b, v)], s'.ds[b]) {
        UserListed(s.ks, b, v);
        assert EntryOpens(cs, v, s.ks[(b, v)], s.ds[b]);
        assert v == c.id || v in Others(s.ks, b, c.id);
      }
      OnlyBlock(cs, s, s', b);
    }
  }

  lemma GrantKeeps(cs: Credentials, s: Stores, c: Client, kind: Kind, b: BlockId, v: UserId)
    requires Consistent(cs, s)
    ensures Consistent(cs, GrantStep(cs, s, c, kind, b, v).1)
  {
    LoadYields(cs, s, c, b);
    var s' := GrantStep(cs, s, c, kind, b, v).1;
    if s' != s {
      assert BlockConsistent(cs, s, b);
      forall u | u in UsersOf(s'.ks, b) ensures EntryOpens(cs, u, s'.ks[(b, u)], s'.ds[b]) {
        UserListed(s.ks, b, u);
      }
      OnlyBlock(cs, s, s', b);
    }
  }

  lemma DropKeeps(cs: Credentials, s: Stores, kind: Kind, b: BlockId, v: UserId)
    requires Consistent(cs, s)
    ensures Consistent(cs, s.(ks := Drop(s.ks, kind, b, v)))
  {
    var s' := s.(ks := Drop(s.ks, kind, b, v));
    if b in s.ds {
      assert BlockConsistent(cs, s, b);
      forall u | u in UsersOf(s'.ks, b) ensures EntryOpens(cs, u, s'.ks[(b, u)], s'.ds[b]) {
        UserListed(s.ks, b, u);
      }
    }
    OnlyBlock(cs, s, s', b);
  }

  lemma DeleteKeeps(cs: Credentials, s: Stores, c: Client, b: BlockId)
    requires Consistent(cs, s)
    ensures Consistent(cs, DeleteStep(cs, s, c, b).1)
  {
    OnlyBlock(cs, s, DeleteStep(cs, s, c, b).1, b);
  }

  // Every call, successful or not, keeps the invariant, with one exception: creating a document
  // under an identifier where other users still have tokens left over.  There, as the drawn keys
  // are new, it always breaks.
  lemma StepKeepsConsistent(cs: Credentials, s: Stores, c: Client, call: Call, rnd: Random)
    requires Consistent(cs, s)
    ensures var (reply, s') := Step(cs, s, c, call, rnd);
            if reply.Created? && Leftover(s.ks, reply.id, c.id) then FreshKeys(s.ks, rnd) ==> !Consistent(cs, s')
            else Consistent(cs, s')
  {
    match call
    case Create(_, _, _) => CreateKeeps(cs, s, c, call, rnd);
    case ReadDoc(_) =>
    case Update(b, data, meta) => UpdateKeeps(cs, s, c, b, data, meta);
    case Delete(b) => DeleteKeeps(cs, s, c, b);
    case Rotate(b) => RotateKeeps(cs, s, c, b, rnd);
    case GrantRead(b, v) => GrantKeeps(cs, s, c, Read, b, v);
    case GrantUpdate(b, v) => GrantKeeps(cs, s, c, Write, b, v);
    case DenyRead(b, v) => DropKeeps(cs, s, Read, b, v); DropKeeps(cs, s, Write, b, v);
    case DenyUpdate(b, v) => DropKeeps(cs, s, Write, b, v);
  }
}
