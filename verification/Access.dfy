/** What a call cannot do, and what a rotation and a revocation achieve. */
module Access {
  import opened Base
  import opened Crypto
  import opened KeyRights
  import opened Protocol
  import opened Consistency
  import opened DocumentTable

  // A caller without a write token on a document changes neither its ciphertext, metadata and tag
  // nor anybody's write token on it, from any state of the stores, consistent or not.
  lemma NonWriterChangesNothing(cs: Credentials, s: Stores, c: Client, call: Call, rnd: Random, b: BlockId)
    requires b in s.ds && !Holds(s.ks, Write, b, c.id)
    requires call.Create? && call.wanted.None? ==> rnd.id !in s.ds
    ensures var s' := Step(cs, s, c, call, rnd).1;
            && b in s'.ds && s'.ds[b] == s.ds[b]
            && forall v :: WriteOf(s'.ks, b, v) == WriteOf(s.ks, b, v)
  {
  }

  // The document a call is about, when it is about an existing one.
  function About(call: Call): Option<BlockId> {
    if call.Create? then None else Some(call.b)
  }

  // A caller who presents a private key that does not match its credentials, or who holds no read
  // token on the document, gets nothing and changes nothing, write token or not.
  lemma StrangerIsRefused(cs: Credentials, s: Stores, c: Client, call: Call, rnd: Random)
    requires Consistent(cs, s) && About(call).Some?
    requires !Authentic(cs, c) || !Holds(s.ks, Read, About(call).value, c.id)
    ensures var (reply, s') := Step(cs, s, c, call, rnd);
            reply.Failed? && s' == s
  {
    LoadYields(cs, s, c, About(call).value);
  }

  // A rotation goes through exactly when the caller can read and write and every other listed user
  // can read; otherwise it changes nothing.  In particular the stores never refuse part of it.
  lemma RotationSucceedsWhen(cs: Credentials, s: Stores, c: Client, b: BlockId, rnd: Random)
    requires Consistent(cs, s) && b != []
    ensures var (reply, s') := RotateStep(cs, s, c, b, rnd);
            && (reply.Done? <==>
                  && Authentic(cs, c) && b in s.ds && Holds(s.ks, Read, b, c.id) && Holds(s.ks, Write, b, c.id)
                  && forall v | v in Others(s.ks, b, c.id) :: Holds(s.ks, Read, b, v))
            && (!reply.Done? ==> s' == s)
  {
    LoadMeans(cs, s, c, b);
    if b in s.ds {
      ListingsAgree(cs, s, b, c.id);
      forall v ensures CanRead(Abs(s), b, v) == Holds(s.ks, Read, b, v) {}
    }
  }

  // Every token of kind `kind` on `b` was wrapped by `granter` and opens to `key`.
  ghost predicate AllOpen(cs: Credentials, ks: KeyMap, kind: Kind, b: BlockId, granter: UserId, key: Key) {
    forall v | Holds(ks, kind, b, v) ::
      var t := Lookup(ks, kind, b, v).value;
      t.owner == granter && Opens(cs, v, t, key)
  }

  // The stores after a rotation, entry by entry.
  lemma RotatedStores(cs: Credentials, s: Stores, c: Client, b: BlockId, rnd: Random)
    requires Consistent(cs, s) && RotateStep(cs, s, c, b, rnd).0.Done?
    ensures var s' := RotateStep(cs, s, c, b, rnd).1;
            && b in s.ds && s'.ds == s.ds[b := NewRecord(rnd.rkey, rnd.wkey, s.ds[b].block.data, s.ds[b].meta)]
            && s'.ks.Keys == s.ks.Keys
            && (forall v | (b, v) in s.ks ::
                  v in cs && s'.ks[(b, v)] == RotatedEntry(cs, c, v, s.ks[(b, v)], rnd) &&
                  RightOf(s'.ks[(b, v)]) == Right(Some(c.id), if s.ks[(b, v)].write.Some? then Some(c.id) else None))
            && (forall b', v | b' != b && (b', v) in s.ks :: s'.ks[(b', v)] == s.ks[(b', v)])
  {
    LoadYields(cs, s, c, b);
    RotatedRights(cs, s, c, b, rnd);
    forall v | (b, v) in s.ks ensures Registered(cs, v) {
      assert (b, v).0 == b && (b, v).1 == v;
    }
  }

  // What a rotation leaves: the same plaintext and metadata, the same readers and writers, new
  // keys in the record, every token of the block wrapped by the rotator around the new keys, and
  // the other blocks as they were.
  lemma RotationPreserves(cs: Credentials, s: Stores, c: Client, b: BlockId, rnd: Random)
    requires Consistent(cs, s) && RotateStep(cs, s, c, b, rnd).0.Done?
    ensures var s' := RotateStep(cs, s, c, b, rnd).1;
            && b in s.ds && s'.ds.Keys == s.ds.Keys
            && s'.ds[b].block.data == s.ds[b].block.data && s'.ds[b].meta == s.ds[b].meta
            && s'.ds[b].block.key == rnd.rkey && s'.ds[b].mac.key == rnd.wkey
            && (forall kind, v :: Holds(s'.ks, kind, b, v) == Holds(s.ks, kind, b, v))
            && AllOpen(cs, s'.ks, Read, b, c.id, rnd.rkey) && AllOpen(cs, s'.ks, Write, b, c.id, rnd.wkey)
            && (forall b' | b' in s.ds && b' != b :: s'.ds[b'] == s.ds[b'])
            && (forall kind, b', v | b' != b :: Lookup(s'.ks, kind, b', v) == Lookup(s.ks, kind, b', v))
  {
    hide RotateStep, RotatedEntry, Consistent;
    RotatedStores(cs, s, c, b, rnd);
    RotationHolders(cs, s, c, b, rnd);
    RotateKeeps(cs, s, c, b, rnd);
    var s' := RotateStep(cs, s, c, b, rnd).1;
    TokensOpen(cs, s', b);
    assert s'.ds[b].block.key == rnd.rkey && s'.ds[b].mac.key == rnd.wkey;
    forall v | Holds(s'.ks, Read, b, v) || Holds(s'.ks, Write, b, v)
      ensures RightOf(s'.ks[(b, v)]) == Right(Some(c.id), if s.ks[(b, v)].write.Some? then Some(c.id) else None) {}
  }

  lemma RotationHolders(cs: Credentials, s: Stores, c: Client, b: BlockId, rnd: Random)
    requires Consistent(cs, s) && RotateStep(cs, s, c, b, rnd).0.Done?
    ensures var s' := RotateStep(cs, s, c, b, rnd).1;
            && (forall v :: Holds(s'.ks, Read, b, v) == Holds(s.ks, Read, b, v))
            && (forall v :: Holds(s'.ks, Write, b, v) == Holds(s.ks, Write, b, v))
  {
    RotatedStores(cs, s, c, b, rnd);
    RotationSucceedsWhen(cs, s, c, b, rnd);
    forall v | (b, v) in s.ks ensures Holds(s.ks, Read, b, v) {
      UserListed(s.ks, b, v);
      assert v == c.id || v in Others(s.ks, b, c.id);
    }
  }

  // In a consistent state every token of a live block opens to the key in its record.
  lemma TokensOpen(cs: Credentials, s: Stores, b: BlockId)
    requires Consistent(cs, s) && b in s.ds
    ensures forall v | Holds(s.ks, Read, b, v) :: Opens(cs, v, ReadOf(s.ks, b, v).value, s.ds[b].block.key)
    ensures forall v | Holds(s.ks, Write, b, v) :: Opens(cs, v, WriteOf(s.ks, b, v).value, s.ds[b].mac.key)
  {
    assert BlockConsistent(cs, s, b);
    forall v | (b, v) in s.ks ensures EntryOpens(cs, v, s.ks[(b, v)], s.ds[b]) {
      UserListed(s.ks, b, v);
    }
  }

  // Revocation.  `k` is the read key of the document, which a reader `v` may have kept.  Denying v
  // alone leaves the document under k; the next rotation puts it beyond k and beyond v's calls,
  // while the remaining readers keep reading the same content.
  lemma RevocationTakesRotation(cs: Credentials, s: Stores, c: Client, b: BlockId, v: Client, w: Client, rnd: Random)
    requires Consistent(cs, s) && b in s.ds && b != [] && v.id != c.id
    requires DenyStep(cs, s, c, Read, b, v.id).0.Done?
    requires RotateStep(cs, DenyStep(cs, s, c, Read, b, v.id).1, c, b, rnd).0.Done?
    requires rnd.rkey != s.ds[b].block.key
    ensures var k := s.ds[b].block.key;
            var s1 := DenyStep(cs, s, c, Read, b, v.id).1;
            var s2 := RotateStep(cs, s1, c, b, rnd).1;
            && Decrypt(k, s1.ds[b].block, s1.ds[b].meta) == Some(s.ds[b].block.data)
            && b in s2.ds && Decrypt(k, s2.ds[b].block, s2.ds[b].meta) == None
            && ReadStep(cs, s1, v, b) == Failed(HM_FAIL) && ReadStep(cs, s2, v, b) == Failed(HM_FAIL)
            && (w.id != v.id ==> ReadStep(cs, s2, w, b) == ReadStep(cs, s, w, b))
  {
    var s1 := DenyStep(cs, s, c, Read, b, v.id).1;
    DropKeeps(cs, s, Read, b, v.id);
    RotationPreserves(cs, s1, c, b, rnd);
    RotateKeeps(cs, s1, c, b, rnd);
    var s2 := RotateStep(cs, s1, c, b, rnd).1;
    assert BlockConsistent(cs, s, b);
    LoadYields(cs, s1, v, b);
    LoadYields(cs, s2, v, b);
    LoadYields(cs, s, w, b);
    LoadYields(cs, s2, w, b);
    assert Holds(s2.ks, Read, b, v.id) == Holds(s1.ks, Read, b, v.id);
    assert Holds(s2.ks, Read, b, w.id) == Holds(s1.ks, Read, b, w.id);
  }
}
