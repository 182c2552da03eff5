/**
  The compare-and-swap on the data store under free interleaving.  Any number of clients obtain a
  write key, fetch a record and later write, as separate steps in any order; the write key a client
  works with is whatever the key store gave it at the time.
 */
module LostUpdates {
  import opened Base
  import opened Crypto
  import opened KeyRights
  import opened Protocol

  // What a client remembers between fetching a record and writing.
  datatype Loaded = Loaded(b: BlockId, wkey: Key, data: Bytes, meta: Bytes)

  // One accepted change to the data store: what was there, what is there now (nothing after a
  // removal), and what the writer had loaded (nothing for a creation).
  datatype Change = Change(b: BlockId, was: Option<Record>, now: Option<Record>, base: Option<Loaded>)

  datatype System = System(ds: DataMap, loads: map<nat, Loaded>, log: seq<Change>)

  // A new document comes with an identifier or gets one drawn for it; nothing is compared then, even
  // when the identifier is taken.
  datatype Move =
    | Insert(b: BlockId, drawn: bool, rkey: Key, wkey: Key, data: Bytes, meta: Bytes)
    | Fetch(client: nat, b: BlockId, rkey: Key, wkey: Key)
    | PutUpdate(client: nat, rkey: Key, data: Bytes, meta: Bytes)
    | PutRotate(client: nat, rkey: Key, wkey: Key)
    | Remove(client: nat)

  function OldTag(l: Loaded): Tag {
    Tag(l.wkey, l.data + l.meta)
  }

  function At(ds: DataMap, b: BlockId): Option<Record> {
    if b in ds then Some(ds[b]) else None
  }

  function Log(y: System, b: BlockId, r: Record, base: Option<Loaded>): System {
    y.(ds := y.ds[b := r], log := y.log + [Change(b, At(y.ds, b), Some(r), base)])
  }

  function Store(y: System, b: BlockId, r: Record, base: Option<Loaded>): System {
    var oldMac := if base.Some? then Some(OldTag(base.value)) else None;
    if Accepts(y.ds, b, oldMac) then Log(y, b, r, base) else y
  }

  function Advance(y: System, m: Move): System {
    match m
    case Insert(b, drawn, rkey, wkey, data, meta) =>
      var r := NewRecord(rkey, wkey, data, meta);
      if drawn then Log(y, b, r, None) else Store(y, b, r, None)
    case Fetch(i, b, rkey, wkey) =>
      if b !in y.ds || Decrypt(rkey, y.ds[b].block, y.ds[b].meta).None? then y
      else y.(loads := y.loads[i := Loaded(b, wkey, Decrypt(rkey, y.ds[b].block, y.ds[b].meta).value, y.ds[b].meta)])
    case PutUpdate(i, rkey, data, meta) =>
      if i !in y.loads then y
      else Store(y, y.loads[i].b, NewRecord(rkey, y.loads[i].wkey, data, meta), Some(y.loads[i]))
    case PutRotate(i, rkey, wkey) =>
      if i !in y.loads then y
      else Store(y, y.loads[i].b, NewRecord(rkey, wkey, y.loads[i].data, y.loads[i].meta), Some(y.loads[i]))
    case Remove(i) =>
      if i !in y.loads then y
      else
        var l := y.loads[i];
        if l.b in y.ds && y.ds[l.b].mac == OldTag(l)
        then y.(ds := y.ds - {l.b}, log := y.log + [Change(l.b, Some(y.ds[l.b]), None, Some(l))])
        else y
  }

  function Play(ms: seq<Move>): System {
    if ms == [] then System(map[], map[], []) else Advance(Play(ms[..|ms| - 1]), ms[|ms| - 1])
  }

  // The record the log says is stored under `b`.
  function Latest(log: seq<Change>, b: BlockId): Option<Record> {
    if log == [] then None
    else if log[|log| - 1].b == b then log[|log| - 1].now
    else Latest(log[..|log| - 1], b)
  }

  // The record has a tag over its own content.
  predicate Tagged(r: Record) {
    r.block.meta == r.meta && r.mac.text == r.block.data + r.meta
  }

  // The writer of `c` had loaded the write key and the data-metadata concatenation of the record it
  // replaced, or found nothing there.
  predicate Justified(c: Change) {
    c.base.Some? && c.was.Some? ==>
      c.was.value.mac.key == c.base.value.wkey &&
      c.was.value.block.data + c.was.value.meta == c.base.value.data + c.base.value.meta
  }

  // The changes to each identifier form one chain, each link replacing exactly the record the
  // previous link left.
  ghost predicate Chained(log: seq<Change>) {
    forall i | 0 <= i < |log| ::
      log[i].was == Latest(log[..i], log[i].b) && Justified(log[i]) && (log[i].now.Some? ==> Tagged(log[i].now.value))
  }

  lemma LatestTagged(log: seq<Change>, b: BlockId)
    requires Chained(log)
    ensures Latest(log, b).Some? ==> Tagged(Latest(log, b).value)
  {
    if log != [] && log[|log| - 1].b != b {
      var front := log[..|log| - 1];
      forall i | 0 <= i < |front| ensures front[..i] == log[..i] {}
      LatestTagged(front, b);
    }
  }

  lemma Extend(log: seq<Change>, c: Change)
    requires Chained(log) && c.was == Latest(log, c.b)
    requires c.base.Some? && c.was.Some? ==> c.was.value.mac == OldTag(c.base.value)
    requires c.now.Some? ==> Tagged(c.now.value)
    ensures Chained(log + [c])
    ensures forall b :: Latest(log + [c], b) == if b == c.b then c.now else Latest(log, b)
  {
    var long := log + [c];
    assert long[..|log|] == log;
    forall i | 0 <= i < |log| ensures long[..i] == log[..i] {}
    LatestTagged(log, c.b);
  }

  // A move either changes nothing in the data store or makes one logged change, whose writer
  // presented the tag of what it replaced.
  lemma OneChange(y: System, m: Move) returns (c: Change)
    ensures var y' := Advance(y, m);
            (y'.log == y.log && y'.ds == y.ds) ||
            (y'.log == y.log + [c]
             && c.was == At(y.ds, c.b)
             && (c.base.Some? && c.was.Some? ==> c.was.value.mac == OldTag(c.base.value))
             && (c.now.Some? ==> Tagged(c.now.value))
             && (forall b :: At(y'.ds, b) == if b == c.b then c.now else At(y.ds, b)))
  {
    var y' := Advance(y, m);
    c := if |y'.log| > 0 then y'.log[|y'.log| - 1] else Change([], None, None, None);
  }

  // No lost updates: in every interleaving, the log of accepted changes is a chain, and the data
  // store holds what the chain ends in.
  lemma {:induction false} WritesFormOneChain(ms: seq<Move>)
    ensures Chained(Play(ms).log)
    ensures forall b :: At(Play(ms).ds, b) == Latest(Play(ms).log, b)
  {
    if ms != [] {
      WritesFormOneChain(ms[..|ms| - 1]);
      var y := Play(ms[..|ms| - 1]);
      var c := OneChange(y, ms[|ms| - 1]);
      if Play(ms).log != y.log {
        Extend(y.log, c);
      }
    }
  }

  // A conditional write is accepted exactly when the document is gone, or carries the write key and
  // the concatenation the client loaded.
  lemma AcceptedExactlyWhen(ms: seq<Move>, l: Loaded)
    ensures var ds := Play(ms).ds;
            Accepts(ds, l.b, Some(OldTag(l))) <==>
            (l.b in ds ==> ds[l.b].mac.key == l.wkey && ds[l.b].block.data + ds[l.b].meta == l.data + l.meta)
  {
    WritesFormOneChain(ms);
    LatestTagged(Play(ms).log, l.b);
    assert At(Play(ms).ds, l.b) == Latest(Play(ms).log, l.b);
  }

  // The record replaced holds the very data and metadata the client loaded exactly when the data
  // did not change length in between: the tag does not say where the data ends.
  lemma SameContentExactlyWhen(ms: seq<Move>, l: Loaded)
    requires l.b in Play(ms).ds && Accepts(Play(ms).ds, l.b, Some(OldTag(l)))
    ensures var r := Play(ms).ds[l.b];
            (r.block.data == l.data && r.meta == l.meta) <==> |r.block.data| == |l.data|
  {
    AcceptedExactlyWhen(ms, l);
    var r := Play(ms).ds[l.b];
    if |r.block.data| == |l.data| {
      assert r.block.data == (r.block.data + r.meta)[..|l.data|];
      assert l.data == (l.data + l.meta)[..|l.data|];
      assert r.meta == (r.block.data + r.meta)[|l.data|..];
      assert l.meta == (l.data + l.meta)[|l.data|..];
    }
  }

  lemma PlayFive(m0: Move, m1: Move, m2: Move, m3: Move, m4: Move)
    ensures var y := Advance(Advance(Advance(Advance(System(map[], map[], []), m0), m1), m2), m3);
            Play([m0, m1, m2, m3]) == y && Play([m0, m1, m2, m3, m4]) == Advance(y, m4)
  {
    var ms := [m0, m1, m2, m3, m4];
    assert ms[..4] == [m0, m1, m2, m3] && ms[..4][..3] == [m0, m1, m2] && ms[..4][..3][..2] == [m0, m1];
    assert ms[..4][..3][..2][..1] == [m0] && ms[..4][..3][..2][..1][..0] == [];
    assert Play([m0]) == Advance(Play([]), m0);
    assert Play([m0, m1]) == Advance(Play([m0]), m1);
    assert Play([m0, m1, m2]) == Advance(Play([m0, m1]), m2);
  }

  // Two clients load a new document.
  lemma LoadedTwice(data: Bytes, meta: Bytes)
    ensures var y := Advance(Advance(Advance(System(map[], map[], []), Insert([9], false, 10, 11, data, meta)),
                                     Fetch(1, [9], 10, 11)), Fetch(2, [9], 10, 11));
            var r, l := NewRecord(10, 11, data, meta), Loaded([9], 11, data, meta);
            y == System(map[[9] := r], map[1 := l, 2 := l], [Change([9], None, Some(r), None)])
  {
    var y1 := Advance(System(map[], map[], []), Insert([9], false, 10, 11, data, meta));
    var r, l := NewRecord(10, 11, data, meta), Loaded([9], 11, data, meta);
    assert y1 == System(map[[9] := r], map[], [Change([9], None, Some(r), None)]);
    assert Advance(y1, Fetch(1, [9], 10, 11)).loads == map[1 := l];
  }

  // An update against a record of the same key and concatenation is accepted.
  lemma AcceptedUpdate(y: System, client: nat, data: Bytes, meta: Bytes)
    requires client in y.loads && y.loads[client].b in y.ds && y.ds[y.loads[client].b].mac == OldTag(y.loads[client])
    ensures var l, y' := y.loads[client], Advance(y, PutUpdate(client, 10, data, meta));
            var r := NewRecord(10, l.wkey, data, meta);
            && y'.ds == y.ds[l.b := r] && y'.loads == y.loads
            && y'.log == y.log + [Change(l.b, Some(y.ds[l.b]), Some(r), Some(l))]
  {
  }

  // A lost update that the tag does not prevent: both clients load data [1, 2] with metadata [3];
  // the second stores [1] with [2, 3]; the first is still accepted, replacing what it never saw.
  lemma BoundaryExample()
    ensures var ms := [Insert([9], false, 10, 11, [1, 2], [3]), Fetch(1, [9], 10, 11), Fetch(2, [9], 10, 11),
                       PutUpdate(2, 10, [1], [2, 3]), PutUpdate(1, 10, [7], [8])];
            var log := Play(ms).log;
            && |log| == 3 && log[2].base == Some(Loaded([9], 11, [1, 2], [3]))
            && log[2].was == Some(NewRecord(10, 11, [1], [2, 3]))
  {
    var m0, m1, m2, m3, m4 := Insert([9], false, 10, 11, [1, 2], [3]), Fetch(1, [9], 10, 11), Fetch(2, [9], 10, 11),
                              PutUpdate(2, 10, [1], [2, 3]), PutUpdate(1, 10, [7], [8]);
    PlayFive(m0, m1, m2, m3, m4);
    LoadedTwice([1, 2], [3]);
    hide Advance, Play;
    var y3 := Advance(Advance(Advance(System(map[], map[], []), m0), m1), m2);
    assert [1, 2] + [3] == [1, 2, 3] && [1] + [2, 3] == [1, 2, 3];
    AcceptedUpdate(y3, 2, [1], [2, 3]);
    AcceptedUpdate(Advance(y3, m3), 1, [7], [8]);
  }

  // A client that loaded a document before its removal puts it back.
  lemma RemovalExample()
    ensures var ms := [Insert([9], false, 10, 11, [1], [2]), Fetch(1, [9], 10, 11), Fetch(2, [9], 10, 11),
                       Remove(2), PutUpdate(1, 10, [7], [8])];
            [9] !in Play(ms[..4]).ds && At(Play(ms).ds, [9]) == Some(NewRecord(10, 11, [7], [8]))
  {
    var m0, m1, m2, m3, m4 := Insert([9], false, 10, 11, [1], [2]), Fetch(1, [9], 10, 11), Fetch(2, [9], 10, 11),
                              Remove(2), PutUpdate(1, 10, [7], [8]);
    PlayFive(m0, m1, m2, m3, m4);
    assert [m0, m1, m2, m3, m4][..4] == [m0, m1, m2, m3];
    LoadedTwice([1], [2]);
    var y3 := Advance(Advance(Advance(System(map[], map[], []), m0), m1), m2);
    var y4 := Advance(y3, m3);
    assert [9] !in y4.ds && y4.loads == y3.loads;
  }
}
