/** The table of registered functions: 1024 buckets of linked entries, each bucket kept in order. */
module HashTable {
  import opened Base

  const CAP := 1024

  const WORD := 0x1_0000_0000_0000_0000

  // The djb2 hash of the first `n` bytes, before anything wraps.
  function Djb2(key: Bytes, n: nat): nat
    requires n <= |key|
  {
    if n == 0 then 5381 else 33 * Djb2(key, n - 1) + key[n - 1]
  }

  function Bucket(key: Bytes): (h: nat)
    ensures h < CAP
  {
    Djb2(key, |key|) % CAP
  }

  // What is left of a number in one machine word.
  method Wrap(x: nat) returns (r: nat, ghost lost: nat)
    ensures r < WORD && x == lost * WORD + r
  {
    r, lost := x % WORD, x / WORD;
  }

  // The word wraps at 2 to the 64, which the bucket does not see.
  method Hash(key: Bytes) returns (h: nat)
    ensures h == Bucket(key)
  {
    var hash: nat := 5381;
    ghost var wrapped: nat := 0;
    var i := 0;
    while i < |key|
      invariant i <= |key| && Djb2(key, i) == wrapped * WORD + hash
    {
      var shifted, lost := Wrap(hash * 32);
      var sum, carry := Wrap(shifted + hash);
      ghost var over: nat;
      wrapped := 33 * wrapped + lost + carry;
      hash, over := Wrap(sum + key[i]);
      wrapped := wrapped + over;
      i := i + 1;
    }
    h := hash % CAP;
    InBucket(wrapped * (WORD / CAP) + hash / CAP, h);
  }

  lemma InBucket(q: nat, r: nat)
    requires r < CAP
    ensures (CAP * q + r) % CAP == r
  {
  }

  predicate SameUpTo(a: Bytes, b: Bytes, i: nat)
    requires i <= |a| && i <= |b|
  {
    forall k | 0 <= k < i :: a[k] == b[k]
  }

  // `a` and `b` differ first at a place both have, and `a` is the smaller there.
  ghost predicate Before(a: Bytes, b: Bytes) {
    exists i | 0 <= i < |a| && i < |b| :: SameUpTo(a, b, i) && a[i] < b[i]
  }

  // Comparing the whole of `key` with the front of a stored key; it must not run past the end of the
  // stored one.
  function MemCmp(key: Bytes, stored: Bytes, i: nat): (r: int)
    requires i <= |key| && i <= |stored| && SameUpTo(key, stored, i) && !(stored < key)
    ensures r == 0 <==> key <= stored
    ensures r < 0 <==> Before(key, stored)
    ensures r > 0 <==> Before(stored, key)
    decreases |key| - i
  {
    if i == |key| then 0
    else if i == |stored| then assert false; 0
    else if key[i] != stored[i] then key[i] as int - stored[i] as int
    else MemCmp(key, stored, i + 1)
  }

  // No stored key of the table may end inside the key that is compared with it.
  predicate EndsInside(stored: Bytes, key: Bytes) {
    stored < key
  }

  function Compare(key: Bytes, stored: Bytes): (r: int)
    requires !EndsInside(stored, key)
    ensures r == 0 <==> key <= stored
    ensures r < 0 <==> Before(key, stored)
    ensures r > 0 <==> Before(stored, key)
  {
    MemCmp(key, stored, 0)
  }

  lemma BeforeIsStrict(a: Bytes, b: Bytes)
    requires Before(a, b)
    ensures !(a <= b) && !(b <= a) && !Before(b, a) && a != b
  {
    var i :| 0 <= i < |a| && i < |b| && SameUpTo(a, b, i) && a[i] < b[i];
    assert a[i] != b[i];
    forall j | 0 <= j < |b| && j < |a| && SameUpTo(b, a, j)
      ensures !(b[j] < a[j])
    {
    }
  }

  lemma BeforeChains(a: Bytes, b: Bytes, c: Bytes)
    requires Before(a, b) && (Before(b, c) || b <= c)
    ensures Before(a, c)
  {
    var i :| 0 <= i < |a| && i < |b| && SameUpTo(a, b, i) && a[i] < b[i];
    if b <= c {
      assert SameUpTo(a, c, i) && a[i] < c[i];
    } else {
      var j :| 0 <= j < |b| && j < |c| && SameUpTo(b, c, j) && b[j] < c[j];
      var k := if i < j then i else j;
      assert SameUpTo(a, c, k) && a[k] < c[k];
    }
  }

  class Entry<V> {
    const key: Bytes
    const val: V
    var next: Entry?<V>

    constructor (key: Bytes, val: V)
      ensures this.key == key && this.val == val && next == null
    {
      this.key, this.val, next := key, val, null;
    }
  }

  function At<V>(c: seq<Entry<V>>, i: nat): Entry?<V> {
    if i < |c| then c[i] else null
  }

  ghost predicate Chained<V>(first: Entry?<V>, c: seq<Entry<V>>)
    reads c
  {
    first == At(c, 0) && forall i {:trigger c[i].next} | 0 <= i < |c| :: c[i].next == At(c, i + 1)
  }

  // A bucket is strictly ordered, and holds only keys that belong there.
  ghost predicate Ordered<V>(c: seq<Entry<V>>, h: nat) {
    && (forall i | 0 <= i < |c| :: c[i].key != [] && Bucket(c[i].key) == h)
    && (forall i, j | 0 <= i < j < |c| :: Before(c[i].key, c[j].key))
  }

  ghost predicate Stores<V>(c: seq<Entry<V>>, key: Bytes, val: V) {
    exists e | e in c :: e.key == key && e.val == val
  }

  // The first stored key, in order, that starts with the key, among those of its bucket.
  ghost predicate Hit<V>(m: map<Bytes, V>, key: Bytes, k: Bytes) {
    && k in m && Bucket(k) == Bucket(key) && key <= k
    && forall other | other in m && Bucket(other) == Bucket(key) && key <= other :: other == k || Before(k, other)
  }

  ghost function Lookup<V>(m: map<Bytes, V>, key: Bytes): Option<V> {
    if k :| Hit(m, key, k) then Some(m[k]) else None
  }

  // No bound key of the bucket ends inside the key that is compared with it.
  ghost predicate Readable<V>(m: map<Bytes, V>, key: Bytes) {
    forall k | k in m && Bucket(k) == Bucket(key) :: !EndsInside(k, key)
  }

  lemma OneHit<V>(m: map<Bytes, V>, key: Bytes, k: Bytes)
    requires Hit(m, key, k)
    ensures Lookup(m, key) == Some(m[k])
  {
    forall other | Hit(m, key, other)
      ensures other == k
    {
      if other != k { BeforeIsStrict(k, other); }
    }
  }

  // Names as they are registered: NUL at the end and nowhere else.
  predicate Terminated(name: Bytes) {
    name != [] && name[|name| - 1] == 0 && forall i | 0 <= i < |name| - 1 :: name[i] != 0
  }

  // On terminated names, the search is the lookup of a finite map.
  lemma NamesLookUpExactly<V>(m: map<Bytes, V>, key: Bytes)
    requires Terminated(key) && forall k | k in m :: Terminated(k)
    ensures Readable(m, key) && Lookup(m, key) == if key in m then Some(m[key]) else None
  {
    forall k | k in m
      ensures !EndsInside(k, key) && (key <= k ==> key == k)
    {
      assert k <= key ==> key[|k| - 1] == 0;
      assert key <= k ==> k[|key| - 1] == 0;
    }
    if key in m { OneHit(m, key, key); }
  }

  // Without the terminator a shorter key can be answered with the value of a longer one.
  lemma ShorterKeyHits<V>(val: V)
    ensures Lookup<V>(map[[89, 64] := val], [89]) == Some(val)
  {
    var key: Bytes, stored: Bytes := [89], [89, 64];
    ShortBuckets();
    OneHit(map[stored := val], key, stored);
  }

  lemma ShortBuckets()
    ensures Bucket([89]) == Bucket([89, 64])
  {
    var key: Bytes, stored: Bytes := [89], [89, 64];
    assert Djb2(key, 0) == 5381 == Djb2(stored, 0);
    assert Djb2(stored, 1) == 177662 == Djb2(key, 1);
    assert Djb2(stored, 2) == 5862910;
  }

  ghost predicate Binds<V>(m: map<Bytes, V>, e: Entry<V>) {
    e.key in m && m[e.key] == e.val
  }

  // The chain of bucket `h` holds exactly the bindings of that bucket.
  ghost predicate Represents<V>(c: seq<Entry<V>>, h: nat, m: map<Bytes, V>) {
    && Ordered(c, h)
    && (forall e | e in c :: Binds(m, e))
    && (forall k | k in m && Bucket(k) == h :: Stores(c, k, m[k]))
  }

  // The links of a bucket spell its chain, and the chain holds its bindings.
  ghost predicate Tied<V>(first: Entry?<V>, c: seq<Entry<V>>, h: nat, m: map<Bytes, V>)
    reads c
  {
    Chained(first, c) && Represents(c, h, m)
  }

  ghost predicate Within<V>(c: seq<Entry<V>>, entries: set<Entry<V>>) {
    forall e | e in c :: e in entries
  }

  // The first `p` entries stand before the key.
  ghost predicate Passed<V>(c: seq<Entry<V>>, key: Bytes, p: nat) {
    p <= |c| && forall i | 0 <= i < p :: Before(c[i].key, key)
  }

  lemma Comparable<V>(c: seq<Entry<V>>, m: map<Bytes, V>, key: Bytes)
    requires Represents(c, Bucket(key), m) && Readable(m, key)
    ensures forall i | 0 <= i < |c| :: !EndsInside(c[i].key, key)
  {
    forall i | 0 <= i < |c|
      ensures !EndsInside(c[i].key, key)
    {
      assert Binds(m, c[i]);
    }
  }

  // A key whose search stopped where nothing matches has no match anywhere.
  lemma NothingMissed<V>(c: seq<Entry<V>>, m: map<Bytes, V>, key: Bytes, p: nat)
    requires Represents(c, Bucket(key), m) && Passed(c, key, p)
    requires p < |c| ==> Before(key, c[p].key)
    ensures forall k | k in m && Bucket(k) == Bucket(key) :: !(key <= k)
  {
    hide Bucket, Before;
    forall k | k in m && Bucket(k) == Bucket(key)
      ensures !(key <= k)
    {
      var e :| e in c && e.key == k && e.val == m[k];
      var i :| 0 <= i < |c| && c[i] == e;
      if i < p {
        BeforeIsStrict(k, key);
      } else {
        if p < i { BeforeChains(key, c[p].key, k); }
        BeforeIsStrict(key, k);
      }
    }
  }

  // The match a search stops at is the first in order.
  lemma FirstHit<V>(c: seq<Entry<V>>, m: map<Bytes, V>, key: Bytes, p: nat)
    requires Represents(c, Bucket(key), m) && Passed(c, key, p)
    requires p < |c| && key <= c[p].key
    ensures Hit(m, key, c[p].key) && Lookup(m, key) == Some(c[p].val)
  {
    assert Binds(m, c[p]);
    forall k | k in m && Bucket(k) == Bucket(key) && key <= k
      ensures k == c[p].key || Before(c[p].key, k)
    {
      var e :| e in c && e.key == k && e.val == m[k];
      var i :| 0 <= i < |c| && c[i] == e;
      if i < p { BeforeIsStrict(k, key); }
    }
    OneHit(m, key, c[p].key);
  }

  // Two keys of one bucket: neither starts with the other.
  lemma PrefixFree<V>(c: seq<Entry<V>>, m: map<Bytes, V>, a: Bytes, b: Bytes)
    requires Represents(c, Bucket(a), m)
    requires a in m && b in m && Bucket(a) == Bucket(b) && a != b
    ensures !(a <= b)
  {
    assert Stores(c, a, m[a]) && Stores(c, b, m[b]);
    var i, j :| 0 <= i < |c| && c[i].key == a && 0 <= j < |c| && c[j].key == b;
    if i < j { BeforeIsStrict(a, b); } else { BeforeIsStrict(b, a); }
  }

  // The search reads past the end of a stored key exactly when some stored key of the bucket ends
  // inside the key that is looked for: nothing stops the search ahead of it.
  lemma OverrunsExactlyWhen<V>(c: seq<Entry<V>>, m: map<Bytes, V>, key: Bytes)
    requires Represents(c, Bucket(key), m)
    ensures !Readable(m, key) <==> exists p | 0 <= p < |c| :: Passed(c, key, p) && EndsInside(c[p].key, key)
  {
    if k :| k in m && Bucket(k) == Bucket(key) && EndsInside(k, key) {
      var e :| e in c && e.key == k && e.val == m[k];
      var p :| 0 <= p < |c| && c[p] == e;
      forall i | 0 <= i < p
        ensures Before(c[i].key, key)
      {
        BeforeChains(c[i].key, k, key);
      }
    }
    if p :| 0 <= p < |c| && Passed(c, key, p) && EndsInside(c[p].key, key) {
      assert Binds(m, c[p]);
    }
  }

  // A stored key that ends inside the key looked for, in the same bucket.
  lemma OverrunExample<V>(val: V)
    ensures Bucket([89]) == Bucket([89, 64]) && !Readable(map[[89] := val], [89, 64])
  {
    var stored: Bytes, key: Bytes := [89], [89, 64];
    ShortBuckets();
    assert stored in map[stored := val] && EndsInside(stored, key);
  }

  // The search is the lookup of a finite map for every key that is bound and every key that no bound
  // key of its bucket starts with, and only for those.
  lemma LookupIsMapLookup<V>(c: seq<Entry<V>>, m: map<Bytes, V>, key: Bytes)
    requires Represents(c, Bucket(key), m) && Readable(m, key)
    ensures Lookup(m, key) == (if key in m then Some(m[key]) else None) <==>
            (key in m || forall k | k in m && Bucket(k) == Bucket(key) :: !(key <= k))
  {
    if key in m {
      forall k | k in m && Bucket(k) == Bucket(key) && key <= k
        ensures k == key
      {
        if k != key { PrefixFree(c, m, key, k); }
      }
      OneHit(m, key, key);
    } else {
      var p := 0;
      Comparable(c, m, key);
      while p < |c| && Compare(key, c[p].key) > 0
        invariant Passed(c, key, p)
      {
        p := p + 1;
      }
      if p < |c| && key <= c[p].key {
        FirstHit(c, m, key, p);
      } else {
        NothingMissed(c, m, key, p);
      }
    }
  }

  function Spliced<V>(c: seq<Entry<V>>, p: nat, entry: Entry<V>): seq<Entry<V>>
    requires p <= |c|
  {
    c[..p] + [entry] + c[p..]
  }

  lemma SplicedOrdered<V>(c: seq<Entry<V>>, h: nat, p: nat, entry: Entry<V>)
    requires Ordered(c, h) && Passed(c, entry.key, p) && entry.key != [] && Bucket(entry.key) == h
    requires p < |c| ==> Before(entry.key, c[p].key)
    ensures Ordered(Spliced(c, p, entry), h)
  {
    forall i | p < i < |c|
      ensures Before(entry.key, c[i].key)
    {
      BeforeChains(entry.key, c[p].key, c[i].key);
    }
  }

  // Put in its place, a new binding keeps the chain in order and adds nothing else.
  lemma SplicedRepresents<V>(c: seq<Entry<V>>, h: nat, m: map<Bytes, V>, p: nat, entry: Entry<V>)
    requires Represents(c, h, m) && Passed(c, entry.key, p)
    requires entry.key != [] && Bucket(entry.key) == h && entry.key !in m
    requires p < |c| ==> Before(entry.key, c[p].key)
    ensures Represents(Spliced(c, p, entry), h, m[entry.key := entry.val])
  {
    var s, more := Spliced(c, p, entry), m[entry.key := entry.val];
    SplicedOrdered(c, h, p, entry);
    assert c == c[..p] + c[p..];
    assert entry in s && forall e | e in c :: e in s;
    forall e | e in s
      ensures Binds(more, e)
    {
      assert e in c ==> Binds(m, e);
    }
    forall k | k in m && Bucket(k) == h
      ensures Stores(s, k, m[k])
    {
      assert Stores(c, k, m[k]);
    }
  }

  lemma SplicedWithin<V>(c: seq<Entry<V>>, p: nat, entry: Entry<V>, entries: set<Entry<V>>)
    requires p <= |c| && Within(c, entries)
    ensures Within(Spliced(c, p, entry), entries + {entry})
  {
  }

  // A new binding of one bucket leaves the others as they are.
  lemma OtherTied<V>(first: Entry?<V>, c: seq<Entry<V>>, h: nat, m: map<Bytes, V>, entry: Entry<V>,
                                        entries: set<Entry<V>>)
    requires Tied(first, c, h, m) && Bucket(entry.key) != h && Within(c, entries)
    ensures Tied(first, c, h, m[entry.key := entry.val]) && Within(c, entries + {entry})
  {
    forall e | e in c
      ensures Binds(m[entry.key := entry.val], e)
    {
      assert Binds(m, e);
    }
  }

  ghost predicate Distinct<V>(c: seq<Entry<V>>) {
    forall i, j | 0 <= i < j < |c| :: c[i] != c[j]
  }

  // Entries in order are distinct, so only the place in front has the first entry next.
  lemma AtFront<V>(c: seq<Entry<V>>, h: nat, p: nat)
    requires Ordered(c, h) && p <= |c|
    ensures Distinct(c) && (At(c, p) == At(c, 0) <==> p == 0)
  {
    forall i, j | 0 <= i < j < |c|
      ensures c[i] != c[j]
    {
      BeforeIsStrict(c[i].key, c[j].key);
    }
  }

  // The three ways in which a new entry is tied in.
  method Splice<V>(t: array<Entry?<V>>, ghost c: seq<Entry<V>>, ghost p: nat, h: nat,
                   entry: Entry<V>, last: Entry?<V>, next: Entry?<V>)
    requires h < t.Length && Chained(t[h], c) && Distinct(c) && entry !in c && entry.next == null
    requires p <= |c| && next == At(c, p) && last == if p == 0 then null else c[p - 1]
    modifies t, entry, if last == null then {} else {last}
    ensures Chained(t[h], Spliced(c, p, entry))
    ensures forall g | 0 <= g < t.Length && g != h :: t[g] == old(t[g])
  {
    if next == t[h] {
      entry.next := next;
      t[h] := entry;
    } else if next == null {
      last.next := entry;
    } else {
      entry.next := next;
      last.next := entry;
    }
  }

  // The first entry that does not stand before the key, and the one ahead of it.
  method Seek<V>(first: Entry?<V>, ghost c: seq<Entry<V>>, key: Bytes)
    returns (last: Entry?<V>, next: Entry?<V>, ghost p: nat)
    requires Chained(first, c) && forall i | 0 <= i < |c| :: !EndsInside(c[i].key, key)
    ensures Passed(c, key, p) && next == At(c, p) && last == if p == 0 then null else c[p - 1]
    ensures next != null ==> !Before(next.key, key)
  {
    hide Before, Compare, EndsInside;
    last, next, p := null, first, 0;
    while next != null && Compare(key, next.key) > 0
      invariant Passed(c, key, p)
      invariant next == At(c, p) && last == if p == 0 then null else c[p - 1]
      decreases |c| - p
    {
      last := next;
      next := next.next;
      p := p + 1;
    }
  }

  class Table<V> {
    const t: array<Entry?<V>>
    ghost var chains: seq<seq<Entry<V>>>
    ghost var entries: set<Entry<V>>
    ghost var content: map<Bytes, V>

    ghost predicate Linked(h: nat)
      requires h < |chains| <= t.Length
      reads this, t, entries
    {
      Within(chains[h], entries) && Tied(t[h], chains[h], h, content)
    }

    ghost predicate Valid()
      reads this, t, entries
    {
      t.Length == CAP == |chains| && forall h | 0 <= h < CAP :: Linked(h)
    }

    constructor ()
      ensures Valid() && content == map[] && fresh(t) && fresh(entries)
    {
      t := new Entry?<V>[CAP](_ => null);
      chains := seq(CAP, _ => []);
      entries := {};
      content := map[];
    }

    // The early stop never misses: nothing is found only when no stored key of the bucket starts
    // with the key, and what is found is the binding of the first that does.
    method Get(key: Bytes) returns (status: int, val: Option<V>)
      requires Valid() && Readable(content, key)
      ensures key == [] ==> status == HM_INVALID_PARAMETER && val == None
      ensures key != [] ==> val == Lookup(content, key) && status == if val.Some? then HM_SUCCESS else HM_FAIL
    {
      if key == [] {
        return HM_INVALID_PARAMETER, None;
      }
      var h := Hash(key);
      assert Linked(h);
      Comparable(chains[h], content, key);
      var _, entry, p := Seek(t[h], chains[h], key);
      if entry == null || 0 != Compare(key, entry.key) {
        NothingMissed(chains[h], content, key, p);
        return HM_FAIL, None;
      }
      FirstHit(chains[h], content, key, p);
      return HM_SUCCESS, Some(entry.val);
    }

    // Splice a new entry in at place `p` of its bucket.
    method Insert(entry: Entry<V>, h: nat, last: Entry?<V>, next: Entry?<V>, ghost p: nat)
      requires Valid() && entry !in entries && entry.key != [] && h == Bucket(entry.key)
      requires Passed(chains[h], entry.key, p)
      requires next == At(chains[h], p) && last == if p == 0 then null else chains[h][p - 1]
      requires next != null ==> Before(entry.key, next.key)
      requires entry.key !in content && entry.next == null
      modifies this, t, entries, entry
      ensures Valid() && entries == old(entries) + {entry} && content == old(content)[entry.key := entry.val]
    {
      hide Before;
      ghost var c, all, was := chains[h], chains, content;
      assert Linked(h);
      AtFront(c, h, p);
      forall g | 0 <= g < CAP && g != h
        ensures Tied(t[g], all[g], g, was) && entry !in all[g] && last !in all[g] && Within(all[g], entries)
      {
        assert Linked(g);
      }
      Splice(t, c, p, h, entry, last, next);
      entries := entries + {entry};
      content := content[entry.key := entry.val];
      chains := chains[h := Spliced(c, p, entry)];
      SplicedRepresents(c, h, was, p, entry);
      SplicedWithin(c, p, entry, old(entries));
      assert Linked(h);
      forall g | 0 <= g < CAP && g != h
        ensures Linked(g)
      {
        OtherTied(t[g], all[g], g, was, entry, old(entries));
      }
    }

    // A key that some stored key of its bucket starts with is refused, and nothing changes; any other
    // key is added, and nothing else changes.
    method Set(key: Bytes, val: V) returns (status: int)
      requires Valid() && Readable(content, key)
      modifies this, t, entries
      ensures Valid() && fresh(entries - old(entries))
      ensures status == (if key == [] then HM_INVALID_PARAMETER
                         else if Lookup(old(content), key).Some? then HM_FAIL else HM_SUCCESS)
      ensures content == if status == HM_SUCCESS then old(content)[key := val] else old(content)
    {
      if key == [] {
        return HM_INVALID_PARAMETER;
      }
      var h := Hash(key);
      assert Linked(h);
      Comparable(chains[h], content, key);
      var last, next, p := Seek(t[h], chains[h], key);
      if next != null && 0 == Compare(key, next.key) {
        FirstHit(chains[h], content, key, p);
        return HM_FAIL;
      }
      NothingMissed(chains[h], content, key, p);
      var entry := new Entry(key, val);
      Insert(entry, h, last, next, p);
      return HM_SUCCESS;
    }
  }
}
