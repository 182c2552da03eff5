/** The key store's files: the tokens of a user of a block as files below the user's directory. */
module FileTree {
  import opened Base
  import opened Crypto
  import opened KeyRights
  import Names = DirectoryNames
  import Base64

  type Path = seq<string>

  datatype File = TokenFile(token: Wrapped) | OwnerFile(owner: UserId)

  datatype Tree = Tree(files: map<Path, File>, dirs: set<Path>)

  // A file is in the way of the path.
  predicate Blocked(t: Tree, p: Path) {
    exists i | 0 <= i <= |p| :: p[..i] in t.files
  }

  // Making a directory makes those above it first.
  function MakeDirectory(t: Tree, p: Path): Tree {
    t.(dirs := t.dirs + set i | 0 <= i <= |p| && !Blocked(t, p[..i]) :: p[..i])
  }

  // A file is written only in a directory that is there.
  function WriteFile(t: Tree, dir: Path, name: string, f: File): Tree {
    if dir in t.dirs && dir + [name] !in t.dirs then t.(files := t.files[dir + [name] := f]) else t
  }

  // Removing a directory removes everything in it.
  function RemoveDirectory(t: Tree, p: Path): Tree {
    if p !in t.dirs then t
    else Tree(map q | q in t.files && !Names.Inside(q, p) :: t.files[q], set q | q in t.dirs && !Names.Inside(q, p))
  }

  function KindName(kind: Kind): string {
    if kind.Read? then "r" else "w"
  }

  // Storing a token below the directory of a user.
  function WriteToken(t: Tree, dir: Path, kind: Kind, s: Stored): Tree {
    var at := dir + [KindName(kind)];
    WriteFile(WriteFile(MakeDirectory(t, at), at, "token", TokenFile(s.token)), at, "owner", OwnerFile(s.owner))
  }

  function ReadToken(t: Tree, dir: Path, kind: Kind): Option<Stored> {
    var at := dir + [KindName(kind)];
    if at + ["token"] in t.files && at + ["owner"] in t.files
       && t.files[at + ["token"]].TokenFile? && t.files[at + ["owner"]].OwnerFile?
    then Some(Stored(t.files[at + ["token"]].token, t.files[at + ["owner"]].owner))
    else None
  }

  // Removing a read token removes all of the user's directory.
  function RemoveToken(t: Tree, dir: Path, kind: Kind): Tree {
    RemoveDirectory(t, if kind.Read? then dir else dir + [KindName(kind)])
  }

  // Half a byte, as bits.
  function Nibble(n: nat): (o: bv8)
    requires n < 16
    ensures o < 16
  {
    if n < 8 then
      if n == 0 then 0 else if n == 1 then 1 else if n == 2 then 2 else if n == 3 then 3
      else if n == 4 then 4 else if n == 5 then 5 else if n == 6 then 6 else 7
    else
      if n == 8 then 8 else if n == 9 then 9 else if n == 10 then 10 else if n == 11 then 11
      else if n == 12 then 12 else if n == 13 then 13 else if n == 14 then 14 else 15
  }

  lemma NibblesDiffer(m: nat, n: nat)
    requires m < 16 && n < 16
    ensures Nibble(m) == Nibble(n) <==> m == n
  {
  }

  function Halves(high: bv8, low: bv8): bv8 {
    (high << 4) | low
  }

  lemma HalvesDiffer(a: bv8, b: bv8, c: bv8, d: bv8)
    requires a < 16 && b < 16 && c < 16 && d < 16
    ensures Halves(a, b) == Halves(c, d) <==> a == c && b == d
  {
  }

  // Identifiers as the encoder takes them.
  function AsOctet(x: byte): bv8 {
    Halves(Nibble(x / 16), Nibble(x % 16))
  }

  lemma OctetDiffers(x: byte, y: byte)
    ensures AsOctet(x) == AsOctet(y) <==> x == y
  {
    hide Nibble, Halves;
    HalvesDiffer(Nibble(x / 16), Nibble(x % 16), Nibble(y / 16), Nibble(y % 16));
    NibblesDiffer(x / 16, y / 16);
    NibblesDiffer(x % 16, y % 16);
  }

  function AsOctets(b: Bytes): Base64.Octets {
    seq(|b|, i requires 0 <= i < |b| => AsOctet(b[i]))
  }

  lemma OctetsDiffer(b: Bytes, c: Bytes)
    ensures AsOctets(b) == AsOctets(c) <==> b == c
  {
    hide AsOctet;
    if AsOctets(b) == AsOctets(c) {
      forall i | 0 <= i < |b| ensures b[i] == c[i] {
        assert AsOctets(b)[i] == AsOctets(c)[i];
        OctetDiffers(b[i], c[i]);
      }
    }
  }

  predicate Plain(b: Bytes) {
    Names.Plain(AsOctets(b))
  }

  function NameOf(b: Bytes): string {
    Base64.Rfc(AsOctets(b))
  }

  lemma NamesDiffer(b: Bytes, c: Bytes)
    ensures NameOf(b) == NameOf(c) <==> b == c
  {
    hide Base64.Rfc;
    OctetsDiffer(b, c);
    Names.EncodingDiffers(AsOctets(b), AsOctets(c));
  }

  // The directory of a user of a block.
  function DirectoryOf(stale: string, b: BlockId, u: UserId): Path {
    Names.Directory(stale, AsOctets(b), AsOctets(u))
  }

  function PlainDirectory(b: BlockId, u: UserId): Path {
    [NameOf(b), NameOf(u)]
  }

  lemma PlainDirectories(stale: string, b: BlockId, u: UserId, c: BlockId, v: UserId)
    requires Plain(b) && Plain(u)
    ensures DirectoryOf(stale, b, u) == PlainDirectory(b, u)
    ensures PlainDirectory(b, u) == PlainDirectory(c, v) <==> (b, u) == (c, v)
  {
    hide Base64.Rfc, Names.Names, Names.Plain, Names.Directory;
    Names.PlainDirectory(stale, AsOctets(b), AsOctets(u));
    NamesDiffer(b, c);
    NamesDiffer(u, v);
    assert PlainDirectory(b, u)[0] == NameOf(b) && PlainDirectory(b, u)[1] == NameOf(u);
    assert PlainDirectory(c, v)[0] == NameOf(c) && PlainDirectory(c, v)[1] == NameOf(v);
  }

  // Token files four names deep, in directories that are there.
  ghost predicate Shaped(t: Tree) {
    (forall p | p in t.files :: |p| == 4 && p[..3] in t.dirs) && (forall p | p in t.dirs :: |p| <= 3)
  }

  // The directories two names deep are those of the entries.
  ghost predicate Listed(t: Tree, ks: KeyMap) {
    && (forall k | k in ks :: Plain(k.0) && Plain(k.1) && PlainDirectory(k.0, k.1) in t.dirs)
    && (forall p | p in t.dirs && |p| == 2 :: exists k | k in ks :: p == PlainDirectory(k.0, k.1))
  }

  // The tokens in the files are those of the entries.
  ghost predicate Kept(t: Tree, ks: KeyMap) {
    forall kind, b, u | Plain(b) && Plain(u) :: ReadToken(t, PlainDirectory(b, u), kind) == Lookup(ks, kind, b, u)
  }

  // The files hold exactly the entries of the map, whose identifiers all have single names.
  ghost predicate Represents(t: Tree, ks: KeyMap) {
    Shaped(t) && Listed(t, ks) && Kept(t, ks)
  }

  lemma SamePath(d: Path, kind: Kind, name: string, e: Path, other: Kind, another: string)
    ensures d + [KindName(kind)] + [name] == e + [KindName(other)] + [another] <==>
            d == e && kind == other && name == another
    ensures d + [KindName(kind)] == e + [KindName(other)] <==> d == e && kind == other
  {
    var at, of := d + [KindName(kind)], e + [KindName(other)];
    var p, q := at + [name], of + [another];
    assert p[..|at|] == at && q[..|of|] == of && at[..|d|] == d && of[..|e|] == e;
    assert p[|at|] == name && q[|of|] == another && at[|d|] == KindName(kind) && of[|e|] == KindName(other);
  }

  // What writing a token below a directory of two names does.
  lemma WrittenTree(t: Tree, dir: Path, kind: Kind, s: Stored)
    requires Shaped(t) && |dir| == 2
    ensures var t', at := WriteToken(t, dir, kind, s), dir + [KindName(kind)];
            && Shaped(t')
            && t'.dirs == t.dirs + {[], dir[..1], dir, at}
            && t'.files == t.files[at + ["token"] := TokenFile(s.token)][at + ["owner"] := OwnerFile(s.owner)]
  {
    var at := dir + [KindName(kind)];
    assert at[..0] == [] && at[..1] == dir[..1] && at[..2] == dir && at[..3] == at;
    assert forall i | 0 <= i <= 3 :: !Blocked(t, at[..i]);
    var made := MakeDirectory(t, at);
    assert made.dirs == t.dirs + {[], dir[..1], dir, at};
    assert (at + ["token"])[..3] == at && (at + ["owner"])[..3] == at;
  }

  lemma ReadAfterWrite(t: Tree, dir: Path, kind: Kind, s: Stored, e: Path, other: Kind)
    requires Shaped(t) && |dir| == |e| == 2
    ensures ReadToken(WriteToken(t, dir, kind, s), e, other) ==
            if e == dir && other == kind then Some(s) else ReadToken(t, e, other)
  {
    hide WriteToken, Shaped, KindName;
    WrittenTree(t, dir, kind, s);
    SamePath(dir, kind, "token", e, other, "token");
    SamePath(dir, kind, "token", e, other, "owner");
    SamePath(dir, kind, "owner", e, other, "token");
    SamePath(dir, kind, "owner", e, other, "owner");
  }

  lemma WritingLists(t: Tree, t': Tree, ks: KeyMap, ks': KeyMap, b: BlockId, u: UserId, at: Path)
    requires Listed(t, ks) && Plain(b) && Plain(u) && |at| == 3
    requires var dir := PlainDirectory(b, u); t'.dirs == t.dirs + {[], dir[..1], dir, at}
    requires ks'.Keys == ks.Keys + {(b, u)}
    ensures Listed(t', ks')
  {
    hide Plain, NameOf;
    forall p | p in t'.dirs && |p| == 2 ensures exists k | k in ks' :: p == PlainDirectory(k.0, k.1) {
      if p in t.dirs {
        var k :| k in ks && p == PlainDirectory(k.0, k.1);
        assert k in ks'.Keys;
      } else {
        assert p == PlainDirectory(b, u) && (b, u) in ks'.Keys && (b, u).0 == b && (b, u).1 == u;
      }
    }
    forall k | k in ks' ensures Plain(k.0) && Plain(k.1) && PlainDirectory(k.0, k.1) in t'.dirs {
      assert k in ks'.Keys;
    }
  }

  // Storing a token in the files is storing it in the map.
  lemma WritingRepresents(t: Tree, ks: KeyMap, stale: string, kind: Kind, b: BlockId, u: UserId, s: Stored)
    requires Represents(t, ks) && Plain(b) && Plain(u)
    ensures Represents(WriteToken(t, DirectoryOf(stale, b, u), kind, s), Put(ks, kind, b, u, s))
  {
    hide Plain, NameOf, DirectoryOf, WriteToken, ReadToken, Listed, Shaped;
    PlainDirectories(stale, b, u, b, u);
    var dir := PlainDirectory(b, u);
    var t', ks' := WriteToken(t, dir, kind, s), Put(ks, kind, b, u, s);
    WrittenTree(t, dir, kind, s);
    WritingLists(t, t', ks, ks', b, u, dir + [KindName(kind)]);
    forall other, c, v | Plain(c) && Plain(v)
      ensures ReadToken(t', PlainDirectory(c, v), other) == Lookup(ks', other, c, v)
    {
      PlainDirectories(stale, b, u, c, v);
      ReadAfterWrite(t, dir, kind, s, PlainDirectory(c, v), other);
    }
  }

  // What is left of a token's files when a directory is removed.
  lemma ReadAfterRemove(t: Tree, p: Path, e: Path, kind: Kind)
    requires p in t.dirs
    ensures var at := e + [KindName(kind)];
            ReadToken(RemoveDirectory(t, p), e, kind) ==
            if Names.Inside(at + ["token"], p) || Names.Inside(at + ["owner"], p) then None else ReadToken(t, e, kind)
  {
  }

  lemma RemovedTree(t: Tree, p: Path)
    requires Shaped(t) && p != []
    ensures var t' := RemoveDirectory(t, p);
            Shaped(t') && forall q :: q in t'.dirs <==> q in t.dirs && !(p in t.dirs && Names.Inside(q, p))
  {
    var t' := RemoveDirectory(t, p);
    forall q | q in t'.files ensures q[..3] in t'.dirs {
      if Names.Inside(q[..3], p) { assert Names.Inside(q, p); }
    }
  }

  lemma ReadAfterDrop(t: Tree, dir: Path, kind: Kind, e: Path, other: Kind)
    requires Shaped(t) && |dir| == |e| == 2
    ensures ReadToken(RemoveToken(t, dir, kind), e, other) ==
            if e == dir && (kind.Read? || other == kind) && (kind.Read? ==> dir in t.dirs) then None
            else ReadToken(t, e, other)
  {
    var p, at := if kind.Read? then dir else dir + [KindName(kind)], e + [KindName(other)];
    assert at[..2] == e && at[2] == KindName(other) && (at + ["token"])[..3] == at && (at + ["owner"])[..3] == at;
    if p in t.dirs {
      ReadAfterRemove(t, p, e, other);
      assert forall name {:trigger at + [name]} ::
          Names.Inside(at + [name], p) <==> e == dir && (kind.Read? || other == kind) by {
        forall name {:trigger at + [name]}
          ensures Names.Inside(at + [name], p) <==> e == dir && (kind.Read? || other == kind)
        {
          var path := at + [name];
          assert path[..2] == e && path[..3] == at;
          assert Names.Inside(path, p) <==> path[..|p|] == p;
          if kind.Write? { assert p[..2] == dir && p[2] == KindName(kind); }
        }
      }
    } else if kind.Write? && e == dir && other == kind {
      assert at == p;
    }
  }

  lemma RemovingLists(t: Tree, ks: KeyMap, kind: Kind, b: BlockId, u: UserId)
    requires Shaped(t) && Listed(t, ks) && Plain(b) && Plain(u)
    ensures Listed(RemoveToken(t, PlainDirectory(b, u), kind), Drop(ks, kind, b, u))
  {
    hide Plain, NameOf, Shaped;
    var dir := PlainDirectory(b, u);
    var t', ks' := RemoveToken(t, dir, kind), Drop(ks, kind, b, u);
    RemovedTree(t, if kind.Read? then dir else dir + [KindName(kind)]);
    assert Names.Inside(dir, dir);
    hide RemoveToken, RemoveDirectory;
    forall k | k in ks' ensures PlainDirectory(k.0, k.1) in t'.dirs {
      PlainDirectories("", b, u, k.0, k.1);
      var d := PlainDirectory(k.0, k.1);
      assert kind.Read? ==> k != (b, u);
      assert Names.Inside(d, dir) ==> d == dir;
      assert !Names.Inside(d, dir + [KindName(kind)]);
    }
    forall p | p in t'.dirs && |p| == 2 ensures exists k | k in ks' :: p == PlainDirectory(k.0, k.1) {
      var k :| k in ks && p == PlainDirectory(k.0, k.1);
      assert k in ks';
    }
  }

  // Removing the files is removing from the map.
  lemma RemovingRepresents(t: Tree, ks: KeyMap, stale: string, kind: Kind, b: BlockId, u: UserId)
    requires Represents(t, ks) && Plain(b) && Plain(u)
    ensures Represents(RemoveToken(t, DirectoryOf(stale, b, u), kind), Drop(ks, kind, b, u))
  {
    PlainDirectories(stale, b, u, b, u);
    var dir := PlainDirectory(b, u);
    var t', ks' := RemoveToken(t, dir, kind), Drop(ks, kind, b, u);
    RemovingLists(t, ks, kind, b, u);
    RemovedTree(t, if kind.Read? then dir else dir + [KindName(kind)]);
    RemovingKeeps(t, ks, kind, b, u);
  }

  lemma DroppedTokens(ks: KeyMap, kind: Kind, b: BlockId, u: UserId, other: Kind, c: BlockId, v: UserId)
    ensures Lookup(Drop(ks, kind, b, u), other, c, v) ==
            if (c, v) == (b, u) && (kind.Read? || other == kind) then None else Lookup(ks, other, c, v)
  {
  }

  lemma RemovingKeeps(t: Tree, ks: KeyMap, kind: Kind, b: BlockId, u: UserId)
    requires Represents(t, ks) && Plain(b) && Plain(u)
    ensures Kept(RemoveToken(t, PlainDirectory(b, u), kind), Drop(ks, kind, b, u))
  {
    hide Plain, NameOf, ReadToken, RemoveToken, Shaped, Drop;
    var dir := PlainDirectory(b, u);
    var t' := RemoveToken(t, dir, kind);
    assert (b, u) in ks ==> dir in t.dirs;
    hide Listed;
    forall other, c, v | Plain(c) && Plain(v)
      ensures ReadToken(t', PlainDirectory(c, v), other) == Lookup(Drop(ks, kind, b, u), other, c, v)
    {
      var e := PlainDirectory(c, v);
      PlainDirectories("", b, u, c, v);
      DroppedTokens(ks, kind, b, u, other, c, v);
      ReadAfterDrop(t, dir, kind, e, other);
      assert ReadToken(t, e, other) == Lookup(ks, other, c, v);
    }
  }

  // The names that reading the directory of a block shows.
  function Shown(t: Tree, b: BlockId): set<string> {
    set p | p in t.dirs && |p| == 2 && p[0] == NameOf(b) :: p[1]
  }

  // Reading the directory of a block shows exactly its users, each under a name that reads back.
  lemma ListingShowsUsers(t: Tree, ks: KeyMap, b: BlockId)
    requires Represents(t, ks) && Plain(b)
    ensures forall u | Plain(u) :: NameOf(u) in Shown(t, b) <==> u in UsersOf(ks, b)
    ensures forall name | name in Shown(t, b) :: exists u | u in UsersOf(ks, b) ::
              name == NameOf(u) && Names.ReadBack(name) == Some(AsOctets(u))
  {
    hide NameOf, AsOctets, Names.ReadBack, Names.Fits;
    forall name | name in Shown(t, b)
      ensures exists u | u in UsersOf(ks, b) :: name == NameOf(u) && Names.ReadBack(name) == Some(AsOctets(u))
    {
      var p :| p in t.dirs && |p| == 2 && p[0] == NameOf(b) && p[1] == name;
      var k :| k in ks && p == PlainDirectory(k.0, k.1);
      NamesDiffer(b, k.0);
      assert k.1 in UsersOf(ks, b);
      NameReadsBack(k.1);
    }
    forall u | Plain(u) ensures NameOf(u) in Shown(t, b) <==> u in UsersOf(ks, b) {
      if u in UsersOf(ks, b) {
        var k :| k in ks && k.0 == b && k.1 == u;
        assert PlainDirectory(b, u) in t.dirs && PlainDirectory(b, u)[0] == NameOf(b);
        assert PlainDirectory(b, u)[1] == NameOf(u);
      }
      if NameOf(u) in Shown(t, b) {
        var v :| v in UsersOf(ks, b) && NameOf(u) == NameOf(v);
        NamesDiffer(u, v);
      }
    }
  }

  lemma NameReadsBack(u: UserId)
    requires Plain(u)
    ensures Names.ReadBack(NameOf(u)) == Some(AsOctets(u))
  {
    hide AsOctets, Base64.Rfc, Names.ReadBack;
    Names.ReadsBackExactlyWhen(AsOctets(u));
  }

  // Users 0 0 0 and 0 0 0 255 255 255 of the block 1 have one directory: a token stored for the one is
  // read for the other.
  lemma SharedExample(t: Tree, stale: string, kind: Kind, s: Stored)
    requires Shaped(t)
    ensures ReadToken(WriteToken(t, DirectoryOf(stale, [1], [0, 0, 0]), kind, s),
                      DirectoryOf(stale, [1], [0, 0, 0, 255, 255, 255]), kind) == Some(s)
  {
    hide WriteToken, ReadToken;
    Names.SharedExample(stale);
    ExampleOctets();
    ReadAfterWrite(t, ["AQ==", "AAAA"], kind, s, ["AQ==", "AAAA"], kind);
  }

  // The directory of 0 0 0 252 0 0 lies in that of 0 0 0, and goes when that one is removed.
  lemma NestedExample(t: Tree, stale: string, kind: Kind)
    requires DirectoryOf(stale, [1], [0, 0, 0]) in t.dirs
    ensures ReadToken(RemoveToken(t, DirectoryOf(stale, [1], [0, 0, 0]), Read),
                      DirectoryOf(stale, [1], [0, 0, 0, 252, 0, 0]), kind) == None
  {
    hide ReadToken;
    Names.SharedExample(stale);
    Names.NestedExample(stale);
    ExampleOctets();
    var d, e := ["AQ==", "AAAA"], ["AQ==", "AAAA", "AAA"];
    assert (e + [KindName(kind)] + ["token"])[..2] == d;
    ReadAfterRemove(t, d, e, kind);
  }

  lemma OneOctets()
    ensures AsOctet(1) == 1 && AsOctet(0) == 0 && AsOctet(255) == 255 && AsOctet(252) == 252
  {
  }

  lemma ExampleOctets()
    ensures AsOctets([1]) == [1] && AsOctets([0, 0, 0]) == [0, 0, 0]
    ensures AsOctets([0, 0, 0, 255, 255, 255]) == [0, 0, 0, 255, 255, 255]
    ensures AsOctets([0, 0, 0, 252, 0, 0]) == [0, 0, 0, 252, 0, 0]
  {
    OneOctets();
    hide AsOctet;
  }
}
