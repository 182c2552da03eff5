/** The key store behind remote calls: the proxies of its clients and the stubs of its server. */
module KeyStoreRpc {
  import opened Base
  import opened Crypto
  import opened ParamPack
  import opened PackTransfer
  import opened KeyRights
  import opened StoreServers
  import Channel
  import HashTable
  import opened Rpc

  // How wrapped keys are written as bytes, and what bytes mean as wrapped keys.
  datatype TokenForm = TokenForm(toBytes: Wrapped -> Bytes, fromBytes: Bytes -> Wrapped)

  ghost predicate Faithful(form: TokenForm) {
    forall w :: form.toBytes(w) != [] && form.fromBytes(form.toBytes(w)) == w
  }

  // The ones from `i` on, up to the first other byte.
  function Count(b: Bytes, i: nat): (n: nat)
    requires i <= |b|
    ensures i + n <= |b|
    decreases |b| - i
  {
    if i < |b| && b[i] == 1 then 1 + Count(b, i + 1) else 0
  }

  // A wrapped key as three numbers, each in ones and a zero.
  function Digits(w: Wrapped): Bytes {
    Mark(w.senderSk) + Mark(w.receiver.sk) + Mark(w.secret)
  }

  function Mark(n: nat): Bytes {
    seq(n, _ => 1) + [0]
  }

  function FromDigits(b: Bytes): Wrapped {
    var x := Count(b, 0);
    var y := if x < |b| then Count(b, x + 1) else 0;
    var z := if x + y + 1 < |b| then Count(b, x + y + 2) else 0;
    Wrapped(x, PublicOf(y), z)
  }

  lemma {:induction false} CountMark(a: Bytes, i: nat, n: nat, z: Bytes)
    requires |a| <= i <= |a| + n
    ensures Count(a + Mark(n) + z, i) == |a| + n - i
    decreases |a| + n - i
  {
    var b := a + Mark(n) + z;
    if i < |a| + n {
      assert b[i] == 1;
      CountMark(a, i + 1, n, z);
    } else {
      assert b[i] == 0;
    }
  }

  // There is a way to write wrapped keys as bytes.
  lemma UnaryIsFaithful()
    ensures Faithful(TokenForm(Digits, FromDigits))
  {
    forall w: Wrapped
      ensures Digits(w) != [] && FromDigits(Digits(w)) == w
    {
      var x, y, z := Mark(w.senderSk), Mark(w.receiver.sk), Mark(w.secret);
      var b := Digits(w);
      CountMark([], 0, w.senderSk, y + z);
      assert b == [] + x + (y + z);
      CountMark(x, |x|, w.receiver.sk, z);
      CountMark(x + y, |x + y|, w.secret, []);
      assert b == x + y + z + [];
    }
  }

  // The seven functions of the server.
  datatype Operation = SetOf(kind: Kind) | GetOf(kind: Kind) | DelOf(kind: Kind) | IndexedOf

  // What the backend holds: the tokens, and the directories in the order they are read back.
  datatype Files = Files(ks: KeyMap, names: Directories)

  function SetFiles(f: Files, kind: Kind, b: BlockId, u: UserId, owner: UserId, token: Wrapped): (int, Files) {
    var (status, ks) := SetToken(f.ks, kind, b, u, owner, token);
    (status, Files(ks, if status == HM_SUCCESS then Added(f.ks, f.names, b, u) else f.names))
  }

  function DelFiles(f: Files, kind: Kind, b: BlockId, u: UserId, requester: UserId): (int, Files) {
    var (status, ks) := DelToken(f.ks, kind, b, u, requester);
    (status, Files(ks, if status == HM_SUCCESS then Removed(f.names, kind, b, u) else f.names))
  }

  function GetFiles(f: Files, kind: Kind, b: BlockId, u: UserId): (int, Option<Stored>) {
    if b == [] || u == [] then (HM_INVALID_PARAMETER, None)
    else if Holds(f.ks, kind, b, u) then (HM_SUCCESS, KeyRights.Lookup(f.ks, kind, b, u))
    else (1, None)
  }

  // A negative index is past every end.
  function IndexedFiles(f: Files, b: BlockId, index: int): (int, Option<(UserId, nat)>) {
    if b == [] then (HM_INVALID_PARAMETER, None)
    else
      var rights := if index < 0 then None else RightsAt(f.ks, f.names, b, index);
      (if rights.Some? then HM_SUCCESS else 1, rights)
  }

  // The buffers an extraction asks for are the first ones of the pack, each owned by it.
  predicate Buffers(ps: seq<Param>, n: nat) {
    n <= |ps| && forall i | 0 <= i < n :: ps[i].Buffer? && ps[i].kind == Owned
  }

  // A token to store must not be empty, besides what the store itself asks.
  function SetStub(form: TokenForm, kind: Kind): Stub<Files> {
    (f: Files, ps: seq<Param>) =>
      if !Buffers(ps, 4) then Outcome(HM_FAIL, None, f)
      else if ps[3].data == [] then Outcome(HM_INVALID_PARAMETER, None, f)
      else
        var (status, after) := SetFiles(f, kind, ps[0].data, ps[1].data, ps[2].data, form.fromBytes(ps[3].data));
        Outcome(status, None, after)
  }

  function DelStub(kind: Kind): Stub<Files> {
    (f: Files, ps: seq<Param>) =>
      if !Buffers(ps, 3) then Outcome(HM_FAIL, None, f)
      else
        var (status, after) := DelFiles(f, kind, ps[0].data, ps[1].data, ps[2].data);
        Outcome(status, None, after)
  }

  function TokenPack(form: TokenForm, t: Stored): Params {
    [Buffer(Owned, form.toBytes(t.token)), Buffer(Owned, t.owner)]
  }

  function GetStub(form: TokenForm, kind: Kind): Stub<Files> {
    (f: Files, ps: seq<Param>) =>
      if !Buffers(ps, 2) then Outcome(HM_FAIL, None, f)
      else
        var (status, t) := GetFiles(f, kind, ps[0].data, ps[1].data);
        Outcome(status, if t.Some? then Some(TokenPack(form, t.value)) else None, f)
  }

  function RightsPack(rights: (UserId, nat)): Params
    requires rights.1 < 0x8000_0000
  {
    [Buffer(Owned, rights.0), Int32(rights.1)]
  }

  function IndexedStub(): Stub<Files> {
    (f: Files, ps: seq<Param>) =>
      if |ps| < 2 || !Buffers(ps, 1) || !ps[1].Int32? then Outcome(HM_FAIL, None, f)
      else
        var (status, rights) := IndexedFiles(f, ps[0].data, ps[1].v);
        Outcome(status, if rights.Some? then Some(RightsPack(rights.value)) else None, f)
  }

  function StubOf(form: TokenForm, op: Operation): Stub<Files> {
    match op
    case SetOf(kind) => SetStub(form, kind)
    case GetOf(kind) => GetStub(form, kind)
    case DelOf(kind) => DelStub(kind)
    case IndexedOf => IndexedStub()
  }

  // Every operation is registered under its own NUL-terminated name.
  ghost predicate Registered(m: map<Bytes, Stub<Files>>, form: TokenForm, names: Operation -> Bytes) {
    && (forall name | name in m :: HashTable.Terminated(name))
    && (forall op: Operation :: HashTable.Terminated(names(op)) && |names(op)| < TWO_32)
    && (forall op: Operation :: names(op) in m && m[names(op)] == StubOf(form, op))
  }

  // A proxy hands over buffers that stay its caller's.
  function Borrow(args: seq<Bytes>): (ps: Params)
    requires |args| <= MAX_PARAMS
    ensures |ps| == |args| && forall i | 0 <= i < |args| :: ps[i] == Buffer(Borrowed, args[i])
  {
    seq(|args|, i requires 0 <= i < |args| => Buffer(Borrowed, args[i]))
  }

  lemma BorrowedArrive(args: seq<Bytes>)
    requires |args| <= MAX_PARAMS
    ensures var ps := Normalised(Borrow(args));
            |ps| == |args| && Buffers(ps, |args|) && forall i | 0 <= i < |args| :: ps[i].data == args[i]
  {
  }

  // What a proxy hands to the client for an operation.
  function RequestOf(names: Operation -> Bytes, op: Operation, ps: Params): Request {
    Request(names(op), Local(ps), op.GetOf? || op.IndexedOf?)
  }

  // The encoding stays below two to the 32.
  predicate Small(ps: Params) {
    |Encode(Normalised(ps))| < TWO_32
  }

  lemma SmallCarried(ps: Params)
    requires ps != [] && Small(ps) && forall i | 0 <= i < |ps| - 1 :: Filled(ps[i])
    ensures Carried(ps)
  {
    hide Encode;
    ReachesLast(ps, 0);
  }

  lemma {:induction false} ReachesLast(ps: seq<Param>, k: nat)
    requires k <= |ps| && forall i | 0 <= i < |ps| - 1 :: Filled(ps[i])
    ensures Reach(ps, k) == |ps|
    decreases |ps| - k
  {
    if k < |ps| { ReachesLast(ps, k + 1); }
  }

  // The server and the client are joined by a wire with nothing on it.
  ghost predicate Ready(client: Client, server: Server<Files>, form: TokenForm, names: Operation -> Bytes)
    reads server, server.table, server.table.t, server.table.entries, client.requests, client.replies
  {
    && server.Valid() && server.requests == client.requests && server.replies == client.replies
    && client.requests.bytes == [] && client.replies.bytes == []
    && Registered(server.table.content, form, names)
  }

  // The wire and the table, whatever is on the wire.
  ghost predicate Joined(client: Client, server: Server<Files>, form: TokenForm, names: Operation -> Bytes)
    reads server, server.table, server.table.t, server.table.entries
  {
    && server.Valid() && server.requests == client.requests && server.replies == client.replies
    && Registered(server.table.content, form, names)
  }

  // One remote operation: the answer and the new state are those of the stub, and the wire is empty
  // again, exactly when request and reply go through whole.
  method Ask(client: Client, server: Server<Files>, form: TokenForm, names: Operation -> Bytes,
             op: Operation, ps: Params)
    returns (answer: Answer)
    requires Ready(client, server, form, names)
    modifies server, client.requests, client.replies
    ensures Joined(client, server, form, names)
    ensures var call := RequestOf(names, op, ps);
            Agrees(StubOf(form, op), old(server.userData), call) <==>
            (Ready(client, server, form, names)
             && (answer, server.userData) == Direct(StubOf(form, op), old(server.userData), call))
  {
    hide Direct, Agrees, StubOf, CallResult, Sent;
    var call := RequestOf(names, op, ps);
    ghost var m, w := server.table.content, server.Now();
    HashTable.NamesLookUpExactly(m, call.name);
    RequestArrives(w, call);
    CallIsDirectExactlyWhen(m, w.state, call);
    answer := client.SyncCall(call, server);
  }

  method SetProxy(client: Client, server: Server<Files>, form: TokenForm, names: Operation -> Bytes,
                  kind: Kind, b: BlockId, u: UserId, owner: UserId, token: Wrapped)
    returns (status: int)
    requires Faithful(form) && Ready(client, server, form, names)
    modifies server, client.requests, client.replies
    ensures Joined(client, server, form, names)
    ensures Small(Borrow([b, u, owner, form.toBytes(token)])) ==>
              && Ready(client, server, form, names)
              && (status, server.userData) == SetFiles(old(server.userData), kind, b, u, owner, token)
  {
    if b == [] || u == [] || owner == [] {
      return HM_INVALID_PARAMETER;
    }
    var ps := Borrow([b, u, owner, form.toBytes(token)]);
    BorrowedArrive([b, u, owner, form.toBytes(token)]);
    if Small(ps) { SmallCarried(ps); }
    var answer := Ask(client, server, form, names, SetOf(kind), ps);
    status := StatusOf(answer);
  }

  // What a proxy without results returns.
  function StatusOf(answer: Answer): int {
    if answer.res != HM_SUCCESS || answer.error.None? then answer.res else answer.error.value
  }

  method DelProxy(client: Client, server: Server<Files>, form: TokenForm, names: Operation -> Bytes,
                  kind: Kind, b: BlockId, u: UserId, owner: UserId)
    returns (status: int)
    requires Ready(client, server, form, names)
    modifies server, client.requests, client.replies
    ensures Joined(client, server, form, names)
    ensures Small(Borrow([b, u, owner])) ==>
              && Ready(client, server, form, names)
              && (status, server.userData) == DelFiles(old(server.userData), kind, b, u, owner)
  {
    if b == [] || u == [] || owner == [] {
      return HM_INVALID_PARAMETER;
    }
    var ps := Borrow([b, u, owner]);
    BorrowedArrive([b, u, owner]);
    if Small(ps) { SmallCarried(ps); }
    var answer := Ask(client, server, form, names, DelOf(kind), ps);
    status := StatusOf(answer);
  }

  // The reply to a question for a token stays below two to the 32.
  predicate SmallToken(form: TokenForm, f: Files, kind: Kind, b: BlockId, u: UserId) {
    var t := KeyRights.Lookup(f.ks, kind, b, u);
    t.Some? ==> Small(TokenPack(form, t.value))
  }

  method GetProxy(client: Client, server: Server<Files>, form: TokenForm, names: Operation -> Bytes,
                  kind: Kind, b: BlockId, u: UserId)
    returns (status: int, t: Option<Stored>)
    requires Faithful(form) && Ready(client, server, form, names)
    modifies server, client.requests, client.replies
    ensures Joined(client, server, form, names)
    ensures Small(Borrow([b, u])) && SmallToken(form, old(server.userData), kind, b, u) ==>
              && Ready(client, server, form, names) && server.userData == old(server.userData)
              && (status, t) == GetFiles(server.userData, kind, b, u)
  {
    hide Encode, Carried, KeyRights.Lookup;
    if b == [] || u == [] {
      return HM_INVALID_PARAMETER, None;
    }
    var ps := Borrow([b, u]);
    BorrowedArrive([b, u]);
    ghost var f := server.userData;
    ghost var stored := KeyRights.Lookup(f.ks, kind, b, u);
    if Small(ps) && SmallToken(form, f, kind, b, u) {
      SmallCarried(ps);
      if stored.Some? { SmallCarried(TokenPack(form, stored.value)); }
    }
    var answer := Ask(client, server, form, names, GetOf(kind), ps);
    if StatusOf(answer) != HM_SUCCESS || answer.out.None? {
      return StatusOf(answer), None;
    }
    var res, values := Extract(Local(answer.out.value), [TAG_BUFFER, TAG_BUFFER]);
    if res != HM_SUCCESS {
      return res, None;
    }
    return HM_SUCCESS, Some(Stored(form.fromBytes(values[0].data), values[1].data));
  }

  // The index goes through a 32-bit field and is read back with its sign.
  function IndexField(index: nat): int32 {
    Signed(Low32(index))
  }

  lemma IndexKeptExactlyWhen(index: nat)
    ensures IndexField(index) == index <==> index < 0x8000_0000
  {
  }

  // What the proxy of the indexed query sends.
  function Query(b: BlockId, index: nat): Params {
    [Buffer(Borrowed, b), Int32(IndexField(index))]
  }

  method IndexedProxy(client: Client, server: Server<Files>, form: TokenForm, names: Operation -> Bytes,
                      b: BlockId, index: nat)
    returns (status: int, rights: Option<(UserId, nat)>)
    requires Ready(client, server, form, names)
    modifies server, client.requests, client.replies
    ensures Joined(client, server, form, names)
    ensures var f, i := old(server.userData), IndexField(index);
            var answer := IndexedFiles(f, b, i);
            Small(Query(b, index)) && (answer.1.Some? ==> Small(RightsPack(answer.1.value))) ==>
              Ready(client, server, form, names) && server.userData == f && (status, rights) == answer
  {
    hide Encode, Carried, RightsAt;
    if b == [] {
      return HM_INVALID_PARAMETER, None;
    }
    var ps := Query(b, index);
    ghost var expected := IndexedFiles(server.userData, b, IndexField(index)).1;
    assert Normalised(ps)[0] == Buffer(Owned, b) && Normalised(ps)[1] == Int32(IndexField(index));
    if Small(ps) && (expected.Some? ==> Small(RightsPack(expected.value))) {
      SmallCarried(ps);
      if expected.Some? { SmallCarried(RightsPack(expected.value)); }
    }
    var answer := Ask(client, server, form, names, IndexedOf, ps);
    if StatusOf(answer) != HM_SUCCESS || answer.out.None? {
      return StatusOf(answer), None;
    }
    var res, values := Extract(Local(answer.out.value), [TAG_BUFFER, TAG_INT32]);
    if res != HM_SUCCESS {
      return res, None;
    }
    return HM_SUCCESS, Some((values[0].data, Low32(Bits(values[1].v))));
  }

  // Names that end in NUL and differ from each other.
  ghost predicate Distinct(names: Operation -> Bytes) {
    && (forall op: Operation :: HashTable.Terminated(names(op)) && |names(op)| < TWO_32)
    && (forall x: Operation, y: Operation :: names(x) == names(y) ==> x == y)
  }

  // Exactly these operations are registered.
  ghost predicate HoldsOnly(m: map<Bytes, Stub<Files>>, form: TokenForm, names: Operation -> Bytes,
                            ops: seq<Operation>)
  {
    && (forall name | name in m :: exists op | op in ops :: name == names(op))
    && (forall op | op in ops :: names(op) in m && m[names(op)] == StubOf(form, op))
  }

  method Register(server: Server<Files>, form: TokenForm, names: Operation -> Bytes, op: Operation,
                  ghost before: seq<Operation>)
    returns (status: int)
    requires server.Valid() && Distinct(names) && HoldsOnly(server.table.content, form, names, before)
    modifies server.table, server.table.t, server.table.entries
    ensures server.Valid() && fresh(server.table.entries - old(server.table.entries))
    ensures status == if op in before then HM_FAIL else HM_SUCCESS
    ensures HoldsOnly(server.table.content, form, names, if op in before then before else before + [op])
  {
    ghost var m := server.table.content;
    HashTable.NamesLookUpExactly(m, names(op));
    assert names(op) in m ==> op in before;
    hide StubOf;
    status := server.RegFunc(names(op), StubOf(form, op));
  }

  // A new server registers its seven functions, none of which is refused.
  method Start(form: TokenForm, names: Operation -> Bytes, f: Files) returns (client: Client, server: Server<Files>)
    requires Distinct(names)
    ensures Ready(client, server, form, names) && server.userData == f && fresh(server)
  {
    var requests := new Channel.Channel();
    var replies := new Channel.Channel();
    server := new Server<Files>(requests, replies, f);
    client := new Client(requests, replies);
    var ops := ALL;
    AllOperations();
    var i := 0;
    hide StubOf;
    while i < |ops|
      invariant i <= |ops| && server.Valid()
      invariant fresh(server.table) && fresh(server.table.t) && fresh(server.table.entries)
      invariant requests.bytes == [] && replies.bytes == [] && server.userData == f
      invariant HoldsOnly(server.table.content, form, names, ops[..i])
    {
      assert ops[i] !in ops[..i] && ops[..i + 1] == ops[..i] + [ops[i]];
      var status := Register(server, form, names, ops[i], ops[..i]);
      assert status == HM_SUCCESS;
      i := i + 1;
    }
    assert ops[..i] == ops;
    assert Registered(server.table.content, form, names);
  }

  const ALL := [SetOf(Read), SetOf(Kind.Write), GetOf(Read), GetOf(Kind.Write), DelOf(Read), DelOf(Kind.Write),
                IndexedOf]

  lemma AllOperations()
    ensures forall i, j | 0 <= i < j < |ALL| :: ALL[i] != ALL[j]
    ensures forall op: Operation :: op in ALL
  {
    forall op: Operation
      ensures op in ALL
    {
      assert ALL[6] == IndexedOf;
      if !op.IndexedOf? {
        var k := if op.kind == Read then 0 else 1;
        assert op == ALL[if op.SetOf? then k else if op.GetOf? then 2 + k else 4 + k];
      }
    }
  }
}
