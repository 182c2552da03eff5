/** Remote calls: the client, the server, and a session of calls over one pair of channels. */
module Rpc {
  import opened Base
  import opened ParamPack
  import opened PackTransfer
  import opened Channel
  import opened HashTable

  // What a registered function does with its user data and the parameters it is given.
  datatype Outcome<+S> = Outcome(status: uint32, out: Option<Params>, state: S)

  type Stub<!S> = (S, seq<Param>) -> Outcome<S>

  // A pack built locally, not read from a buffer.
  function Local(ps: Params): Pack {
    Pack(ps, false, 0)
  }

  // The two channels of a connection and the user data behind the server.
  datatype World<+S> = World(requests: Bytes, replies: Bytes, state: S)

  // What sending the result of a function answers, and what it puts on the channel: the success
  // word, then the out parameters when there are any.
  function SentResult(out: Option<Params>): (int, Bytes) {
    if out.None? then (HM_SUCCESS, Le32(HM_SUCCESS))
    else
      var (status, bytes) := Sent(Local(out.value));
      (status, Le32(HM_SUCCESS) + bytes)
  }

  // What the server answers to a name, with the parameters still to come.
  ghost function CallFuncResult<S>(m: map<Bytes, Stub<S>>, name: Bytes, w: World<S>): (int, World<S>) {
    if name == [] then (HM_INVALID_PARAMETER, w)
    else
      var f := Lookup(m, name);
      if f.None? then (HM_FAIL, w.(replies := w.replies + Le32(HM_FAIL)))
      else
        var (pack, left) := ReceiveResult(w.requests);
        if pack.None? then (HM_FAIL, World(left, w.replies + Le32(HM_FAIL), w.state))
        else
          var o := f.value(w.state, pack.value.params);
          if o.status != HM_SUCCESS then (HM_SUCCESS, World(left, w.replies + Le32(o.status), o.state))
          else (SentResult(o.out).0, World(left, w.replies + SentResult(o.out).1, o.state))
  }

  // The request at the front of the channel: a length, which must not be zero, and a name.
  function NameAt(requests: Bytes): (Option<Bytes>, Bytes) {
    if |requests| < 4 then (None, requests)
    else
      var n := FromLe32(requests[..4]);
      if n == 0 || |requests| - 4 < n then (None, requests[4..])
      else (Some(requests[4..4 + n]), requests[4 + n..])
  }

  ghost function ServeResult<S>(m: map<Bytes, Stub<S>>, w: World<S>): (int, World<S>) {
    var (name, left) := NameAt(w.requests);
    if name.None? then (HM_FAIL, w.(requests := left)) else CallFuncResult(m, name.value, w.(requests := left))
  }

  class Server<S(!new)> {
    const requests: Channel
    const replies: Channel
    const table: Table<Stub<S>>
    var userData: S

    ghost predicate Valid()
      reads this, table, table.t, table.entries
    {
      requests != replies && table.Valid()
    }

    ghost function Now(): World<S>
      reads this, requests, replies
    {
      World(requests.bytes, replies.bytes, userData)
    }

    constructor (requests: Channel, replies: Channel, userData: S)
      requires requests != replies
      ensures Valid() && table.content == map[] && this.requests == requests && this.replies == replies
      ensures this.userData == userData && fresh(table) && fresh(table.t) && fresh(table.entries)
    {
      this.requests, this.replies, this.userData := requests, replies, userData;
      table := new Table<Stub<S>>();
    }

    method RegFunc(name: Bytes, f: Stub<S>) returns (status: int)
      requires Valid() && Readable(table.content, name)
      modifies table, table.t, table.entries
      ensures Valid() && fresh(table.entries - old(table.entries))
      ensures status == (if name == [] then HM_INVALID_PARAMETER
                         else if Lookup(old(table.content), name).Some? then HM_FAIL else HM_SUCCESS)
      ensures table.content == if status == HM_SUCCESS then old(table.content)[name := f] else old(table.content)
    {
      status := table.Set(name, f);
    }

    method SendError(error: uint32) returns (status: int)
      modifies replies
      ensures if error == HM_SUCCESS then status == HM_INVALID_PARAMETER && replies.bytes == old(replies.bytes)
              else status == HM_SUCCESS && replies.bytes == old(replies.bytes) + Le32(error)
    {
      if error == HM_SUCCESS {
        return HM_INVALID_PARAMETER;
      }
      status := replies.Send(Le32(error));
    }

    method SendResult(out: Option<Params>) returns (status: int)
      modifies replies
      ensures status == SentResult(out).0 && replies.bytes == old(replies.bytes) + SentResult(out).1
    {
      hide Sent;
      if out.Some? { Regroup(replies.bytes, Le32(HM_SUCCESS), Sent(Local(out.value)).1); }
      status := replies.Send(Le32(HM_SUCCESS));
      if out.Some? {
        status := Send(Local(out.value), replies);
      }
    }

    method CallFunc(name: Bytes) returns (status: int)
      requires Valid() && Readable(table.content, name)
      modifies this, requests, replies
      ensures Valid() && (status, Now()) == CallFuncResult(table.content, name, old(Now()))
    {
      hide ReceiveResult, Lookup, SentResult;
      if name == [] {
        return HM_INVALID_PARAMETER;
      }
      var _, f := table.Get(name);
      if f.None? {
        var _ := SendError(HM_FAIL);
        return HM_FAIL;
      }
      var pack := Receive(requests);
      if pack.None? {
        var _ := SendError(HM_FAIL);
        return HM_FAIL;
      }
      var o := f.value(userData, pack.value.params);
      userData := o.state;
      if o.status != HM_SUCCESS {
        status := SendError(o.status);
        return;
      }
      status := SendResult(o.out);
    }

    method Call() returns (status: int)
      requires Valid()
      requires NameAt(requests.bytes).0.Some? ==> Readable(table.content, NameAt(requests.bytes).0.value)
      modifies this, requests, replies
      ensures Valid() && (status, Now()) == ServeResult(table.content, old(Now()))
    {
      ghost var all := requests.bytes;
      var field := requests.Recv(4);
      if field.None? {
        return HM_FAIL;
      }
      var n := FromLe32(field.value);
      assert |all| - 4 >= n ==> all[4..][..n] == all[4..4 + n] && all[4..][n..] == all[4 + n..];
      var name := requests.Recv(n);
      if name.None? {
        return HM_FAIL;
      }
      status := CallFunc(name.value);
    }
  }

  // What a caller learns: the status of the exchange, the error word once it came, the out parameters.
  datatype Answer = Answer(res: int, error: Option<uint32>, out: Option<Params>)

  datatype Request = Request(name: Bytes, pack: Pack, wantsOut: bool)

  function RequestHead(name: Bytes): Bytes
    requires |name| < TWO_32
  {
    Le32(|name|) + name
  }

  // What the client makes of the bytes that came back, and what it leaves.
  function AnswerIn(replies: Bytes, wantsOut: bool): (Answer, Bytes) {
    if |replies| < 4 then (Answer(HM_FAIL, None, None), replies)
    else
      var error := FromLe32(replies[..4]);
      if error != HM_SUCCESS || !wantsOut then (Answer(HM_SUCCESS, Some(error), None), replies[4..])
      else
        var (pack, left) := ReceiveResult(replies[4..]);
        if pack.None? then (Answer(HM_FAIL, Some(error), None), left)
        else (Answer(HM_SUCCESS, Some(error), Some(pack.value.params)), left)
  }

  // The channel with a request on it, as far as the sends got.
  function WithRequest<S>(w: World<S>, call: Request): World<S>
    requires |call.name| < TWO_32
  {
    w.(requests := w.requests + RequestHead(call.name) + Sent(call.pack).1)
  }

  // One call of the client, with the server run where the client waits.  A request that is not sent
  // whole stays on the channel.
  ghost function CallResult<S>(m: map<Bytes, Stub<S>>, w: World<S>, call: Request): (Answer, World<S>)
    requires |call.name| < TWO_32
  {
    if call.name == [] then (Answer(HM_INVALID_PARAMETER, None, None), w)
    else if Sent(call.pack).0 != HM_SUCCESS then (Answer(Sent(call.pack).0, None, None), WithRequest(w, call))
    else
      var served := ServeResult(m, WithRequest(w, call)).1;
      var (answer, left) := AnswerIn(served.replies, call.wantsOut);
      (answer, served.(replies := left))
  }

  class Client {
    const requests: Channel
    const replies: Channel

    constructor (requests: Channel, replies: Channel)
      ensures this.requests == requests && this.replies == replies
    {
      this.requests, this.replies := requests, replies;
    }

    method SyncCall<S(!new)>(call: Request, server: Server<S>) returns (answer: Answer)
      requires server.Valid() && server.requests == requests && server.replies == replies && |call.name| < TWO_32
      requires call.name != [] && Sent(call.pack).0 == HM_SUCCESS ==>
                 var name := NameAt(WithRequest(server.Now(), call).requests).0;
                 name.Some? ==> Readable(server.table.content, name.value)
      modifies server, requests, replies
      ensures server.Valid() && (answer, server.Now()) == CallResult(server.table.content, old(server.Now()), call)
    {
      hide AnswerIn, ServeResult, Sent;
      if call.name == [] {
        return Answer(HM_INVALID_PARAMETER, None, None);
      }
      Regroup(requests.bytes, Le32(|call.name|), call.name);
      var sent := requests.Send(Le32(|call.name|));
      sent := requests.Send(call.name);
      sent := Send(call.pack, requests);
      if sent != HM_SUCCESS {
        return Answer(sent, None, None);
      }
      var _ := server.Call();
      answer := TakeAnswer(call.wantsOut);
    }

    // The error word, then the out parameters when the call asked for some and succeeded.
    method TakeAnswer(wantsOut: bool) returns (answer: Answer)
      modifies replies
      ensures (answer, replies.bytes) == AnswerIn(old(replies.bytes), wantsOut)
    {
      hide ReceiveResult;
      var error := replies.Recv(4);
      if error.None? {
        return Answer(HM_FAIL, None, None);
      }
      if FromLe32(error.value) == HM_SUCCESS && wantsOut {
        var pack := Receive(replies);
        if pack.None? {
          return Answer(HM_FAIL, Some(HM_SUCCESS), None);
        }
        return Answer(HM_SUCCESS, Some(HM_SUCCESS), Some(pack.value.params));
      }
      return Answer(HM_SUCCESS, Some(FromLe32(error.value)), None);
    }
  }

  // What a caller without any wire sees of an outcome.
  function DirectAnswer<S>(o: Outcome<S>): Answer {
    Answer(HM_SUCCESS, Some(o.status),
           if o.status == HM_SUCCESS && o.out.Some? then Some(Normalised(o.out.value)) else None)
  }

  // A call as its caller would see it without any wire: the stub run on the same parameters.
  function Direct<S>(f: Stub<S>, state: S, call: Request): (Answer, S) {
    var o := f(state, Normalised(call.pack.params));
    (DirectAnswer(o), o.state)
  }

  // The pack goes through a channel whole: its encoding stays below two to the 32, and it goes out
  // intact.
  predicate Carried(ps: Params) {
    ps != [] && Intact(Local(ps))
  }

  // The request goes through whole, with no empty buffer in it; and the stub hands back parameters,
  // which go through as well, exactly when the proxy asks for some.
  predicate Agrees<S>(f: Stub<S>, state: S, call: Request) {
    var o := f(state, Normalised(call.pack.params));
    && AllFilled(call.pack.params) && Carried(call.pack.params)
    && (o.status == HM_SUCCESS ==> if call.wantsOut then o.out.Some? && Carried(o.out.value) else o.out.None?)
  }

  lemma NameArrives(name: Bytes, rest: Bytes)
    requires 0 < |name| < TWO_32
    ensures NameAt(RequestHead(name) + rest) == (Some(name), rest)
  {
    var head, r := Le32(|name|), RequestHead(name) + rest;
    Regroup(head, name, rest);
    assert r[..4] == head && r[4..4 + |name|] == name && r[4 + |name|..] == rest;
    Le32RoundTrip(|name|);
  }

  // What the server makes of a request in an empty channel.
  lemma RequestArrives<S>(w: World<S>, call: Request)
    requires 0 < |call.name| < TWO_32 && w.requests == []
    ensures NameAt(WithRequest(w, call).requests) == (Some(call.name), Sent(call.pack).1)
  {
    hide Sent, NameAt;
    NameArrives(call.name, Sent(call.pack).1);
    assert [] + RequestHead(call.name) == RequestHead(call.name);
  }

  // A pack sent into an empty channel arrives, with nothing left, exactly when it is carried; and one
  // that was sent to the end but is not carried leaves something.
  lemma PackArrivesExactlyWhen(ps: Params)
    ensures Received(ReceiveResult(Sent(Local(ps)).1), ps, []) <==> Carried(ps)
    ensures Sent(Local(ps)).0 == HM_SUCCESS && !Carried(ps) ==> ReceiveResult(Sent(Local(ps)).1).1 != []
  {
    hide ReceiveResult, Normalised, Encode, Reach, Emitted, Intact, Received;
    var pack := Local(ps);
    var sent := Sent(pack).1;
    assert sent + [] == sent;
    if ps == [] {
      NothingSent();
    } else {
      SentArrivesExactlyWhen(pack, []);
      if Sent(pack).0 == HM_SUCCESS && !Intact(pack) { ShortLeaves(pack); }
    }
  }

  lemma NothingSent()
    ensures Sent(Local([])).1 == [] && !Received(ReceiveResult([]), [], [])
  {
  }

  // What a stub hands back reaches the caller, and the channel is empty after it, exactly when it is
  // carried and the caller asked for it.
  lemma ReplyArrives<S>(o: Outcome<S>, wantsOut: bool)
    ensures var reply := if o.status == HM_SUCCESS then SentResult(o.out).1 else Le32(o.status);
            AnswerIn(reply, wantsOut) == (DirectAnswer(o), []) <==>
            (o.status == HM_SUCCESS ==> if wantsOut then o.out.Some? && Carried(o.out.value) else o.out.None?)
  {
    hide Sent, Carried, ReceiveResult, Normalised;
    var reply := if o.status == HM_SUCCESS then SentResult(o.out).1 else Le32(o.status);
    var tail := if o.status == HM_SUCCESS && o.out.Some? then Sent(Local(o.out.value)).1 else [];
    assert reply[..4] == Le32(o.status) && reply[4..] == tail;
    Le32RoundTrip(o.status);
    if o.status == HM_SUCCESS && o.out.Some? { PackArrivesExactlyWhen(o.out.value); }
    NothingReceived();
  }

  lemma NothingReceived()
    ensures ReceiveResult([]).0.None?
  {
  }

  // The server's part of a call to a registered function, when the request goes through.
  lemma ServedWhenCarried<S>(m: map<Bytes, Stub<S>>, state: S, call: Request)
    requires 0 < |call.name| < TWO_32 && !call.pack.readed && Lookup(m, call.name).Some? && Carried(call.pack.params)
    requires call.pack == Local(call.pack.params)
    ensures var o := Lookup(m, call.name).value(state, Normalised(call.pack.params));
            ServeResult(m, WithRequest(World([], [], state), call)).1 ==
            World([], if o.status == HM_SUCCESS then SentResult(o.out).1 else Le32(o.status), o.state)
  {
    hide Sent, Carried, ReceiveResult, Normalised, SentResult, NameAt, RequestHead;
    var w := World([], [], state);
    RequestArrives(w, call);
    PackArrivesExactlyWhen(call.pack.params);
    var o := Lookup(m, call.name).value(state, Normalised(call.pack.params));
    assert [] + SentResult(o.out).1 == SentResult(o.out).1 && [] + Le32(o.status) == Le32(o.status);
  }

  // A request that is sent to the end but not carried leaves bytes behind.
  lemma ServedLeavesRest<S>(m: map<Bytes, Stub<S>>, state: S, call: Request)
    requires 0 < |call.name| < TWO_32 && Lookup(m, call.name).Some? && Sent(call.pack).0 == HM_SUCCESS
    requires call.pack == Local(call.pack.params) && !Carried(call.pack.params)
    ensures ServeResult(m, WithRequest(World([], [], state), call)).1.requests != []
  {
    hide Sent, Carried, ReceiveResult, Normalised, SentResult, NameAt, WithRequest;
    RequestArrives(World([], [], state), call);
    PackArrivesExactlyWhen(call.pack.params);
  }

  // Transparency of one call to a registered function: from empty channels, the caller sees what the
  // stub says and both channels are empty again, exactly when request and reply go through whole and
  // stub and proxy agree on the out pack.
  lemma CallIsDirectExactlyWhen<S>(m: map<Bytes, Stub<S>>, state: S, call: Request)
    requires 0 < |call.name| < TWO_32 && call.pack == Local(call.pack.params) && Lookup(m, call.name).Some?
    ensures var f := Lookup(m, call.name).value;
            var (answer, after) := Direct(f, state, call);
            CallResult(m, World([], [], state), call) == (answer, World([], [], after)) <==> Agrees(f, state, call)
  {
    hide Sent, Carried, ServeResult, AnswerIn, SentResult, AllFilled, DirectAnswer;
    var f := Lookup(m, call.name).value;
    var o := f(state, Normalised(call.pack.params));
    SentSucceeds(call.pack);
    if Sent(call.pack).0 == HM_SUCCESS {
      if Carried(call.pack.params) {
        ServedWhenCarried(m, state, call);
        ReplyArrives(o, call.wantsOut);
      } else {
        ServedLeavesRest(m, state, call);
      }
    } else {
      HeadIsThere(call);
    }
  }

  lemma SentSucceeds(pack: Pack)
    ensures Sent(pack).0 == HM_SUCCESS ==> AllFilled(pack.params)
    ensures pack == Local(pack.params) && AllFilled(pack.params) && Carried(pack.params) ==> Sent(pack).0 == HM_SUCCESS
  {
    FirstIsAll(Normalised(pack.params));
  }

  lemma HeadIsThere(call: Request)
    requires |call.name| < TWO_32
    ensures [] + RequestHead(call.name) + Sent(call.pack).1 != []
  {
  }

  // A call to a function that is not registered is answered with a failure, and what was sent of its
  // parameters stays behind in the channel.
  lemma UnregisteredLeavesParameters<S>(m: map<Bytes, Stub<S>>, state: S, call: Request)
    requires 0 < |call.name| < TWO_32 && Lookup(m, call.name).None? && Sent(call.pack).0 == HM_SUCCESS
    ensures CallResult(m, World([], [], state), call) ==
            (Answer(HM_SUCCESS, Some(HM_FAIL), None), World(Sent(call.pack).1, [], state))
    ensures Sent(call.pack).1 != []
  {
    RequestArrives(World([], [], state), call);
    hide NameAt, Announced, Emitted, WithRequest;
    Le32RoundTrip(HM_FAIL);
    var reply := Le32(HM_FAIL);
    assert [] + reply == reply && reply[..4] == reply && reply[4..] == [];
  }

  // A request that is refused on the way, such as one with an empty buffer, is reported to the caller
  // without the server, and what got out stays behind in the channel.
  lemma RefusedRequestStays<S>(m: map<Bytes, Stub<S>>, w: World<S>, call: Request)
    requires 0 < |call.name| < TWO_32 && Sent(call.pack).0 != HM_SUCCESS
    ensures CallResult(m, w, call) ==
            (Answer(Sent(call.pack).0, None, None),
             w.(requests := w.requests + RequestHead(call.name) + Sent(call.pack).1))
    ensures Sent(call.pack).0 ==
            if call.pack.params == [] || Announced(call.pack) == 0 then HM_INVALID_PARAMETER else HM_FAIL
  {
  }

  // One empty buffer is enough, although every byte of its encoding is on the channel by then.
  lemma EmptyBufferExample<S>(m: map<Bytes, Stub<S>>, state: S, name: Bytes)
    requires 0 < |name| < TWO_32
    ensures var ps: Params := [Buffer(Borrowed, [])];
            var (answer, after) := CallResult(m, World([], [], state), Request(name, Local(ps), false));
            && answer == Answer(HM_FAIL, None, None)
            && after == World(RequestHead(name) + (Le32(12) + Encode(Normalised(ps))), [], state)
  {
    var ps: Params := [Buffer(Borrowed, [])];
    FirstIsAll(Normalised(ps));
    assert SizeFirst(Normalised(ps), 1) == 8;
    assert Reach(ps, 0) == 1;
    hide Encode, Le32;
    assert Sent(Local(ps)) == (HM_FAIL, Le32(12) + Encode(Normalised(ps)));
    Regroup([], RequestHead(name), Le32(12) + Encode(Normalised(ps)));
    assert [] + RequestHead(name) == RequestHead(name);
  }

  // A session: the answers in order, and the world it leaves.
  ghost function Session<S>(m: map<Bytes, Stub<S>>, w: World<S>, calls: seq<Request>): (seq<Answer>, World<S>)
    requires forall i | 0 <= i < |calls| :: |calls[i].name| < TWO_32
    decreases |calls|
  {
    if calls == [] then ([], w)
    else
      var (answer, next) := CallResult(m, w, calls[0]);
      var (answers, last) := Session(m, next, calls[1..]);
      ([answer] + answers, last)
  }

  // The same calls made on the stubs themselves.
  ghost function DirectSession<S>(m: map<Bytes, Stub<S>>, state: S, calls: seq<Request>): (seq<Answer>, S)
    requires forall i | 0 <= i < |calls| :: Lookup(m, calls[i].name).Some?
    decreases |calls|
  {
    if calls == [] then ([], state)
    else
      var (answer, next) := Direct(Lookup(m, calls[0].name).value, state, calls[0]);
      var (answers, last) := DirectSession(m, next, calls[1..]);
      ([answer] + answers, last)
  }

  // Requests and replies go through, and stub and proxy agree, at every call the session comes to.
  ghost predicate SessionAgrees<S>(m: map<Bytes, Stub<S>>, state: S, calls: seq<Request>)
    requires forall i | 0 <= i < |calls| :: Lookup(m, calls[i].name).Some?
  {
    calls != [] ==>
      var f := Lookup(m, calls[0].name).value;
      Agrees(f, state, calls[0]) && SessionAgrees(m, Direct(f, state, calls[0]).1, calls[1..])
  }

  // Calls to registered functions, with locally built packs.
  ghost predicate WellAsked<S>(m: map<Bytes, Stub<S>>, calls: seq<Request>) {
    forall i | 0 <= i < |calls| ::
      && 0 < |calls[i].name| < TWO_32 && calls[i].pack == Local(calls[i].pack.params)
      && Lookup(m, calls[i].name).Some?
  }

  // The first `k` calls of a session: the answers are the direct ones, and both channels are empty.
  ghost predicate DirectUpTo<S>(m: map<Bytes, Stub<S>>, state: S, calls: seq<Request>, k: nat)
    requires WellAsked(m, calls) && k <= |calls|
  {
    var (answers, last) := DirectSession(m, state, calls[..k]);
    Session(m, World([], [], state), calls[..k]) == (answers, World([], [], last))
  }

  // Over any session of calls to registered functions, whether they succeed or fail, the callers see
  // what the stubs say, and both channels are empty between the calls and at the end.
  lemma {:induction false} SessionIsDirect<S>(m: map<Bytes, Stub<S>>, state: S, calls: seq<Request>, k: nat)
    requires WellAsked(m, calls) && SessionAgrees(m, state, calls) && k <= |calls|
    ensures DirectUpTo(m, state, calls, k)
  {
    hide CallResult, Agrees, Direct, Lookup;
    if k > 0 {
      var f := Lookup(m, calls[0].name).value;
      CallIsDirectExactlyWhen(m, state, calls[0]);
      SessionIsDirect(m, Direct(f, state, calls[0]).1, calls[1..], k - 1);
      assert calls[..k][1..] == calls[1..][..k - 1];
    }
  }

  // And they do at every point of the session only when requests and replies go through, and stubs and
  // proxies agree, at every call.
  lemma SessionIsDirectExactlyWhen<S>(m: map<Bytes, Stub<S>>, state: S, calls: seq<Request>)
    requires WellAsked(m, calls)
    ensures (forall k | 0 <= k <= |calls| :: DirectUpTo(m, state, calls, k)) <==> SessionAgrees(m, state, calls)
  {
    if SessionAgrees(m, state, calls) {
      forall k | 0 <= k <= |calls|
        ensures DirectUpTo(m, state, calls, k)
      {
        SessionIsDirect(m, state, calls, k);
      }
    } else {
      var k := FirstDifference(m, state, calls);
    }
  }

  // The first call of a session and the others.
  lemma FirstAndRest<S>(m: map<Bytes, Stub<S>>, state: S, calls: seq<Request>, k: nat)
    requires WellAsked(m, calls) && 0 < k <= |calls|
    ensures var (answer, world) := CallResult(m, World([], [], state), calls[0]);
            var (direct, next) := Direct(Lookup(m, calls[0].name).value, state, calls[0]);
            && (DirectUpTo(m, state, calls, 1) ==> (answer, world) == (direct, World([], [], next)))
            && ((answer, world) == (direct, World([], [], next)) && DirectUpTo(m, state, calls, k) ==>
                  DirectUpTo(m, next, calls[1..], k - 1))
  {
    hide CallResult, Direct, Lookup, Agrees;
    var (answer, world) := CallResult(m, World([], [], state), calls[0]);
    var (direct, next) := Direct(Lookup(m, calls[0].name).value, state, calls[0]);
    assert calls[..1] == [calls[0]] && calls[..1][1..] == [];
    assert Session(m, World([], [], state), calls[..1]) == ([answer] + [], world);
    assert DirectSession(m, state, calls[..1]) == ([direct] + [], next);
    SameCons(answer, direct, [], []);
    var rest := calls[1..][..k - 1];
    assert calls[..k][0] == calls[0] && calls[..k][1..] == rest;
    SameCons(answer, direct, Session(m, world, rest).0, DirectSession(m, next, rest).0);
  }

  lemma {:induction false} FirstDifference<S>(m: map<Bytes, Stub<S>>, state: S, calls: seq<Request>) returns (k: nat)
    requires WellAsked(m, calls) && !SessionAgrees(m, state, calls)
    ensures k <= |calls| && !DirectUpTo(m, state, calls, k)
  {
    hide CallResult, Agrees, Direct, Lookup, DirectUpTo;
    var f := Lookup(m, calls[0].name).value;
    CallIsDirectExactlyWhen(m, state, calls[0]);
    if !Agrees(f, state, calls[0]) {
      k := 1;
      FirstAndRest(m, state, calls, 1);
    } else {
      k := FirstDifference(m, Direct(f, state, calls[0]).1, calls[1..]);
      FirstAndRest(m, state, calls, k + 1);
      k := k + 1;
    }
  }

  lemma SameCons(a: Answer, b: Answer, xs: seq<Answer>, ys: seq<Answer>)
    ensures [a] + xs == [b] + ys <==> a == b && xs == ys
  {
    assert ([a] + xs)[0] == a && ([b] + ys)[0] == b;
    assert ([a] + xs)[1..] == xs && ([b] + ys)[1..] == ys;
  }
}
