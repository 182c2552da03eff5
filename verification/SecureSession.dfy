/** A session of remote calls between the two ends of an encrypted connection. */
module SecureSession {
  import opened Base
  import opened ParamPack
  import opened PackTransfer
  import opened HashTable
  import opened Rpc
  import opened SecureTransport
  import opened SecureRpc

  // The two ends of one connection.
  ghost predicate Joined(near: Transport, far: Transport) {
    && near != far && near.wireOut == far.wireIn && near.wireIn == far.wireOut && near.wireOut != near.wireIn
    && near.outgoing == far.incoming && near.incoming == far.outgoing
    && Lossless(near.outgoing) && Sized(near.outgoing) && Lossless(near.incoming) && Sized(near.incoming)
  }

  // These messages are on their way, and nothing else.
  ghost predicate Holding(from: Transport, to: Transport, ms: seq<Bytes>)
    reads from`sent, to`received, to.wireIn
  {
    to.wireIn.bytes == Frames(to.incoming, to.received, ms) && from.sent == to.received + |ms|
  }

  // Nothing is on its way in either direction, and both ends have counted the same messages.
  ghost predicate Quiet(near: Transport, far: Transport)
    reads near`sent, near`received, near.wireIn, far`sent, far`received, far.wireIn
  {
    Holding(near, far, []) && Holding(far, near, [])
  }

  lemma FramesStep(s: Session, n: nat, ms: seq<Bytes>)
    requires ms != []
    ensures Frames(s, n, ms) == Frames(s, n, [ms[0]]) + Frames(s, n + 1, ms[1..])
  {
    hide Frame;
    NoFrames(s, n + 1);
    var one := [ms[0]];
    assert one[1..] == [];
  }

  // What was sent in two parts.
  lemma {:induction false} FramesAppend(s: Session, n: nat, xs: seq<Bytes>, ys: seq<Bytes>)
    ensures Frames(s, n, xs + ys) == Frames(s, n, xs) + Frames(s, n + |xs|, ys)
    decreases |xs|
  {
    hide Frames;
    if xs == [] {
      NoFrames(s, n);
      assert xs + ys == ys;
    } else {
      FramesAppend(s, n + 1, xs[1..], ys);
      FramesStep(s, n, xs);
      FramesStep(s, n, xs + ys);
      assert (xs + ys)[1..] == xs[1..] + ys;
      Regroup(Frames(s, n, [xs[0]]), Frames(s, n + 1, xs[1..]), Frames(s, n + |xs|, ys));
    }
  }

  // Single sends in a row, of messages that the session takes.
  method SendMessages(t: Transport, ms: seq<Bytes>)
    requires Lossless(t.outgoing) && AllAdmitted(t.outgoing, ms)
    modifies t`sent, t.wireOut
    ensures t.sent == old(t.sent) + |ms|
    ensures t.wireOut.bytes == old(t.wireOut.bytes) + Frames(t.outgoing, old(t.sent), ms)
  {
    hide Frames, Lossless;
    ghost var n, wire := t.sent, t.wireOut.bytes;
    NoFrames(t.outgoing, n);
    var i := 0;
    while i < |ms|
      invariant i <= |ms| && t.sent == n + i
      invariant t.wireOut.bytes == wire + Frames(t.outgoing, n, ms[..i])
    {
      var _ := t.Send(ms[i]);
      FramesAppend(t.outgoing, n, ms[..i], [ms[i]]);
      assert ms[..i] + [ms[i]] == ms[..i + 1];
      i := i + 1;
    }
    assert ms[..i] == ms;
  }

  lemma NoFrames(s: Session, n: nat)
    ensures Frames(s, n, []) == []
  {
  }

  lemma FirstGroup(s: Session, n: nat, group: seq<Bytes>, rest: seq<Bytes>)
    requires Lossless(s) && Sized(s) && group != [] && Passes(s, n, group + rest)
    ensures Take(s, n, Frames(s, n, group + rest), |Concat(group)|, [])
            == (Some(Concat(group)), Frames(s, n + |group|, rest), n + |group|)
    ensures Passes(s, n + |group|, rest)
  {
    hide Frames, Take, Admits, Reserved, Lossless, Sized;
    var ms, k := group + rest, |group|;
    assert ms[..k] == group && ms[k..] == rest;
    ClearSplits(s, n, ms, k);
    AdmittedBoth(s, group, rest);
    PrefixArrives(s, n, ms, [], k, []);
    assert Frames(s, n, ms) + [] == Frames(s, n, ms);
    assert Frames(s, n + k, rest) + [] == Frames(s, n + k, rest);
    assert [] + Concat(group) == Concat(group);
  }

  // A read as long as the first group of the pending messages.
  method ReadGroup(t: Transport, size: nat, ghost group: seq<Bytes>, ghost rest: seq<Bytes>) returns (b: Bytes)
    requires Lossless(t.incoming) && Sized(t.incoming) && group != [] && size == |Concat(group)|
    requires t.wireIn.bytes == Frames(t.incoming, t.received, group + rest)
    requires Passes(t.incoming, t.received, group + rest)
    modifies t`received, t.wireIn
    ensures b == Concat(group) && t.received == old(t.received) + |group|
    ensures t.wireIn.bytes == Frames(t.incoming, t.received, rest) && Passes(t.incoming, t.received, rest)
  {
    hide *;
    FirstGroup(t.incoming, t.received, group, rest);
    var buffer := new byte[size];
    var status := t.Receive(buffer);
    b := buffer[..];
  }

  // The two groups in which the sends of a pack are read.
  lemma PackGroups(ps: Params, rest: seq<Bytes>)
    requires AllFilled(ps) && Carried(ps)
    ensures var e, tail := Encode(Normalised(ps)), FirstPieces(ps, |ps|);
            && Pieces(Local(ps)) + rest == [Le32(|e|)] + (tail + rest)
            && tail != [] && Concat(tail) == e && Concat([Le32(|e|)]) == Le32(|e|) && |e| < TWO_32
            && FromLe32(Le32(|e|)) == |e|
            && ReadResult(e).Some? && ReadResult(e).value.params == Normalised(ps)
  {
    hide FirstPieces, Encode, Emitted, ReadResult, Le32, FromLe32, Normalised;
    SentSucceeds(Local(ps));
    PiecesAreSent(Local(ps));
    PieceCount(ps, |ps|);
    EmittedFits(Normalised(ps), |ps|);
    ReadOfEmitted(ps, |ps|);
    var e, tail := Encode(Normalised(ps)), FirstPieces(ps, |ps|);
    assert Pieces(Local(ps))[1..] == tail;
    ConcatOne(Le32(|e|));
    Le32RoundTrip(|e|);
    RegroupPieces([Le32(|e|)], tail, rest);
  }

  // Receiving a pack: the length, then the parameters.
  method ReadPack(t: Transport, ghost ps: Params, ghost rest: seq<Bytes>) returns (pack: Option<Pack>)
    requires Lossless(t.incoming) && Sized(t.incoming) && AllFilled(ps) && Carried(ps)
    requires t.wireIn.bytes == Frames(t.incoming, t.received, Pieces(Local(ps)) + rest)
    requires Passes(t.incoming, t.received, Pieces(Local(ps)) + rest)
    modifies t`received, t.wireIn
    ensures pack.Some? && pack.value.params == Normalised(ps)
    ensures t.received == old(t.received) + |Pieces(Local(ps))|
    ensures t.wireIn.bytes == Frames(t.incoming, t.received, rest) && Passes(t.incoming, t.received, rest)
  {
    PackGroups(ps, rest);
    ghost var e, tail := Encode(Normalised(ps)), FirstPieces(ps, |ps|);
    assert |Pieces(Local(ps))| == 1 + |tail|;
    hide *;
    var field := ReadGroup(t, 4, [Le32(|e|)], tail + rest);
    var buffer := ReadGroup(t, FromLe32(field), tail, rest);
    pack := Read(buffer);
  }

  // The sends of the answer to a call.
  function AnswerSends<S>(o: Outcome<S>): seq<Bytes> {
    if o.status != HM_SUCCESS then [Le32(o.status)] else ReplySends(o.out)
  }

  // What a registered function makes of a request.
  ghost function OutcomeOf<S>(m: map<Bytes, Stub<S>>, state: S, call: Request): Outcome<S>
    requires Lookup(m, call.name).Some?
  {
    Lookup(m, call.name).value(state, Normalised(call.pack.params))
  }

  // Request and answer go through, and the sessions take all their sends, the `n`-th and following in
  // the one direction and the `k`-th and following in the other.
  ghost predicate Goes<S>(m: map<Bytes, Stub<S>>, state: S, call: Request,
                          out: Session, n: nat, back: Session, k: nat)
  {
    && 0 < |call.name| < TWO_32 && call.pack == Local(call.pack.params)
    && Lookup(m, call.name).Some? && Readable(m, call.name)
    && Agrees(Lookup(m, call.name).value, state, call)
    && Passes(out, n, RequestSends(call)) && Passes(back, k, AnswerSends(OutcomeOf(m, state, call)))
  }

  // The sends of a pack that a session takes hold something each.
  lemma {:induction false} FilledWhenAdmitted(s: Session, ps: seq<Param>, k: nat)
    requires k <= |ps| && AllAdmitted(s, FirstPieces(ps, k))
    ensures forall i | 0 <= i < k :: Filled(ps[i])
  {
    hide Le32;
    if k > 0 {
      AdmittedBoth(s, FirstPieces(ps, k - 1), PiecesOf(ps[k - 1]));
      FilledWhenAdmitted(s, ps, k - 1);
      if ps[k - 1].Buffer? { assert PiecesOf(ps[k - 1])[2] == ps[k - 1].data; }
    }
  }

  // The three groups in which the sends of a request are read, the parameters in two more.
  lemma RequestGroups(call: Request)
    requires 0 < |call.name| < TWO_32 && call.pack == Local(call.pack.params)
    ensures RequestSends(call) == [Le32(|call.name|)] + ([call.name] + (Pieces(Local(call.pack.params)) + []))
    ensures Concat([Le32(|call.name|)]) == Le32(|call.name|) && Concat([call.name]) == call.name
    ensures FromLe32(Le32(|call.name|)) == |call.name|
    ensures |RequestSends(call)| == 2 + |Pieces(Local(call.pack.params))|
  {
    hide Pieces, Le32, FromLe32;
    ConcatOne(Le32(|call.name|));
    ConcatOne(call.name);
    Le32RoundTrip(|call.name|);
  }

  // The server takes a request off the connection: the name, then the parameters.
  method TakeRequest(t: Transport, ghost call: Request) returns (name: Bytes, pack: Option<Pack>)
    requires Lossless(t.incoming) && Sized(t.incoming)
    requires 0 < |call.name| < TWO_32 && call.pack == Local(call.pack.params)
    requires AllFilled(call.pack.params) && Carried(call.pack.params)
    requires t.wireIn.bytes == Frames(t.incoming, t.received, RequestSends(call))
    requires Passes(t.incoming, t.received, RequestSends(call))
    modifies t`received, t.wireIn
    ensures name == call.name && pack.Some? && pack.value.params == Normalised(call.pack.params)
    ensures t.received == old(t.received) + |RequestSends(call)| && t.wireIn.bytes == []
  {
    RequestGroups(call);
    NoFrames(t.incoming, t.received + |RequestSends(call)|);
    ghost var ps := call.pack.params;
    hide *;
    var field := ReadGroup(t, 4, [Le32(|call.name|)], [call.name] + (Pieces(Local(ps)) + []));
    name := ReadGroup(t, FromLe32(field), [call.name], Pieces(Local(ps)) + []);
    pack := ReadPack(t, ps, []);
  }

  // The server's part, when the request has been sent: the function is looked up and run, and its
  // answer sent.
  method Serve<S(!new)>(t: Transport, table: Table<Stub<S>>, state: S, ghost call: Request) returns (last: S)
    requires Lossless(t.incoming) && Sized(t.incoming) && Lossless(t.outgoing) && t.wireIn != t.wireOut && table.Valid()
    requires Goes(table.content, state, call, t.incoming, t.received, t.outgoing, t.sent)
    requires t.wireIn.bytes == Frames(t.incoming, t.received, RequestSends(call))
    modifies t`sent, t`received, t.wireIn, t.wireOut
    ensures var o := OutcomeOf(table.content, state, call);
            && last == o.state && t.sent == old(t.sent) + |AnswerSends(o)|
            && t.wireOut.bytes == old(t.wireOut.bytes) + Frames(t.outgoing, old(t.sent), AnswerSends(o))
    ensures t.received == old(t.received) + |RequestSends(call)| && t.wireIn.bytes == []
  {
    hide Frames, Lossless, Sized, Carried, AllFilled, Normalised, Lookup, Readable, AnswerSends, RequestSends;
    hide Admits, Reserved, Clear, AllAdmitted;
    var name, pack := TakeRequest(t, call);
    var _, f := table.Get(name);
    var o := f.value(state, pack.value.params);
    last := o.state;
    SendMessages(t, AnswerSends(o));
  }

  // The client takes the answer: the error word, then the out parameters when the call asked for some
  // and succeeded.
  method TakeReply<S>(t: Transport, wantsOut: bool, ghost o: Outcome<S>) returns (answer: Answer)
    requires Lossless(t.incoming) && Sized(t.incoming)
    requires o.status == HM_SUCCESS ==> if wantsOut then o.out.Some? && Carried(o.out.value) else o.out.None?
    requires t.wireIn.bytes == Frames(t.incoming, t.received, AnswerSends(o))
    requires Passes(t.incoming, t.received, AnswerSends(o))
    modifies t`received, t.wireIn
    ensures answer == DirectAnswer(o)
    ensures t.received == old(t.received) + |AnswerSends(o)| && t.wireIn.bytes == []
  {
    ghost var rest: seq<Bytes> := AnswerGroups(t.incoming, t.received, o);
    NoFrames(t.incoming, t.received + |AnswerSends(o)|);
    hide Frames, Passes, Le32, FromLe32, Pieces, Carried, AllFilled, Normalised, AnswerSends, Lossless, Sized;
    var field := ReadGroup(t, 4, [Le32(o.status)], rest);
    var error := FromLe32(field);
    if error == HM_SUCCESS && wantsOut {
      var pack := ReadPack(t, o.out.value, []);
      answer := Answer(HM_SUCCESS, Some(error), Some(pack.value.params));
    } else {
      answer := Answer(HM_SUCCESS, Some(error), None);
    }
  }

  lemma AnswerGroups<S>(s: Session, n: nat, o: Outcome<S>) returns (rest: seq<Bytes>)
    requires Passes(s, n, AnswerSends(o))
    ensures AnswerSends(o) == [Le32(o.status)] + rest && Concat([Le32(o.status)]) == Le32(o.status)
    ensures FromLe32(Le32(o.status)) == o.status
    ensures rest == if o.status == HM_SUCCESS && o.out.Some? then Pieces(Local(o.out.value)) + [] else []
    ensures o.status == HM_SUCCESS && o.out.Some? ==> AllFilled(o.out.value)
  {
    hide Le32, FromLe32, FirstPieces;
    rest := if o.status == HM_SUCCESS && o.out.Some? then Pieces(Local(o.out.value)) + [] else [];
    ConcatOne(Le32(o.status));
    Le32RoundTrip(o.status);
    if o.status == HM_SUCCESS && o.out.Some? {
      var ps := o.out.value;
      var tail := FirstPieces(ps, |ps|);
      AdmittedBoth(s, [Le32(o.status)], Pieces(Local(ps)));
      AdmittedBoth(s, [Le32(Announced(Local(ps)))], tail);
      FilledWhenAdmitted(s, ps, |ps|);
    }
  }

  lemma GoesMeans<S>(m: map<Bytes, Stub<S>>, state: S, call: Request, out: Session, n: nat, back: Session, k: nat)
    requires Goes(m, state, call, out, n, back, k)
    ensures 0 < |call.name| < TWO_32 && Lookup(m, call.name).Some?
    ensures var o := OutcomeOf(m, state, call);
            && (o.status == HM_SUCCESS ==> if call.wantsOut then o.out.Some? && Carried(o.out.value) else o.out.None?)
            && Direct(Lookup(m, call.name).value, state, call) == (DirectAnswer(o), o.state)
            && AllAdmitted(out, RequestSends(call)) && Passes(back, k, AnswerSends(o))
  {
    hide Carried, Lookup, Readable;
  }

  // One call from the near end, with the server at the far end run where the client waits.
  method SyncCall<S(!new)>(near: Transport, far: Transport, table: Table<Stub<S>>, state: S, call: Request)
    returns (answer: Answer, last: S)
    requires Joined(near, far) && Quiet(near, far) && table.Valid()
    requires Goes(table.content, state, call, near.outgoing, near.sent, far.outgoing, far.sent)
    modifies near, far, near.wireOut, far.wireOut
    ensures (answer, last) == Direct(Lookup(table.content, call.name).value, state, call)
    ensures Quiet(near, far)
    ensures near.sent == old(near.sent) + |RequestSends(call)|
    ensures far.sent == old(far.sent) + |AnswerSends(OutcomeOf(table.content, state, call))|
  {
    hide Frames, Lossless, Sized, Carried, Lookup, Readable, Normalised, AllFilled, AnswerSends, RequestSends;
    hide Goes, Agrees, Passes, AllAdmitted, Clear, Admits, Reserved, Direct, DirectAnswer, OutcomeOf;
    GoesMeans(table.content, state, call, near.outgoing, near.sent, far.outgoing, far.sent);
    ghost var o := OutcomeOf(table.content, state, call);
    NoFrames(near.outgoing, near.sent);
    NoFrames(far.outgoing, far.sent);
    NoFrames(near.outgoing, near.sent + |RequestSends(call)|);
    NoFrames(far.outgoing, far.sent + |AnswerSends(o)|);
    SendMessages(near, RequestSends(call));
    last := Serve(far, table, state, call);
    answer := TakeReply(near, call.wantsOut, o);
  }

  // Every call of a session goes through, the sends counted on from call to call.
  ghost predicate SessionGoes<S>(m: map<Bytes, Stub<S>>, state: S, calls: seq<Request>,
                                 out: Session, n: nat, back: Session, k: nat)
    decreases |calls|
  {
    calls != [] ==>
      && Goes(m, state, calls[0], out, n, back, k)
      && var o := OutcomeOf(m, state, calls[0]);
         SessionGoes(m, o.state, calls[1..], out, n + |RequestSends(calls[0])|, back, k + |AnswerSends(o)|)
  }

  lemma {:induction false} SessionIsAsked<S>(m: map<Bytes, Stub<S>>, state: S, calls: seq<Request>,
                                             out: Session, n: nat, back: Session, k: nat)
    requires SessionGoes(m, state, calls, out, n, back, k)
    ensures WellAsked(m, calls) && SessionAgrees(m, state, calls)
    decreases |calls|
  {
    hide Agrees, Passes, Lookup, Readable, RequestSends, AnswerSends;
    if calls != [] {
      var o := OutcomeOf(m, state, calls[0]);
      SessionIsAsked(m, o.state, calls[1..], out, n + |RequestSends(calls[0])|, back, k + |AnswerSends(o)|);
      forall i | 0 < i < |calls| ensures calls[i] == calls[1..][i - 1] {}
    }
  }

  // The first call of a session and the rest of it.
  lemma SessionStep<S>(m: map<Bytes, Stub<S>>, state: S, calls: seq<Request>,
                       out: Session, n: nat, back: Session, k: nat)
    requires calls != [] && SessionGoes(m, state, calls, out, n, back, k) && WellAsked(m, calls)
    ensures Goes(m, state, calls[0], out, n, back, k) && WellAsked(m, calls[1..])
    ensures var o := OutcomeOf(m, state, calls[0]);
            var (answer, next) := Direct(Lookup(m, calls[0].name).value, state, calls[0]);
            && SessionGoes(m, next, calls[1..], out, n + |RequestSends(calls[0])|, back, k + |AnswerSends(o)|)
            && var (answers, last) := DirectSession(m, next, calls[1..]);
               DirectSession(m, state, calls) == ([answer] + answers, last)
  {
    hide Agrees, Passes, Lookup, Readable, DirectAnswer, RequestSends, AnswerSends;
  }

  lemma NoCalls<S>(m: map<Bytes, Stub<S>>, state: S)
    ensures DirectSession(m, state, []) == ([], state)
  {
  }

  // Over any session of such calls, whether they succeed or fail, the answers and the final state are
  // those of the stubs run directly, and the connection is quiet between the calls and at the end.
  method RunSession<S(!new)>(near: Transport, far: Transport, table: Table<Stub<S>>, state: S, calls: seq<Request>)
    returns (answers: seq<Answer>, last: S)
    requires Joined(near, far) && Quiet(near, far) && table.Valid() && WellAsked(table.content, calls)
    requires SessionGoes(table.content, state, calls, near.outgoing, near.sent, far.outgoing, far.sent)
    modifies near, far, near.wireOut, far.wireOut
    ensures Quiet(near, far) && (answers, last) == DirectSession(table.content, state, calls)
    decreases |calls|
  {
    hide *;
    if calls == [] {
      NoCalls(table.content, state);
      return [], state;
    }
    SessionStep(table.content, state, calls, near.outgoing, near.sent, far.outgoing, far.sent);
    var answer, next := SyncCall(near, far, table, state, calls[0]);
    answers, last := RunSession(near, far, table, next, calls[1..]);
    answers := [answer] + answers;
  }

  // So they are the answers and the state that the same calls have over plain channels.
  lemma SecureIsPlain<S>(m: map<Bytes, Stub<S>>, state: S, calls: seq<Request>,
                         out: Session, n: nat, back: Session, k: nat)
    requires SessionGoes(m, state, calls, out, n, back, k)
    ensures WellAsked(m, calls) && SessionAgrees(m, state, calls)
    ensures var (answers, last) := DirectSession(m, state, calls);
            Rpc.Session(m, World([], [], state), calls) == (answers, World([], [], last))
  {
    SessionIsAsked(m, state, calls, out, n, back, k);
    SessionIsDirect(m, state, calls, |calls|);
    assert calls[..|calls|] == calls;
  }

  lemma PassesNumbered(n: nat, ms: seq<Bytes>)
    requires forall i | 0 <= i < |ms| :: 0 < |ms[i]| < 983040
    ensures Passes(NUMBERED, n, ms)
  {
  }

  // A concrete call that goes: one number, to a function that hands nothing back.
  lemma GoesExample<S>(f: Stub<S>, state: S, n: nat, k: nat)
    requires f(state, [Int32(7)]).status != HM_SUCCESS || f(state, [Int32(7)]).out.None?
    ensures Goes(map[[65] := f], state, Request([65], Local([Int32(7)]), false), NUMBERED, n, NUMBERED, k)
  {
    hide Lookup, Passes, Le32, NUMBERED, Readable, Agrees;
    var ps: Params := [Int32(7)];
    var call := Request([65], Local(ps), false);
    var m: map<Bytes, Stub<S>> := map[call.name := f];
    FoundAlone(call.name, f);
    SmallAgrees(f, state, call);
    PassesNumbered(n, RequestSends(call));
    PassesNumbered(k, AnswerSends(OutcomeOf(m, state, call)));
  }

  lemma FoundAlone<V>(key: Bytes, val: V)
    ensures Lookup(map[key := val], key) == Some(val) && Readable(map[key := val], key)
  {
    OneHit(map[key := val], key, key);
  }

  lemma SmallAgrees<S>(f: Stub<S>, state: S, call: Request)
    requires call == Request([65], Local([Int32(7)]), false)
    requires f(state, [Int32(7)]).status != HM_SUCCESS || f(state, [Int32(7)]).out.None?
    ensures Agrees(f, state, call) && Normalised(call.pack.params) == [Int32(7)]
    ensures RequestSends(call) == [Le32(1), [65], Le32(12), Le32(1), Le32(TAG_INT32), Le32(Bits(7))]
  {
    hide Le32;
    SmallIsCarried([Int32(7)]);
    assert Normalised(call.pack.params) == [Int32(7)];
  }

  lemma SmallIsCarried(ps: Params)
    requires ps == [Int32(7)]
    ensures Carried(ps) && Announced(Local(ps)) == 12
  {
    FirstIsAll(Normalised(ps));
    ReachesAll(ps, 0);
  }
}
