/** The encrypted transport under the remote calls: framing, and reassembly of a read from frames. */
module SecureTransport {
  import opened Base
  import opened ParamPack
  import opened PackTransfer
  import opened Channel

  // One direction of a secure session: what the sender makes of its n-th message, up to some length;
  // what size the receiver reads off it, and what it makes of it as its own n-th.
  datatype Session = Session(
    limit: nat,
    wrap: (nat, Bytes) -> Option<Bytes>,
    size: Bytes -> Option<nat>,
    unwrap: (nat, Bytes) -> Option<Bytes>)

  predicate Admits(s: Session, m: Bytes) {
    m != [] && |m| <= s.limit
  }

  // Lossless in order, for the messages it admits.
  ghost predicate Lossless(s: Session) {
    forall n: nat, m: Bytes :: Carries(s, n, m)
  }

  predicate Carries(s: Session, n: nat, m: Bytes) {
    var w := s.wrap(n, m);
    && (w.Some? <==> Admits(s, m))
    && (w.Some? ==> 0 < |w.value| < TWO_32 && s.size(w.value) == Some(|m|) && s.unwrap(n, w.value) == Some(m))
  }

  // The size read off a message is the size it unwraps to.
  ghost predicate Sized(s: Session) {
    forall n: nat, w: Bytes :: s.unwrap(n, w).Some? ==> s.size(w) == Some(|s.unwrap(n, w).value|)
  }

  // Network byte order.
  function Be32(n: uint32): (b: Bytes)
    ensures |b| == 4
  {
    var le := Le32(n);
    [le[3], le[2], le[1], le[0]]
  }

  function FromBe32(b: Bytes): uint32
    requires |b| == 4
  {
    FromLe32([b[3], b[2], b[1], b[0]])
  }

  lemma Be32RoundTrip(n: uint32)
    ensures FromBe32(Be32(n)) == n
  {
    Le32RoundTrip(n);
    var be, le := Be32(n), Le32(n);
    assert [be[3], be[2], be[1], be[0]] == le;
  }

  function Frame(w: Bytes): Bytes
    requires |w| < TWO_32
  {
    Be32(|w|) + w
  }

  // One frame at the front of the wire, unwrapped as message `n` when it fits in `room`; and what is
  // left on the wire.  A length that reads like the failure status is taken for one.
  ghost function TakeFrame(s: Session, n: nat, wire: Bytes, room: nat): (r: (Option<Bytes>, Bytes))
    requires Sized(s)
    ensures r.0.Some? ==> |r.0.value| <= room && |r.1| < |wire|
  {
    if |wire| < 4 then (None, wire)
    else
      var size := FromBe32(wire[..4]);
      if size == HM_FAIL || size == 0 || |wire| - 4 < size then (None, wire[4..])
      else
        var w, left := wire[4..4 + size], wire[4 + size..];
        var length := s.size(w);
        if length.None? || length.value > room then (None, left) else (s.unwrap(n, w), left)
  }

  // A read of `want` bytes of which `got` are there already: frames are taken until it is full.
  ghost function Take(s: Session, n: nat, wire: Bytes, want: nat, got: Bytes): (Option<Bytes>, Bytes, nat)
    requires Sized(s) && |got| <= want
    decreases |wire|
  {
    var (m, left) := TakeFrame(s, n, wire, want - |got|);
    if m.None? then (None, left, n)
    else if |got| + |m.value| < want then Take(s, n + 1, left, want, got + m.value)
    else (Some(got + m.value), left, n + 1)
  }

  // What such a read has put into its buffer by its end, whether it fails or not.
  ghost function Gathered(s: Session, n: nat, wire: Bytes, want: nat, got: Bytes): (r: Bytes)
    requires Sized(s) && |got| <= want
    ensures |r| <= want
    decreases |wire|
  {
    var (m, left) := TakeFrame(s, n, wire, want - |got|);
    if m.None? then got
    else if |got| + |m.value| < want then Gathered(s, n + 1, left, want, got + m.value)
    else got + m.value
  }

  class Transport {
    const outgoing: Session
    const incoming: Session
    const wireOut: Channel
    const wireIn: Channel
    var sent: nat
    var received: nat

    constructor (outgoing: Session, incoming: Session, wireOut: Channel, wireIn: Channel)
      ensures this.outgoing == outgoing && this.incoming == incoming && this.wireOut == wireOut && this.wireIn == wireIn
      ensures sent == 0 && received == 0
    {
      this.outgoing, this.incoming, this.wireOut, this.wireIn := outgoing, incoming, wireOut, wireIn;
      sent, received := 0, 0;
    }

    method SendData(data: Bytes)
      requires 0 < |data| < TWO_32
      modifies wireOut
      ensures wireOut.bytes == old(wireOut.bytes) + Frame(data)
    {
      Regroup(wireOut.bytes, Be32(|data|), data);
      var _ := wireOut.Send(Be32(|data|));
      var _ := wireOut.Send(data);
    }

    method Send(buffer: Bytes) returns (status: int)
      requires Lossless(outgoing)
      modifies wireOut, this`sent
      ensures if Admits(outgoing, buffer)
              then status == HM_SUCCESS && sent == old(sent) + 1
                   && wireOut.bytes == old(wireOut.bytes) + Frames(outgoing, old(sent), [buffer])
              else status == HM_FAIL && sent == old(sent) && wireOut.bytes == old(wireOut.bytes)
    {
      assert Carries(outgoing, sent, buffer);
      var wrapped := outgoing.wrap(sent, buffer);
      if wrapped.None? {
        return HM_FAIL;
      }
      assert Frames(outgoing, sent, [buffer]) == Frame(wrapped.value) + Frames(outgoing, sent + 1, []);
      assert Frames(outgoing, sent, [buffer]) == Frame(wrapped.value);
      SendData(wrapped.value);
      sent := sent + 1;
      return HM_SUCCESS;
    }

    // The failure of the wire and a length equal to its status are the same to the caller.
    method ReadDataSize() returns (size: uint32)
      modifies wireIn
      ensures wireIn.bytes == if |old(wireIn.bytes)| < 4 then old(wireIn.bytes) else old(wireIn.bytes)[4..]
      ensures size == if |old(wireIn.bytes)| < 4 then HM_FAIL else FromBe32(old(wireIn.bytes)[..4])
    {
      var field := wireIn.Recv(4);
      if field.None? {
        return HM_FAIL;
      }
      return FromBe32(field.value);
    }

    // One turn of the receiving loop: the next frame goes into the buffer at `total`.
    method ReceiveFrame(buffer: array<byte>, total: nat) returns (read: Option<nat>)
      requires Sized(incoming) && total <= buffer.Length
      modifies wireIn, this`received, buffer
      ensures var (m, left) := TakeFrame(incoming, old(received), old(wireIn.bytes), buffer.Length - total);
              && wireIn.bytes == left
              && (read.Some? <==> m.Some?)
              && (m.Some? ==> read.value == |m.value| && received == old(received) + 1
                              && buffer[..total + read.value] == old(buffer[..total]) + m.value
                              && SameFrom(buffer, total + read.value))
              && (m.None? ==> received == old(received) && SameFrom(buffer, 0))
    {
      ghost var wire := wireIn.bytes;
      var size := ReadDataSize();
      if size == HM_FAIL {
        return None;
      }
      assert |wire| - 4 >= size ==> wire[4..][..size] == wire[4..4 + size] && wire[4..][size..] == wire[4 + size..];
      var data := wireIn.Recv(size);
      if data.None? {
        return None;
      }
      var length := incoming.size(data.value);
      if length.None? || length.value + total > buffer.Length {
        return None;
      }
      var m := incoming.unwrap(received, data.value);
      if m.None? {
        return None;
      }
      received := received + 1;
      forall i | 0 <= i < |m.value| {
        buffer[total + i] := m.value[i];
      }
      assert buffer[..total] == old(buffer[..total]);
      assert buffer[total..total + |m.value|] == m.value;
      return Some(|m.value|);
    }

    // The loop takes at least one frame, also for a read of nothing.
    method Receive(buffer: array<byte>) returns (status: int)
      requires Sized(incoming)
      modifies wireIn, this`received, buffer
      ensures var (value, left, n) := Take(incoming, old(received), old(wireIn.bytes), buffer.Length, []);
              && wireIn.bytes == left && received == n
              && status == (if value.Some? then HM_SUCCESS else HM_FAIL)
              && (value.Some? ==> buffer[..] == value.value)
      ensures var g := Gathered(incoming, old(received), old(wireIn.bytes), buffer.Length, []);
              buffer[..|g|] == g && SameFrom(buffer, |g|)
    {
      hide TakeFrame;
      var total: nat := 0;
      var more := true;
      ghost var start, wire := received, wireIn.bytes;
      assert buffer[..0] == [];
      while more
        invariant total <= buffer.Length
        invariant if more
                  then Take(incoming, received, wireIn.bytes, buffer.Length, buffer[..total])
                       == Take(incoming, old(received), old(wireIn.bytes), buffer.Length, [])
                  else (Some(buffer[..]), wireIn.bytes, received)
                       == Take(incoming, old(received), old(wireIn.bytes), buffer.Length, [])
        invariant SameFrom(buffer, total)
        invariant Gathered(incoming, start, wire, buffer.Length, [])
                  == if more
                     then Gathered(incoming, received, wireIn.bytes, buffer.Length, buffer[..total])
                     else buffer[..total]
        decreases more, |wireIn.bytes|
      {
        var read := ReceiveFrame(buffer, total);
        if read.None? {
          return HM_FAIL;
        }
        total := total + read.value;
        more := total < buffer.Length;
        assert !more ==> buffer[..total] == buffer[..];
      }
      return HM_SUCCESS;
    }
  }

  // The wire after these messages were sent, the first of them as message `n`.
  function Frames(s: Session, n: nat, ms: seq<Bytes>): Bytes
    decreases |ms|
  {
    if ms == [] then []
    else
      var w := s.wrap(n, ms[0]);
      (if w.Some? && |w.value| < TWO_32 then Frame(w.value) else []) + Frames(s, n + 1, ms[1..])
  }

  ghost predicate AllAdmitted(s: Session, ms: seq<Bytes>) {
    forall i | 0 <= i < |ms| :: Admits(s, ms[i])
  }

  // The wrapped size of the message is the one that reads like a failure.
  predicate Reserved(s: Session, n: nat, m: Bytes) {
    var w := s.wrap(n, m);
    w.Some? && |w.value| == HM_FAIL
  }

  // The first message on the wire: lost when its size is the reserved one or there is no room for it.
  lemma FirstFrame(s: Session, n: nat, ms: seq<Bytes>, rest: Bytes, room: nat)
    requires Lossless(s) && Sized(s) && ms != [] && Admits(s, ms[0])
    ensures var (m, left) := TakeFrame(s, n, Frames(s, n, ms) + rest, room);
            && (m.Some? <==> !Reserved(s, n, ms[0]) && |ms[0]| <= room)
            && (m.Some? ==> m.value == ms[0])
            && (!Reserved(s, n, ms[0]) ==> left == Frames(s, n + 1, ms[1..]) + rest)
  {
    assert Carries(s, n, ms[0]);
    var w := s.wrap(n, ms[0]).value;
    var more := Frames(s, n + 1, ms[1..]);
    FrameParts(w, more + rest);
    Regroup(Frame(w), more, rest);
    hide Frame, FromBe32;
  }

  lemma FrameParts(w: Bytes, tail: Bytes)
    requires |w| < TWO_32
    ensures var wire := Frame(w) + tail;
            |wire| >= 4 + |w| && FromBe32(wire[..4]) == |w| && wire[4..4 + |w|] == w && wire[4 + |w|..] == tail
  {
    Be32RoundTrip(|w|);
    hide Be32, FromBe32;
    var wire := Frame(w) + tail;
    assert wire[..4] == Be32(|w|);
  }

  // No message of the first `k` has the reserved size.
  predicate Clear(s: Session, n: nat, ms: seq<Bytes>, k: nat)
    requires k <= |ms|
  {
    forall i | 0 <= i < k :: !Reserved(s, n + i, ms[i])
  }

  lemma ClearTail(s: Session, n: nat, ms: seq<Bytes>, k: nat)
    requires 0 < k <= |ms|
    ensures Clear(s, n, ms, k) <==> !Reserved(s, n, ms[0]) && Clear(s, n + 1, ms[1..], k - 1)
  {
    if Clear(s, n, ms, k) {
      assert !Reserved(s, n + 0, ms[0]);
      forall i | 0 <= i < k - 1
        ensures !Reserved(s, n + 1 + i, ms[1..][i])
      {
        assert !Reserved(s, n + (i + 1), ms[i + 1]);
      }
    } else if !Reserved(s, n, ms[0]) {
      var i :| 0 <= i < k && Reserved(s, n + i, ms[i]);
      assert Reserved(s, n + 1 + (i - 1), ms[1..][i - 1]);
    }
  }

  lemma ConcatTail(ms: seq<Bytes>, k: nat)
    requires 0 < k <= |ms|
    ensures ms[..k][1..] == ms[1..][..k - 1] && Concat(ms[..k]) == ms[0] + Concat(ms[1..][..k - 1])
  {
    assert ms[..k][1..] == ms[1..][..k - 1];
  }

  // One turn of a read, on messages.
  lemma TakeStep(s: Session, n: nat, ms: seq<Bytes>, rest: Bytes, room: nat, got: Bytes)
    requires Lossless(s) && Sized(s) && ms != [] && Admits(s, ms[0])
    ensures var taken := Take(s, n, Frames(s, n, ms) + rest, |got| + room, got);
            var left := Frames(s, n + 1, ms[1..]) + rest;
            if Reserved(s, n, ms[0]) || |ms[0]| > room then taken.0.None?
            else if |ms[0]| == room then taken == (Some(got + ms[0]), left, n + 1)
            else taken == Take(s, n + 1, left, |got| + room, got + ms[0])
  {
    hide Lossless, Sized;
    FirstFrame(s, n, ms, rest, room);
  }

  lemma TakeMore(s: Session, n: nat, ms: seq<Bytes>, rest: Bytes, want: nat, got: Bytes)
    requires Lossless(s) && Sized(s) && ms != [] && Admits(s, ms[0]) && !Reserved(s, n, ms[0]) && |got| + |ms[0]| < want
    ensures Take(s, n, Frames(s, n, ms) + rest, want, got)
            == Take(s, n + 1, Frames(s, n + 1, ms[1..]) + rest, want, got + ms[0])
  {
    hide Lossless, Sized;
    TakeStep(s, n, ms, rest, want - |got|, got);
  }

  // Reassembly: a read whose length is the total of the first `k` pending messages returns their
  // concatenation and leaves the others, and whatever follows them, on the wire.
  lemma {:induction false} PrefixArrives(s: Session, n: nat, ms: seq<Bytes>, rest: Bytes, k: nat, got: Bytes)
    requires Lossless(s) && Sized(s) && AllAdmitted(s, ms) && 0 < k <= |ms| && Clear(s, n, ms, k)
    ensures Take(s, n, Frames(s, n, ms) + rest, |got| + |Concat(ms[..k])|, got)
            == (Some(got + Concat(ms[..k])), Frames(s, n + k, ms[k..]) + rest, n + k)
    decreases k
  {
    hide Take, TakeFrame, Frame, Frames, Reserved, Lossless, Sized;
    if k == 1 {
      OneMessage(s, n, ms);
      TakeStep(s, n, ms, rest, |Concat(ms[..k])|, got);
    } else {
      var tail := ms[1..];
      MoreMessages(s, n, ms, k);
      var want := |got| + |Concat(ms[..k])|;
      calc {
        Take(s, n, Frames(s, n, ms) + rest, want, got);
        { TakeMore(s, n, ms, rest, want, got); }
        Take(s, n + 1, Frames(s, n + 1, tail) + rest, want, got + ms[0]);
        { PrefixArrives(s, n + 1, tail, rest, k - 1, got + ms[0]); }
        (Some(got + ms[0] + Concat(tail[..k - 1])), Frames(s, n + k, tail[k - 1..]) + rest, n + k);
        { Regroup(got, ms[0], Concat(tail[..k - 1])); assert tail[k - 1..] == ms[k..]; }
        (Some(got + Concat(ms[..k])), Frames(s, n + k, ms[k..]) + rest, n + k);
      }
    }
  }

  lemma OneMessage(s: Session, n: nat, ms: seq<Bytes>)
    requires ms != []
    ensures Concat(ms[..1]) == ms[0] && (Clear(s, n, ms, 1) <==> !Reserved(s, n, ms[0]))
  {
    ConcatTail(ms, 1);
    ClearTail(s, n, ms, 1);
    assert ms[0] + [] == ms[0];
  }

  lemma MoreMessages(s: Session, n: nat, ms: seq<Bytes>, k: nat)
    requires AllAdmitted(s, ms) && 1 < k <= |ms|
    ensures AllAdmitted(s, ms[1..])
    ensures Concat(ms[..k]) == ms[0] + Concat(ms[1..][..k - 1]) && Concat(ms[1..][..k - 1]) != []
    ensures Clear(s, n, ms, k) <==> !Reserved(s, n, ms[0]) && Clear(s, n + 1, ms[1..], k - 1)
  {
    ConcatTail(ms, k);
    ConcatTail(ms[1..], k - 1);
    ClearTail(s, n, ms, k);
  }

  // A read of `room` bytes is the total of the first `k` messages, none of the reserved size.
  ghost predicate Fills(s: Session, n: nat, ms: seq<Bytes>, room: nat, k: nat) {
    0 < k <= |ms| && |Concat(ms[..k])| == room && Clear(s, n, ms, k)
  }

  lemma FillsStep(s: Session, n: nat, ms: seq<Bytes>, room: nat, k: nat)
    requires AllAdmitted(s, ms) && ms != []
    ensures Fills(s, n, ms, room, k) <==>
            && !Reserved(s, n, ms[0]) && |ms[0]| <= room
            && if k <= 1 then k == 1 && |ms[0]| == room else Fills(s, n + 1, ms[1..], room - |ms[0]|, k - 1)
  {
    if k == 1 {
      OneMessage(s, n, ms);
    } else if 1 < k <= |ms| {
      MoreMessages(s, n, ms, k);
    }
  }

  // A read of `room` bytes can be cut from the first messages.
  ghost predicate Fillable(s: Session, n: nat, ms: seq<Bytes>, room: nat) {
    exists k: nat :: Fills(s, n, ms, room, k)
  }

  lemma FillableStep(s: Session, n: nat, ms: seq<Bytes>, room: nat)
    requires AllAdmitted(s, ms) && ms != []
    ensures Fillable(s, n, ms, room) <==>
            && !Reserved(s, n, ms[0]) && |ms[0]| <= room
            && (|ms[0]| == room || Fillable(s, n + 1, ms[1..], room - |ms[0]|))
  {
    if Fillable(s, n, ms, room) {
      var k: nat :| Fills(s, n, ms, room, k);
      FillsStep(s, n, ms, room, k);
    } else if |ms[0]| == room {
      FillsStep(s, n, ms, room, 1);
    } else if !Reserved(s, n, ms[0]) && |ms[0]| < room {
      TailFills(s, n, ms, room);
    }
  }

  lemma TailFills(s: Session, n: nat, ms: seq<Bytes>, room: nat)
    requires AllAdmitted(s, ms) && ms != [] && |ms[0]| <= room && !Reserved(s, n, ms[0])
    ensures Fillable(s, n + 1, ms[1..], room - |ms[0]|) ==> Fillable(s, n, ms, room)
  {
    var tail, next, less: nat := ms[1..], n + 1, room - |ms[0]|;
    if Fillable(s, next, tail, less) {
      var k: nat :| Fills(s, next, tail, less, k);
      FillsStep(s, n, ms, room, k + 1);
    }
  }

  // A read succeeds exactly when its length is the total of some first messages, none of which has
  // the reserved size: one that would split a message, or that asks for nothing, fails.
  lemma {:induction false} ReadSucceedsExactlyWhen(s: Session, n: nat, ms: seq<Bytes>, room: nat, got: Bytes)
    requires Lossless(s) && Sized(s) && AllAdmitted(s, ms)
    ensures Take(s, n, Frames(s, n, ms) + [], |got| + room, got).0.Some? <==> Fillable(s, n, ms, room)
    decreases |ms|
  {
    hide Take, TakeFrame, Frame, Frames, Reserved, Fillable, Lossless, Sized;
    if ms == [] {
      NothingPending(s, n, room, got);
    } else {
      TakeStep(s, n, ms, [], room, got);
      FillableStep(s, n, ms, room);
      if !Reserved(s, n, ms[0]) && |ms[0]| < room {
        ReadSucceedsExactlyWhen(s, n + 1, ms[1..], room - |ms[0]|, got + ms[0]);
      }
    }
  }

  lemma NothingPending(s: Session, n: nat, room: nat, got: Bytes)
    requires Sized(s)
    ensures Take(s, n, Frames(s, n, []) + [], |got| + room, got).0.None? && !Fillable(s, n, [], room)
  {
    assert Frames(s, n, []) + [] == [];
  }

  // A read of nothing takes the next frame off the wire all the same, and fails; the session does not
  // count the message.
  lemma EmptyReadTakesFrame(s: Session, n: nat, ms: seq<Bytes>, rest: Bytes)
    requires Lossless(s) && Sized(s) && ms != [] && Admits(s, ms[0]) && !Reserved(s, n, ms[0])
    ensures Take(s, n, Frames(s, n, ms) + rest, 0, []) == (None, Frames(s, n + 1, ms[1..]) + rest, n)
  {
    hide TakeFrame, Frames, Reserved, Lossless, Sized;
    FirstFrame(s, n, ms, rest, 0);
  }

  // A session that puts the low byte of the message number in front.
  const NUMBERED := Session(
    TWO_32 - 2,
    (n: nat, m: Bytes) => if m == [] || |m| > TWO_32 - 2 then None else Some([n % 256] + m),
    (w: Bytes) => if |w| < 2 then None else Some(|w| - 1),
    (n: nat, w: Bytes) => if |w| < 2 || w[0] != n % 256 then None else Some(w[1..]))

  lemma NumberedIsLossless()
    ensures Lossless(NUMBERED) && Sized(NUMBERED)
  {
    forall n: nat, m: Bytes
      ensures Carries(NUMBERED, n, m)
    {
      if m != [] && |m| <= TWO_32 - 2 {
        assert ([n % 256] + m)[1..] == m;
      }
    }
  }

  // There, a message of 983040 bytes has the reserved size, and the read that waits for it fails.
  lemma ReservedExample(m: Bytes)
    requires |m| == 983040
    ensures Admits(NUMBERED, m) && Reserved(NUMBERED, 0, m)
    ensures Take(NUMBERED, 0, Frames(NUMBERED, 0, [m]) + [], |m|, []).0.None?
  {
    hide Take, Frames;
    NumberedIsLossless();
    TakeStep(NUMBERED, 0, [m], [], |m|, []);
  }

  // One message read alone, then all the others in one read.
  lemma TwoReads(s: Session, n: nat, ms: seq<Bytes>, rest: Bytes)
    requires Lossless(s) && Sized(s) && |ms| > 1 && AllAdmitted(s, ms) && Clear(s, n, ms, |ms|)
    ensures Take(s, n, Frames(s, n, ms) + rest, |ms[0]|, []) == (Some(ms[0]), Frames(s, n + 1, ms[1..]) + rest, n + 1)
    ensures Take(s, n + 1, Frames(s, n + 1, ms[1..]) + rest, |Concat(ms[1..])|, [])
            == (Some(Concat(ms[1..])), rest, n + |ms|)
  {
    hide Take, TakeFrame, Frame, Reserved, Lossless, Sized;
    var tail, count := ms[1..], |ms| - 1;
    ClearTail(s, n, ms, |ms|);
    TakeStep(s, n, ms, rest, |ms[0]|, []);
    assert [] + ms[0] == ms[0];
    PrefixArrives(s, n + 1, tail, rest, count, []);
    assert tail[..count] == tail && tail[count..] == [];
    assert [] + Concat(tail) == Concat(tail);
    assert Frames(s, n + 1 + count, []) + rest == rest;
  }

  // Several reads in a row, up to the first failure.
  ghost function Reads(s: Session, n: nat, wire: Bytes, wants: seq<nat>): (Option<seq<Bytes>>, Bytes, nat)
    requires Sized(s)
    decreases |wants|
  {
    if wants == [] then (Some([]), wire, n)
    else
      var (value, left, next) := Take(s, n, wire, wants[0], []);
      if value.None? then (None, left, next)
      else
        var (values, last, final) := Reads(s, next, left, wants[1..]);
        (if values.None? then None else Some([value.value] + values.value), last, final)
  }

  function Flatten(groups: seq<seq<Bytes>>): seq<Bytes> {
    if groups == [] then [] else groups[0] + Flatten(groups[1..])
  }

  function Concats(groups: seq<seq<Bytes>>): (r: seq<Bytes>)
    ensures |r| == |groups|
  {
    if groups == [] then [] else [Concat(groups[0])] + Concats(groups[1..])
  }

  function Lengths(groups: seq<seq<Bytes>>): (r: seq<nat>)
    ensures |r| == |groups|
  {
    if groups == [] then [] else [|Concat(groups[0])|] + Lengths(groups[1..])
  }

  // Reads whose lengths are the totals of consecutive groups of messages return the groups, put
  // together, and leave what follows.
  lemma {:induction false} GroupsArrive(s: Session, n: nat, groups: seq<seq<Bytes>>, rest: Bytes)
    requires Lossless(s) && Sized(s) && forall i | 0 <= i < |groups| :: groups[i] != []
    requires AllAdmitted(s, Flatten(groups)) && Clear(s, n, Flatten(groups), |Flatten(groups)|)
    ensures Reads(s, n, Frames(s, n, Flatten(groups)) + rest, Lengths(groups))
            == (Some(Concats(groups)), rest, n + |Flatten(groups)|)
    decreases |groups|
  {
    hide Take, TakeFrame, Frame, Reserved, Admits, Lossless, Sized;
    if groups == [] {
      assert Frames(s, n, []) + rest == rest;
    } else {
      var ms, g, more := Flatten(groups), groups[0], Flatten(groups[1..]);
      var k := |g|;
      assert ms[..k] == g && ms[k..] == more;
      ClearSplits(s, n, ms, k);
      PrefixArrives(s, n, ms, rest, k, []);
      assert [] + Concat(g) == Concat(g);
      GroupsArrive(s, n + k, groups[1..], rest);
      assert Lengths(groups)[1..] == Lengths(groups[1..]);
    }
  }

  lemma ClearSplits(s: Session, n: nat, ms: seq<Bytes>, k: nat)
    requires k <= |ms|
    ensures Clear(s, n, ms, |ms|) ==> Clear(s, n, ms, k) && Clear(s, n + k, ms[k..], |ms| - k)
  {
    hide Reserved;
    if Clear(s, n, ms, |ms|) {
      forall i | 0 <= i < |ms| - k
        ensures !Reserved(s, n + k + i, ms[k..][i])
      {
        assert !Reserved(s, n + (k + i), ms[k + i]);
      }
    }
  }

  // A session with room for the fields admits every single send of a pack exactly when no buffer is
  // empty or beyond its limit.
  lemma PiecesAdmittedExactlyWhen(s: Session, pack: Pack)
    requires s.limit >= 4
    ensures AllAdmitted(s, Pieces(pack)) <==>
            forall i | 0 <= i < |pack.params| :: pack.params[i].Buffer? ==> 0 < |pack.params[i].data| <= s.limit
  {
    hide FirstPieces, Le32;
    FirstAdmitted(s, pack.params, |pack.params|);
    var ms, tail := Pieces(pack), FirstPieces(pack.params, |pack.params|);
    assert ms[0] == Le32(Announced(pack)) && ms[1..] == tail;
    AdmittedTail(s, ms);
  }

  lemma AdmittedTail(s: Session, ms: seq<Bytes>)
    requires ms != []
    ensures AllAdmitted(s, ms) <==> Admits(s, ms[0]) && AllAdmitted(s, ms[1..])
  {
    assert forall i | 0 < i < |ms| :: ms[i] == ms[1..][i - 1];
  }

  lemma {:induction false} FirstAdmitted(s: Session, ps: seq<Param>, k: nat)
    requires k <= |ps| && s.limit >= 4
    ensures AllAdmitted(s, FirstPieces(ps, k)) <==>
            forall i | 0 <= i < k :: ps[i].Buffer? ==> 0 < |ps[i].data| <= s.limit
  {
    hide Le32;
    if k > 0 {
      FirstAdmitted(s, ps, k - 1);
      AdmittedBoth(s, FirstPieces(ps, k - 1), PiecesOf(ps[k - 1]));
      var one := PiecesOf(ps[k - 1]);
      if ps[k - 1].Buffer? { assert one[2] == ps[k - 1].data; }
    }
  }

  lemma AdmittedBoth(s: Session, xs: seq<Bytes>, ys: seq<Bytes>)
    ensures AllAdmitted(s, xs + ys) <==> AllAdmitted(s, xs) && AllAdmitted(s, ys)
  {
    assert forall i | 0 <= i < |xs| :: xs[i] == (xs + ys)[i];
    assert forall i | 0 <= i < |ys| :: ys[i] == (xs + ys)[|xs| + i];
  }

  // The session takes every single send of a pack, and none has the reserved size.
  ghost predicate Passes(s: Session, n: nat, ms: seq<Bytes>) {
    AllAdmitted(s, ms) && Clear(s, n, ms, |ms|)
  }

  // The many sends of one pack are matched by the two reads of one receive: the length, then the
  // whole encoding, with whatever follows left on the wire.
  lemma PackCrosses(s: Session, n: nat, pack: Pack, rest: Bytes)
    requires Lossless(s) && Sized(s) && Sent(pack).0 == HM_SUCCESS && Intact(pack) && Passes(s, n, Pieces(pack))
    ensures var e, ms := Encode(Normalised(pack.params)), Pieces(pack);
            var (head, left, next) := Take(s, n, Frames(s, n, ms) + rest, 4, []);
            && head == Some(Le32(|e|))
            && Take(s, next, left, |e|, []) == (Some(e), rest, n + |ms|)
            && ReadResult(e).Some? && ReadResult(e).value.params == Normalised(pack.params)
  {
    hide Lossless, Sized, AllAdmitted, Clear, Take, TakeFrame, Frame, Frames, Reserved;
    hide Encode, FirstPieces, Le32, ReadResult;
    var ms := Pieces(pack);
    PiecesAreSent(pack);
    PieceCount(pack.params, |pack.params|);
    TwoReads(s, n, ms, rest);
    EmittedFits(Normalised(pack.params), |pack.params|);
    ReadOfEmitted(pack.params, |pack.params|);
  }

  lemma {:induction false} PieceCount(ps: seq<Param>, k: nat)
    requires k <= |ps|
    ensures |FirstPieces(ps, k)| >= 1
  {
    if k > 0 { PieceCount(ps, k - 1); }
  }
}
