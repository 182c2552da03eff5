/** Writing, reading, sending and receiving parameter packs, loop by loop. */
module PackTransfer {
  import opened Base
  import opened ParamPack
  import opened Channel

  function SizeFirst(ps: seq<Param>, k: nat): nat
    requires k <= |ps|
  {
    if k == 0 then 0 else SizeFirst(ps, k - 1) + 8 + if ps[k - 1].Buffer? then |ps[k - 1].data| else 0
  }

  lemma RawLength(p: Param)
    ensures |EncodeRaw(p)| == 8 + if p.Buffer? then |p.data| else 0
  {
  }

  // The count field and the first `k` parameters, in the order a loop emits them.
  function Emitted(ps: seq<Param>, k: nat): Bytes
    requires k <= |ps|
  {
    if k == 0 then Le32(Low32(|ps|)) else Emitted(ps, k - 1) + EncodeRaw(ps[k - 1])
  }

  lemma {:induction false} EmittedLength(ps: seq<Param>, k: nat)
    requires k <= |ps|
    ensures |Emitted(ps, k)| == 4 + SizeFirst(ps, k)
  {
    hide EncodeRaw;
    if k > 0 {
      EmittedLength(ps, k - 1);
      RawLength(ps[k - 1]);
    }
  }

  lemma {:induction false} EmittedThenRest(ps: seq<Param>, k: nat)
    requires k <= |ps|
    ensures Encode(ps) == Emitted(ps, k) + EncodeAll(ps[k..])
  {
    hide EncodeRaw;
    if k == 0 {
      assert ps[0..] == ps;
    } else {
      EmittedThenRest(ps, k - 1);
      assert [ps[k - 1]] + ps[k..] == ps[k - 1..];
      ConsEncodes(ps[k - 1], ps[k..]);
      Regroup(Emitted(ps, k - 1), EncodeRaw(ps[k - 1]), EncodeAll(ps[k..]));
    }
  }

  // The loops emit the encoding, whose length is the count field and the sizes.
  lemma FirstIsAll(ps: seq<Param>)
    ensures Emitted(ps, |ps|) == Encode(ps) && |Encode(ps)| == 4 + SizeFirst(ps, |ps|)
  {
    EmittedThenRest(ps, |ps|);
    EmittedLength(ps, |ps|);
  }

  lemma ModStep(a: nat, b: nat)
    ensures (a % TWO_32 + b) % TWO_32 == (a + b) % TWO_32
  {
  }

  // The length a pack is announced with: that of its encoding, or of the buffer it was read from.
  function Announced(pack: Pack): uint32 {
    Low32(if pack.readed then pack.wholeLength else |Encode(Normalised(pack.params))|)
  }

  // The 32-bit sum of the sizes, or the length of the buffer a read pack came from.
  method WholeLength(pack: Pack) returns (n: uint32)
    ensures n == Announced(pack)
  {
    if pack.readed {
      return pack.wholeLength % TWO_32;
    }
    n := MeasureAll(pack.params);
    FirstIsAll(Normalised(pack.params));
    SizesNormalised(pack.params, |pack.params|);
  }

  method MeasureAll(ps: seq<Param>) returns (n: uint32)
    ensures n == Low32(4 + SizeFirst(ps, |ps|))
  {
    n := 4;
    var i := 0;
    while i < |ps|
      invariant i <= |ps|
      invariant n == Low32(4 + SizeFirst(ps, i))
    {
      ModStep(4 + SizeFirst(ps, i), 8);
      n := (n + 8) % TWO_32;
      if ps[i].Buffer? {
        ModStep(4 + SizeFirst(ps, i) + 8, |ps[i].data|);
        n := (n + |ps[i].data|) % TWO_32;
      }
      i := i + 1;
    }
  }

  // The buffer begins with these bytes.
  ghost predicate Begins(buffer: array<byte>, done: Bytes)
    reads buffer
  {
    |done| <= buffer.Length &&
    forall j {:trigger buffer[j]} {:trigger done[j]} | 0 <= j < |done| :: buffer[j] == done[j]
  }

  // From `from` on, the buffer is as it was.
  twostate predicate SameFrom(buffer: array<byte>, from: nat)
    reads buffer
  {
    forall j {:trigger buffer[j]} | from <= j < buffer.Length :: buffer[j] == old(buffer[j])
  }

  // Copy bytes into a buffer, after what has been written so far.
  method Fill(buffer: array<byte>, at: nat, b: Bytes, ghost done: Bytes)
    requires at + |b| <= buffer.Length && |done| == at && Begins(buffer, done)
    modifies buffer
    ensures Begins(buffer, done + b) && SameFrom(buffer, at + |b|)
  {
    var i := 0;
    while i < |b|
      invariant i <= |b|
      invariant forall j | 0 <= j < at :: buffer[j] == done[j]
      invariant forall j | 0 <= j < i :: buffer[at + j] == b[j]
      invariant forall j | at + i <= j < buffer.Length :: buffer[j] == old(buffer[j])
    {
      buffer[at + i] := b[i];
      i := i + 1;
    }
    assert forall j | 0 <= j < at + |b| :: buffer[j] == (done + b)[j] by {
      forall j | at <= j < at + |b| ensures buffer[j] == (done + b)[j] {
        assert buffer[at + (j - at)] == b[j - at];
      }
    }
  }

  // One parameter: its type, then its value or its length and contents.
  method WriteOne(buffer: array<byte>, at: nat, p: Param, ghost done: Bytes) returns (next: nat)
    requires at + |EncodeRaw(Normal(p))| <= buffer.Length
    requires |done| == at && Begins(buffer, done)
    modifies buffer
    ensures next == at + |EncodeRaw(Normal(p))|
    ensures Begins(buffer, done + EncodeRaw(Normal(p))) && SameFrom(buffer, next)
  {
    match p
    case Int32(v) =>
      Fill(buffer, at, Le32(TAG_INT32), done);
      Fill(buffer, at + 4, Le32(Bits(v)), done + Le32(TAG_INT32));
      Regroup(done, Le32(TAG_INT32), Le32(Bits(v)));
      next := at + 8;
    case Buffer(_, data) =>
      Fill(buffer, at, Le32(TAG_BUFFER), done);
      Fill(buffer, at + 4, Le32(Low32(|data|)), done + Le32(TAG_BUFFER));
      Fill(buffer, at + 8, data, done + Le32(TAG_BUFFER) + Le32(Low32(|data|)));
      Regroup(done, Le32(TAG_BUFFER), Le32(Low32(|data|)));
      Regroup(done, Le32(TAG_BUFFER) + Le32(Low32(|data|)), data);
      next := at + 8 + |data|;
  }

  method WriteCount(buffer: array<byte>, count: uint32) returns (at: nat)
    requires 4 <= buffer.Length
    modifies buffer
    ensures at == 4 && Begins(buffer, Le32(count)) && SameFrom(buffer, 4)
  {
    Fill(buffer, 0, Le32(count), []);
    assert [] + Le32(count) == Le32(count);
    at := 4;
  }

  // The parameter the loop is at, written after the count and the parameters before it.
  method WriteNext(ps: seq<Param>, i: nat, buffer: array<byte>, at: nat, ghost out: seq<Param>) returns (next: nat)
    requires i < |ps| && out == Normalised(ps)
    requires at == |Emitted(out, i)| && Begins(buffer, Emitted(out, i)) && 4 + SizeFirst(out, |ps|) <= buffer.Length
    modifies buffer
    ensures next == |Emitted(out, i + 1)|
    ensures Begins(buffer, Emitted(out, i + 1)) && SameFrom(buffer, next)
  {
    hide EncodeRaw, Begins, SameFrom;
    SizesGrow(out, i + 1, |ps|);
    EmittedLength(out, i + 1);
    next := WriteOne(buffer, at, ps[i], Emitted(out, i));
  }

  method WriteAll(ps: seq<Param>, buffer: array<byte>, ghost out: seq<Param>) returns (at: nat)
    requires out == Normalised(ps)
    requires 4 + SizeFirst(out, |ps|) <= buffer.Length
    modifies buffer
    ensures at == |Emitted(out, |ps|)|
    ensures Begins(buffer, Emitted(out, |ps|)) && SameFrom(buffer, at)
  {
    hide EncodeRaw, Begins;
    at := WriteCount(buffer, Low32(|ps|));
    var i := 0;
    while i < |ps|
      invariant i <= |ps| && at == |Emitted(out, i)|
      invariant Begins(buffer, Emitted(out, i)) && SameFrom(buffer, at)
    {
      at := WriteNext(ps, i, buffer, at, out);
      i := i + 1;
    }
  }

  // Write a pack into a buffer: the encoding with every buffer marked as owned, nothing after it
  // touched; a buffer that is missing or shorter than announced is answered with that length.  Past
  // the check the buffer must really take the encoding.
  method Write(pack: Pack, buffer: array?<byte>) returns (status: int, length: nat)
    requires pack.params == [] || buffer == null || buffer.Length < Announced(pack) || Announced(pack) == 0
             || |Encode(Normalised(pack.params))| <= buffer.Length
    modifies if buffer == null then {} else {buffer}
    ensures var e, needed := Encode(Normalised(pack.params)), Announced(pack);
            if pack.params == [] || needed == 0 then status == HM_INVALID_PARAMETER
            else if buffer == null || buffer.Length < needed then status == HM_BUFFER_TOO_SMALL && length == needed
            else status == HM_SUCCESS && length == |e| && Begins(buffer, e) && SameFrom(buffer, length)
    ensures status != HM_SUCCESS && buffer != null ==> buffer[..] == old(buffer[..])
  {
    hide Encode, Emitted, Begins;
    if pack.params == [] {
      return HM_INVALID_PARAMETER, 0;
    }
    FirstIsAll(Normalised(pack.params));
    var needed := WholeLength(pack);
    if needed == 0 {
      return HM_INVALID_PARAMETER, 0;
    }
    if buffer == null || buffer.Length < needed {
      return HM_BUFFER_TOO_SMALL, needed;
    }
    length := WriteAll(pack.params, buffer, Normalised(pack.params));
    status := HM_SUCCESS;
  }

  // A buffer that passes the check takes the encoding.
  predicate Enough(room: nat, pack: Pack) {
    Announced(pack) <= room ==> |Encode(Normalised(pack.params))| <= room
  }

  // The check is enough for every buffer exactly when the encoding is no longer than announced; for a
  // local pack, when it stays below two to the 32.
  lemma WriteStaysInsideExactlyWhen(pack: Pack)
    ensures (forall room: nat :: Enough(room, pack)) <==> |Encode(Normalised(pack.params))| <= Announced(pack)
    ensures !pack.readed ==> ((forall room: nat :: Enough(room, pack)) <==> |Encode(Normalised(pack.params))| < TWO_32)
  {
    hide Encode;
    if forall room: nat :: Enough(room, pack) {
      assert Enough(Announced(pack), pack);
    }
  }

  // One buffer just long enough for the announced length to wrap to a single byte: a buffer of one
  // byte passes the check.
  lemma OverflowExample(data: Bytes)
    requires |data| == TWO_32 - 11
    ensures var pack := Pack([Buffer(Borrowed, data)], false, 0);
            Announced(pack) == 1 && !Enough(1, pack)
  {
    var ps := Normalised([Buffer(Borrowed, data)]);
    FirstIsAll(ps);
  }

  lemma {:induction false} SizesNormalised(ps: seq<Param>, k: nat)
    requires k <= |ps|
    ensures SizeFirst(Normalised(ps), k) == SizeFirst(ps, k)
  {
    if k > 0 { SizesNormalised(ps, k - 1); }
  }

  // An encoding below two to the 32 has no buffer longer than that.
  lemma SmallFits(ps: seq<Param>)
    requires |Encode(Normalised(ps))| < TWO_32
    ensures Fits(ps) && Fits(Normalised(ps))
  {
    FirstIsAll(Normalised(ps));
    forall i | 0 <= i < |ps| && ps[i].Buffer?
      ensures |ps[i].data| < TWO_32
    {
      SizesGrow(Normalised(ps), i + 1, |ps|);
    }
  }

  lemma {:induction false} SizesGrow(ps: seq<Param>, i: nat, k: nat)
    requires i <= k <= |ps|
    ensures SizeFirst(ps, i) <= SizeFirst(ps, k)
  {
    if i < k { SizesGrow(ps, i, k - 1); }
  }

  // One parameter of the first pass: every field is checked before it is read.
  method CheckOne(buffer: Bytes, start: nat) returns (next: Option<nat>)
    requires start <= |buffer|
    ensures next == if ParseOne(buffer[start..]).None? then None else Some(start + ParseOne(buffer[start..]).value.1)
  {
    var at := start;
    if at + 4 > |buffer| {
      return None;
    }
    ghost var here := buffer[start..];
    var tag := FromLe32(buffer[at..at + 4]);
    assert here[..4] == buffer[at..at + 4];
    at := at + 4;
    if tag == TAG_INT32 {
      if at + 4 > |buffer| {
        return None;
      }
      return Some(at + 4);
    } else if tag == TAG_BUFFERS_LIST || tag == TAG_BUFFER_C || tag == TAG_BUFFER {
      if at + 4 > |buffer| {
        return None;
      }
      var length := FromLe32(buffer[at..at + 4]);
      assert here[4..8] == buffer[at..at + 4];
      at := at + 4;
      if at + length > |buffer| {
        return None;
      }
      return Some(at + length);
    } else {
      return None;
    }
  }

  // Parsing from a position is parsing one parameter there and the rest after it.
  lemma ParseStep(buffer: Bytes, at: nat, n: nat)
    requires at <= |buffer| && n > 0
    ensures var one := ParseOne(buffer[at..]);
            ParseAll(buffer[at..], n) ==
            if one.None? then None
            else
              var rest := ParseAll(buffer[at + one.value.1..], n - 1);
              if rest.None? then None else Some(([one.value.0] + rest.value.0, one.value.1 + rest.value.1))
  {
    var one := ParseOne(buffer[at..]);
    if one.Some? {
      assert buffer[at..][one.value.1..] == buffer[at + one.value.1..];
    }
  }

  // The first pass accepts what parses, and nothing else.
  method CheckBuf(buffer: Bytes) returns (ok: bool)
    ensures ok <==> Parses(buffer)
  {
    if 4 > |buffer| {
      return false;
    }
    var count: nat := FromLe32(buffer[..4]);
    var at := 4;
    hide ParseOne, FromLe32;
    while count > 0
      invariant 4 <= at <= |buffer|
      invariant Parses(buffer) <==> ParseAll(buffer[at..], count).Some?
      decreases count
    {
      ParseStep(buffer, at, count);
      var next := CheckOne(buffer, at);
      if next.None? {
        return false;
      }
      at := next.value;
      count := count - 1;
    }
    return true;
  }

  // One parameter of the second pass: nothing is checked, because the first pass was there.
  method ReadOne(buffer: Bytes, start: nat) returns (p: Param, next: nat)
    requires start <= |buffer| && ParseOne(buffer[start..]).Some?
    ensures (p, next - start) == ParseOne(buffer[start..]).value
  {
    ghost var here := buffer[start..];
    var at := start;
    assert here[..4] == buffer[at..at + 4] && here[4..8] == buffer[at + 4..at + 8];
    var tag := FromLe32(buffer[at..at + 4]);
    at := at + 4;
    if tag == TAG_INT32 {
      return Int32(Signed(FromLe32(buffer[at..at + 4]))), at + 4;
    }
    var length := FromLe32(buffer[at..at + 4]);
    at := at + 4;
    assert here[8..8 + length] == buffer[at..at + length];
    return Buffer(KindOf(tag).value, buffer[at..at + length]), at + length;
  }

  // What is left to read at `at` are the parameters from index `i` on.
  ghost predicate Remaining(buffer: Bytes, at: nat, all: seq<Param>, i: nat)
    requires at <= |buffer| && i <= |all|
  {
    var rest := ParseAll(buffer[at..], |all| - i);
    rest.Some? && rest.value.0 == all[i..]
  }

  lemma OneOfRemaining(buffer: Bytes, at: nat, all: seq<Param>, i: nat)
    requires at <= |buffer| && i < |all| && Remaining(buffer, at, all, i)
    ensures var one := ParseOne(buffer[at..]);
            one.Some? && one.value.0 == all[i] && Remaining(buffer, at + one.value.1, all, i + 1)
  {
    ParseStep(buffer, at, |all| - i);
    assert all[i..][0] == all[i] && all[i..][1..] == all[i + 1..];
  }

  // The second pass never leaves the buffer or the twenty nodes.
  method Read(buffer: Bytes) returns (pack: Option<Pack>)
    ensures pack == ReadResult(buffer)
  {
    var ok := CheckBuf(buffer);
    if !ok {
      return None;
    }
    var count: nat := FromLe32(buffer[..4]);
    if count > MAX_PARAMS {
      return None;
    }
    hide ParseOne, FromLe32;
    ghost var all := ParseAll(buffer[4..], count).value.0;
    var nodes := new Param[MAX_PARAMS](_ => Int32(0));
    var i: nat, at: nat := 0, 4;
    while i < count
      invariant i <= count == |all| && at <= |buffer| && Remaining(buffer, at, all, i)
      invariant forall j | 0 <= j < i :: nodes[j] == all[j]
    {
      OneOfRemaining(buffer, at, all, i);
      nodes[i], at := ReadOne(buffer, at);
      i := i + 1;
    }
    assert nodes[..count] == all;
    return Some(Pack(nodes[..count], true, |buffer|));
  }

  // What a reader makes of a buffer.
  function ReadResult(buffer: Bytes): Option<Pack> {
    if !Parses(buffer) || FromLe32(buffer[..4]) > MAX_PARAMS then None
    else Some(Pack(ParseAll(buffer[4..], FromLe32(buffer[..4])).value.0, true, |buffer|))
  }

  // Reading back what was written yields the same parameters in order, whatever follows them.
  lemma WriteReadRoundTrip(ps: Params, rest: Bytes)
    requires Fits(ps)
    ensures var out := Normalised(ps);
            ReadResult(Encode(out) + rest) == Some(Pack(out, true, |Encode(out)| + |rest|))
  {
    hide Encode, EncodeAll, FromLe32, ParseAll;
    EncodingParses(Normalised(ps), rest);
  }

  // The parameters an extraction asks for, by type, must be the first ones of the pack.
  function TypeOf(p: Param): uint32 {
    if p.Int32? then TAG_INT32 else Tag(p.kind)
  }

  // The values are handed over one by one, so those before a mismatch are handed over all the same.
  method Extract(pack: Pack, types: seq<uint32>) returns (status: int, values: seq<Param>)
    ensures |values| <= |types| && values <= pack.params
    ensures forall i | 0 <= i < |values| :: TypeOf(pack.params[i]) == types[i]
    ensures status == if |values| == |types| then HM_SUCCESS else HM_FAIL
    ensures status == HM_FAIL ==>
              |values| == |pack.params| || TypeOf(pack.params[|values|]) != types[|values|]
  {
    values := [];
    var i := 0;
    while i < |types|
      invariant i <= |types| && i <= |pack.params| && values == pack.params[..i]
      invariant forall j | 0 <= j < i :: TypeOf(pack.params[j]) == types[j]
    {
      if i >= |pack.params| || types[i] != TypeOf(pack.params[i]) {
        return HM_FAIL, values;
      }
      values := values + [pack.params[i]];
      i := i + 1;
    }
    return HM_SUCCESS, values;
  }

  // A channel refuses a send of nothing, and so does one that is asked for an empty buffer.
  predicate Filled(p: Param) {
    p.Buffer? ==> p.data != []
  }

  predicate AllFilled(ps: seq<Param>) {
    forall i | 0 <= i < |ps| :: Filled(ps[i])
  }

  // How many parameters get out, from the one at `k` on: sending ends with the first empty buffer,
  // whose type and length are out by then.
  function Reach(ps: seq<Param>, k: nat): (r: nat)
    requires k <= |ps|
    ensures k <= r <= |ps|
    decreases |ps| - k
  {
    if k == |ps| then k else if !Filled(ps[k]) then k + 1 else Reach(ps, k + 1)
  }

  lemma {:induction false} ReachesAll(ps: seq<Param>, k: nat)
    requires k <= |ps| && AllFilled(ps)
    ensures Reach(ps, k) == |ps|
    decreases |ps| - k
  {
    if k < |ps| { ReachesAll(ps, k + 1); }
  }

  // What sending a pack answers, and the bytes it puts on the channel.
  function Sent(pack: Pack): (int, Bytes) {
    if pack.params == [] || Announced(pack) == 0 then (HM_INVALID_PARAMETER, [])
    else
      (if AllFilled(pack.params) then HM_SUCCESS else HM_FAIL,
       Le32(Announced(pack)) + Emitted(Normalised(pack.params), Reach(pack.params, 0)))
  }

  function Concat(ms: seq<Bytes>): Bytes {
    if ms == [] then [] else ms[0] + Concat(ms[1..])
  }

  // The single sends that a parameter takes.
  function PiecesOf(p: Param): seq<Bytes> {
    match p
    case Int32(v) => [Le32(TAG_INT32), Le32(Bits(v))]
    case Buffer(_, data) => [Le32(TAG_BUFFER), Le32(Low32(|data|)), data]
  }

  // The sends of the count and the first `k` parameters.
  function FirstPieces(ps: seq<Param>, k: nat): seq<Bytes>
    requires k <= |ps|
  {
    if k == 0 then [Le32(Low32(|ps|))] else FirstPieces(ps, k - 1) + PiecesOf(ps[k - 1])
  }

  // All the sends of a pack, the announced length first.
  function Pieces(pack: Pack): seq<Bytes> {
    [Le32(Announced(pack))] + FirstPieces(pack.params, |pack.params|)
  }

  lemma {:induction false} ConcatAppends(xs: seq<Bytes>, ys: seq<Bytes>)
    ensures Concat(xs + ys) == Concat(xs) + Concat(ys)
  {
    if xs == [] {
      assert xs + ys == ys;
    } else {
      ConcatAppends(xs[1..], ys);
      assert (xs + ys)[1..] == xs[1..] + ys;
      Regroup(xs[0], Concat(xs[1..]), Concat(ys));
    }
  }

  lemma PiecesEncode(p: Param)
    ensures Concat(PiecesOf(p)) == EncodeRaw(Normal(p))
  {
    match p
    case Int32(v) =>
      ConcatOne(Le32(Bits(v)));
      assert PiecesOf(p)[1..] == [Le32(Bits(v))];
    case Buffer(_, data) =>
      var length := Le32(Low32(|data|));
      ConcatOne(data);
      assert PiecesOf(p)[1..] == [length, data] && [length, data][1..] == [data];
      Regroup(Le32(TAG_BUFFER), length, data);
  }

  lemma ConcatOne(b: Bytes)
    ensures Concat([b]) == b
  {
    assert [b][1..] == [] && b + [] == b;
  }

  lemma {:induction false} FirstPiecesEmit(ps: seq<Param>, k: nat)
    requires k <= |ps|
    ensures Concat(FirstPieces(ps, k)) == Emitted(Normalised(ps), k)
  {
    hide PiecesOf, EncodeRaw;
    if k == 0 {
      ConcatOne(Le32(Low32(|ps|)));
    } else {
      FirstPiecesEmit(ps, k - 1);
      PiecesEncode(ps[k - 1]);
      ConcatAppends(FirstPieces(ps, k - 1), PiecesOf(ps[k - 1]));
    }
  }

  lemma RegroupPieces(x: seq<Bytes>, y: seq<Bytes>, z: seq<Bytes>)
    ensures x + (y + z) == x + y + z
  {
  }

  // The sends of a pack whose buffers all hold something, put together, are the announced length
  // and the buffer form.
  lemma PiecesAreSent(pack: Pack)
    requires pack.params != [] && Announced(pack) != 0 && AllFilled(pack.params)
    ensures Sent(pack) == (HM_SUCCESS, Concat(Pieces(pack)))
    ensures Pieces(pack)[0] == Le32(Announced(pack)) && Concat(Pieces(pack)[1..]) == Encode(Normalised(pack.params))
  {
    hide FirstPieces, Emitted, Encode, Announced, Normalised;
    FirstIsAll(Normalised(pack.params));
    FirstPiecesEmit(pack.params, |pack.params|);
    ReachesAll(pack.params, 0);
    assert Pieces(pack)[1..] == FirstPieces(pack.params, |pack.params|);
  }

  // One parameter: an empty buffer is refused after its type and length, which leaves its whole
  // encoding on the channel.
  method SendOne(p: Param, ch: Channel) returns (status: int)
    modifies ch
    ensures status == if Filled(p) then HM_SUCCESS else HM_FAIL
    ensures ch.bytes == old(ch.bytes) + EncodeRaw(Normal(p))
    ensures Filled(p) ==> ch.sends == old(ch.sends) + PiecesOf(p)
  {
    ghost var start := ch.bytes;
    match p
    case Int32(v) =>
      Regroup(start, Le32(TAG_INT32), Le32(Bits(v)));
      status := ch.Send(Le32(TAG_INT32));
      status := ch.Send(Le32(Bits(v)));
    case Buffer(_, data) =>
      var length := Le32(Low32(|data|));
      Regroup(start, Le32(TAG_BUFFER), length);
      Regroup(start, Le32(TAG_BUFFER) + length, data);
      status := ch.Send(Le32(TAG_BUFFER));
      status := ch.Send(length);
      status := ch.Send(data);
      assert data == [] ==> Le32(TAG_BUFFER) + length + data == Le32(TAG_BUFFER) + length;
  }

  method SendCount(ps: seq<Param>, ch: Channel, ghost out: seq<Param>)
    requires |out| == |ps|
    modifies ch
    ensures ch.bytes == old(ch.bytes) + Emitted(out, 0) && ch.sends == old(ch.sends) + FirstPieces(ps, 0)
  {
    var _ := ch.Send(Le32(Low32(|ps|)));
  }

  // The parameter the loop is at, sent after the count and the parameters before it.
  method SendNext(ps: seq<Param>, i: nat, ch: Channel,
                  ghost out: seq<Param>, ghost bytes: Bytes, ghost sends: seq<Bytes>)
    returns (status: int)
    requires i < |ps| && out == Normalised(ps)
    requires ch.bytes == bytes + Emitted(out, i) && ch.sends == sends + FirstPieces(ps, i)
    modifies ch
    ensures status == if Filled(ps[i]) then HM_SUCCESS else HM_FAIL
    ensures ch.bytes == bytes + Emitted(out, i + 1)
    ensures Filled(ps[i]) ==> ch.sends == sends + FirstPieces(ps, i + 1)
  {
    hide EncodeRaw, PiecesOf, Filled;
    Regroup(bytes, Emitted(out, i), EncodeRaw(out[i]));
    RegroupPieces(sends, FirstPieces(ps, i), PiecesOf(ps[i]));
    status := SendOne(ps[i], ch);
  }

  method SendAll(ps: seq<Param>, ch: Channel) returns (status: int)
    modifies ch
    ensures status == if AllFilled(ps) then HM_SUCCESS else HM_FAIL
    ensures ch.bytes == old(ch.bytes) + Emitted(Normalised(ps), Reach(ps, 0))
    ensures status == HM_SUCCESS ==> ch.sends == old(ch.sends) + FirstPieces(ps, |ps|)
  {
    hide Emitted, FirstPieces, Encode, EncodeRaw, PiecesOf, Normalised, SizeFirst, Filled;
    ghost var out, bytes, sends := Normalised(ps), ch.bytes, ch.sends;
    SendCount(ps, ch, out);
    var i := 0;
    while i < |ps|
      invariant i <= |ps| && Reach(ps, 0) == Reach(ps, i) && forall j | 0 <= j < i :: Filled(ps[j])
      invariant ch.bytes == bytes + Emitted(out, i) && ch.sends == sends + FirstPieces(ps, i)
    {
      status := SendNext(ps, i, ch, out, bytes, sends);
      if status != HM_SUCCESS {
        return;
      }
      i := i + 1;
    }
    status := HM_SUCCESS;
  }

  // Send a pack piece by piece, up to the first refusal.
  method Send(pack: Pack, ch: Channel) returns (status: int)
    modifies ch
    ensures status == Sent(pack).0 && ch.bytes == old(ch.bytes) + Sent(pack).1
    ensures status == HM_SUCCESS ==> ch.sends == old(ch.sends) + Pieces(pack)
  {
    hide Emitted, FirstPieces, Announced, Normalised, Le32, Reach, AllFilled;
    if pack.params == [] {
      return HM_INVALID_PARAMETER;
    }
    var needed := WholeLength(pack);
    if needed == 0 {
      return HM_INVALID_PARAMETER;
    }
    Regroup(ch.bytes, Le32(needed), Emitted(Normalised(pack.params), Reach(pack.params, 0)));
    RegroupPieces(ch.sends, [Le32(needed)], FirstPieces(pack.params, |pack.params|));
    var _ := ch.Send(Le32(needed));
    status := SendAll(pack.params, ch);
  }

  // What a receiver makes of the bytes waiting in the stream, and what it leaves there.
  function ReceiveResult(stream: Bytes): (Option<Pack>, Bytes) {
    if |stream| < 4 then (None, stream)
    else
      var n := FromLe32(stream[..4]);
      if n == 0 || |stream| - 4 < n then (None, stream[4..])
      else (ReadResult(stream[4..4 + n]), stream[4 + n..])
  }

  method Receive(ch: Channel) returns (pack: Option<Pack>)
    modifies ch`bytes
    ensures (pack, ch.bytes) == ReceiveResult(old(ch.bytes))
  {
    var field := ch.Recv(4);
    if field.None? {
      return None;
    }
    ghost var stream := old(ch.bytes);
    var n := FromLe32(field.value);
    assert |stream| - 4 >= n ==> stream[4..][..n] == stream[4..4 + n] && stream[4..][n..] == stream[4 + n..];
    var buffer := ch.Recv(n);
    if buffer.None? {
      return None;
    }
    pack := Read(buffer.value);
  }

  // The announced length is that of the encoding, and no buffer but the last is empty.
  predicate Intact(pack: Pack) {
    Announced(pack) == |Encode(Normalised(pack.params))| && Reach(pack.params, 0) == |pack.params|
  }

  // The receiver has the parameters in order, with every buffer owned by it, and what follows is left.
  predicate Received(result: (Option<Pack>, Bytes), ps: seq<Param>, rest: Bytes) {
    result.0.Some? && result.0.value.params == Normalised(ps) && result.1 == rest
  }

  // A receiver gets the parameters of a pack, and takes exactly the bytes that were sent from any
  // longer stream, exactly when the pack goes out intact.
  lemma SentArrivesExactlyWhen(pack: Pack, rest: Bytes)
    requires pack.params != []
    ensures Received(ReceiveResult(Sent(pack).1 + rest), pack.params, rest) <==> Intact(pack)
  {
    hide Announced, Normalised, Encode, Emitted, Reach, ReadResult, Intact;
    var out, n, r := Normalised(pack.params), Announced(pack), Reach(pack.params, 0);
    if n == 0 {
      NothingArrives(pack, rest);
    } else {
      var em := Emitted(out, r);
      StreamParts(n, em, rest);
      EmittedFits(out, r);
      IntactMeans(pack);
      if n == |em| {
        ReadOfEmitted(pack.params, r);
      }
    }
  }

  // A pack that is announced too short, but sent to the end, leaves bytes behind.
  lemma ShortLeaves(pack: Pack)
    requires Sent(pack).0 == HM_SUCCESS && !pack.readed && !Intact(pack)
    ensures ReceiveResult(Sent(pack).1).1 != []
  {
    hide Normalised, Encode, Emitted, Reach, ReadResult;
    var out, n, r := Normalised(pack.params), Announced(pack), Reach(pack.params, 0);
    ReachesAll(pack.params, 0);
    EmittedFits(out, r);
    var em := Emitted(out, r);
    StreamParts(n, em, []);
    assert Le32(n) + em + [] == Sent(pack).1;
  }

  lemma IntactMeans(pack: Pack)
    ensures Intact(pack) <==>
            Announced(pack) == |Encode(Normalised(pack.params))| && Reach(pack.params, 0) == |pack.params|
  {
  }

  lemma NothingArrives(pack: Pack, rest: Bytes)
    requires Announced(pack) == 0
    ensures Sent(pack).1 == [] && !Intact(pack)
    ensures var (got, left) := ReceiveResult([] + rest); got.Some? ==> left != rest
  {
    FirstIsAll(Normalised(pack.params));
    assert [] + rest == rest;
  }

  // A length and what is behind it.
  lemma StreamParts(n: uint32, body: Bytes, rest: Bytes)
    ensures var stream := Le32(n) + body + rest;
            && |stream| == 4 + |body| + |rest| && FromLe32(stream[..4]) == n
            && (n == |body| ==> stream[4..4 + n] == body && stream[4 + n..] == rest)
  {
    var stream := Le32(n) + body + rest;
    assert stream[..4] == Le32(n);
    Le32RoundTrip(n);
  }

  // What gets out is no longer than the encoding, and as long only when it is all of it.
  lemma EmittedFits(out: seq<Param>, r: nat)
    requires r <= |out|
    ensures |Emitted(out, r)| <= |Encode(out)|
    ensures |Emitted(out, r)| == |Encode(out)| <==> r == |out|
    ensures r == |out| ==> Emitted(out, r) == Encode(out)
  {
    hide Emitted, Encode;
    if r < |out| { SizesGrow(out, r + 1, |out|); }
    FirstIsAll(out);
    EmittedLength(out, r);
    SizesGrow(out, r, |out|);
  }

  // The front of an encoding reads back to all its parameters exactly when it is all of it.
  lemma ReadOfEmitted(ps: Params, r: nat)
    requires r <= |ps| && |Emitted(Normalised(ps), r)| < TWO_32
    ensures var out := Normalised(ps);
            var em := Emitted(out, r);
            (ReadResult(em).Some? && ReadResult(em).value.params == out) <==> r == |ps|
  {
    hide ReadResult, Encode, Emitted;
    var out := Normalised(ps);
    var em := Emitted(out, r);
    EmittedFits(out, r);
    if r == |ps| {
      SmallFits(ps);
      WriteReadRoundTrip(ps, []);
      NormalisedTwice(ps);
      assert em + [] == em;
    } else if ReadResult(em).Some? && ReadResult(em).value.params == out {
      ReadEncodes(em);
    }
  }

  lemma NormalisedTwice(ps: seq<Param>)
    ensures Normalised(Normalised(ps)) == Normalised(ps)
  {
  }

  // A pack that was itself read is sent with the length of the buffer it came from.  Sent on, it is
  // received as sent, with nothing taken from what follows, exactly when that buffer had no bytes
  // after the encoding, and no parameter but the last was an empty buffer.
  lemma ResendExactlyWhen(buffer: Bytes, rest: Bytes)
    requires |buffer| < TWO_32 && ReadResult(buffer).Some? && ReadResult(buffer).value.params != []
    ensures var pack := ReadResult(buffer).value;
            Received(ReceiveResult(Sent(pack).1 + rest), pack.params, rest) <==>
            |buffer| == |Encode(pack.params)| && Reach(pack.params, 0) == |pack.params|
  {
    ReadEncodes(buffer);
    var pack := ReadResult(buffer).value;
    assert Announced(pack) == |buffer|;
    SentArrivesExactlyWhen(pack, rest);
    FirstIsAll(pack.params);
    FirstIsAll(Normalised(pack.params));
    SizesNormalised(pack.params, |pack.params|);
  }

  // A pack that was read is no longer than the buffer it came from.
  lemma ReadEncodes(buffer: Bytes)
    requires ReadResult(buffer).Some?
    ensures var pack := ReadResult(buffer).value;
            Fits(pack.params) && pack.readed && pack.wholeLength == |buffer| && |Encode(pack.params)| <= |buffer|
  {
    AllParsedEncodes(buffer[4..], |ReadResult(buffer).value.params|);
  }

  // A pack of one number, read from a buffer with one byte too many: it is announced with thirteen
  // bytes and sent with twelve, so a receiver waits for more, or takes a byte of what follows.
  lemma TrailingByteExample()
    ensures var ps: Params := [Int32(7)];
            var buffer := Encode(ps) + [0];
            && ReadResult(buffer) == Some(Pack(ps, true, 13))
            && ReceiveResult(Sent(Pack(ps, true, 13)).1 + []) == (None, Encode(ps) + [])
            && ReceiveResult(Sent(Pack(ps, true, 13)).1 + [9]) == (Some(Pack(ps, true, 13)), [])
  {
    hide Le32, FromLe32, ReadResult;
    var ps: Params := [Int32(7)];
    var e := Encode(ps);
    assert Normalised(ps) == ps;
    FirstIsAll(ps);
    assert SizeFirst(ps, 1) == 8;
    ReachesAll(ps, 0);
    WriteReadRoundTrip(ps, [0]);
    WriteReadRoundTrip(ps, [9]);
    assert Sent(Pack(ps, true, 13)).1 == Le32(13) + e;
    StreamParts(13, e, []);
    StreamParts(13, e, [9]);
    assert (Le32(13) + e + [])[4..] == e + [];
    var stream := Le32(13) + e + [9];
    assert stream[4..17] == e + [9] && stream[17..] == [];
  }
}
