/** Remote calls over the encrypted transport: what one side sends is what the other side's reads get. */
module SecureRpc {
  import opened Base
  import opened ParamPack
  import opened PackTransfer
  import opened Rpc
  import opened SecureTransport

  // The single sends of a request and of a successful reply.
  function RequestSends(call: Request): seq<Bytes>
    requires |call.name| < TWO_32
  {
    [Le32(|call.name|), call.name] + Pieces(call.pack)
  }

  function ReplySends(out: Option<Params>): seq<Bytes> {
    [Le32(HM_SUCCESS)] + if out.Some? then Pieces(Local(out.value)) else []
  }

  // A request crosses as frames: the four reads of the server - the length of the name, the name, the
  // length of the parameters, the parameters - return, one after the other, exactly the bytes that
  // would be on a plain channel, and leave what follows.
  lemma RequestCrosses(s: Session, n: nat, call: Request, rest: Bytes)
    requires Lossless(s) && Sized(s) && 0 < |call.name| < TWO_32 && Sent(call.pack).0 == HM_SUCCESS && Intact(call.pack)
    requires Passes(s, n, RequestSends(call))
    ensures var e, ms := Encode(Normalised(call.pack.params)), RequestSends(call);
            && Reads(s, n, Frames(s, n, ms) + rest, [4, |call.name|, 4, |e|])
               == (Some([Le32(|call.name|), call.name, Le32(|e|), e]), rest, n + |ms|)
            && RequestHead(call.name) + Sent(call.pack).1 == Le32(|call.name|) + call.name + (Le32(|e|) + e)
  {
    hide Reads, Frames, Le32, Encode, FirstPieces, Emitted, Lossless, Sized, AllAdmitted, Clear;
    var e, tail := Encode(Normalised(call.pack.params)), FirstPieces(call.pack.params, |call.pack.params|);
    PiecesAreSent(call.pack);
    PieceCount(call.pack.params, |call.pack.params|);
    EmittedFits(Normalised(call.pack.params), |call.pack.params|);
    assert Pieces(call.pack)[1..] == tail;
    FourGroups([Le32(|call.name|)], [call.name], [Le32(|e|)], tail);
    Ones(Le32(|call.name|), call.name, Le32(|e|));
    var groups := [[Le32(|call.name|)], [call.name], [Le32(|e|)], tail];
    assert Flatten(groups) == RequestSends(call);
    GroupsArrive(s, n, groups, rest);
  }

  // So does a reply: the three reads of the client are answered with the success word, the length of
  // the out parameters and the parameters.
  lemma ReplyCrosses(s: Session, n: nat, out: Params, rest: Bytes)
    requires Lossless(s) && Sized(s) && Sent(Local(out)).0 == HM_SUCCESS && Intact(Local(out))
    requires Passes(s, n, ReplySends(Some(out)))
    ensures var e, ms := Encode(Normalised(out)), ReplySends(Some(out));
            && Reads(s, n, Frames(s, n, ms) + rest, [4, 4, |e|])
               == (Some([Le32(HM_SUCCESS), Le32(|e|), e]), rest, n + |ms|)
            && SentResult(Some(out)).1 == Le32(HM_SUCCESS) + (Le32(|e|) + e)
  {
    hide Reads, Frames, Le32, Encode, FirstPieces, Emitted, Lossless, Sized, AllAdmitted, Clear;
    var e, tail := Encode(Normalised(out)), FirstPieces(out, |out|);
    PiecesAreSent(Local(out));
    PieceCount(out, |out|);
    EmittedFits(Normalised(out), |out|);
    assert Pieces(Local(out))[1..] == tail;
    ThreeGroups([Le32(HM_SUCCESS)], [Le32(|e|)], tail);
    Ones(Le32(HM_SUCCESS), Le32(|e|), []);
    var groups := [[Le32(HM_SUCCESS)], [Le32(|e|)], tail];
    assert Flatten(groups) == ReplySends(Some(out));
    GroupsArrive(s, n, groups, rest);
  }

  // An error word crosses alone.
  lemma ErrorCrosses(s: Session, n: nat, error: uint32, rest: Bytes)
    requires Lossless(s) && Sized(s) && Passes(s, n, [Le32(error)])
    ensures Reads(s, n, Frames(s, n, [Le32(error)]) + rest, [4]) == (Some([Le32(error)]), rest, n + 1)
  {
    hide Reads, Frames, Le32, Lossless, Sized;
    var groups := [[Le32(error)]];
    Ones(Le32(error), [], []);
    assert groups[1..] == [] && [Le32(error)] + [] == [Le32(error)];
    assert Flatten(groups) == [Le32(error)] && Concats(groups) == [Le32(error)] && Lengths(groups) == [4];
    GroupsArrive(s, n, groups, rest);
  }

  lemma Ones(a: Bytes, b: Bytes, c: Bytes)
    ensures Concat([a]) == a && Concat([b]) == b && Concat([c]) == c
  {
    ConcatOne(a);
    ConcatOne(b);
    ConcatOne(c);
  }

  lemma GroupFirst(g: seq<Bytes>, groups: seq<seq<Bytes>>)
    ensures Flatten([g] + groups) == g + Flatten(groups)
    ensures Concats([g] + groups) == [Concat(g)] + Concats(groups)
    ensures Lengths([g] + groups) == [|Concat(g)|] + Lengths(groups)
  {
    assert ([g] + groups)[1..] == groups;
  }

  lemma ThreeGroups(x: seq<Bytes>, y: seq<Bytes>, z: seq<Bytes>)
    ensures Flatten([x, y, z]) == x + (y + z)
    ensures Concats([x, y, z]) == [Concat(x), Concat(y), Concat(z)]
    ensures Lengths([x, y, z]) == [|Concat(x)|, |Concat(y)|, |Concat(z)|]
  {
    hide Flatten, Concats, Lengths, Concat;
    NoGroups();
    GroupFirst(z, []);
    GroupFirst(y, [z]);
    GroupFirst(x, [y, z]);
    assert [z] + [] == [z] && [y] + [z] == [y, z] && [x] + [y, z] == [x, y, z] && z + [] == z;
  }

  lemma NoGroups()
    ensures Flatten([]) == [] && Concats([]) == [] && Lengths([]) == []
  {
  }

  lemma FourGroups(w: seq<Bytes>, x: seq<Bytes>, y: seq<Bytes>, z: seq<Bytes>)
    ensures Flatten([w, x, y, z]) == w + (x + (y + z))
    ensures Concats([w, x, y, z]) == [Concat(w), Concat(x), Concat(y), Concat(z)]
    ensures Lengths([w, x, y, z]) == [|Concat(w)|, |Concat(x)|, |Concat(y)|, |Concat(z)|]
  {
    hide Flatten, Concats, Lengths, Concat;
    ThreeGroups(x, y, z);
    GroupFirst(w, [x, y, z]);
    assert [w] + [x, y, z] == [w, x, y, z];
  }
}
