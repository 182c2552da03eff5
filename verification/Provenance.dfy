/**
  Where key-store entries come from.  A run is any sequence of requests to the key-store server,
  from any clients, well-behaved or not, with any token contents.
 */
module Provenance {
  import opened Base
  import opened Crypto
  import opened KeyRights

  datatype Request =
    | Set(kind: Kind, b: BlockId, u: UserId, owner: UserId, token: Wrapped)
    | Del(kind: Kind, b: BlockId, u: UserId, requester: UserId)

  function Serve(ks: KeyMap, q: Request): (int, KeyMap) {
    match q
    case Set(kind, b, u, owner, token) => SetToken(ks, kind, b, u, owner, token)
    case Del(kind, b, u, requester) => DelToken(ks, kind, b, u, requester)
  }

  // The key store after the first `n` requests.
  function State(qs: seq<Request>, n: nat): KeyMap
    requires n <= |qs|
  {
    if n == 0 then map[] else Serve(State(qs, n - 1), qs[n - 1]).1
  }

  // Request `i` is an accepted grant of a token to `u`.
  predicate Granted(qs: seq<Request>, i: nat, kind: Kind, b: BlockId, u: UserId) {
    && i < |qs| && qs[i].Set? && qs[i].kind == kind && qs[i].b == b && qs[i].u == u
    && Serve(State(qs, i), qs[i]).0 == HM_SUCCESS
  }

  // `chain` leads from `u` back in time through accepted grants of one kind on one block, each made
  // in the name of a user who held such a token at that time, to a user who inserted their own.
  ghost predicate IsChain(qs: seq<Request>, chain: seq<nat>, kind: Kind, b: BlockId, u: UserId) {
    chain != [] && Granted(qs, chain[0], kind, b, u) &&
    var owner := qs[chain[0]].owner;
    if |chain| == 1 then owner == u
    else chain[1] < chain[0] && Holds(State(qs, chain[0]), kind, b, owner) && IsChain(qs, chain[1..], kind, b, owner)
  }

  // The request that last wrote the entry of a current holder: it names the owner on record, and the
  // owner was the user, or held a token then.
  lemma {:induction false} LastGrant(qs: seq<Request>, n: nat, kind: Kind, b: BlockId, u: UserId) returns (i: nat)
    requires n <= |qs| && Holds(State(qs, n), kind, b, u)
    ensures i < n && Granted(qs, i, kind, b, u)
    ensures Lookup(State(qs, n), kind, b, u) == Some(Stored(qs[i].token, qs[i].owner))
    ensures qs[i].owner == u || Holds(State(qs, i), kind, b, qs[i].owner)
  {
    if Granted(qs, n - 1, kind, b, u) {
      i := n - 1;
    } else {
      assert Lookup(State(qs, n), kind, b, u) == Lookup(State(qs, n - 1), kind, b, u);
      i := LastGrant(qs, n - 1, kind, b, u);
    }
  }

  // Every current holder is reached by a finite chain of earlier grants.
  lemma {:induction false} HoldersHaveChains(qs: seq<Request>, n: nat, kind: Kind, b: BlockId, u: UserId)
    returns (chain: seq<nat>)
    requires n <= |qs| && Holds(State(qs, n), kind, b, u)
    ensures IsChain(qs, chain, kind, b, u) && chain[0] < n
    ensures Lookup(State(qs, n), kind, b, u) == Some(Stored(qs[chain[0]].token, qs[chain[0]].owner))
  {
    var i := LastGrant(qs, n, kind, b, u);
    var owner := qs[i].owner;
    if owner == u {
      chain := [i];
    } else {
      var rest := HoldersHaveChains(qs, i, kind, b, owner);
      chain := [i] + rest;
      assert chain[1..] == rest;
    }
  }

  // A token disappears, or an entry does, only in a request made in the name of a user who holds a
  // write token on the block at that moment.
  lemma LossNeedsWriter(qs: seq<Request>, n: nat, kind: Kind, b: BlockId, u: UserId)
    requires n < |qs|
    requires Holds(State(qs, n), kind, b, u) && !Holds(State(qs, n + 1), kind, b, u)
    ensures qs[n].Del? && qs[n].b == b && qs[n].u == u && (qs[n].kind == kind || qs[n].kind.Read?)
    ensures Holds(State(qs, n), Write, b, qs[n].requester)
  {
  }

  // A token changes hands or content only by an accepted grant to its holder.
  lemma ChangeNeedsGrant(qs: seq<Request>, n: nat, kind: Kind, b: BlockId, u: UserId)
    requires n < |qs| && Holds(State(qs, n + 1), kind, b, u)
    requires Lookup(State(qs, n + 1), kind, b, u) != Lookup(State(qs, n), kind, b, u)
    ensures Granted(qs, n, kind, b, u)
    ensures qs[n].owner == u || Holds(State(qs, n), kind, b, qs[n].owner)
  {
  }
}
