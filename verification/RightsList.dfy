/** The doubly linked list of the users who have access to a block. */
module RightsList {
  import opened Base
  import opened KeyRights
  import opened Tokens

  // What a node says, apart from its links.
  datatype Share = Share(user: User, rtoken: Token, wtoken: Option<Token>)

  class Node {
    const user: User
    var rtoken: Token
    var wtoken: Option<Token>
    var prev: Node?
    var next: Node?

    constructor (user: User, rtoken: Token, wtoken: Option<Token>)
      ensures this.user == user && this.rtoken == rtoken && this.wtoken == wtoken
      ensures prev == null && next == null
    {
      this.user, this.rtoken, this.wtoken := user, rtoken, wtoken;
      prev, next := null, null;
    }

    function View(): Share
      reads `rtoken, `wtoken
    {
      Share(user, rtoken, wtoken)
    }
  }

  // What the nodes say, in order.
  ghost predicate Shows(nodes: seq<Node>, shares: seq<Share>)
    reads nodes`rtoken, nodes`wtoken
  {
    |shares| == |nodes| && forall i {:trigger nodes[i].View()} | 0 <= i < |nodes| :: nodes[i].View() == shares[i]
  }

  ghost predicate Distinct(nodes: seq<Node>) {
    forall i, j | 0 <= i < j < |nodes| :: nodes[i] != nodes[j]
  }

  function At(nodes: seq<Node>, k: nat): Node? {
    if k < |nodes| then nodes[k] else null
  }

  function Before(nodes: seq<Node>, i: nat): Node? {
    if 0 < i <= |nodes| then nodes[i - 1] else null
  }

  function Cut(nodes: seq<Node>, at: nat): seq<Node>
    requires at < |nodes|
  {
    nodes[..at] + nodes[at + 1..]
  }

  // Cutting out one element changes only its two neighbours' neighbours.
  lemma CutNeighbours(nodes: seq<Node>, at: nat, i: nat)
    requires at < |nodes| && i + 1 < |nodes|
    ensures var r, j := Cut(nodes, at), if i < at then i else i + 1;
            && r[i] == nodes[j]
            && Before(r, i) == Before(nodes, if i == at then at else j)
            && At(r, i + 1) == At(nodes, if i + 1 == at then at + 1 else j + 1)
  {
  }

  lemma CutDistinct(nodes: seq<Node>, at: nat)
    requires at < |nodes| && Distinct(nodes)
    ensures Distinct(Cut(nodes, at))
    ensures |nodes| > 1 ==>
              && Cut(nodes, at)[0] == (if at == 0 then nodes[1] else nodes[0])
              && Cut(nodes, at)[|nodes| - 2] == (if at == |nodes| - 1 then nodes[at - 1] else nodes[|nodes| - 1])
  {
  }

  class List {
    var head: Node?
    var tail: Node?
    var len: nat
    ghost var nodes: seq<Node>

    // The forward links run through `nodes`.
    ghost predicate Linked()
      reads this, nodes`next
    {
      head == At(nodes, 0) && forall i {:trigger nodes[i].next} | 0 <= i < |nodes| :: nodes[i].next == At(nodes, i + 1)
    }

    // Both chains of links run through `nodes`, once each way.
    ghost predicate Valid()
      reads this, nodes`prev, nodes`next
    {
      && Linked()
      && len == |nodes|
      && tail == (if nodes == [] then null else nodes[|nodes| - 1])
      && Distinct(nodes)
      && (forall i {:trigger nodes[i].prev} | 0 <= i < |nodes| :: nodes[i].prev == Before(nodes, i))
    }

    // The last node, as a set that may be empty.
    function End(): set<Node>
      reads this
    {
      if tail == null then {} else {tail}
    }

    constructor ()
      ensures Valid() && nodes == []
    {
      head, tail, len, nodes := null, null, 0, [];
    }

    method RPush(n: Node)
      requires Valid() && n !in nodes
      modifies this, n`prev, n`next, End()`next
      ensures Valid() && nodes == old(nodes) + [n]
    {
      if len != 0 {
        n.prev := tail;
        n.next := null;
        tail.next := n;
        tail := n;
      } else {
        head, tail := n, n;
        n.prev, n.next := null, null;
      }
      len := len + 1;
      nodes := nodes + [n];
    }

    // A new node at the end of the list.
    method RPushVal(user: User, rtoken: Token, wtoken: Option<Token>, ghost shares: seq<Share>)
      requires Valid() && Shows(nodes, shares)
      modifies this, End()`next
      ensures Valid() && Shows(nodes, shares + [Share(user, rtoken, wtoken)])
      ensures |nodes| == old(|nodes|) + 1 && old(nodes) == nodes[..|nodes| - 1] && fresh(nodes[|nodes| - 1])
    {
      var n := new Node(user, rtoken, wtoken);
      RPush(n);
    }

    // Nodes whose links lead past one of them make a list without it.
    lemma CutLinks(all: seq<Node>, at: nat)
      requires at < |all| && Distinct(all) && nodes == Cut(all, at) && len == |nodes|
      requires forall i {:trigger all[i].next} | 0 <= i < |all| && i != at ::
                 all[i].next == if i + 1 == at then At(all, at + 1) else At(all, i + 1)
      requires forall i {:trigger all[i].prev} | 0 <= i < |all| && i != at ::
                 all[i].prev == if i == at + 1 then Before(all, at) else Before(all, i)
      requires head == (if at == 0 then At(all, 1) else all[0])
      requires tail == (if at == |all| - 1 then Before(all, at) else all[|all| - 1])
      ensures Valid()
    {
      CutDistinct(all, at);
      forall i: nat | i < |nodes| ensures nodes[i].prev == Before(nodes, i) && nodes[i].next == At(nodes, i + 1) {
        CutNeighbours(all, at, i);
      }
    }

    method Remove(n: Node, ghost at: nat)
      requires Valid() && at < |nodes| && nodes[at] == n
      modifies this, nodes`prev, nodes`next
      ensures Valid() && nodes == Cut(old(nodes), at)
    {
      ghost var all := nodes;
      assert n.next == At(all, at + 1) && n.prev == Before(all, at);
      if n.prev != null { n.prev.next := n.next; } else { head := n.next; }
      assert forall i {:trigger all[i].next} | 0 <= i < |all| && i != at ::
          all[i].next == if i + 1 == at then At(all, at + 1) else At(all, i + 1);
      if n.next != null { n.next.prev := n.prev; } else { tail := n.prev; }
      assert forall i {:trigger all[i].prev} | 0 <= i < |all| && i != at ::
          all[i].prev == if i == at + 1 then Before(all, at) else Before(all, i);
      len := len - 1;
      nodes := Cut(all, at);
      CutLinks(all, at);
    }

    // One step of an iterator, which is a cursor holding the node to return next: the elements come
    // in order, then nothing.
    method Next(cursor: Node?, ghost k: nat) returns (n: Node?, rest: Node?)
      requires Linked() && k <= |nodes| && cursor == At(nodes, k)
      ensures n == At(nodes, k) && rest == At(nodes, k + 1)
    {
      n, rest := cursor, cursor;
      if n != null {
        assert nodes[k].next == At(nodes, k + 1);
        rest := n.next;
      }
    }

    // The first node of a user, or nothing; an empty identifier is never looked for.
    method Find(id: UserId) returns (found: Node?)
      requires Linked()
      ensures found == null <==> id == [] || forall i | 0 <= i < |nodes| :: nodes[i].user.id != id
      ensures found != null ==>
                exists i | 0 <= i < |nodes| ::
                  nodes[i] == found && found.user.id == id && forall j | 0 <= j < i :: nodes[j].user.id != id
    {
      if id == [] {
        return null;
      }
      ghost var k := 0;
      var n, cursor := Next(head, 0);
      while n != null
        invariant k <= |nodes| && n == At(nodes, k) && cursor == At(nodes, k + 1)
        invariant forall j | 0 <= j < k :: nodes[j].user.id != id
        decreases |nodes| - k
      {
        if n.user.id == id {
          return n;
        }
        k := k + 1;
        n, cursor := Next(cursor, k);
      }
      return null;
    }
  }
}
