/** The depth-first search with three colours that looks for a cycle in a finite directed graph. */
module LineageGraph {
  type Adjacency<Node> = map<Node, seq<Node>>

  datatype Color = White | Gray | Black

  /** Every node that has a row or is the target of an edge. */
  function Nodes<Node(==)>(adj: Adjacency<Node>): set<Node> {
    adj.Keys + set from, i | from in adj && 0 <= i < |adj[from]| :: adj[from][i]
  }

  ghost predicate Edge<Node>(adj: Adjacency<Node>, from: Node, to: Node) {
    from in adj && to in adj[from]
  }

  ghost predicate Walk<Node>(adj: Adjacency<Node>, p: seq<Node>) {
    forall i :: 0 < i < |p| ==> Edge(adj, p[i - 1], p[i])
  }

  /** A walk along at least one edge that ends where it began. */
  ghost predicate Cycle<Node>(adj: Adjacency<Node>, p: seq<Node>) {
    |p| >= 2 && Walk(adj, p) && p[0] == p[|p| - 1]
  }

  ghost predicate HasCycle<Node(!new)>(adj: Adjacency<Node>) {
    exists p :: Cycle(adj, p)
  }

  /** Edges from each listed node lead to nodes listed before it. */
  ghost predicate Closed<Node>(adj: Adjacency<Node>, finished: seq<Node>) {
    forall i :: 0 <= i < |finished| && finished[i] in adj ==>
                  forall k :: 0 <= k < |adj[finished[i]]| ==> adj[finished[i]][k] in finished[..i]
  }

  lemma {:induction false} WalksDescend<Node>(adj: Adjacency<Node>, finished: seq<Node>, p: seq<Node>, i: nat)
    requires Closed(adj, finished) && Walk(adj, p)
    requires i < |finished| && |p| >= 2 && p[0] == finished[i]
    ensures p[|p| - 1] in finished[..i]
    decreases |p|
  {
    assert Edge(adj, p[0], p[1]);
    var k :| 0 <= k < |adj[p[0]]| && adj[p[0]][k] == p[1];
    assert p[1] in finished[..i];
    if |p| > 2 {
      var j :| 0 <= j < i && finished[..i][j] == p[1];
      assert Walk(adj, p[1..]) by {
        assert forall t :: 0 < t < |p[1..]| ==>
                             p[1..][t - 1] == p[t] && p[1..][t] == p[t + 1] && Edge(adj, p[t], p[t + 1]);
      }
      WalksDescend(adj, finished, p[1..], j);
    }
  }

  /** A cycle would descend through the finishing order for ever. */
  lemma {:induction false} NoCycleThrough<Node>(adj: Adjacency<Node>, finished: seq<Node>, p: seq<Node>, i: nat)
    requires Closed(adj, finished)
    requires i < |finished| && |p| > 0 && p[0] == finished[i]
    ensures !Cycle(adj, p)
    decreases i
  {
    if Cycle(adj, p) {
      WalksDescend(adj, finished, p, i);
      var j :| 0 <= j < i && finished[..i][j] == p[0];
      NoCycleThrough(adj, finished, p, j);
    }
  }

  lemma AllFinishedIsAcyclic<Node(!new)>(adj: Adjacency<Node>, finished: seq<Node>)
    requires Closed(adj, finished)
    requires forall node :: node in Nodes(adj) ==> node in finished
    ensures !HasCycle(adj)
  {
    if p :| Cycle(adj, p) {
      assert Edge(adj, p[0], p[1]);
      assert p[0] in Nodes(adj);
      var i :| 0 <= i < |finished| && finished[i] == p[0];
      NoCycleThrough(adj, finished, p, i);
    }
  }

  lemma FinishedNext<Node>(adj: Adjacency<Node>, finished: seq<Node>, node: Node)
    requires Closed(adj, finished)
    requires node in adj ==> forall k :: 0 <= k < |adj[node]| ==> adj[node][k] in finished
    ensures Closed(adj, finished + [node])
  {
    var longer := finished + [node];
    forall i | 0 <= i < |longer| && longer[i] in adj
      ensures forall k :: 0 <= k < |adj[longer[i]]| ==> adj[longer[i]][k] in longer[..i]
    {
      assert longer[..i] == finished[..i];
    }
  }

  lemma RevisitIsCycle<Node(!new)>(adj: Adjacency<Node>, stack: seq<Node>, node: Node)
    requires Walk(adj, stack + [node]) && node in stack
    ensures HasCycle(adj)
  {
    var i :| 0 <= i < |stack| && stack[i] == node;
    var p := (stack + [node])[i..];
    assert Walk(adj, p) by {
      forall t | 0 < t < |p|
        ensures Edge(adj, p[t - 1], p[t])
      {
        assert Edge(adj, (stack + [node])[i + t - 1], (stack + [node])[i + t]);
      }
    }
    assert Cycle(adj, p);
  }

  /** The colour map the search updates, with the order in which nodes turned black. */
  class Search<Node(==, !new)> {
    const adj: Adjacency<Node>
    var color: map<Node, Color>
    ghost var finished: seq<Node>

    /** All nodes start white. */
    constructor (adj: Adjacency<Node>)
      ensures this.adj == adj
      ensures Valid([])
    {
      this.adj := adj;
      color := map node | node in Nodes(adj) :: White;
      finished := [];
    }

    function ColorOf(node: Node): Color
      reads this
    {
      if node in color then color[node] else White
    }

    ghost function Whites(): set<Node>
      reads this
    {
      set node | node in Nodes(adj) && ColorOf(node) == White
    }

    /** Gray nodes are the stack of open calls; black ones are finished and lead only to earlier ones. */
    ghost predicate Valid(stack: seq<Node>)
      reads this
    {
      && (forall node :: ColorOf(node) == Gray <==> node in stack)
      && (forall node :: ColorOf(node) == Black <==> node in finished)
      && Closed(adj, finished)
    }

    method Visit(node: Node, ghost stack: seq<Node>) returns (found: bool)
      requires Valid(stack) && node in Nodes(adj) && Walk(adj, stack + [node])
      modifies this
      ensures found ==> HasCycle(adj)
      ensures !found ==> Valid(stack) && node in finished
      ensures old(finished) <= finished
      ensures Whites() <= old(Whites())
      decreases Whites()
    {
      match ColorOf(node) {
        case Gray =>
          RevisitIsCycle(adj, stack, node);
          return true;
        case Black =>
          return false;
        case White =>
      }
      color := color[node := Gray];
      ghost var open := stack + [node];
      if node in adj {
        var neighbors := adj[node];
        for k := 0 to |neighbors|
          invariant Valid(open)
          invariant old(finished) <= finished
          invariant Whites() <= old(Whites()) - {node}
          invariant forall j :: 0 <= j < k ==> neighbors[j] in finished
        {
          assert Edge(adj, node, neighbors[k]) && neighbors[k] in Nodes(adj);
          assert Walk(adj, open + [neighbors[k]]);
          var cyclic := Visit(neighbors[k], open);
          if cyclic {
            return true;
          }
        }
      }
      color := color[node := Black];
      FinishedNext(adj, finished, node);
      finished := finished + [node];
      return false;
    }
  }

  /** Visiting every node that is still white, in any order, finds a cycle exactly when there is one. */
  method HasLineageCycle<Node(==, !new)>(adj: Adjacency<Node>) returns (cyclic: bool)
    ensures cyclic <==> HasCycle(adj)
  {
    var search := new Search(adj);
    var pending := Nodes(adj);
    while pending != {}
      invariant fresh(search) && search.adj == adj && pending <= Nodes(adj)
      invariant search.Valid([])
      invariant forall node :: node in Nodes(adj) ==> node in pending || node in search.finished
      decreases |pending|
    {
      var node :| node in pending;
      if search.ColorOf(node) == White {
        var found := search.Visit(node, []);
        if found {
          return true;
        }
      }
      pending := pending - {node};
    }
    AllFinishedIsAcyclic(adj, search.finished);
    return false;
  }
}
