/** `dfs` and `_dfs`: the set of vertices connected to one vertex of an
    adjacency dictionary, found by depth-first search. */
module Components {
  import opened Wrappers

  /** An adjacency dictionary: each vertex maps to the list of its
      neighbours. */
  type Graph<V> = map<V, seq<V>>

  /** p is a walk in g: each vertex has an entry listing the next one. */
  ghost predicate IsWalk<V(!new)>(g: Graph<V>, p: seq<V>)
  {
    |p| > 0 && forall i :: 0 <= i < |p| - 1 ==> p[i] in g && p[i + 1] in g[p[i]]
  }

  /** b can be reached from a by following adjacency lists (in no steps
      when b is a). */
  ghost predicate Reachable<V(!new)>(g: Graph<V>, a: V, b: V)
  {
    exists p :: IsWalk(g, p) && p[0] == a && p[|p| - 1] == b
  }

  /** Every vertex of s that has an entry in g lists only vertices of s. */
  ghost predicate Closed<V(!new)>(g: Graph<V>, s: set<V>)
  {
    forall u, w :: u in s && u in g && w in g[u] ==> w in s
  }

  lemma ReachableSelf<V(!new)>(g: Graph<V>, a: V)
    ensures Reachable(g, a, a)
  {
    assert IsWalk(g, [a]);
  }

  lemma ReachableEdge<V(!new)>(g: Graph<V>, a: V, b: V)
    requires a in g && b in g[a]
    ensures Reachable(g, a, b)
  {
    assert IsWalk(g, [a, b]);
  }

  /** Walks can be joined end to start. */
  lemma ReachableTrans<V(!new)>(g: Graph<V>, a: V, b: V, c: V)
    requires Reachable(g, a, b) && Reachable(g, b, c)
    ensures Reachable(g, a, c)
  {
    var p :| IsWalk(g, p) && p[0] == a && p[|p| - 1] == b;
    var q :| IsWalk(g, q) && q[0] == b && q[|q| - 1] == c;
    var pq := p + q[1..];
    forall i | 0 <= i < |pq| - 1 ensures pq[i] in g && pq[i + 1] in g[pq[i]] {
      if i < |p| - 1 {
        assert pq[i] == p[i] && pq[i + 1] == p[i + 1];
      } else {
        assert pq[i] == q[i - |p| + 1] && pq[i + 1] == q[i - |p| + 2];
      }
    }
    assert IsWalk(g, pq);
  }

  /** A walk in a part of g, whose entries agree with g, is a walk in g. */
  lemma ReachableInPart<V(!new)>(part: Graph<V>, g: Graph<V>, a: V, b: V)
    requires forall u :: u in part ==> u in g && g[u] == part[u]
    requires Reachable(part, a, b)
    ensures Reachable(g, a, b)
  {
    var p :| IsWalk(part, p) && p[0] == a && p[|p| - 1] == b;
    assert IsWalk(g, p);
  }

  /** A walk that starts in a closed set never leaves it. */
  lemma {:induction false} WalkStaysInClosed<V(!new)>(g: Graph<V>, s: set<V>, p: seq<V>)
    requires IsWalk(g, p) && p[0] in s && Closed(g, s)
    ensures p[|p| - 1] in s
  {
    if |p| > 1 {
      var init := p[..|p| - 1];
      assert IsWalk(g, init);
      WalkStaysInClosed(g, s, init);
      assert p[|p| - 2] == init[|init| - 1];
    }
  }

  /** A closed set holds everything reachable from its members. */
  lemma ClosedHoldsReachable<V(!new)>(g: Graph<V>, s: set<V>, a: V, b: V)
    requires Closed(g, s) && a in s && Reachable(g, a, b)
    ensures b in s
  {
    var p :| IsWalk(g, p) && p[0] == a && p[|p| - 1] == b;
    WalkStaysInClosed(g, s, p);
  }

  /** _dfs(index, adjacency_list, grouped_points): for every neighbour of
      `index` not yet in the group, adds it and recurses on it. The group is
      updated in place in the source; here it goes in and its new value comes
      out. Looking up a vertex without an entry raises KeyError, and the
      error propagates out of every enclosing call. */
  method Visit<V(!new)>(index: V, adjacency: Graph<V>, grouped: set<V>) returns (r: Result<set<V>>)
    requires index in grouped
    ensures r.Err? ==>
              && r.error == KeyError
              && exists u :: Reachable(adjacency, index, u) && u !in adjacency && (u == index || u !in grouped)
    ensures r.Ok? ==>
              && index in adjacency
              && grouped <= r.value
              && (forall w :: w in adjacency[index] ==> w in r.value)
              && forall u :: u in r.value && u !in grouped ==>
                   && u in adjacency
                   && Reachable(adjacency, index, u)
                   && (forall w :: w in adjacency[u] ==> w in r.value)
    decreases adjacency.Keys - grouped, if index in adjacency then 1 else 0
  {
    if index !in adjacency {
      ReachableSelf(adjacency, index);
      return Err(KeyError);
    }
    var visited := grouped;
    var neighbours := adjacency[index];
    for k := 0 to |neighbours|
      invariant grouped <= visited
      invariant forall i :: 0 <= i < k ==> neighbours[i] in visited
      invariant forall u :: u in visited && u !in grouped ==>
                  && u in adjacency
                  && Reachable(adjacency, index, u)
                  && (forall w :: w in adjacency[u] ==> w in visited)
    {
      var vertex := neighbours[k];
      if vertex !in visited {
        ghost var before := visited;
        visited := visited + {vertex};
        var sub := Visit(vertex, adjacency, visited);
        ReachableEdge(adjacency, index, vertex);
        if sub.Err? {
          ghost var u :| Reachable(adjacency, vertex, u) && u !in adjacency && (u == vertex || u !in visited);
          ReachableTrans(adjacency, index, vertex, u);
          return Err(KeyError);
        }
        visited := sub.value;
        forall u | u in visited && u !in grouped
          ensures Reachable(adjacency, index, u)
        {
          if u !in before && u != vertex {
            ReachableTrans(adjacency, index, vertex, u);
          }
        }
      }
    }
    return Ok(visited);
  }

  /** A Python dict from vertices to adjacency lists. `order` keeps the keys
      in insertion order, which decides the entry `popitem` removes. */
  class AdjacencyList<V(==,!new)> {
    var order: seq<V>
    var lists: map<V, seq<V>>

    ghost predicate Valid()
      reads this
    {
      && (forall i, j :: 0 <= i < j < |order| ==> order[i] != order[j])
      && (forall v :: v in lists <==> v in order)
    }

    constructor (order: seq<V>, lists: map<V, seq<V>>)
      requires forall i, j :: 0 <= i < j < |order| ==> order[i] != order[j]
      requires forall v :: v in lists <==> v in order
      ensures Valid() && this.order == order && this.lists == lists
    {
      this.order := order;
      this.lists := lists;
    }

    /** `popitem()`: removes and returns the most recently inserted entry;
        raises KeyError when the dict is empty. */
    method PopItem() returns (r: Result<(V, seq<V>)>)
      requires Valid()
      modifies this
      ensures Valid()
      ensures old(order) == [] ==> r == Err(KeyError) && order == old(order) && lists == old(lists)
      ensures old(order) != [] ==>
                var last := old(order)[|old(order)| - 1];
                && r == Ok((last, old(lists)[last]))
                && order == old(order)[..|old(order)| - 1]
                && lists == old(lists) - {last}
    {
      if order == [] {
        return Err(KeyError);
      }
      var last := order[|order| - 1];
      r := Ok((last, lists[last]));
      order := order[..|order| - 1];
      lists := lists - {last};
    }
  }

  /** dfs(adjacency_list): pops the newest entry as the start vertex, adds it
      to the group, then adds and expands each neighbour not yet grouped.
      It succeeds exactly when every vertex reachable from the start has an
      entry, and then returns exactly the vertices reachable from the start;
      either way the only change to the dict is the removal of the start
      entry. An empty dict raises KeyError from popitem. */
  method Dfs<V(==,!new)>(adjacency: AdjacencyList<V>) returns (r: Result<set<V>>)
    requires adjacency.Valid()
    modifies adjacency
    ensures adjacency.Valid()
    ensures old(adjacency.order) == [] ==>
              && r == Err(KeyError)
              && adjacency.order == old(adjacency.order)
              && adjacency.lists == old(adjacency.lists)
    ensures old(adjacency.order) != [] ==>
              var start := old(adjacency.order)[|old(adjacency.order)| - 1];
              && adjacency.order == old(adjacency.order)[..|old(adjacency.order)| - 1]
              && adjacency.lists == old(adjacency.lists) - {start}
              && (r.Err? ==> r.error == KeyError)
              && (r.Ok? <==> forall v :: Reachable(old(adjacency.lists), start, v) ==> v in old(adjacency.lists))
              && (r.Ok? ==> forall v :: v in r.value <==> Reachable(old(adjacency.lists), start, v))
  {
    ghost var g := adjacency.lists;
    var popped := adjacency.PopItem();
    if popped.Err? {
      return Err(popped.error);
    }
    var (start, vertices) := popped.value;
    var remaining := adjacency.lists;
    ghost var order := adjacency.order;
    var grouped := {start};
    for k := 0 to |vertices|
      invariant adjacency.order == order && adjacency.lists == remaining
      invariant start in grouped
      invariant forall i :: 0 <= i < k ==> vertices[i] in grouped
      invariant forall u :: u in grouped && u != start ==>
                  && u in remaining
                  && Reachable(g, start, u)
                  && (forall w :: w in remaining[u] ==> w in grouped)
    {
      var vertex := vertices[k];
      if vertex !in grouped {
        ghost var before := grouped;
        grouped := grouped + {vertex};
        var sub := Visit(vertex, remaining, grouped);
        ReachableEdge(g, start, vertex);
        if sub.Err? {
          ghost var u :| Reachable(remaining, vertex, u) && u !in remaining && (u == vertex || u !in grouped);
          ReachableInPart(remaining, g, vertex, u);
          ReachableTrans(g, start, vertex, u);
          assert u != start && u !in g;
          return Err(KeyError);
        }
        grouped := sub.value;
        forall u | u in grouped && u != start ensures Reachable(g, start, u) {
          if u !in before && u != vertex {
            ReachableInPart(remaining, g, vertex, u);
            ReachableTrans(g, start, vertex, u);
          }
        }
      }
    }
    assert Closed(g, grouped);
    forall v ensures v in grouped <==> Reachable(g, start, v) {
      if v in grouped && v == start {
        ReachableSelf(g, start);
      }
      if Reachable(g, start, v) {
        ClosedHoldsReachable(g, grouped, start, v);
      }
    }
    r := Ok(grouped);
  }
}
