/** The bookkeeping of autocomplete's breadth-first traversal: what holds
    between two worklist entries, what holds while one entry's children are
    being visited, and one lemma per step of the traversal that carries it on. */
module TrieBfs {
  import opened TrieText
  import opened TrieArena
  import opened TrieTraversal

  /** One entry of the worklist: a node and the text spelled so far. */
  datatype Item = Item(node: nat, prefix: string)

  /** The nodes of the worklist's entries. */
  ghost function ItemNodes(q: seq<Item>): set<nat>
  {
    if q == [] then {} else ItemNodes(q[..|q| - 1]) + {q[|q| - 1].node}
  }

  lemma ItemNodesSnoc(q: seq<Item>, it: Item)
    ensures ItemNodes(q + [it]) == ItemNodes(q) + {it.node}
  {
    assert (q + [it])[..|q|] == q;
  }

  lemma {:induction false} ItemNodesIntro(q: seq<Item>, i: nat)
    requires i < |q|
    ensures q[i].node in ItemNodes(q)
  {
    if i < |q| - 1 {
      ItemNodesIntro(q[..|q| - 1], i);
    }
  }

  lemma {:induction false} ItemNodesElim(q: seq<Item>, x: nat) returns (i: nat)
    requires x in ItemNodes(q)
    ensures i < |q| && q[i].node == x
  {
    if x == q[|q| - 1].node {
      i := |q| - 1;
    } else {
      i := ItemNodesElim(q[..|q| - 1], x);
    }
  }

  /** Taking the first entry off the worklist. */
  lemma ItemNodesTail(q: seq<Item>)
    requires q != []
    ensures ItemNodes(q) == {q[0].node} + ItemNodes(q[1..])
  {
    forall x | x in ItemNodes(q) ensures x in {q[0].node} + ItemNodes(q[1..]) {
      var i := ItemNodesElim(q, x);
      if i > 0 {
        assert q[1..][i - 1] == q[i];
        ItemNodesIntro(q[1..], i - 1);
      }
    }
    forall x | x in ItemNodes(q[1..]) ensures x in ItemNodes(q) {
      var i := ItemNodesElim(q[1..], x);
      assert q[1..][i] == q[i + 1];
      ItemNodesIntro(q, i + 1);
    }
    ItemNodesIntro(q, 0);
  }

  /** The node indices below `n`; the traversal's termination measure is the part not yet expanded. */
  function Indices(n: nat): set<nat>
  {
    if n == 0 then {} else Indices(n - 1) + {n - 1}
  }

  lemma {:induction false} IndicesBelow(n: nat)
    ensures forall v :: 0 <= v < n ==> v in Indices(n)
  {
    if n > 0 {
      IndicesBelow(n - 1);
    }
  }

  /** A worklist entry: a node of the subtree that is not expanded yet and
      whose parent is, carrying the node's completion text. */
  ghost predicate Fresh(nodes: Arena, paths: seq<seq<string>>, parent: seq<nat>, s: nat, prefix: string,
                        done: set<nat>, it: Item)
    requires WellFormed(nodes, paths, parent) && s < |nodes|
  {
    && InSub(paths, s, it.node) && it.prefix == Completion(paths, s, prefix, it.node)
    && it.node !in done && (it.node != s ==> parent[it.node] in done)
  }

  /** The worklist is ordered by depth, spans the levels `d` and `d + 1` only,
      and holds no node twice. */
  ghost predicate QueueOk(nodes: Arena, paths: seq<seq<string>>, parent: seq<nat>, s: nat, prefix: string,
                          done: set<nat>, q: seq<Item>, d: int)
    requires WellFormed(nodes, paths, parent) && s < |nodes|
  {
    && (forall i :: 0 <= i < |q| ==> Fresh(nodes, paths, parent, s, prefix, done, q[i]))
    && (forall i :: 0 <= i < |q| ==> d <= Depth(paths, s, q[i].node) <= d + 1)
    && (forall i, j :: 0 <= i < j < |q| ==> Depth(paths, s, q[i].node) <= Depth(paths, s, q[j].node))
    && (forall i, j :: 0 <= i < j < |q| ==> q[i].node != q[j].node)
  }

  /** The suggestions so far come from distinct marked expanded nodes, no
      deeper than level `d`, shallower ones first. */
  ghost predicate OrderOk(nodes: Arena, paths: seq<seq<string>>, parent: seq<nat>, s: nat, prefix: string,
                          done: set<nat>, order: seq<nat>, suggestions: seq<string>, d: int)
    requires WellFormed(nodes, paths, parent) && s < |nodes|
  {
    && |order| == |suggestions|
    && (forall i :: 0 <= i < |order| ==>
          && order[i] in done && InSub(paths, s, order[i]) && Marker in nodes[order[i]]
          && suggestions[i] == Completion(paths, s, prefix, order[i]) && Depth(paths, s, order[i]) <= d)
    && Distinct(order)
    && (forall i, j :: 0 <= i <= j < |order| ==> Depth(paths, s, order[i]) <= Depth(paths, s, order[j]))
  }

  /** Expanded nodes lie in the subtree no deeper than level `d`, their
      parents were expanded before them, and each marked one (except those in
      `exempt`) has given its suggestion. */
  ghost predicate Settled(nodes: Arena, paths: seq<seq<string>>, parent: seq<nat>, s: nat,
                          done: set<nat>, order: seq<nat>, d: int, exempt: set<nat>)
    requires WellFormed(nodes, paths, parent) && s < |nodes|
  {
    forall v :: v in done ==>
      && InSub(paths, s, v) && Depth(paths, s, v) <= d && (v != s ==> parent[v] in done)
      && (Marker in nodes[v] && v !in exempt ==> v in order)
  }

  /** Each child of an expanded node (other than those in `exempt`) is
      expanded or waiting in the worklist. */
  ghost predicate Closed(nodes: Arena, paths: seq<seq<string>>, parent: seq<nat>, s: nat,
                         done: set<nat>, q: seq<Item>, exempt: set<nat>)
    requires WellFormed(nodes, paths, parent) && s < |nodes|
  {
    forall v: nat :: InSub(paths, s, v) && v != s && parent[v] in done && parent[v] !in exempt ==>
      v in done || v in ItemNodes(q)
  }

  /** The state at the head of the outer loop: between two worklist entries. */
  ghost predicate Between(nodes: Arena, paths: seq<seq<string>>, parent: seq<nat>, s: nat, prefix: string,
                          done: set<nat>, q: seq<Item>, order: seq<nat>, suggestions: seq<string>, d: int)
    requires WellFormed(nodes, paths, parent) && s < |nodes|
  {
    && (s !in done ==> q != [] && q[0].node == s)
    && QueueOk(nodes, paths, parent, s, prefix, done, q, d)
    && OrderOk(nodes, paths, parent, s, prefix, done, order, suggestions, d)
    && Settled(nodes, paths, parent, s, done, order, d, {})
    && Closed(nodes, paths, parent, s, done, q, {})
  }

  /** The state while the children of entry `cur` are being visited; `keys`
      are the child keys still to visit. */
  ghost predicate Expanding(nodes: Arena, paths: seq<seq<string>>, parent: seq<nat>, s: nat, prefix: string,
                            done: set<nat>, cur: Item, keys: set<string>,
                            q: seq<Item>, order: seq<nat>, suggestions: seq<string>, d: int)
    requires WellFormed(nodes, paths, parent) && s < |nodes|
  {
    && s in done && cur.node in done && InSub(paths, s, cur.node)
    && cur.prefix == Completion(paths, s, prefix, cur.node) && Depth(paths, s, cur.node) == d
    && keys <= nodes[cur.node].Keys
    && QueueOk(nodes, paths, parent, s, prefix, done, q, d)
    && OrderOk(nodes, paths, parent, s, prefix, done, order, suggestions, d)
    && (Marker in keys ==> cur.node !in order)
    && Settled(nodes, paths, parent, s, done, order, d, if Marker in keys then {cur.node} else {})
    && Closed(nodes, paths, parent, s, done, q, {cur.node})
    && (forall k :: k in nodes[cur.node] && k !in keys && k != Marker ==>
          nodes[cur.node][k].To? && nodes[cur.node][k].index in ItemNodes(q))
    && (forall k :: k in keys && k != Marker ==>
          nodes[cur.node][k].To? && nodes[cur.node][k].index !in ItemNodes(q))
  }

  /** Removing the first entry keeps the worklist in order, at the level of that entry. */
  lemma QueueTail(nodes: Arena, paths: seq<seq<string>>, parent: seq<nat>, s: nat, prefix: string,
                  done: set<nat>, q: seq<Item>, d: int)
    requires WellFormed(nodes, paths, parent) && s < |nodes|
    requires QueueOk(nodes, paths, parent, s, prefix, done, q, d) && q != []
    ensures Fresh(nodes, paths, parent, s, prefix, done, q[0]) && d <= Depth(paths, s, q[0].node)
    ensures QueueOk(nodes, paths, parent, s, prefix, done + {q[0].node}, q[1..], Depth(paths, s, q[0].node))
  {
    var d' := Depth(paths, s, q[0].node);
    var done' := done + {q[0].node};
    forall i | 0 <= i < |q[1..]|
      ensures Fresh(nodes, paths, parent, s, prefix, done', q[1..][i])
      ensures d' <= Depth(paths, s, q[1..][i].node) <= d' + 1
    {
      assert q[1..][i] == q[i + 1];
      assert Fresh(nodes, paths, parent, s, prefix, done, q[i + 1]);
      assert q[0].node != q[i + 1].node;
    }
    forall i, j | 0 <= i < j < |q[1..]|
      ensures Depth(paths, s, q[1..][i].node) <= Depth(paths, s, q[1..][j].node)
      ensures q[1..][i].node != q[1..][j].node
    {
      assert q[1..][i] == q[i + 1] && q[1..][j] == q[j + 1];
    }
  }

  /** Appending a fresh node of the next level, not yet queued, keeps the worklist in order. */
  lemma QueueSnoc(nodes: Arena, paths: seq<seq<string>>, parent: seq<nat>, s: nat, prefix: string,
                  done: set<nat>, q: seq<Item>, d: int, it: Item)
    requires WellFormed(nodes, paths, parent) && s < |nodes|
    requires QueueOk(nodes, paths, parent, s, prefix, done, q, d)
    requires Fresh(nodes, paths, parent, s, prefix, done, it) && Depth(paths, s, it.node) == d + 1
    requires it.node !in ItemNodes(q)
    ensures QueueOk(nodes, paths, parent, s, prefix, done, q + [it], d)
  {
    var q' := q + [it];
    forall i | 0 <= i < |q| ensures q[i].node != it.node {
      ItemNodesIntro(q, i);
    }
    forall i | 0 <= i < |q'|
      ensures Fresh(nodes, paths, parent, s, prefix, done, q'[i])
      ensures d <= Depth(paths, s, q'[i].node) <= d + 1
    {
      if i < |q| {
        assert q'[i] == q[i];
      }
    }
    forall i, j | 0 <= i < j < |q'|
      ensures Depth(paths, s, q'[i].node) <= Depth(paths, s, q'[j].node)
      ensures q'[i].node != q'[j].node
    {
      assert q'[i] == q[i];
      if j < |q| {
        assert q'[j] == q[j];
      }
    }
  }

  /** The suggestion bookkeeping survives more expanded nodes and a deeper level. */
  lemma OrderWiden(nodes: Arena, paths: seq<seq<string>>, parent: seq<nat>, s: nat, prefix: string,
                   done: set<nat>, done': set<nat>, order: seq<nat>, suggestions: seq<string>, d: int, d': int)
    requires WellFormed(nodes, paths, parent) && s < |nodes|
    requires OrderOk(nodes, paths, parent, s, prefix, done, order, suggestions, d)
    requires done <= done' && d <= d'
    ensures OrderOk(nodes, paths, parent, s, prefix, done', order, suggestions, d')
  {
  }

  /** Suggesting a marked expanded node of the current level that has not given its suggestion yet. */
  lemma OrderSnoc(nodes: Arena, paths: seq<seq<string>>, parent: seq<nat>, s: nat, prefix: string,
                  done: set<nat>, order: seq<nat>, suggestions: seq<string>, d: int, v: nat)
    requires WellFormed(nodes, paths, parent) && s < |nodes|
    requires OrderOk(nodes, paths, parent, s, prefix, done, order, suggestions, d)
    requires v in done && InSub(paths, s, v) && Marker in nodes[v] && Depth(paths, s, v) == d && v !in order
    ensures OrderOk(nodes, paths, parent, s, prefix, done, order + [v],
                    suggestions + [Completion(paths, s, prefix, v)], d)
  {
    var order', suggestions' := order + [v], suggestions + [Completion(paths, s, prefix, v)];
    forall i | 0 <= i < |order'|
      ensures order'[i] in done && InSub(paths, s, order'[i]) && Marker in nodes[order'[i]]
      ensures suggestions'[i] == Completion(paths, s, prefix, order'[i]) && Depth(paths, s, order'[i]) <= d
    {
      if i < |order| {
        assert order'[i] == order[i] && suggestions'[i] == suggestions[i];
      }
    }
    forall i, j | 0 <= i < j < |order'| ensures order'[i] != order'[j] {
      assert order'[i] == order[i];
      if j < |order| {
        assert order'[j] == order[j];
      }
    }
    forall i, j | 0 <= i <= j < |order'| ensures Depth(paths, s, order'[i]) <= Depth(paths, s, order'[j]) {
      if j < |order| {
        assert order'[i] == order[i] && order'[j] == order[j];
      } else if i < |order| {
        assert order'[i] == order[i];
      }
    }
  }

  /** The worklist starts with the prefix's node and its text. */
  lemma BfsStart(nodes: Arena, paths: seq<seq<string>>, parent: seq<nat>, s: nat, prefix: string)
    requires WellFormed(nodes, paths, parent) && s < |nodes|
    ensures Between(nodes, paths, parent, s, prefix, {}, [Item(s, prefix)], [], [], 0)
  {
    SubRoot(paths, s, prefix);
    ItemNodesSnoc([], Item(s, prefix));
    assert [] + [Item(s, prefix)] == [Item(s, prefix)];
  }

  /** Taking the first entry off the worklist starts the visit of its children. */
  lemma BfsPop(nodes: Arena, paths: seq<seq<string>>, parent: seq<nat>, s: nat, prefix: string,
               done: set<nat>, q: seq<Item>, order: seq<nat>, suggestions: seq<string>, d: int)
    requires WellFormed(nodes, paths, parent) && s < |nodes|
    requires Between(nodes, paths, parent, s, prefix, done, q, order, suggestions, d) && q != []
    ensures q[0].node < |nodes| && q[0].node !in done
    ensures Expanding(nodes, paths, parent, s, prefix, done + {q[0].node}, q[0], nodes[q[0].node].Keys,
                      q[1..], order, suggestions, Depth(paths, s, q[0].node))
  {
    var c := q[0].node;
    QueueTail(nodes, paths, parent, s, prefix, done, q, d);
    OrderWiden(nodes, paths, parent, s, prefix, done, done + {c}, order, suggestions, d, Depth(paths, s, c));
    SettledPop(nodes, paths, parent, s, prefix, done, order, d, q[0]);
    ClosedPop(nodes, paths, parent, s, done, q);
    ChildrenUnqueued(nodes, paths, parent, s, prefix, done, q, d);
  }

  /** The entry taken off the worklist joins the expanded nodes; until its
      end-of-word key is visited it is exempt from having given its suggestion. */
  lemma SettledPop(nodes: Arena, paths: seq<seq<string>>, parent: seq<nat>, s: nat, prefix: string,
                   done: set<nat>, order: seq<nat>, d: int, it: Item)
    requires WellFormed(nodes, paths, parent) && s < |nodes|
    requires Settled(nodes, paths, parent, s, done, order, d, {})
    requires Fresh(nodes, paths, parent, s, prefix, done, it) && d <= Depth(paths, s, it.node)
    ensures Settled(nodes, paths, parent, s, done + {it.node}, order, Depth(paths, s, it.node),
                    if Marker in nodes[it.node] then {it.node} else {})
  {
  }

  /** After taking the first entry off the worklist, the children of every
      other expanded node are still expanded or waiting. */
  lemma ClosedPop(nodes: Arena, paths: seq<seq<string>>, parent: seq<nat>, s: nat,
                  done: set<nat>, q: seq<Item>)
    requires WellFormed(nodes, paths, parent) && s < |nodes|
    requires Closed(nodes, paths, parent, s, done, q, {}) && q != []
    ensures Closed(nodes, paths, parent, s, done + {q[0].node}, q[1..], {q[0].node})
  {
    ItemNodesTail(q);
  }

  /** No child of the entry just taken off the worklist is waiting in it:
      every waiting node's parent is already expanded. */
  lemma ChildrenUnqueued(nodes: Arena, paths: seq<seq<string>>, parent: seq<nat>, s: nat, prefix: string,
                         done: set<nat>, q: seq<Item>, d: int)
    requires WellFormed(nodes, paths, parent) && s < |nodes|
    requires QueueOk(nodes, paths, parent, s, prefix, done, q, d) && q != []
    ensures q[0].node < |nodes|
    ensures forall k :: k in nodes[q[0].node] && k != Marker ==>
              nodes[q[0].node][k].To? && nodes[q[0].node][k].index !in ItemNodes(q[1..])
  {
    var c := q[0].node;
    assert Fresh(nodes, paths, parent, s, prefix, done, q[0]);
    forall k | k in nodes[c] && k != Marker
      ensures nodes[c][k].To? && nodes[c][k].index !in ItemNodes(q[1..])
    {
      SubChild(nodes, paths, parent, s, prefix, c, k);
      var x := nodes[c][k].index;
      if x in ItemNodes(q[1..]) {
        var i := ItemNodesElim(q[1..], x);
        assert false;
      }
    }
  }

  /** Visiting the end-of-word key of the current entry adds its text to the suggestions. */
  lemma BfsMarker(nodes: Arena, paths: seq<seq<string>>, parent: seq<nat>, s: nat, prefix: string,
                  done: set<nat>, cur: Item, keys: set<string>,
                  q: seq<Item>, order: seq<nat>, suggestions: seq<string>, d: int)
    requires WellFormed(nodes, paths, parent) && s < |nodes|
    requires Expanding(nodes, paths, parent, s, prefix, done, cur, keys, q, order, suggestions, d)
    requires Marker in keys
    ensures Expanding(nodes, paths, parent, s, prefix, done, cur, keys - {Marker},
                      q, order + [cur.node], suggestions + [cur.prefix], d)
  {
    OrderSnoc(nodes, paths, parent, s, prefix, done, order, suggestions, d, cur.node);
  }

  /** Visiting any other key of the current entry puts the child and its text at the end of the worklist. */
  lemma BfsChild(nodes: Arena, paths: seq<seq<string>>, parent: seq<nat>, s: nat, prefix: string,
                 done: set<nat>, cur: Item, keys: set<string>,
                 q: seq<Item>, order: seq<nat>, suggestions: seq<string>, d: int, k: string)
    requires WellFormed(nodes, paths, parent) && s < |nodes|
    requires Expanding(nodes, paths, parent, s, prefix, done, cur, keys, q, order, suggestions, d)
    requires k in keys && k != Marker
    ensures cur.node < |nodes| && k in nodes[cur.node] && nodes[cur.node][k].To?
    ensures Expanding(nodes, paths, parent, s, prefix, done, cur, keys - {k},
                      q + [Item(nodes[cur.node][k].index, cur.prefix + Translate(k))], order, suggestions, d)
  {
    var c := cur.node;
    SubChild(nodes, paths, parent, s, prefix, c, k);
    var x := nodes[c][k].index;
    var it := Item(x, cur.prefix + Translate(k));
    var q' := q + [it];
    ItemNodesSnoc(q, it);
    assert Fresh(nodes, paths, parent, s, prefix, done, it);
    QueueSnoc(nodes, paths, parent, s, prefix, done, q, d, it);
    forall k' | k' in keys - {k} && k' != Marker
      ensures nodes[c][k'].To? && nodes[c][k'].index !in ItemNodes(q')
    {
      SubChild(nodes, paths, parent, s, prefix, c, k');
      assert paths[nodes[c][k'].index][|paths[c]|] == k';
    }
  }

  /** Once every key of the current entry is visited, the entry counts as expanded. */
  lemma BfsFinish(nodes: Arena, paths: seq<seq<string>>, parent: seq<nat>, s: nat, prefix: string,
                  done: set<nat>, cur: Item, q: seq<Item>, order: seq<nat>, suggestions: seq<string>, d: int)
    requires WellFormed(nodes, paths, parent) && s < |nodes|
    requires Expanding(nodes, paths, parent, s, prefix, done, cur, {}, q, order, suggestions, d)
    ensures Between(nodes, paths, parent, s, prefix, done, q, order, suggestions, d)
  {
    forall v: nat | InSub(paths, s, v) && v != s && parent[v] == cur.node
      ensures v in ItemNodes(q)
    {
      SubParent(nodes, paths, parent, s, v);
    }
  }

  /** An empty worklist: every completion has been suggested. */
  lemma BfsDone(nodes: Arena, paths: seq<seq<string>>, parent: seq<nat>, s: nat, prefix: string,
                done: set<nat>, order: seq<nat>, suggestions: seq<string>, d: int)
    requires WellFormed(nodes, paths, parent) && s < |nodes|
    requires Between(nodes, paths, parent, s, prefix, done, [], order, suggestions, d)
    ensures forall i :: 0 <= i < |suggestions| ==> suggestions[i] in Completions(Words(nodes, paths), paths[s], prefix)
    ensures Distinct(suggestions) && ByLength(suggestions)
    ensures forall w :: w in Completions(Words(nodes, paths), paths[s], prefix) ==> w in suggestions
  {
    Conclude(nodes, paths, parent, s, prefix, done, {}, order, suggestions, d);
  }

  /** Stopping right after the current entry's suggestion: every completion
      shorter than that last suggestion has been suggested. */
  lemma BfsFull(nodes: Arena, paths: seq<seq<string>>, parent: seq<nat>, s: nat, prefix: string,
                done: set<nat>, cur: Item, keys: set<string>,
                q: seq<Item>, order: seq<nat>, suggestions: seq<string>, d: int)
    requires WellFormed(nodes, paths, parent) && s < |nodes|
    requires Expanding(nodes, paths, parent, s, prefix, done, cur, keys, q, order, suggestions, d)
    requires Marker !in keys && suggestions != [] && suggestions[|suggestions| - 1] == cur.prefix
    ensures forall i :: 0 <= i < |suggestions| ==> suggestions[i] in Completions(Words(nodes, paths), paths[s], prefix)
    ensures Distinct(suggestions) && ByLength(suggestions)
    ensures forall w :: w in Completions(Words(nodes, paths), paths[s], prefix) ==>
              |w| < |suggestions[|suggestions| - 1]| ==> w in suggestions
  {
    var pending := ItemNodes(q) + {cur.node};
    forall a | a in pending ensures InSub(paths, s, a) && d <= Depth(paths, s, a) {
      if a != cur.node {
        var i := ItemNodesElim(q, a);
        assert Fresh(nodes, paths, parent, s, prefix, done, q[i]);
      }
    }
    Conclude(nodes, paths, parent, s, prefix, done - {cur.node}, pending, order, suggestions, d);
    CompletionLength(nodes, paths, parent, s, prefix, cur.node);
  }
}
