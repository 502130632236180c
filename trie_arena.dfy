/** The trie's node graph. Each Go `*trieNode` is an index into a sequence of
    child maps (index 0 is the root) and each map value is a `Link`: `Nil`
    stands for the nil pointer stored under the end-of-word key, `To(i)` for a
    pointer to node `i`. Ghost companions `paths` (the key path from the root
    to each node) and `parent` record that the graph is a tree. */
module TrieArena {
  import opened TrieText

  datatype Link = Nil | To(index: nat)

  type Arena = seq<map<string, Link>>

  /** Outcome of following a key path from the root: a key is missing,
      the path ends at a node, or it stepped through a nil link (where Go's
      next lookup would dereference nil). */
  datatype Walked = Missing | Reached(node: nat) | NilDeref

  function Walk(nodes: Arena, p: seq<string>): Walked
  {
    if p == [] then Reached(0)
    else
      match Walk(nodes, p[..|p| - 1])
      case Reached(i) =>
        if i < |nodes| && p[|p| - 1] in nodes[i] then
          match nodes[i][p[|p| - 1]]
          case Nil => NilDeref
          case To(c) => Reached(c)
        else Missing
      case other => other
  }

  /** The edge under key `k` of node `i` is a nil end-of-word marker or
      points forward to a node one key deeper. */
  ghost predicate LinkOk(nodes: Arena, paths: seq<seq<string>>, i: nat, k: string)
    requires i < |nodes| && |paths| == |nodes| && k in nodes[i]
  {
    match nodes[i][k]
    case Nil => k == Marker
    case To(c) => i < c < |nodes| && paths[c] == paths[i] + [k]
  }

  ghost predicate WellFormed(nodes: Arena, paths: seq<seq<string>>, parent: seq<nat>)
  {
    && |nodes| >= 1 && |paths| == |nodes| && |parent| == |nodes| && paths[0] == []
    && (forall i, k {:trigger k in nodes[i]} | 0 <= i < |nodes| && k in nodes[i] :: IsKey(k) && LinkOk(nodes, paths, i, k))
    && (forall c {:trigger parent[c]} | 0 < c < |nodes| ::
          && parent[c] < c && paths[c] != []
          && paths[c][|paths[c]| - 1] in nodes[parent[c]]
          && nodes[parent[c]][paths[c][|paths[c]| - 1]] == To(c))
  }

  /** The key paths of the nodes marked as the end of a word. */
  ghost function Words(nodes: Arena, paths: seq<seq<string>>): set<seq<string>>
  {
    WordsBelow(nodes, paths, |nodes|)
  }

  /** The key paths of the marked nodes with an index below `n`. */
  ghost function WordsBelow(nodes: Arena, paths: seq<seq<string>>, n: nat): set<seq<string>>
  {
    if n == 0 then {}
    else WordsBelow(nodes, paths, n - 1)
         + (if n - 1 < |nodes| && n - 1 < |paths| && Marker in nodes[n - 1] then {paths[n - 1]} else {})
  }

  lemma {:induction false} WordsBelowIntro(nodes: Arena, paths: seq<seq<string>>, n: nat, j: nat)
    requires j < n && j < |nodes| && j < |paths| && Marker in nodes[j]
    ensures paths[j] in WordsBelow(nodes, paths, n)
  {
    if j < n - 1 {
      WordsBelowIntro(nodes, paths, n - 1, j);
    }
  }

  lemma {:induction false} WordsBelowElim(nodes: Arena, paths: seq<seq<string>>, n: nat, x: seq<string>)
    returns (j: nat)
    requires x in WordsBelow(nodes, paths, n)
    ensures j < n && j < |nodes| && j < |paths| && Marker in nodes[j] && paths[j] == x
  {
    if x in WordsBelow(nodes, paths, n - 1) {
      j := WordsBelowElim(nodes, paths, n - 1, x);
    } else {
      j := n - 1;
    }
  }

  /** A marked node's path is a stored word. */
  lemma WordsIntro(nodes: Arena, paths: seq<seq<string>>, j: nat)
    requires j < |nodes| && j < |paths| && Marker in nodes[j]
    ensures paths[j] in Words(nodes, paths)
  {
    WordsBelowIntro(nodes, paths, |nodes|, j);
  }

  /** Every stored word is the path of a marked node. */
  lemma WordsElim(nodes: Arena, paths: seq<seq<string>>, x: seq<string>) returns (j: nat)
    requires x in Words(nodes, paths)
    ensures j < |nodes| && j < |paths| && Marker in nodes[j] && paths[j] == x
  {
    j := WordsBelowElim(nodes, paths, |nodes|, x);
  }

  /** Once a walk stops reaching nodes, extending the path changes nothing. */
  lemma {:induction false} WalkPrefix(nodes: Arena, p: seq<string>, m: nat)
    requires m <= |p| && !Walk(nodes, p[..m]).Reached?
    ensures Walk(nodes, p) == Walk(nodes, p[..m])
    decreases |p|
  {
    if m < |p| {
      var p' := p[..|p| - 1];
      assert p'[..m] == p[..m];
      WalkPrefix(nodes, p', m);
    } else {
      assert p[..m] == p;
    }
  }

  /** A walk ending at node `j` ends where that node's path does. */
  lemma {:induction false} WalkPath(nodes: Arena, paths: seq<seq<string>>, parent: seq<nat>, p: seq<string>)
    requires WellFormed(nodes, paths, parent) && Walk(nodes, p).Reached?
    ensures Walk(nodes, p).node < |nodes| && paths[Walk(nodes, p).node] == p
  {
    if p != [] {
      var p' := p[..|p| - 1];
      var k := p[|p| - 1];
      assert Walk(nodes, p').Reached?;
      WalkPath(nodes, paths, parent, p');
      var i := Walk(nodes, p').node;
      assert k in nodes[i] && LinkOk(nodes, paths, i, k);
      assert p == p' + [k];
    }
  }

  /** Every node is reached by walking its own path. */
  lemma {:induction false} PathWalk(nodes: Arena, paths: seq<seq<string>>, parent: seq<nat>, j: nat)
    requires WellFormed(nodes, paths, parent) && j < |nodes|
    ensures Walk(nodes, paths[j]) == Reached(j)
    decreases j
  {
    if j > 0 {
      var p := parent[j];
      var k := paths[j][|paths[j]| - 1];
      PathWalk(nodes, paths, parent, p);
      assert LinkOk(nodes, paths, p, k);
      assert paths[j][..|paths[j]| - 1] == paths[p];
    }
  }

  lemma PathsInjective(nodes: Arena, paths: seq<seq<string>>, parent: seq<nat>, i: nat, j: nat)
    requires WellFormed(nodes, paths, parent) && i < |nodes| && j < |nodes|
    requires paths[i] == paths[j]
    ensures i == j
  {
    PathWalk(nodes, paths, parent, i);
    PathWalk(nodes, paths, parent, j);
  }

  /** Every key on a node's path is a stored key. */
  lemma {:induction false} PathKeys(nodes: Arena, paths: seq<seq<string>>, parent: seq<nat>, j: nat)
    requires WellFormed(nodes, paths, parent) && j < |nodes|
    ensures forall m :: 0 <= m < |paths[j]| ==> IsKey(paths[j][m])
    decreases j
  {
    if j > 0 {
      var p := parent[j];
      var k := paths[j][|paths[j]| - 1];
      PathKeys(nodes, paths, parent, p);
      assert LinkOk(nodes, paths, p, k);
    }
  }

  /** A path is a stored word exactly when walking it reaches a node carrying the end-of-word key. */
  lemma WordsWalk(nodes: Arena, paths: seq<seq<string>>, parent: seq<nat>, p: seq<string>)
    requires WellFormed(nodes, paths, parent)
    ensures p in Words(nodes, paths) <==>
              Walk(nodes, p).Reached? && Walk(nodes, p).node < |nodes| && Marker in nodes[Walk(nodes, p).node]
  {
    if p in Words(nodes, paths) {
      var j := WordsElim(nodes, paths, p);
      PathWalk(nodes, paths, parent, j);
    }
    if Walk(nodes, p).Reached? {
      WalkPath(nodes, paths, parent, p);
      if Marker in nodes[Walk(nodes, p).node] {
        WordsIntro(nodes, paths, Walk(nodes, p).node);
      }
    }
  }

  /** Stored words never contain a raw space: a space is stored under the escape key. */
  lemma WordsHaveNoSpace(nodes: Arena, paths: seq<seq<string>>, parent: seq<nat>, p: seq<string>)
    requires WellFormed(nodes, paths, parent) && p in Words(nodes, paths)
    ensures " " !in p
  {
    var j := WordsElim(nodes, paths, p);
    PathKeys(nodes, paths, parent, j);
  }

  /** `later` keeps every node and edge of `earlier` and may add more. */
  ghost predicate Grows(earlier: Arena, later: Arena)
  {
    && |earlier| <= |later|
    && forall i, k {:trigger k in earlier[i]} | 0 <= i < |earlier| && k in earlier[i] ::
         k in later[i] && later[i][k] == earlier[i][k]
  }

  lemma GrowsTransitive(a: Arena, b: Arena, c: Arena)
    requires Grows(a, b) && Grows(b, c)
    ensures Grows(a, c)
  {
  }

  /** The child of `node` under `key`, created (empty, at the end of the arena) when missing. */
  function Attach(nodes: Arena, node: nat, key: string): (Arena, nat)
    requires node < |nodes|
    requires key in nodes[node] ==> nodes[node][key].To?
  {
    if key in nodes[node] then (nodes, nodes[node][key].index)
    else (nodes[node := nodes[node][key := To(|nodes|)]] + [map[]], |nodes|)
  }

  /** The ghost paths and parents after `Attach`. */
  ghost function AttachGhost(nodes: Arena, paths: seq<seq<string>>, parent: seq<nat>, node: nat, key: string)
    : (seq<seq<string>>, seq<nat>)
    requires node < |nodes| && node < |paths|
  {
    if key in nodes[node] then (paths, parent)
    else (paths + [paths[node] + [key]], parent + [node])
  }

  /** `node` with the end-of-word key added when it is absent. */
  function Mark(nodes: Arena, node: nat): Arena
    requires node < |nodes|
  {
    if Marker in nodes[node] then nodes else nodes[node := nodes[node][Marker := Nil]]
  }

  /** Attaching a missing child keeps the graph a tree. */
  lemma AttachNewWellFormed(nodes: Arena, paths: seq<seq<string>>, parent: seq<nat>, node: nat, key: string)
    requires WellFormed(nodes, paths, parent) && node < |nodes| && IsKey(key) && key !in nodes[node]
    ensures WellFormed(nodes[node := nodes[node][key := To(|nodes|)]] + [map[]],
                       paths + [paths[node] + [key]], parent + [node])
  {
    var n2 := nodes[node := nodes[node][key := To(|nodes|)]] + [map[]];
    var p2 := paths + [paths[node] + [key]];
    var q2 := parent + [node];
    forall i, k | 0 <= i < |n2| && k in n2[i] ensures IsKey(k) && LinkOk(n2, p2, i, k) {
      if !(i == node && k == key) {
        assert i < |nodes| && k in nodes[i];
        assert LinkOk(nodes, paths, i, k);
      }
    }
    forall c | 0 < c < |n2|
      ensures && q2[c] < c && p2[c] != []
              && p2[c][|p2[c]| - 1] in n2[q2[c]]
              && n2[q2[c]][p2[c][|p2[c]| - 1]] == To(c)
    {
      if c < |nodes| {
        var k := paths[c][|paths[c]| - 1];
        assert k in nodes[parent[c]] && nodes[parent[c]][k] == To(c);
        assert !(parent[c] == node && k == key);
      }
    }
  }

  /** Attaching a missing child adds a word only when its key is the end-of-word key. */
  lemma AttachNewWords(nodes: Arena, paths: seq<seq<string>>, node: nat, key: string)
    requires |paths| == |nodes| && node < |nodes| && key !in nodes[node]
    ensures Words(nodes[node := nodes[node][key := To(|nodes|)]] + [map[]], paths + [paths[node] + [key]])
         == Words(nodes, paths) + (if key == Marker then {paths[node]} else {})
  {
    var n2 := nodes[node := nodes[node][key := To(|nodes|)]] + [map[]];
    var p2 := paths + [paths[node] + [key]];
    forall x ensures x in Words(n2, p2) <==> x in Words(nodes, paths) + (if key == Marker then {paths[node]} else {}) {
      if x in Words(n2, p2) {
        var j := WordsElim(n2, p2, x);
        if j != node || key != Marker {
          WordsIntro(nodes, paths, j);
        }
      }
      if x in Words(nodes, paths) {
        var j := WordsElim(nodes, paths, x);
        WordsIntro(n2, p2, j);
      }
      if key == Marker && x == paths[node] {
        WordsIntro(n2, p2, node);
      }
    }
  }

  /** Attaching keeps the graph a tree, creates at most one node, and changes the
      stored words only when the key itself is the end-of-word key. */
  lemma AttachSpec(nodes: Arena, paths: seq<seq<string>>, parent: seq<nat>, node: nat, key: string)
    requires WellFormed(nodes, paths, parent) && node < |nodes| && IsKey(key)
    requires key in nodes[node] ==> nodes[node][key].To?
    ensures WellFormed(Attach(nodes, node, key).0, AttachGhost(nodes, paths, parent, node, key).0,
                       AttachGhost(nodes, paths, parent, node, key).1)
    ensures Grows(nodes, Attach(nodes, node, key).0)
    ensures var n2, c, p2 := Attach(nodes, node, key).0, Attach(nodes, node, key).1,
                             AttachGhost(nodes, paths, parent, node, key).0;
            && c < |n2| && key in n2[node] && n2[node][key] == To(c) && p2[c] == paths[node] + [key]
            && paths <= p2 && |p2| == |n2|
            && (key in nodes[node] ==> n2 == nodes && p2 == paths)
            && (key !in nodes[node] ==> c == |nodes| && n2[c] == map[])
    ensures Words(Attach(nodes, node, key).0, AttachGhost(nodes, paths, parent, node, key).0)
         == Words(nodes, paths) + (if key == Marker then {paths[node]} else {})
  {
    if key in nodes[node] {
      assert LinkOk(nodes, paths, node, key);
      if key == Marker {
        WordsIntro(nodes, paths, node);
      }
    } else {
      AttachNewWellFormed(nodes, paths, parent, node, key);
      AttachNewWords(nodes, paths, node, key);
    }
  }

  /** Marking keeps the graph a tree and adds exactly the node's path to the stored words. */
  lemma MarkSpec(nodes: Arena, paths: seq<seq<string>>, parent: seq<nat>, node: nat)
    requires WellFormed(nodes, paths, parent) && node < |nodes|
    ensures WellFormed(Mark(nodes, node), paths, parent) && Grows(nodes, Mark(nodes, node))
    ensures Words(Mark(nodes, node), paths) == Words(nodes, paths) + {paths[node]}
    ensures Marker in nodes[node] ==> Mark(nodes, node) == nodes
  {
    var n2 := Mark(nodes, node);
    if Marker !in nodes[node] {
      forall i, k | 0 <= i < |n2| && k in n2[i] ensures IsKey(k) && LinkOk(n2, paths, i, k) {
        if !(i == node && k == Marker) {
          assert LinkOk(nodes, paths, i, k);
        }
      }
      forall x ensures x in Words(n2, paths) <==> x in Words(nodes, paths) + {paths[node]} {
        if x in Words(n2, paths) {
          var j := WordsElim(n2, paths, x);
          if j != node {
            WordsIntro(nodes, paths, j);
          }
        }
        if x in Words(nodes, paths) {
          var j := WordsElim(nodes, paths, x);
          WordsIntro(n2, paths, j);
        }
        if x == paths[node] {
          WordsIntro(n2, paths, node);
        }
      }
    } else {
      WordsIntro(nodes, paths, node);
    }
  }

  /** The words one Add of the key path `keys` stores: the path itself and, because
      a `*` letter is the end-of-word key, every prefix that stops just before a `*`. */
  function AddedWords(keys: seq<string>): set<seq<string>>
  {
    (if keys == [] then {} else {keys}) + StarPrefixes(keys, |keys|)
  }

  /** The prefixes `keys[..m]`, `m < n`, that are followed by the end-of-word key. */
  function StarPrefixes(keys: seq<string>, n: nat): set<seq<string>>
    requires n <= |keys|
  {
    if n == 0 then {}
    else StarPrefixes(keys, n - 1) + (if keys[n - 1] == Marker then {keys[..n - 1]} else {})
  }

  /** They are exactly such prefixes: each is shorter than `n` and followed by the end-of-word key ... */
  lemma {:induction false} StarPrefixesOnly(keys: seq<string>, n: nat, x: seq<string>)
    requires n <= |keys| && x in StarPrefixes(keys, n)
    ensures |x| < n && x == keys[..|x|] && keys[|x|] == Marker
  {
    if x !in (if keys[n - 1] == Marker then {keys[..n - 1]} else {}) {
      StarPrefixesOnly(keys, n - 1, x);
    }
  }

  /** ... and every prefix followed by the end-of-word key is among them. */
  lemma {:induction false} StarPrefixesAll(keys: seq<string>, n: nat, m: nat)
    requires m < n <= |keys| && keys[m] == Marker
    ensures keys[..m] in StarPrefixes(keys, n)
  {
    if m < n - 1 {
      StarPrefixesAll(keys, n - 1, m);
    }
  }

  /** The words one step of Add stores when it attaches `key` below the node at
      `path`: the node's own path when the key is the end-of-word key, and the
      extended path when it is the last key. */
  function NewWords(path: seq<string>, key: string, last: bool): set<seq<string>>
  {
    (if key == Marker then {path} else {}) + (if last then {path + [key]} else {})
  }

  /** The words Add has stored after its first `n` keys. */
  function AddedSoFar(keys: seq<string>, n: nat): set<seq<string>>
    requires n <= |keys|
  {
    StarPrefixes(keys, n) + (if n == |keys| && n > 0 then {keys} else {})
  }

  lemma AddedSoFarStep(keys: seq<string>, n: nat)
    requires n < |keys|
    ensures AddedSoFar(keys, n + 1) == AddedSoFar(keys, n) + NewWords(keys[..n], keys[n], n + 1 == |keys|)
  {
    if n + 1 == |keys| {
      assert keys[..n] + [keys[n]] == keys;
    }
  }

  lemma AddedSoFarAll(keys: seq<string>)
    ensures AddedSoFar(keys, |keys|) == AddedWords(keys)
  {
  }

  /** Without a `*` letter an Add stores exactly its own key path. */
  lemma AddedWordsStarFree(keys: seq<string>)
    requires keys != [] && Marker !in keys
    ensures AddedWords(keys) == {keys}
  {
    if x :| x in StarPrefixes(keys, |keys|) {
      StarPrefixesOnly(keys, |keys|, x);
      assert false;
    }
  }

  /** One step of Add's walk from node `curr` (at path `keys[..i]`) along `keys`:
      it never meets a nil link, and it either stays on the original graph or
      continues on a node this same Add has just created. */
  lemma AttachStep(nodes: Arena, paths: seq<seq<string>>, parent: seq<nat>, start: Arena,
                   keys: seq<string>, i: nat, curr: nat)
    requires WellFormed(nodes, paths, parent) && i < |keys| && curr < |nodes| && IsKey(keys[i])
    requires paths[curr] == keys[..i]
    requires Walk(start, keys) != NilDeref
    requires nodes == start || (|start| <= curr && nodes[curr] == map[])
    ensures keys[i] in nodes[curr] ==> nodes[curr][keys[i]].To?
    ensures var (n2, c) := Attach(nodes, curr, keys[i]);
            n2 == start || (|start| <= c && n2[c] == map[])
    ensures nodes == start && keys in Words(nodes, paths) ==>
              keys[i] in nodes[curr] && (i + 1 == |keys| ==> Marker in nodes[nodes[curr][keys[i]].index])
  {
    var key := keys[i];
    assert keys[..i + 1][..i] == keys[..i];
    if nodes == start {
      PathWalk(nodes, paths, parent, curr);
    }
    if key in nodes[curr] && nodes[curr][key].Nil? {
      if nodes == start {
        assert Walk(nodes, keys[..i + 1]) == NilDeref;
        WalkPrefix(nodes, keys, i + 1);
      }
      assert false;
    }
    if key in nodes[curr] {
      assert LinkOk(nodes, paths, curr, key);
    }
    if nodes == start && keys in Words(nodes, paths) {
      WordsWalk(nodes, paths, parent, keys);
      if !Walk(nodes, keys[..i + 1]).Reached? {
        WalkPrefix(nodes, keys, i + 1);
      }
      if i + 1 == |keys| {
        assert keys[..i + 1] == keys;
      }
    }
  }

  /** What Add does for one key: `Attach`, then `Mark` for the last key. */
  ghost function Insert(nodes: Arena, node: nat, key: string, last: bool): (Arena, nat)
    requires node < |nodes|
    requires key in nodes[node] ==> nodes[node][key].To? && nodes[node][key].index < |nodes|
  {
    var (created, child) := Attach(nodes, node, key);
    if last then (Mark(created, child), child) else (created, child)
  }

  /** One step of Add's loop on values: the next link is a pointer, and the walk
      stays on the original graph or continues on a node this same Add created;
      when the whole word was already stored nothing changes. */
  lemma InsertStep(nodes: Arena, paths: seq<seq<string>>, parent: seq<nat>, start: Arena,
                   startWords: set<seq<string>>, keys: seq<string>, i: nat, curr: nat)
    requires WellFormed(nodes, paths, parent) && i < |keys| && curr < |nodes| && IsKey(keys[i])
    requires paths[curr] == keys[..i]
    requires Walk(start, keys) != NilDeref
    requires nodes == start || (|start| <= curr && nodes[curr] == map[])
    requires keys in startWords ==> nodes == start && Words(nodes, paths) == startWords
    ensures keys[i] in nodes[curr] ==> nodes[curr][keys[i]].To? && nodes[curr][keys[i]].index < |nodes|
    ensures var (n2, c) := Insert(nodes, curr, keys[i], i + 1 == |keys|);
            && (i + 1 < |keys| ==> n2 == start || (|start| <= c && n2[c] == map[]))
            && (keys in startWords ==> n2 == nodes && AttachGhost(nodes, paths, parent, curr, keys[i]).0 == paths)
  {
    var key := keys[i];
    AttachStep(nodes, paths, parent, start, keys, i, curr);
    if key in nodes[curr] {
      assert LinkOk(nodes, paths, curr, key);
    }
  }

  /** Inserting one key keeps the graph a tree, extends it (the child's path is
      the node's path plus the key), and adds exactly `NewWords` to the stored words. */
  lemma InsertSpec(nodes: Arena, paths: seq<seq<string>>, parent: seq<nat>, node: nat, key: string, last: bool)
    requires WellFormed(nodes, paths, parent) && node < |nodes| && IsKey(key)
    requires key in nodes[node] ==> nodes[node][key].To? && nodes[node][key].index < |nodes|
    ensures WellFormed(Insert(nodes, node, key, last).0, AttachGhost(nodes, paths, parent, node, key).0,
                       AttachGhost(nodes, paths, parent, node, key).1)
    ensures Insert(nodes, node, key, last).1 < |Insert(nodes, node, key, last).0|
    ensures AttachGhost(nodes, paths, parent, node, key).0[Insert(nodes, node, key, last).1] == paths[node] + [key]
    ensures Grows(nodes, Insert(nodes, node, key, last).0) && paths <= AttachGhost(nodes, paths, parent, node, key).0
    ensures Words(Insert(nodes, node, key, last).0, AttachGhost(nodes, paths, parent, node, key).0)
         == Words(nodes, paths) + NewWords(paths[node], key, last)
  {
    AttachSpec(nodes, paths, parent, node, key);
    var created, child := Attach(nodes, node, key).0, Attach(nodes, node, key).1;
    var p2, q2 := AttachGhost(nodes, paths, parent, node, key).0, AttachGhost(nodes, paths, parent, node, key).1;
    if last {
      MarkSpec(created, p2, q2, child);
      GrowsTransitive(nodes, created, Mark(created, child));
    }
  }

  /** The tree part of Add's loop invariant carried across one key. */
  lemma AddStepTree(nodes: Arena, paths: seq<seq<string>>, parent: seq<nat>, start: Arena,
                    startWords: set<seq<string>>, keys: seq<string>, i: nat, curr: nat)
    requires WellFormed(nodes, paths, parent) && i < |keys| && curr < |nodes| && IsKey(keys[i])
    requires keys[i] in nodes[curr] ==> nodes[curr][keys[i]].To? && nodes[curr][keys[i]].index < |nodes|
    requires paths[curr] == keys[..i] && Grows(start, nodes)
    requires Words(nodes, paths) == startWords + AddedSoFar(keys, i)
    ensures var n2, c := Insert(nodes, curr, keys[i], i + 1 == |keys|).0, Insert(nodes, curr, keys[i], i + 1 == |keys|).1;
            var p2 := AttachGhost(nodes, paths, parent, curr, keys[i]).0;
            && WellFormed(n2, p2, AttachGhost(nodes, paths, parent, curr, keys[i]).1)
            && c < |n2| && p2[c] == keys[..i + 1] && Grows(start, n2)
            && Words(n2, p2) == startWords + AddedSoFar(keys, i + 1)
  {
    var last := i + 1 == |keys|;
    InsertSpec(nodes, paths, parent, curr, keys[i], last);
    AddedSoFarStep(keys, i);
    assert keys[..i + 1] == keys[..i] + [keys[i]];
    GrowsTransitive(start, nodes, Insert(nodes, curr, keys[i], last).0);
  }
}
