/** What autocomplete promises, stated on the node graph: the completions of a
    prefix, and the facts about the subtree below the prefix's node that the
    breadth-first worklist traversal relies on. */
module TrieTraversal {
  import opened TrieText
  import opened TrieArena

  /** The text of every stored word that extends the key path `p` without
      passing through an end-of-word key, rebuilt from `prefix`. */
  function Completions(words: set<seq<string>>, p: seq<string>, prefix: string): set<string>
  {
    set w | w in words && |p| <= |w| && w[..|p|] == p && Marker !in w[|p|..] :: prefix + Decode(w[|p|..])
  }

  predicate Distinct<T(==)>(s: seq<T>) {
    forall i, j :: 0 <= i < j < |s| ==> s[i] != s[j]
  }

  /** Shorter strings come first. */
  predicate ByLength(s: seq<string>) {
    forall i, j :: 0 <= i <= j < |s| ==> |s[i]| <= |s[j]|
  }

  /** Node `j` lies below node `s`, reached from it without crossing an end-of-word key. */
  ghost predicate InSub(paths: seq<seq<string>>, s: nat, j: nat)
    requires s < |paths|
  {
    j < |paths| && |paths[s]| <= |paths[j]| && paths[j][..|paths[s]|] == paths[s]
    && Marker !in paths[j][|paths[s]|..]
  }

  /** How many keys below `s` node `j` lies. */
  ghost function Depth(paths: seq<seq<string>>, s: nat, j: nat): int
    requires s < |paths| && j < |paths|
  {
    |paths[j]| - |paths[s]|
  }

  /** The text the traversal has accumulated when it reaches node `j`. */
  ghost function Completion(paths: seq<seq<string>>, s: nat, prefix: string, j: nat): string
    requires s < |paths| && InSub(paths, s, j)
  {
    prefix + Decode(paths[j][|paths[s]|..])
  }

  /** The root of the subtree is in it, at depth zero. */
  lemma SubRoot(paths: seq<seq<string>>, s: nat, prefix: string)
    requires s < |paths|
    ensures InSub(paths, s, s) && Depth(paths, s, s) == 0 && Completion(paths, s, prefix, s) == prefix
  {
    assert paths[s][|paths[s]|..] == [];
  }

  /** Any node of the subtree other than its root has its parent in the subtree, one key higher. */
  lemma SubParent(nodes: Arena, paths: seq<seq<string>>, parent: seq<nat>, s: nat, j: nat)
    requires WellFormed(nodes, paths, parent) && s < |nodes|
    requires InSub(paths, s, j) && j != s
    ensures 0 < j && parent[j] < |nodes| && InSub(paths, s, parent[j])
    ensures paths[j] == paths[parent[j]] + [paths[j][|paths[j]| - 1]]
    ensures paths[j][|paths[j]| - 1] != Marker
    ensures Depth(paths, s, j) == Depth(paths, s, parent[j]) + 1
  {
    if |paths[j]| == |paths[s]| {
      assert paths[j] == paths[s];
      PathsInjective(nodes, paths, parent, j, s);
      assert false;
    }
    assert paths[j] != [];
    var p := parent[j];
    var k := paths[j][|paths[j]| - 1];
    assert LinkOk(nodes, paths, p, k);
    var n := |paths[s]|;
    assert paths[p] == paths[j][..|paths[j]| - 1];
    assert paths[p][..n] == paths[j][..n];
    assert paths[p][n..] == paths[j][n..][..|paths[j]| - 1 - n];
    assert k == paths[j][n..][|paths[j]| - 1 - n];
  }

  /** A non-marker child of a subtree node is in the subtree, one key lower, with that key's text appended. */
  lemma SubChild(nodes: Arena, paths: seq<seq<string>>, parent: seq<nat>, s: nat, prefix: string, x: nat, k: string)
    requires WellFormed(nodes, paths, parent) && s < |nodes|
    requires InSub(paths, s, x) && k in nodes[x] && k != Marker
    ensures nodes[x][k].To?
    ensures var c := nodes[x][k].index;
            && c < |nodes| && c != s && InSub(paths, s, c) && parent[c] == x
            && paths[c] == paths[x] + [k]
            && Depth(paths, s, c) == Depth(paths, s, x) + 1
            && Completion(paths, s, prefix, c) == Completion(paths, s, prefix, x) + Translate(k)
  {
    assert LinkOk(nodes, paths, x, k);
    var c := nodes[x][k].index;
    var n := |paths[s]|;
    assert paths[c][..n] == paths[x][..n];
    assert paths[c][n..] == paths[x][n..] + [k];
    DecodeSnoc(paths[x][n..], k);
    var q := parent[c];
    var kc := paths[c][|paths[c]| - 1];
    assert kc == k;
    assert LinkOk(nodes, paths, q, kc);
    assert paths[q] == paths[x];
    PathsInjective(nodes, paths, parent, q, x);
  }

  /** A completion has exactly one character per key below the prefix. */
  lemma CompletionLength(nodes: Arena, paths: seq<seq<string>>, parent: seq<nat>, s: nat, prefix: string, j: nat)
    requires WellFormed(nodes, paths, parent) && s < |nodes| && InSub(paths, s, j)
    ensures |Completion(paths, s, prefix, j)| == |prefix| + Depth(paths, s, j)
  {
    PathKeys(nodes, paths, parent, j);
    var q := paths[j][|paths[s]|..];
    assert forall m :: 0 <= m < |q| ==> q[m] == paths[j][|paths[s]| + m];
    DecodeLength(q);
  }

  /** Different nodes of the subtree give different completions. */
  lemma CompletionInjective(nodes: Arena, paths: seq<seq<string>>, parent: seq<nat>, s: nat, prefix: string, i: nat, j: nat)
    requires WellFormed(nodes, paths, parent) && s < |nodes|
    requires InSub(paths, s, i) && InSub(paths, s, j)
    requires Completion(paths, s, prefix, i) == Completion(paths, s, prefix, j)
    ensures i == j
  {
    var n := |paths[s]|;
    var qi, qj := paths[i][n..], paths[j][n..];
    PathKeys(nodes, paths, parent, i);
    PathKeys(nodes, paths, parent, j);
    assert forall m :: 0 <= m < |qi| ==> qi[m] == paths[i][n + m];
    assert forall m :: 0 <= m < |qj| ==> qj[m] == paths[j][n + m];
    assert prefix + Decode(qi) == prefix + Decode(qj);
    assert Decode(qi) == (prefix + Decode(qi))[|prefix|..];
    assert Decode(qj) == (prefix + Decode(qj))[|prefix|..];
    DecodeInjective(qi, qj);
    assert paths[i] == paths[i][..n] + qi && paths[j] == paths[j][..n] + qj;
    PathsInjective(nodes, paths, parent, i, j);
  }

  /** A marked node of the subtree gives one of the completions. */
  lemma CompletionIn(nodes: Arena, paths: seq<seq<string>>, parent: seq<nat>, s: nat, prefix: string, j: nat)
    requires WellFormed(nodes, paths, parent) && s < |nodes|
    requires InSub(paths, s, j) && Marker in nodes[j]
    ensures Completion(paths, s, prefix, j) in Completions(Words(nodes, paths), paths[s], prefix)
  {
    WordsIntro(nodes, paths, j);
  }

  /** Every completion comes from a marked node of the subtree. */
  lemma CompletionNode(nodes: Arena, paths: seq<seq<string>>, parent: seq<nat>, s: nat, prefix: string, c: string)
    returns (j: nat)
    requires WellFormed(nodes, paths, parent) && s < |nodes|
    requires c in Completions(Words(nodes, paths), paths[s], prefix)
    ensures InSub(paths, s, j) && Marker in nodes[j] && c == Completion(paths, s, prefix, j)
  {
    var w :| w in Words(nodes, paths) && |paths[s]| <= |w| && w[..|paths[s]|] == paths[s]
             && Marker !in w[|paths[s]|..] && c == prefix + Decode(w[|paths[s]|..]);
    j := WordsElim(nodes, paths, w);
  }

  /** A prefix whose walk finds a missing key has no completions. */
  lemma NoCompletions(nodes: Arena, paths: seq<seq<string>>, parent: seq<nat>, p: seq<string>, prefix: string)
    requires WellFormed(nodes, paths, parent) && Walk(nodes, p).Missing?
    ensures Completions(Words(nodes, paths), p, prefix) == {}
  {
    if c :| c in Completions(Words(nodes, paths), p, prefix) {
      var w :| w in Words(nodes, paths) && |p| <= |w| && w[..|p|] == p;
      WordsWalk(nodes, paths, parent, w);
      WalkPrefix(nodes, w, |p|);
      assert false;
    }
  }

  /** Breadth-first coverage: if the subtree's root is finished or pending, and
      every child of a finished node is finished or pending, then every node not
      yet finished sits below a pending node that is no deeper than it. */
  lemma {:induction false} Frontier(nodes: Arena, paths: seq<seq<string>>, parent: seq<nat>, s: nat,
                                    done: set<nat>, pending: set<nat>, j: nat) returns (a: nat)
    requires WellFormed(nodes, paths, parent) && s < |nodes|
    requires s in done + pending
    requires forall v: nat :: InSub(paths, s, v) && v != s && parent[v] in done ==> v in done + pending
    requires InSub(paths, s, j) && j !in done
    ensures a in pending && a < |paths| && Depth(paths, s, a) <= Depth(paths, s, j)
    decreases |paths[j]|
  {
    if j == s {
      a := s;
    } else {
      SubParent(nodes, paths, parent, s, j);
      var p := parent[j];
      if p in done {
        a := j;
      } else {
        a := Frontier(nodes, paths, parent, s, done, pending, p);
      }
    }
  }

  /** What the traversal's bookkeeping yields for the collected suggestions:
      all are completions, without repeats, shortest first; none shorter than
      the pending work's depth is missing, and when nothing is pending none is
      missing at all. */
  lemma Conclude(nodes: Arena, paths: seq<seq<string>>, parent: seq<nat>, s: nat, prefix: string,
                 done: set<nat>, pending: set<nat>, order: seq<nat>, suggestions: seq<string>, bound: int)
    requires WellFormed(nodes, paths, parent) && s < |nodes|
    requires s in done + pending
    requires forall v: nat :: InSub(paths, s, v) && v != s && parent[v] in done ==> v in done + pending
    requires forall a :: a in pending ==> InSub(paths, s, a) && bound <= Depth(paths, s, a)
    requires |order| == |suggestions|
    requires forall i :: 0 <= i < |order| ==> InSub(paths, s, order[i]) && Marker in nodes[order[i]]
    requires forall i :: 0 <= i < |order| ==> suggestions[i] == Completion(paths, s, prefix, order[i])
    requires Distinct(order)
    requires forall v :: v in done ==> v < |nodes| && InSub(paths, s, v) && (Marker in nodes[v] ==> v in order)
    requires forall i, j :: 0 <= i <= j < |order| ==>
               order[i] < |paths| && order[j] < |paths| && Depth(paths, s, order[i]) <= Depth(paths, s, order[j])
    ensures forall i :: 0 <= i < |suggestions| ==> suggestions[i] in Completions(Words(nodes, paths), paths[s], prefix)
    ensures Distinct(suggestions)
    ensures ByLength(suggestions)
    ensures forall c :: c in Completions(Words(nodes, paths), paths[s], prefix) && |c| < |prefix| + bound ==> c in suggestions
    ensures pending == {} ==> forall c :: c in Completions(Words(nodes, paths), paths[s], prefix) ==> c in suggestions
  {
    forall i | 0 <= i < |suggestions|
      ensures suggestions[i] in Completions(Words(nodes, paths), paths[s], prefix)
    {
      CompletionIn(nodes, paths, parent, s, prefix, order[i]);
    }
    forall i, j | 0 <= i < j < |suggestions| ensures suggestions[i] != suggestions[j] {
      if suggestions[i] == suggestions[j] {
        CompletionInjective(nodes, paths, parent, s, prefix, order[i], order[j]);
      }
    }
    forall i, j | 0 <= i <= j < |suggestions| ensures |suggestions[i]| <= |suggestions[j]| {
      CompletionLength(nodes, paths, parent, s, prefix, order[i]);
      CompletionLength(nodes, paths, parent, s, prefix, order[j]);
    }
    forall c | c in Completions(Words(nodes, paths), paths[s], prefix) && (|c| < |prefix| + bound || pending == {})
      ensures c in suggestions
    {
      var j := CompletionNode(nodes, paths, parent, s, prefix, c);
      CompletionLength(nodes, paths, parent, s, prefix, j);
      if j !in done {
        var a := Frontier(nodes, paths, parent, s, done, pending, j);
        assert false;
      }
      var i :| 0 <= i < |order| && order[i] == j;
      assert suggestions[i] == c;
    }
  }

  /** A repeat-free list drawn from a set at least as large as the set lists all of it. */
  lemma {:induction false} AllListed(s: seq<string>, c: set<string>)
    requires Distinct(s) && (forall i :: 0 <= i < |s| ==> s[i] in c) && |c| <= |s|
    ensures forall w :: w in c ==> w in s
  {
    if s != [] {
      var n := |s| - 1;
      var s', c' := s[..n], c - {s[n]};
      forall i | 0 <= i < |s'| ensures s'[i] in c' {
        assert s'[i] == s[i] && s[i] != s[n];
      }
      assert Distinct(s') by {
        forall i, j | 0 <= i < j < |s'| ensures s'[i] != s'[j] {
          assert s'[i] == s[i] && s'[j] == s[j];
        }
      }
      AllListed(s', c');
      forall w | w in c ensures w in s {
        if w != s[n] {
          assert w in s';
          var i :| 0 <= i < |s'| && s'[i] == w;
          assert s[i] == w;
        }
      }
    }
  }

  /** A bounded, repeat-free list of completions that lists all of them
      whenever it is not full lists all of them whenever there are no more
      than the bound. */
  lemma Exhaustive(s: seq<string>, c: set<string>, bound: int)
    requires Distinct(s) && (forall i :: 0 <= i < |s| ==> s[i] in c) && |s| <= bound
    requires |s| < bound ==> forall w :: w in c ==> w in s
    ensures |c| <= bound ==> forall w :: w in c ==> w in s
  {
    if |c| <= bound && |s| == bound {
      AllListed(s, c);
    }
  }
}
