/** The character trie: insertion, exact search and breadth-first autocomplete. */
module Trie {
  import opened TrieText
  import opened TrieArena
  import opened TrieTraversal
  import opened TrieBfs

  class Trie {
    /** The child maps of all nodes; index 0 is the root. */
    var nodes: Arena
    /** The key path from the root to each node. */
    ghost var paths: seq<seq<string>>
    /** The node each node hangs under (the root's entry is unused). */
    ghost var parent: seq<nat>

    ghost predicate Valid()
      reads this
    {
      WellFormed(nodes, paths, parent)
    }

    /** The stored words, as key paths. */
    ghost function Contents(): set<seq<string>>
      reads this
    {
      Words(nodes, paths)
    }

    /** A trie holding only an empty root. */
    constructor ()
      ensures Valid() && Contents() == {}
      ensures nodes == [map[]]
    {
      nodes := [map[]];
      paths := [[]];
      parent := [0];
    }

    /** Follows or creates the child for one letter (translated) and, for the
        last letter, marks that child as the end of a word. */
    method AddLetter(node: nat, letter: string, isLastLetter: bool) returns (next: nat)
      requires Valid() && node < |nodes| && |letter| == 1
      requires Translate(letter) in nodes[node] ==> nodes[node][Translate(letter)].To?
                                                    && nodes[node][Translate(letter)].index < |nodes|
      modifies this
      ensures Valid()
      ensures (nodes, next) == Insert(old(nodes), node, Translate(letter), isLastLetter)
      ensures (paths, parent) == AttachGhost(old(nodes), old(paths), old(parent), node, Translate(letter))
    {
      var key := Translate(letter);
      InsertSpec(nodes, paths, parent, node, key, isLastLetter);
      if key in nodes[node] {
        next := nodes[node][key].index;
      } else {
        next := |nodes|;
        paths := paths + [paths[node] + [key]];
        parent := parent + [node];
        nodes := nodes[node := nodes[node][key := To(next)]] + [map[]];
      }
      if isLastLetter && Marker !in nodes[next] {
        nodes := nodes[next := nodes[next][Marker := Nil]];
      }
    }

    /** Adds a word: trims it, splits it into letters and walks or creates
        the path of translated keys, marking the last node. */
    method Add(word: string)
      requires Valid()
      requires Walk(nodes, Encode(Letters(Trim(word)))) != NilDeref
      modifies this
      ensures Valid()
      ensures Contents() == old(Contents()) + AddedWords(Encode(Letters(Trim(word))))
      ensures Grows(old(nodes), nodes)
      ensures var keys := Encode(Letters(Trim(word)));
              keys == [] || keys in old(Contents()) ==> nodes == old(nodes)
    {
      var letters := Letters(Trim(word));
      LettersIndex(Trim(word));
      EncodeIndex(letters);
      AddLetters(letters, Encode(letters));
    }

    /** Add's loop over the letters of a trimmed word; `keys` are their translations. */
    method AddLetters(letters: seq<string>, ghost keys: seq<string>)
      requires Valid() && |letters| == |keys|
      requires forall i :: 0 <= i < |letters| ==> |letters[i]| == 1 && keys[i] == Translate(letters[i]) && IsKey(keys[i])
      requires Walk(nodes, keys) != NilDeref
      modifies this
      ensures Valid()
      ensures Contents() == old(Contents()) + AddedWords(keys)
      ensures Grows(old(nodes), nodes)
      ensures keys == [] || keys in old(Contents()) ==> nodes == old(nodes)
    {
      var curr: nat := 0;
      ghost var start, startWords := nodes, Contents();
      for i := 0 to |letters|
        invariant Valid() && curr < |nodes| && paths[curr] == keys[..i]
        invariant Grows(start, nodes)
        invariant Contents() == startWords + AddedSoFar(keys, i)
        invariant i < |keys| ==> nodes == start || (|start| <= curr && nodes[curr] == map[])
        invariant keys in startWords || i == 0 ==> nodes == start && Contents() == startWords
      {
        InsertStep(nodes, paths, parent, start, startWords, keys, i, curr);
        AddStepTree(nodes, paths, parent, start, startWords, keys, i, curr);
        curr := AddLetter(curr, letters[i], i == |letters| - 1);
      }
      AddedSoFarAll(keys);
    }

    /** Looks up one raw (untranslated) letter below a node; for the last letter
        the child must also carry the end-of-word key. */
    method SearchLetter(node: nat, letter: string, isLastLetter: bool) returns (next: Link, found: bool)
      requires Valid() && node < |nodes|
      requires isLastLetter && letter in nodes[node] ==> nodes[node][letter].To?
      ensures letter in nodes[node] ==> next == nodes[node][letter]
      ensures next.To? ==> next.index < |nodes|
      ensures found <==> letter in nodes[node] && (isLastLetter ==> Marker in nodes[next.index])
    {
      if letter !in nodes[node] {
        return Nil, false;
      }
      next := nodes[node][letter];
      found := true;
      assert LinkOk(nodes, paths, node, letter);
      if isLastLetter {
        found := Marker in nodes[next.index];
      }
    }

    /** Exact membership. The query is trimmed and split but NOT translated,
        and an empty query walks nothing and succeeds. */
    method Search(word: string) returns (found: bool)
      requires Valid()
      requires Walk(nodes, Letters(Trim(word))) != NilDeref
      ensures found <==> Letters(Trim(word)) == [] || Letters(Trim(word)) in Contents()
    {
      found := SearchLetters(Letters(Trim(word)));
    }

    /** Search's loop over the letters of a trimmed query. */
    method SearchLetters(letters: seq<string>) returns (found: bool)
      requires Valid()
      requires Walk(nodes, letters) != NilDeref
      ensures found <==> letters == [] || letters in Contents()
    {
      var curr: nat := 0;
      WordsWalk(nodes, paths, parent, letters);
      for i := 0 to |letters|
        invariant curr < |nodes| && Walk(nodes, letters[..i]) == Reached(curr)
        invariant 0 < i == |letters| ==> Marker in nodes[curr]
      {
        var isLastLetter := i == |letters| - 1;
        assert letters[..i + 1][..i] == letters[..i];
        if letters[i] in nodes[curr] && nodes[curr][letters[i]].Nil? {
          assert Walk(nodes, letters[..i + 1]) == NilDeref;
          WalkPrefix(nodes, letters, i + 1);
          assert false;
        }
        var next, f := SearchLetter(curr, letters[i], isLastLetter);
        if !f {
          if letters[i] !in nodes[curr] {
            WalkPrefix(nodes, letters, i + 1);
          } else {
            assert letters[..i + 1] == letters;
          }
          return false;
        }
        assert LinkOk(nodes, paths, curr, letters[i]);
        curr := next.index;
      }
      assert letters[..|letters|] == letters;
      return true;
    }
    /** Suggestions for a prefix: nothing when fewer than one is asked for or
        when the prefix's raw letters lead nowhere; otherwise the breadth-first
        suggestions below the prefix's node. The prefix is neither trimmed nor
        translated. */
    method Autocomplete(prefix: string, maxResults: int) returns (suggestions: seq<string>)
      requires Valid()
      requires maxResults >= 1 ==> Walk(nodes, Letters(prefix)) != NilDeref
      ensures maxResults < 1 || Walk(nodes, Letters(prefix)).Missing? ==> suggestions == []
      ensures maxResults >= 1 ==> |suggestions| <= maxResults
      ensures forall i :: 0 <= i < |suggestions| ==>
                suggestions[i] in Completions(Contents(), Letters(prefix), prefix)
      ensures Distinct(suggestions) && ByLength(suggestions)
      ensures |suggestions| < maxResults ==>
                forall w :: w in Completions(Contents(), Letters(prefix), prefix) ==> w in suggestions
      ensures forall w :: w in Completions(Contents(), Letters(prefix), prefix) ==>
                suggestions != [] && |w| < |suggestions[|suggestions| - 1]| ==> w in suggestions
      ensures |Completions(Contents(), Letters(prefix), prefix)| <= maxResults ==>
                forall w :: w in Completions(Contents(), Letters(prefix), prefix) ==> w in suggestions
    {
      if maxResults < 1 {
        return [];
      }
      var found, curr := SearchPrefix(Letters(prefix));
      if !found {
        NoCompletions(nodes, paths, parent, Letters(prefix), prefix);
        return [];
      }
      WalkPath(nodes, paths, parent, Letters(prefix));
      suggestions := AutocompleteFrom(curr, prefix, maxResults);
      Exhaustive(suggestions, Completions(Contents(), Letters(prefix), prefix), maxResults);
    }

    /** Autocomplete's loop over the raw letters of the prefix: follows each
        one without requiring an end-of-word key, and reports a missing one. */
    method SearchPrefix(letters: seq<string>) returns (found: bool, node: nat)
      requires Valid()
      requires Walk(nodes, letters) != NilDeref
      ensures found <==> Walk(nodes, letters).Reached?
      ensures found ==> Walk(nodes, letters) == Reached(node) && node < |nodes|
    {
      node := 0;
      for i := 0 to |letters|
        invariant node < |nodes| && Walk(nodes, letters[..i]) == Reached(node)
      {
        assert letters[..i + 1][..i] == letters[..i];
        var next, f := SearchLetter(node, letters[i], false);
        if !f {
          WalkPrefix(nodes, letters, i + 1);
          return false, node;
        }
        if next.Nil? {
          WalkPrefix(nodes, letters, i + 1);
          assert false;
        }
        node := next.index;
      }
      assert letters[..|letters|] == letters;
      found := true;
    }

    /** The breadth-first traversal below node `s`: entries leave the front of
        the worklist; an end-of-word key adds the entry's text as a suggestion,
        stopping once `maxResults` are collected, and any other key queues the
        child with its key's text appended. Children are visited in an
        unspecified order. */
    method AutocompleteFrom(s: nat, prefix: string, maxResults: int) returns (suggestions: seq<string>)
      requires Valid() && s < |nodes| && maxResults >= 1
      ensures |suggestions| <= maxResults
      ensures forall i :: 0 <= i < |suggestions| ==> suggestions[i] in Completions(Contents(), paths[s], prefix)
      ensures Distinct(suggestions) && ByLength(suggestions)
      ensures |suggestions| < maxResults ==>
                forall w :: w in Completions(Contents(), paths[s], prefix) ==> w in suggestions
      ensures forall w :: w in Completions(Contents(), paths[s], prefix) ==>
                suggestions != [] && |w| < |suggestions[|suggestions| - 1]| ==> w in suggestions
    {
      suggestions := [];
      var stack := [Item(s, prefix)];
      ghost var done: set<nat>, order: seq<nat>, d := {}, [], 0;
      ghost var todo := Indices(|nodes|);
      IndicesBelow(|nodes|);
      BfsStart(nodes, paths, parent, s, prefix);
      while stack != []
        invariant Between(nodes, paths, parent, s, prefix, done, stack, order, suggestions, d)
        invariant |suggestions| < maxResults
        invariant forall v :: 0 <= v < |nodes| && v !in done ==> v in todo
        decreases todo
      {
        BfsPop(nodes, paths, parent, s, prefix, done, stack, order, suggestions, d);
        var curr := stack[0];
        stack := stack[1..];
        done, d, todo := done + {curr.node}, Depth(paths, s, curr.node), todo - {curr.node};
        var remaining := nodes[curr.node].Keys;
        while remaining != {}
          invariant curr.node < |nodes|
          invariant Expanding(nodes, paths, parent, s, prefix, done, curr, remaining, stack, order, suggestions, d)
          invariant |suggestions| < maxResults
          decreases remaining
        {
          var letter :| letter in remaining;
          if letter == Marker {
            BfsMarker(nodes, paths, parent, s, prefix, done, curr, remaining, stack, order, suggestions, d);
            suggestions, order := suggestions + [curr.prefix], order + [curr.node];
            remaining := remaining - {letter};
            if |suggestions| == maxResults {
              BfsFull(nodes, paths, parent, s, prefix, done, curr, remaining, stack, order, suggestions, d);
              return;
            }
          } else {
            BfsChild(nodes, paths, parent, s, prefix, done, curr, remaining, stack, order, suggestions, d, letter);
            var child := nodes[curr.node][letter].index;
            stack := stack + [Item(child, curr.prefix + Translate(letter))];
            remaining := remaining - {letter};
          }
        }
        BfsFinish(nodes, paths, parent, s, prefix, done, curr, stack, order, suggestions, d);
      }
      BfsDone(nodes, paths, parent, s, prefix, done, order, suggestions, d);
    }
  }
}
