/** Add followed by Search, on a trie object: the stored-word facts of
    TrieProperties carried through the class's contracts to Search's result. */
module TrieUsage {
  import opened TrieText
  import opened TrieArena
  import opened TrieProperties
  import opened Trie

  /** In a well-formed trie, a key path without the end-of-word key never
      steps through the nil link stored under that key. */
  lemma {:induction false} WalkStarFree(nodes: Arena, paths: seq<seq<string>>, parent: seq<nat>, p: seq<string>)
    requires WellFormed(nodes, paths, parent) && Marker !in p
    ensures Walk(nodes, p) != NilDeref
    ensures Walk(nodes, p).Reached? ==> Walk(nodes, p).node < |nodes|
    decreases |p|
  {
    if p != [] {
      var q := p[..|p| - 1];
      assert forall k :: k in q ==> k in p;
      WalkStarFree(nodes, paths, parent, q);
      match Walk(nodes, q)
      case Reached(i) =>
        if p[|p| - 1] in nodes[i] {
          assert LinkOk(nodes, paths, i, p[|p| - 1]);
        }
      case _ =>
    }
  }

  /** Adding a space-free word and then searching for it, padded with any
      whitespace, finds it. */
  method AddThenSearch(t: Trie, w: string, a: string, b: string) returns (found: bool)
    requires t.Valid()
    requires Walk(t.nodes, Encode(Letters(Trim(w)))) != NilDeref
    requires AllSpace(a) && AllSpace(b)
    requires w != [] && !IsSpace(w[0]) && !IsSpace(w[|w| - 1]) && ' ' !in w
    modifies t
    ensures t.Valid() && found
  {
    ghost var before := t.Contents();
    t.Add(w);
    AddThenFound(before, w, a, b);
    WordsWalk(t.nodes, t.paths, t.parent, Letters(Trim(a + w + b)));
    found := t.Search(a + w + b);
  }

  /** A non-empty string without whitespace is left alone by trimming. */
  lemma TrimNoSpace(s: string)
    requires s != [] && forall c :: c in s ==> !IsSpace(c)
    ensures Trim(s) == s
  {
    assert s[0] in s && s[|s| - 1] in s;
    TrimPadded([], s, []);
    assert [] + s + [] == s;
  }

  /** The word holds no whitespace and no `*`. */
  predicate Plain(w: string) {
    w == [] || (!IsSpace(w[0]) && w[0] != '*' && Plain(w[1..]))
  }

  lemma {:induction false} PlainChars(w: string)
    requires Plain(w)
    ensures forall c :: c in w ==> !IsSpace(c) && c != '*'
  {
    if w != [] {
      PlainChars(w[1..]);
      assert forall c :: c in w ==> c == w[0] || c in w[1..];
    }
  }

  /** The letters of a prefix are the beginning of the letters. */
  lemma LettersPrefix(w: string, n: nat)
    requires n <= |w|
    ensures Letters(w[..n]) == Letters(w)[..n]
  {
    LettersIndex(w);
    LettersIndex(w[..n]);
  }

  /** Trimming a non-empty prefix of a plain word leaves it alone. */
  lemma PrefixTrim(w: string, n: nat)
    requires 0 < n <= |w| && Plain(w)
    ensures Letters(Trim(w[..n])) == Letters(w)[..n]
  {
    PlainChars(w);
    var p := w[..n];
    forall c | c in p ensures !IsSpace(c) {
      var i :| 0 <= i < |p| && p[i] == c;
      assert w[i] == c;
    }
    TrimNoSpace(p);
    LettersPrefix(w, n);
  }

  /** A plain word is stored under its own letters, none
      of which is the end-of-word key. */
  lemma StoredKeys(w: string)
    requires w != [] && Plain(w)
    ensures Encode(Letters(Trim(w))) == Letters(w) && Marker !in Letters(w)
  {
    PlainChars(w);
    assert ' ' !in w && '*' !in w;
    PhraseKeysUnmarked(w);
    TrimNoSpace(w);
    EncodeNoSpace(w);
  }

  /** Before the Add of AddThenSearchPrefix: the word is stored under its own
      `*`-free letters, which the trie can walk without a nil step, and the
      trimmed prefix's letters are their beginning. */
  lemma BeforeAdd(nodes: Arena, paths: seq<seq<string>>, parent: seq<nat>, w: string, n: nat)
    requires WellFormed(nodes, paths, parent)
    requires 0 < n < |w| && Plain(w)
    ensures Encode(Letters(Trim(w))) == Letters(w) && Marker !in Letters(w)
    ensures Walk(nodes, Letters(w)) != NilDeref
    ensures Letters(Trim(w[..n])) == Letters(w)[..n] && Letters(w[..n]) == Letters(w)[..n]
  {
    StoredKeys(w);
    PrefixTrim(w, n);
    LettersPrefix(w, n);
    WalkStarFree(nodes, paths, parent, Letters(w));
  }

  /** After the Add of AddThenSearchPrefix: a non-empty proper prefix of
      `*`-free keys that was not stored before can be walked without a nil
      step and is still not stored. */
  lemma AfterAdd(nodes: Arena, paths: seq<seq<string>>, parent: seq<nat>,
                 before: set<seq<string>>, keys: seq<string>, n: nat)
    requires WellFormed(nodes, paths, parent) && Words(nodes, paths) == before + AddedWords(keys)
    requires Marker !in keys && 0 < n < |keys| && keys[..n] !in before
    ensures Walk(nodes, keys[..n]) != NilDeref && keys[..n] !in Words(nodes, paths)
  {
    PrefixNotAdded(before, keys, keys[..n]);
    assert forall k :: k in keys[..n] ==> k in keys;
    WalkStarFree(nodes, paths, parent, keys[..n]);
  }

  /** Adding a word without whitespace or `*` and then searching for a
      non-empty proper prefix of it that was never stored does not find it. */
  method AddThenSearchPrefix(t: Trie, w: string, n: nat) returns (found: bool)
    requires t.Valid()
    requires 0 < n < |w| && Plain(w)
    requires Letters(w[..n]) !in t.Contents()
    modifies t
    ensures t.Valid() && !found
  {
    ghost var keys, before := Letters(w), t.Contents();
    BeforeAdd(t.nodes, t.paths, t.parent, w, n);
    t.Add(w);
    AfterAdd(t.nodes, t.paths, t.parent, before, keys, n);
    found := t.Search(w[..n]);
  }
}
