/** What Add, Search and Autocomplete promise together, stated on the stored
    words: the class's contracts say how each call changes or reads them. */
module TrieProperties {
  import opened TrieText
  import opened TrieArena
  import opened TrieTraversal

  /** A word without spaces (it may carry any other whitespace inside) is
      found after it is added, also when the query pads it with whitespace:
      the padded query's letters are among the words Add stored. */
  lemma AddThenFound(before: set<seq<string>>, w: string, a: string, b: string)
    requires AllSpace(a) && AllSpace(b)
    requires w != [] && !IsSpace(w[0]) && !IsSpace(w[|w| - 1]) && ' ' !in w
    ensures Letters(Trim(a + w + b)) in before + AddedWords(Encode(Letters(Trim(w))))
  {
    var keys := Letters(w);
    assert Letters(Trim(a + w + b)) == keys by { TrimPadded(a, w, b); }
    assert Encode(Letters(Trim(w))) == keys by {
      TrimPadded([], w, []);
      assert [] + w + [] == w;
      EncodeNoSpace(w);
    }
    assert keys != [] by { assert |keys| == |w|; }
    assert keys in AddedWords(keys);
  }

  /** A proper prefix of what an Add stored, in a word without `*`, is a
      stored word only when it was one before: Search of it stays false. */
  lemma PrefixNotAdded(before: set<seq<string>>, keys: seq<string>, p: seq<string>)
    requires Marker !in keys && |p| < |keys| && p == keys[..|p|]
    requires p !in before
    ensures p !in before + AddedWords(keys)
  {
    AddedWordsStarFree(keys);
  }

  /** The keys of a phrase begin with the letters of any space-free beginning of it. */
  lemma PhraseKeysPrefix(q: string, r: string)
    requires ' ' !in q
    ensures |q| <= |Encode(Letters(q + r))| && Encode(Letters(q + r))[..|q|] == Letters(q)
  {
    var ph := q + r;
    LettersIndex(ph);
    EncodeIndex(Letters(ph));
    LettersIndex(q);
    forall i | 0 <= i < |q| ensures Encode(Letters(ph))[..|q|][i] == Letters(q)[i] {
      assert ph[i] == q[i] && q[i] != ' ';
    }
  }

  /** Without a `*` in the phrase, no stored key of it is the end-of-word key. */
  lemma PhraseKeysUnmarked(ph: string)
    requires '*' !in ph
    ensures Marker !in Encode(Letters(ph))
  {
    LettersIndex(ph);
    EncodeIndex(Letters(ph));
    forall i | 0 <= i < |ph| ensures Encode(Letters(ph))[i] != Marker {
      assert ph[i] != '*';
    }
  }

  /** A stored word that extends `p` without an end-of-word key gives the
      completion of `p`'s text by the rest of the word's text. */
  lemma CompletionOf(words: set<seq<string>>, keys: seq<string>, p: seq<string>, q: string, r: string)
    requires keys in words && |p| <= |keys| && keys[..|p|] == p && Marker !in keys
    requires Decode(keys) == q + r && Decode(p) == q
    ensures q + r in Completions(words, p, q)
  {
    var rest := keys[|p|..];
    assert keys == p + rest;
    assert Marker !in rest by {
      forall i | 0 <= i < |rest| ensures rest[i] != Marker {
        assert rest[i] == keys[|p| + i];
      }
    }
    DecodeAppend(p, rest);
    assert Decode(rest) == r by {
      assert q + Decode(rest) == q + r;
      assert Decode(rest) == (q + Decode(rest))[|q|..];
      assert r == (q + r)[|q|..];
    }
  }

  /** A stored phrase comes back from autocomplete with its spaces restored:
      completing any space-free beginning of it yields the whole phrase. */
  lemma PhraseCompletion(words: set<seq<string>>, q: string, r: string)
    requires Encode(Letters(q + r)) in words
    requires ' ' !in q && '*' !in q + r
    ensures q + r in Completions(words, Letters(q), q)
  {
    PhraseKeysPrefix(q, r);
    PhraseKeysUnmarked(q + r);
    DecodeEncode(q + r);
    EncodeNoSpace(q);
    DecodeEncode(q);
    CompletionOf(words, Encode(Letters(q + r)), Letters(q), q, r);
  }
}
