/** Text handling used by the trie: whitespace trimming, splitting a word
    into one-character letters, and the space/escape translation table. */
module TrieText {

  /** The reserved child key that marks the end of a word. */
  const Marker: string := "*"

  /** The key under which a space is stored (the translation table's other entry). */
  const Escape: string := "=||="

  /** The ASCII whitespace characters that the trimming removes. */
  predicate IsSpace(c: char) {
    c == ' ' || c == '\t' || c == '\n' || c == '\r' || c == '\U{000B}' || c == '\U{000C}'
  }

  predicate AllSpace(s: string) {
    forall i :: 0 <= i < |s| ==> IsSpace(s[i])
  }

  /** Removes leading whitespace. */
  function TrimLeft(s: string): (r: string)
    ensures |r| <= |s| && r == s[|s| - |r|..]
    ensures r == [] || !IsSpace(r[0])
    ensures AllSpace(s[..|s| - |r|])
  {
    if |s| > 0 && IsSpace(s[0]) then TrimLeft(s[1..]) else s
  }

  /** Removes trailing whitespace. */
  function TrimRight(s: string): (r: string)
    ensures |r| <= |s| && r == s[..|r|]
    ensures r == [] || !IsSpace(r[|r| - 1])
    ensures AllSpace(s[|r|..])
  {
    if |s| > 0 && IsSpace(s[|s| - 1]) then
      var r := TrimRight(s[..|s| - 1]);
      assert s[|r|..] == s[..|s| - 1][|r|..] + [s[|s| - 1]];
      r
    else s
  }

  /** Leading and trailing whitespace removed, as the trie does to every word it adds or searches. */
  function Trim(s: string): string {
    TrimRight(TrimLeft(s))
  }

  lemma {:induction false} TrimLeftPadded(a: string, w: string)
    requires AllSpace(a)
    requires w == [] || !IsSpace(w[0])
    ensures TrimLeft(a + w) == w
  {
    if a != [] {
      assert (a + w)[1..] == a[1..] + w;
      TrimLeftPadded(a[1..], w);
    } else {
      assert a + w == w;
    }
  }

  lemma {:induction false} TrimRightPadded(w: string, b: string)
    requires AllSpace(b)
    requires w == [] || !IsSpace(w[|w| - 1])
    ensures TrimRight(w + b) == w
  {
    if b != [] {
      assert (w + b)[..|w + b| - 1] == w + b[..|b| - 1];
      TrimRightPadded(w, b[..|b| - 1]);
    } else {
      assert w + b == w;
    }
  }

  /** Trimming ignores any whitespace padding around a word that has none at its ends. */
  lemma TrimPadded(a: string, w: string, b: string)
    requires AllSpace(a) && AllSpace(b)
    requires w != [] && !IsSpace(w[0]) && !IsSpace(w[|w| - 1])
    ensures Trim(a + w + b) == w
  {
    assert a + w + b == a + (w + b);
    TrimLeftPadded(a, w + b);
    TrimRightPadded(w, b);
  }

  /** A string made only of whitespace trims to the empty string. */
  lemma TrimAllSpace(s: string)
    requires AllSpace(s)
    ensures Trim(s) == []
  {
    assert s == s + [];
    TrimLeftPadded(s, []);
  }

  /** A string split into its one-character letters. */
  function Letters(s: string): (r: seq<string>)
    ensures |r| == |s|
  {
    if s == [] then [] else Letters(s[..|s| - 1]) + [[s[|s| - 1]]]
  }

  lemma {:induction false} LettersIndex(s: string)
    ensures forall i :: 0 <= i < |s| ==> Letters(s)[i] == [s[i]]
  {
    if s != [] {
      LettersIndex(s[..|s| - 1]);
    }
  }

  /** Concatenation of a sequence of strings (the inverse of the split). */
  function Join(parts: seq<string>): string
  {
    if parts == [] then [] else Join(parts[..|parts| - 1]) + parts[|parts| - 1]
  }

  lemma {:induction false} JoinLetters(s: string)
    ensures Join(Letters(s)) == s
  {
    if s != [] {
      assert Letters(s)[..|s| - 1] == Letters(s[..|s| - 1]);
      JoinLetters(s[..|s| - 1]);
    }
  }

  /** The two-entry translation table: a space and the escape swap places,
      every other key is left alone. */
  function Translate(letter: string): string
  {
    if letter == " " then Escape else if letter == Escape then " " else letter
  }

  /** The table is its own inverse. */
  lemma TranslateInvolution(letter: string)
    ensures Translate(Translate(letter)) == letter
  {
  }

  /** The keys that Add stores: the translation of a one-character letter. */
  predicate IsKey(k: string) {
    k == Escape || (|k| == 1 && k != " ")
  }

  /** A letter sequence as the keys Add stores it under. */
  function Encode(letters: seq<string>): (keys: seq<string>)
    ensures |keys| == |letters|
  {
    if letters == [] then [] else Encode(letters[..|letters| - 1]) + [Translate(letters[|letters| - 1])]
  }

  lemma {:induction false} EncodeIndex(letters: seq<string>)
    ensures forall i :: 0 <= i < |letters| ==> Encode(letters)[i] == Translate(letters[i])
  {
    if letters != [] {
      EncodeIndex(letters[..|letters| - 1]);
    }
  }

  /** A key path as the text autocomplete rebuilds from it. */
  function Decode(keys: seq<string>): string
  {
    if keys == [] then [] else Decode(keys[..|keys| - 1]) + Translate(keys[|keys| - 1])
  }

  /** Every key Add stores for a word is one of the keys Add can store. */
  lemma EncodeKeys(s: string)
    ensures forall i :: 0 <= i < |s| ==> IsKey(Encode(Letters(s))[i])
  {
    LettersIndex(s);
    EncodeIndex(Letters(s));
  }

  /** Every stored key decodes to exactly one character, so a key path and its text have the same length. */
  lemma {:induction false} DecodeLength(keys: seq<string>)
    requires forall i :: 0 <= i < |keys| ==> IsKey(keys[i])
    ensures |Decode(keys)| == |keys|
  {
    if keys != [] {
      DecodeLength(keys[..|keys| - 1]);
    }
  }

  lemma LettersSnoc(s: string, c: char)
    ensures Letters(s + [c]) == Letters(s) + [[c]]
  {
    assert (s + [c])[..|s|] == s;
  }

  lemma EncodeSnoc(letters: seq<string>, x: string)
    ensures Encode(letters + [x]) == Encode(letters) + [Translate(x)]
  {
    assert (letters + [x])[..|letters|] == letters;
  }

  /** Reverse round trip: splitting and encoding the text of stored keys gives the keys back. */
  lemma {:induction false} EncodeDecode(keys: seq<string>)
    requires forall i :: 0 <= i < |keys| ==> IsKey(keys[i])
    ensures Encode(Letters(Decode(keys))) == keys
  {
    if keys != [] {
      var n := |keys| - 1;
      var d, t := Decode(keys[..n]), Translate(keys[n]);
      EncodeDecode(keys[..n]);
      assert t == [t[0]];
      LettersSnoc(d, t[0]);
      EncodeSnoc(Letters(d), t);
      TranslateInvolution(keys[n]);
      assert keys == keys[..n] + [keys[n]];
    }
  }

  /** Different key paths decode to different text. */
  lemma DecodeInjective(p: seq<string>, q: seq<string>)
    requires forall i :: 0 <= i < |p| ==> IsKey(p[i])
    requires forall i :: 0 <= i < |q| ==> IsKey(q[i])
    requires Decode(p) == Decode(q)
    ensures p == q
  {
    EncodeDecode(p);
    EncodeDecode(q);
  }

  /** Decoding a path extended by one key appends that key's text. */
  lemma DecodeSnoc(keys: seq<string>, k: string)
    ensures Decode(keys + [k]) == Decode(keys) + Translate(k)
  {
    assert (keys + [k])[..|keys + [k]| - 1] == keys;
  }

  /** Decoding distributes over concatenation. */
  lemma {:induction false} DecodeAppend(a: seq<string>, b: seq<string>)
    ensures Decode(a + b) == Decode(a) + Decode(b)
  {
    if b != [] {
      var b' := b[..|b| - 1];
      assert a + b == (a + b') + [b[|b| - 1]];
      assert b == b' + [b[|b| - 1]];
      DecodeSnoc(a + b', b[|b| - 1]);
      DecodeSnoc(b', b[|b| - 1]);
      DecodeAppend(a, b');
    } else {
      assert a + b == a;
    }
  }

  /** Phrase round trip: the keys a word is stored under decode back to the word, spaces included. */
  lemma {:induction false} DecodeEncode(s: string)
    ensures Decode(Encode(Letters(s))) == s
  {
    if s != [] {
      var s', c := s[..|s| - 1], s[|s| - 1];
      assert s == s' + [c];
      LettersSnoc(s', c);
      EncodeSnoc(Letters(s'), [c]);
      DecodeSnoc(Encode(Letters(s')), Translate([c]));
      DecodeEncode(s');
      TranslateInvolution([c]);
    }
  }

  /** Without a space in the word, the stored keys are the letters themselves. */
  lemma EncodeNoSpace(s: string)
    requires ' ' !in s
    ensures Encode(Letters(s)) == Letters(s)
  {
    LettersIndex(s);
    EncodeIndex(Letters(s));
    assert forall i :: 0 <= i < |s| ==> Letters(s)[i] != " " by {
      forall i | 0 <= i < |s| ensures Letters(s)[i] != " " {
        assert s[i] != ' ';
      }
    }
  }
}
