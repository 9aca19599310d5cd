/**
 * get_edit_distance_one_words in finder.py: the dictionary words one edit
 * away from a word, as a list in the order they are tried (all deletions,
 * then all insertions, then all substitutions), duplicates included.
 */
module Suggestions {
  import opened Edits

  /** The candidates of cs that are in the dictionary, in their order in cs. */
  function Filter(dictionary: set<string>, cs: seq<string>): seq<string> {
    if cs == [] then []
    else
      var last := cs[|cs| - 1];
      Filter(dictionary, cs[..|cs| - 1]) + if last in dictionary then [last] else []
  }

  /** What the generator returns for word: three groups, each in loop order. */
  function Suggest(dictionary: set<string>, word: string): seq<string> {
    Filter(dictionary, Deletions(word)) + Filter(dictionary, Insertions(word)) + Filter(dictionary, Substitutions(word))
  }

  // ----- Filter -----

  /** Trying one more candidate appends it when it is a dictionary word. */
  lemma FilterSnoc(dictionary: set<string>, cs: seq<string>, x: string)
    ensures Filter(dictionary, cs + [x]) == Filter(dictionary, cs) + if x in dictionary then [x] else []
  {
    assert (cs + [x])[..|cs|] == cs;
  }

  lemma {:induction false} FilterAppend(dictionary: set<string>, a: seq<string>, b: seq<string>)
    ensures Filter(dictionary, a + b) == Filter(dictionary, a) + Filter(dictionary, b)
    decreases |b|
  {
    if b == [] {
      assert a + b == a;
    } else {
      var init, last := b[..|b| - 1], b[|b| - 1];
      assert a + b == (a + init) + [last];
      assert b == init + [last];
      FilterSnoc(dictionary, a + init, last);
      FilterSnoc(dictionary, init, last);
      FilterAppend(dictionary, a, init);
    }
  }

  lemma {:induction false} FilterMembers(dictionary: set<string>, cs: seq<string>, v: string)
    ensures v in Filter(dictionary, cs) <==> v in cs && v in dictionary
  {
    if cs != [] {
      var init := cs[..|cs| - 1];
      FilterMembers(dictionary, init, v);
      assert cs == init + [cs[|cs| - 1]];
    }
  }

  lemma {:induction false} FilterSize(dictionary: set<string>, cs: seq<string>)
    ensures |Filter(dictionary, cs)| <= |cs|
  {
    if cs != [] {
      FilterSize(dictionary, cs[..|cs| - 1]);
    }
  }

  // ----- What the generator promises -----

  /** The suggestions are exactly the dictionary words one edit away. */
  lemma SuggestMembers(dictionary: set<string>, word: string, v: string)
    ensures v in Suggest(dictionary, word) <==> v in dictionary && OneEdit(word, v)
  {
    FilterMembers(dictionary, Deletions(word), v);
    FilterMembers(dictionary, Insertions(word), v);
    FilterMembers(dictionary, Substitutions(word), v);
    InCandidates(word, v);
  }

  /** The word itself is never suggested, and every suggestion is at most one letter longer or shorter. */
  lemma SuggestChanges(dictionary: set<string>, word: string)
    ensures word !in Suggest(dictionary, word)
    ensures forall v :: v in Suggest(dictionary, word) ==> |word| - 1 <= |v| <= |word| + 1
  {
    forall v | v in Suggest(dictionary, word)
      ensures v != word && |word| - 1 <= |v| <= |word| + 1
    {
      SuggestMembers(dictionary, word, v);
      OneEditChanges(word, v);
    }
  }

  /**
   * At most one suggestion per candidate tried: |w| + 26 (|w| + 1) + 25 |w|
   * for an a–z word, and 26 |w| substitutions at most otherwise.
   */
  lemma SuggestSize(dictionary: set<string>, word: string)
    ensures |Suggest(dictionary, word)| <= |word| + 26 * (|word| + 1) + 26 * |word|
    ensures Lowercase(word) ==> |Suggest(dictionary, word)| <= |word| + 26 * (|word| + 1) + 25 * |word|
  {
    FilterSize(dictionary, Deletions(word));
    FilterSize(dictionary, Insertions(word));
    FilterSize(dictionary, Substitutions(word));
    CandidateCounts(word);
  }

  /** A dictionary holding every candidate keeps them all. */
  lemma {:induction false} FilterAll(dictionary: set<string>, cs: seq<string>)
    requires forall k :: 0 <= k < |cs| ==> cs[k] in dictionary
    ensures Filter(dictionary, cs) == cs
  {
    if cs != [] {
      FilterAll(dictionary, cs[..|cs| - 1]);
      assert cs == cs[..|cs| - 1] + [cs[|cs| - 1]];
    }
  }

  /**
   * The a–z bound is not a bound for other words: when word has a letter
   * outside a–z and the dictionary holds every candidate, there are more
   * than |w| + 26 (|w| + 1) + 25 |w| suggestions.
   */
  lemma OtherLetterExceedsBound(word: string, i: nat)
    requires i < |word| && word[i] !in Alphabet
    ensures var dictionary := set c | c in Deletions(word) + Insertions(word) + Substitutions(word);
      |Suggest(dictionary, word)| > |word| + 26 * (|word| + 1) + 25 * |word|
  {
    var all := Deletions(word) + Insertions(word) + Substitutions(word);
    var dictionary := set c | c in all;
    forall k | 0 <= k < |Deletions(word)| ensures Deletions(word)[k] in dictionary {
      assert Deletions(word)[k] == all[k];
    }
    forall k | 0 <= k < |Insertions(word)| ensures Insertions(word)[k] in dictionary {
      assert Insertions(word)[k] == all[|Deletions(word)| + k];
    }
    forall k | 0 <= k < |Substitutions(word)| ensures Substitutions(word)[k] in dictionary {
      assert Substitutions(word)[k] == all[|Deletions(word)| + |Insertions(word)| + k];
    }
    FilterAll(dictionary, Deletions(word));
    FilterAll(dictionary, Insertions(word));
    FilterAll(dictionary, Substitutions(word));
    CandidateCounts(word);
    SubstitutionsUpToAtLeast(word, |word|, i);
  }

  /** The word "A": a dictionary holding all of its candidates gives more than the 78 suggestions the a–z bound allows. */
  lemma UpperCaseExceedsBound()
    ensures var dictionary := set c | c in Deletions("A") + Insertions("A") + Substitutions("A");
      |Suggest(dictionary, "A")| > 1 + 26 * 2 + 25
  {
    InAlphabet('A');
    OtherLetterExceedsBound("A", 0);
  }

  /** One round of a generator loop: the candidate is appended when it is a dictionary word. */
  lemma TryStep(dictionary: set<string>, base: seq<string>, cs: seq<string>, x: string, before: seq<string>, after: seq<string>)
    requires before == base + Filter(dictionary, cs)
    requires after == before + if x in dictionary then [x] else []
    ensures after == base + Filter(dictionary, cs + [x])
  {
    FilterSnoc(dictionary, cs, x);
  }

  /** The end of an inner loop: its results join those of the rounds before. */
  lemma JoinRounds(dictionary: set<string>, base: seq<string>, a: seq<string>, b: seq<string>, words: seq<string>)
    requires words == (base + Filter(dictionary, a)) + Filter(dictionary, b)
    ensures words == base + Filter(dictionary, a + b)
  {
    FilterAppend(dictionary, a, b);
  }

  /** One round of the substitution loop over the alphabet, which skips the letter already at i; Loader.SubstitutionStep is its loader.py counterpart. */
  lemma SubstitutionStep(dictionary: set<string>, base: seq<string>, w: string, i: nat, j: nat, before: seq<string>, after: seq<string>)
    requires i < |w| && j < 26
    requires before == base + Filter(dictionary, SubstitutionsAt(w, i, j))
    requires Alphabet[j] == w[i] ==> after == before
    requires Alphabet[j] != w[i] ==> var x := Substitution(w, i, Alphabet[j]);
      after == before + if x in dictionary then [x] else []
    ensures after == base + Filter(dictionary, SubstitutionsAt(w, i, j + 1))
  {
    if Alphabet[j] != w[i] {
      TryStep(dictionary, base, SubstitutionsAt(w, i, j), Substitution(w, i, Alphabet[j]), before, after);
    } else {
      assert SubstitutionsAt(w, i, j + 1) == SubstitutionsAt(w, i, j);
    }
  }

  /** One round of the insertion loop over the alphabet; Loader.InsertionStep is its loader.py counterpart. */
  lemma InsertionStep(dictionary: set<string>, base: seq<string>, w: string, i: nat, j: nat, before: seq<string>, after: seq<string>)
    requires i <= |w| && j < 26
    requires before == base + Filter(dictionary, InsertionsAt(w, i, j))
    requires var x := Insertion(w, i, Alphabet[j]);
      after == before + if x in dictionary then [x] else []
    ensures after == base + Filter(dictionary, InsertionsAt(w, i, j + 1))
  {
    TryStep(dictionary, base, InsertionsAt(w, i, j), Insertion(w, i, Alphabet[j]), before, after);
  }

  // ----- finder.py: get_edit_distance_one_words -----

  /** The closure try_and_add: append the candidate when it is a dictionary word. */
  method TryAndAdd(dictionary: set<string>, words: seq<string>, candidate: string) returns (words': seq<string>)
    ensures candidate in dictionary ==> words' == words + [candidate]
    ensures candidate !in dictionary ==> words' == words
  {
    words' := words;
    if candidate in dictionary {
      words' := words' + [candidate];
    }
  }

  /** The deletion loop: try the word without its i-th letter, for each position i. */
  method TryDeletions(dictionary: set<string>, word: string, words: seq<string>) returns (words': seq<string>)
    ensures words' == words + Filter(dictionary, Deletions(word))
  {
    words' := words;
    for i := 0 to |word|
      invariant words' == words + Filter(dictionary, DeletionsUpTo(word, i))
    {
      ghost var prev := words';
      words' := TryAndAdd(dictionary, words', Deletion(word, i));
      TryStep(dictionary, words, DeletionsUpTo(word, i), Deletion(word, i), prev, words');
    }
  }

  /** The insertion loops: for each position, then each letter a–z, try inserting the letter there. */
  method TryInsertions(dictionary: set<string>, word: string, words: seq<string>) returns (words': seq<string>)
    ensures words' == words + Filter(dictionary, Insertions(word))
  {
    words' := words;
    for i := 0 to |word| + 1
      invariant words' == words + Filter(dictionary, InsertionsUpTo(word, i))
    {
      ghost var before := words';
      for j := 0 to 26
        invariant words' == before + Filter(dictionary, InsertionsAt(word, i, j))
      {
        ghost var prev := words';
        words' := TryAndAdd(dictionary, words', Insertion(word, i, Alphabet[j]));
        InsertionStep(dictionary, before, word, i, j, prev, words');
      }
      JoinRounds(dictionary, words, InsertionsUpTo(word, i), InsertionsAt(word, i, 26), words');
    }
  }

  /** The substitution loops: for each position, then each letter a–z other than the one there, try it there. */
  method TrySubstitutions(dictionary: set<string>, word: string, words: seq<string>) returns (words': seq<string>)
    ensures words' == words + Filter(dictionary, Substitutions(word))
  {
    words' := words;
    for i := 0 to |word|
      invariant words' == words + Filter(dictionary, SubstitutionsUpTo(word, i))
    {
      ghost var before := words';
      for j := 0 to 26
        invariant words' == before + Filter(dictionary, SubstitutionsAt(word, i, j))
      {
        ghost var prev := words';
        var c := Alphabet[j];
        if c != word[i] {
          words' := TryAndAdd(dictionary, words', Substitution(word, i, c));
        }
        SubstitutionStep(dictionary, before, word, i, j, prev, words');
      }
      JoinRounds(dictionary, words, SubstitutionsUpTo(word, i), SubstitutionsAt(word, i, 26), words');
    }
  }

  /** The generator: deletions, then insertions, then substitutions, all appended to one list. */
  method GetEditDistanceOneWords(dictionary: set<string>, word: string) returns (words: seq<string>)
    ensures words == Suggest(dictionary, word)
  {
    words := TryDeletions(dictionary, word, []);
    words := TryInsertions(dictionary, word, words);
    words := TrySubstitutions(dictionary, word, words);
    assert [] + Filter(dictionary, Deletions(word)) == Filter(dictionary, Deletions(word));
  }
}
