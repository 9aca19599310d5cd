/**
 * The single-letter edits both neighbour generators try: deleting the letter
 * at a position, replacing it by a different letter of a–z, or inserting a
 * letter of a–z at a position. The candidate sequences list them in the
 * order the generators' loops produce them: positions first, then the
 * alphabet.
 */
module Edits {

  /** The letters the generators try, 'a' to 'z' in order. */
  const Alphabet: string := "abcdefghijklmnopqrstuvwxyz"

  /** Every character of w is one of the letters the generators try. */
  ghost predicate Lowercase(w: string) {
    forall k :: 0 <= k < |w| ==> w[k] in Alphabet
  }

  /** w without its letter at position i. */
  function Deletion(w: string, i: nat): string
    requires i < |w|
  {
    w[..i] + w[i + 1..]
  }

  /** w with its letter at position i replaced by c. */
  function Substitution(w: string, i: nat, c: char): string
    requires i < |w|
  {
    w[..i] + [c] + w[i + 1..]
  }

  /** w with c inserted before position i. */
  function Insertion(w: string, i: nat, c: char): string
    requires i <= |w|
  {
    w[..i] + [c] + w[i..]
  }

  /** Deleting the letter at i shifts the later letters one place to the left. */
  lemma DeletionLetters(w: string, i: nat)
    requires i < |w|
    ensures var r := Deletion(w, i);
      |r| == |w| - 1 && forall k :: 0 <= k < |r| ==> r[k] == if k < i then w[k] else w[k + 1]
  {
  }

  /** Substituting c at i changes that letter only. */
  lemma SubstitutionLetters(w: string, i: nat, c: char)
    requires i < |w|
    ensures var r := Substitution(w, i, c);
      |r| == |w| && r[i] == c && forall k :: 0 <= k < |r| && k != i ==> r[k] == w[k]
  {
  }

  /** Inserting c at i shifts the letters from i on one place to the right. */
  lemma InsertionLetters(w: string, i: nat, c: char)
    requires i <= |w|
    ensures var r := Insertion(w, i, c);
      |r| == |w| + 1 && r[i] == c && forall k :: 0 <= k < |r| && k != i ==> r[k] == if k < i then w[k] else w[k - 1]
  {
  }

  // ----- The candidates in loop order -----

  /** The deletions at positions 0 .. n-1. */
  function DeletionsUpTo(w: string, n: nat): seq<string>
    requires n <= |w|
  {
    if n == 0 then [] else DeletionsUpTo(w, n - 1) + [Deletion(w, n - 1)]
  }

  /** The substitutions at position i by the first j letters, skipping the letter already there. */
  function SubstitutionsAt(w: string, i: nat, j: nat): seq<string>
    requires i < |w| && j <= 26
  {
    if j == 0 then []
    else
      var c := Alphabet[j - 1];
      SubstitutionsAt(w, i, j - 1) + if c != w[i] then [Substitution(w, i, c)] else []
  }

  /** The substitutions at positions 0 .. n-1. */
  function SubstitutionsUpTo(w: string, n: nat): seq<string>
    requires n <= |w|
  {
    if n == 0 then [] else SubstitutionsUpTo(w, n - 1) + SubstitutionsAt(w, n - 1, 26)
  }

  /** The insertions at position i of the first j letters. */
  function InsertionsAt(w: string, i: nat, j: nat): seq<string>
    requires i <= |w| && j <= 26
  {
    if j == 0 then [] else InsertionsAt(w, i, j - 1) + [Insertion(w, i, Alphabet[j - 1])]
  }

  /** The insertions at positions 0 .. n-1. */
  function InsertionsUpTo(w: string, n: nat): seq<string>
    requires n <= |w| + 1
  {
    if n == 0 then [] else InsertionsUpTo(w, n - 1) + InsertionsAt(w, n - 1, 26)
  }

  function Deletions(w: string): seq<string> {
    DeletionsUpTo(w, |w|)
  }

  function Substitutions(w: string): seq<string> {
    SubstitutionsUpTo(w, |w|)
  }

  function Insertions(w: string): seq<string> {
    InsertionsUpTo(w, |w| + 1)
  }

  // ----- Edit distance one, stated directly -----

  ghost predicate IsDeletion(w: string, v: string) {
    exists i :: 0 <= i < |w| && v == Deletion(w, i)
  }

  ghost predicate IsSubstitution(w: string, v: string) {
    exists i, c :: 0 <= i < |w| && c in Alphabet && c != w[i] && v == Substitution(w, i, c)
  }

  ghost predicate IsInsertion(w: string, v: string) {
    exists i, c :: 0 <= i <= |w| && c in Alphabet && v == Insertion(w, i, c)
  }

  /** v arises from w by one deletion, one a–z substitution or one a–z insertion. */
  ghost predicate OneEdit(w: string, v: string) {
    IsDeletion(w, v) || IsSubstitution(w, v) || IsInsertion(w, v)
  }

  // ----- The candidate sequences hold exactly the edits -----

  lemma {:induction false} DeletionsUpToMembers(w: string, n: nat, v: string)
    requires n <= |w|
    ensures v in DeletionsUpTo(w, n) <==> exists i :: 0 <= i < n && v == Deletion(w, i)
  {
    if n > 0 {
      DeletionsUpToMembers(w, n - 1, v);
    }
  }

  lemma {:induction false} SubstitutionsAtMembers(w: string, i: nat, j: nat, v: string)
    requires i < |w| && j <= 26
    ensures v in SubstitutionsAt(w, i, j) <==>
      exists k :: 0 <= k < j && Alphabet[k] != w[i] && v == Substitution(w, i, Alphabet[k])
  {
    if j > 0 {
      var c := Alphabet[j - 1];
      var extra := if c != w[i] then [Substitution(w, i, c)] else [];
      assert SubstitutionsAt(w, i, j) == SubstitutionsAt(w, i, j - 1) + extra;
      SubstitutionsAtMembers(w, i, j - 1, v);
      if exists k :: 0 <= k < j && Alphabet[k] != w[i] && v == Substitution(w, i, Alphabet[k]) {
        var k :| 0 <= k < j && Alphabet[k] != w[i] && v == Substitution(w, i, Alphabet[k]);
        if k == j - 1 {
          assert v in extra;
        }
      }
    }
  }

  /** v is w with the letter at i replaced by a different letter a–z. */
  ghost predicate SubstitutedAt(w: string, i: nat, v: string)
    requires i < |w|
  {
    exists k :: 0 <= k < 26 && Alphabet[k] != w[i] && v == Substitution(w, i, Alphabet[k])
  }

  lemma {:induction false} SubstitutionsUpToMembers(w: string, n: nat, v: string)
    requires n <= |w|
    ensures v in SubstitutionsUpTo(w, n) <==> exists i :: 0 <= i < n && SubstitutedAt(w, i, v)
  {
    if n > 0 {
      var lo, hi := SubstitutionsUpTo(w, n - 1), SubstitutionsAt(w, n - 1, 26);
      assert SubstitutionsUpTo(w, n) == lo + hi;
      SubstitutionsUpToMembers(w, n - 1, v);
      SubstitutionsAtMembers(w, n - 1, 26, v);
      assert v in hi <==> SubstitutedAt(w, n - 1, v);
      if v in lo {
        var i :| 0 <= i < n - 1 && SubstitutedAt(w, i, v);
        assert 0 <= i < n;
      }
      if exists i :: 0 <= i < n && SubstitutedAt(w, i, v) {
        var i :| 0 <= i < n && SubstitutedAt(w, i, v);
        if i < n - 1 {
          assert 0 <= i < n - 1 && SubstitutedAt(w, i, v);
          assert exists j :: 0 <= j < n - 1 && SubstitutedAt(w, j, v);
        } else {
          assert v in hi;
        }
      }
    }
  }

  lemma {:induction false} InsertionsAtMembers(w: string, i: nat, j: nat, v: string)
    requires i <= |w| && j <= 26
    ensures v in InsertionsAt(w, i, j) <==> exists k :: 0 <= k < j && v == Insertion(w, i, Alphabet[k])
  {
    if j > 0 {
      InsertionsAtMembers(w, i, j - 1, v);
    }
  }

  lemma {:induction false} InsertionsUpToMembers(w: string, n: nat, v: string)
    requires n <= |w| + 1
    ensures v in InsertionsUpTo(w, n) <==>
      exists i, k :: 0 <= i < n && 0 <= k < 26 && v == Insertion(w, i, Alphabet[k])
  {
    if n > 0 {
      InsertionsUpToMembers(w, n - 1, v);
      InsertionsAtMembers(w, n - 1, 26, v);
    }
  }

  /** The deletion candidates are exactly the words one deletion away. */
  lemma InDeletions(w: string, v: string)
    ensures v in Deletions(w) <==> IsDeletion(w, v)
  {
    DeletionsUpToMembers(w, |w|, v);
  }

  /** The substitution candidates are exactly the words one a–z substitution away. */
  lemma InSubstitutions(w: string, v: string)
    ensures v in Substitutions(w) <==> IsSubstitution(w, v)
  {
    SubstitutionsUpToMembers(w, |w|, v);
    if v in Substitutions(w) {
      var i :| 0 <= i < |w| && SubstitutedAt(w, i, v);
      var k :| 0 <= k < 26 && Alphabet[k] != w[i] && v == Substitution(w, i, Alphabet[k]);
      assert Alphabet[k] in Alphabet;
    }
    if IsSubstitution(w, v) {
      var i, c :| 0 <= i < |w| && c in Alphabet && c != w[i] && v == Substitution(w, i, c);
      var k :| 0 <= k < 26 && Alphabet[k] == c;
      assert SubstitutedAt(w, i, v);
    }
  }

  /** The insertion candidates are exactly the words one a–z insertion away. */
  lemma InInsertions(w: string, v: string)
    ensures v in Insertions(w) <==> IsInsertion(w, v)
  {
    InsertionsUpToMembers(w, |w| + 1, v);
  }

  /** All three candidate sequences together hold exactly the words one edit away. */
  lemma InCandidates(w: string, v: string)
    ensures (v in Deletions(w) || v in Substitutions(w) || v in Insertions(w)) <==> OneEdit(w, v)
  {
    InDeletions(w, v);
    InSubstitutions(w, v);
    InInsertions(w, v);
  }

  // ----- Properties of one edit -----

  /** One edit never gives back the word itself and changes its length by at most one. */
  lemma OneEditChanges(w: string, v: string)
    requires OneEdit(w, v)
    ensures v != w
    ensures |w| - 1 <= |v| <= |w| + 1
  {
    if IsSubstitution(w, v) {
      var i, c :| 0 <= i < |w| && c in Alphabet && c != w[i] && v == Substitution(w, i, c);
      assert v[i] == c;
    }
  }

  /** Putting the deleted letter back undoes a deletion. */
  lemma DeletionUndone(w: string, i: nat)
    requires i < |w|
    ensures Insertion(Deletion(w, i), i, w[i]) == w
  {
    var v := Deletion(w, i);
    assert v[..i] == w[..i] && v[i..] == w[i + 1..];
    assert w == w[..i] + [w[i]] + w[i + 1..];
  }

  /** Deleting the inserted letter undoes an insertion. */
  lemma InsertionUndone(w: string, i: nat, c: char)
    requires i <= |w|
    ensures Deletion(Insertion(w, i, c), i) == w
  {
    var v := Insertion(w, i, c);
    assert v[..i] == w[..i] && v[i + 1..] == w[i..];
  }

  /** Substituting the old letter back undoes a substitution. */
  lemma SubstitutionUndone(w: string, i: nat, c: char)
    requires i < |w|
    ensures Substitution(w, i, c)[i] == c
    ensures Substitution(Substitution(w, i, c), i, w[i]) == w
  {
    var v := Substitution(w, i, c);
    assert v[..i] == w[..i] && v[i + 1..] == w[i + 1..];
    assert w == w[..i] + [w[i]] + w[i + 1..];
  }

  /** Over a–z words, one edit can be undone by one edit: a deletion by an insertion, and so on. */
  lemma OneEditSymmetric(w: string, v: string)
    requires Lowercase(w) && OneEdit(w, v)
    ensures OneEdit(v, w)
  {
    if IsDeletion(w, v) {
      var i :| 0 <= i < |w| && v == Deletion(w, i);
      DeletionUndone(w, i);
      assert IsInsertion(v, w);
    } else if IsSubstitution(w, v) {
      var i, c :| 0 <= i < |w| && c in Alphabet && c != w[i] && v == Substitution(w, i, c);
      SubstitutionUndone(w, i, c);
      assert IsSubstitution(v, w);
    } else {
      var i, c :| 0 <= i <= |w| && c in Alphabet && v == Insertion(w, i, c);
      InsertionUndone(w, i, c);
      assert IsDeletion(v, w);
    }
  }

  /** Without the a–z restriction one edit need not be undone by one: "é" becomes "a", but not back. */
  lemma OneWaySubstitution()
    ensures OneEdit("\U{00E9}", "a")
    ensures !OneEdit("a", "\U{00E9}")
  {
    assert Substitution("\U{00E9}", 0, 'a') == "a";
    assert 'a' == Alphabet[0];
    assert IsSubstitution("\U{00E9}", "a");
    if IsSubstitution("a", "\U{00E9}") {
      var i, c :| 0 <= i < 1 && c in Alphabet && c != 'a' && "\U{00E9}" == Substitution("a", i, c);
      assert Substitution("a", i, c) == [c];
      InAlphabet(c);
    }
  }

  // ----- How many candidates there are -----

  /** The letters of the alphabet have consecutive codes from 'a'. */
  lemma AlphabetCodes()
    ensures |Alphabet| == 26
    ensures forall k :: 0 <= k < 26 ==> Alphabet[k] as int == 'a' as int + k
  {
  }

  lemma InAlphabet(c: char)
    ensures c in Alphabet <==> 'a' as int <= c as int < 'a' as int + 26
  {
    AlphabetCodes();
    if 'a' as int <= c as int < 'a' as int + 26 {
      assert Alphabet[c as int - 'a' as int] == c;
    }
  }

  lemma {:induction false} SubstitutionsAtSize(w: string, i: nat, j: nat)
    requires i < |w| && j <= 26
    ensures |SubstitutionsAt(w, i, j)| == if 'a' as int <= w[i] as int < 'a' as int + j then j - 1 else j
  {
    if j > 0 {
      SubstitutionsAtSize(w, i, j - 1);
      AlphabetCodes();
    }
  }

  lemma {:induction false} SubstitutionsUpToSize(w: string, n: nat)
    requires n <= |w|
    ensures |SubstitutionsUpTo(w, n)| <= 26 * n
    ensures Lowercase(w) ==> |SubstitutionsUpTo(w, n)| == 25 * n
  {
    if n > 0 {
      SubstitutionsUpToSize(w, n - 1);
      SubstitutionsAtSize(w, n - 1, 26);
      InAlphabet(w[n - 1]);
    }
  }

  /** At least 25 substitutions per position, and 26 at a position holding a letter outside a–z. */
  lemma {:induction false} SubstitutionsUpToAtLeast(w: string, n: nat, i: nat)
    requires n <= |w|
    ensures |SubstitutionsUpTo(w, n)| >= 25 * n
    ensures i < n && w[i] !in Alphabet ==> |SubstitutionsUpTo(w, n)| > 25 * n
  {
    if n > 0 {
      SubstitutionsUpToAtLeast(w, n - 1, i);
      SubstitutionsAtSize(w, n - 1, 26);
      InAlphabet(w[n - 1]);
    }
  }

  lemma {:induction false} InsertionsUpToSize(w: string, n: nat)
    requires n <= |w| + 1
    ensures |InsertionsUpTo(w, n)| == 26 * n
  {
    if n > 0 {
      InsertionsUpToSize(w, n - 1);
      InsertionsAtSize(w, n - 1, 26);
    }
  }

  lemma {:induction false} InsertionsAtSize(w: string, i: nat, j: nat)
    requires i <= |w| && j <= 26
    ensures |InsertionsAt(w, i, j)| == j
  {
    if j > 0 {
      InsertionsAtSize(w, i, j - 1);
    }
  }

  lemma {:induction false} DeletionsUpToSize(w: string, n: nat)
    requires n <= |w|
    ensures |DeletionsUpTo(w, n)| == n
  {
    if n > 0 {
      DeletionsUpToSize(w, n - 1);
    }
  }

  /**
   * There are |w| deletions, 26 (|w| + 1) insertions and at most 26 |w|
   * substitutions; exactly 25 |w| when w is an a–z word.
   */
  lemma CandidateCounts(w: string)
    ensures |Deletions(w)| == |w|
    ensures |Insertions(w)| == 26 * (|w| + 1)
    ensures |Substitutions(w)| <= 26 * |w|
    ensures Lowercase(w) ==> |Substitutions(w)| == 25 * |w|
  {
    DeletionsUpToSize(w, |w|);
    InsertionsUpToSize(w, |w| + 1);
    SubstitutionsUpToSize(w, |w|);
  }
}
