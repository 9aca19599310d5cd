/**
 * The word-to-index map that construct_dictionary_index in loader.py builds
 * and that FindPath in finder.cpp builds again: the words are visited in
 * order and each assigns its own position, so for a word that occurs more
 * than once the last position wins.
 */
module IndexMaps {

  /** No word occurs twice. */
  predicate Distinct(d: seq<string>) {
    forall i, j :: 0 <= i < j < |d| ==> d[i] != d[j]
  }

  /** The map left after assigning m[d[i]] := i for i = 0, 1, ..., |d| - 1. */
  function IndexOf(d: seq<string>): (m: map<string, nat>)
    ensures forall w :: w in m <==> w in d
    ensures forall w :: w in m ==> m[w] < |d| && d[m[w]] == w
    ensures forall w, j :: w in m && m[w] < j < |d| ==> d[j] != w
  {
    if d == [] then map[]
    else IndexOf(d[..|d| - 1])[d[|d| - 1] := |d| - 1]
  }

  // ----- Lemmas -----

  /** Different words have different indices. */
  lemma IndexOfInjective(d: seq<string>, a: string, b: string)
    requires a in IndexOf(d) && b in IndexOf(d)
    requires IndexOf(d)[a] == IndexOf(d)[b]
    ensures a == b
  {
  }

  /** Without duplicates every word maps to its own position. */
  lemma IndexOfDistinct(d: seq<string>, i: nat)
    requires Distinct(d) && i < |d|
    ensures IndexOf(d)[d[i]] == i
  {
  }

  /** One more round of the loop assigns the next position. */
  lemma IndexOfStep(d: seq<string>, i: nat)
    requires i < |d|
    ensures IndexOf(d[..i + 1]) == IndexOf(d[..i])[d[i] := i]
  {
    assert d[..i + 1][..i] == d[..i];
  }
}
