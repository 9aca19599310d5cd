/**
 * The normalisation in get_dictionary (loader.py): every line is stripped of
 * surrounding whitespace and lower-cased, duplicates collapse in a set, and
 * the set is sorted. Python orders strings by comparing code points from
 * the front, a proper prefix coming first.
 */
module Normalize {
  import IndexMaps

  /** The characters str.isspace accepts: ASCII whitespace, the separators 0x1c-0x1f, and the Unicode spaces. */
  predicate IsWhite(c: char) {
    || c == ' ' || '\t' <= c <= '\r' || '\U{001C}' <= c <= '\U{001F}'
    || c == '\U{0085}' || c == '\U{00A0}' || c == '\U{1680}' || '\U{2000}' <= c <= '\U{200A}'
    || c == '\U{2028}' || c == '\U{2029}' || c == '\U{202F}' || c == '\U{205F}' || c == '\U{3000}'
  }

  /** s without its leading whitespace. */
  function StripLeft(s: string): (r: string)
    ensures |r| <= |s| && r == s[|s| - |r|..]
    ensures forall k :: 0 <= k < |s| - |r| ==> IsWhite(s[k])
    ensures r == [] || !IsWhite(r[0])
  {
    if s != [] && IsWhite(s[0]) then StripLeft(s[1..]) else s
  }

  /** s without its trailing whitespace. */
  function StripRight(s: string): (r: string)
    ensures |r| <= |s| && r == s[..|r|]
    ensures forall k :: |r| <= k < |s| ==> IsWhite(s[k])
    ensures r == [] || !IsWhite(r[|r| - 1])
  {
    if s != [] && IsWhite(s[|s| - 1]) then StripRight(s[..|s| - 1]) else s
  }

  /** str.strip() with no argument. */
  function Strip(s: string): string {
    StripRight(StripLeft(s))
  }

  function LowerChar(c: char): char {
    if 'A' <= c <= 'Z' then (c as int - 'A' as int + 'a' as int) as char else c
  }

  /** str.lower() on the letters A-Z. */
  function Lower(s: string): (r: string)
    ensures |r| == |s|
    ensures forall k :: 0 <= k < |s| ==> r[k] == LowerChar(s[k])
  {
    if s == [] then [] else [LowerChar(s[0])] + Lower(s[1..])
  }

  /** Python's a < b on strings. */
  predicate Less(a: string, b: string)
    decreases |a|
  {
    if a == [] then b != []
    else if b == [] then false
    else if a[0] != b[0] then a[0] < b[0]
    else Less(a[1..], b[1..])
  }

  /** Each element is smaller than every later one. */
  predicate StrictlySorted(s: seq<string>) {
    forall i, j :: 0 <= i < j < |s| ==> Less(s[i], s[j])
  }

  // ----- Less is a strict total order -----

  lemma {:induction false} LessIrreflexive(a: string)
    ensures !Less(a, a)
    decreases |a|
  {
    if a != [] {
      LessIrreflexive(a[1..]);
    }
  }

  lemma {:induction false} LessTransitive(a: string, b: string, c: string)
    requires Less(a, b) && Less(b, c)
    ensures Less(a, c)
    decreases |a|
  {
    if a != [] && b != [] && c != [] && a[0] == b[0] && b[0] == c[0] {
      LessTransitive(a[1..], b[1..], c[1..]);
    }
  }

  lemma {:induction false} LessTotal(a: string, b: string)
    requires a != b
    ensures Less(a, b) || Less(b, a)
    decreases |a|
  {
    if a != [] && b != [] && a[0] == b[0] {
      assert a == [a[0]] + a[1..] && b == [b[0]] + b[1..];
      LessTotal(a[1..], b[1..]);
    }
  }

  // ----- sorted(set) -----

  /** The smallest word of a non-empty set. */
  ghost function Least(s: set<string>): (m: string)
    requires s != {}
    ensures m in s && forall x :: x in s && x != m ==> Less(m, x)
  {
    var x :| x in s;
    if s == {x} then x
    else
      var m := Least(s - {x});
      LessTotal(x, m);
      if Less(x, m) then
        LessTransitiveFrom(x, m, s - {x});
        x
      else m
  }

  lemma LessTransitiveFrom(x: string, m: string, s: set<string>)
    requires Less(x, m)
    requires forall y :: y in s && y != m ==> Less(m, y)
    ensures forall y :: y in s ==> Less(x, y)
  {
    forall y | y in s ensures Less(x, y) {
      if y != m {
        LessTransitive(x, m, y);
      }
    }
  }

  /** sorted(s): the words of s in increasing order. */
  ghost function Sorted(s: set<string>): (r: seq<string>)
    ensures StrictlySorted(r)
    ensures forall w :: w in r <==> w in s
    ensures |r| == |s|
    decreases s
  {
    if s == {} then []
    else
      var m := Least(s);
      [m] + Sorted(s - {m})
  }

  // ----- get_dictionary -----

  /** The normalised form of one line. */
  function Clean(line: string): string {
    Lower(Strip(line))
  }

  /** The dictionary get_dictionary returns for the lines of the file. */
  ghost function Normalize(lines: seq<string>): seq<string> {
    Sorted(set l | l in lines :: Clean(l))
  }

  // ----- Lemmas -----

  /** Lower-casing leaves whitespace where it is. */
  lemma LowerKeepsWhite(c: char)
    ensures IsWhite(LowerChar(c)) <==> IsWhite(c)
  {
  }

  /** Stripped text neither starts nor ends with whitespace. */
  lemma StripIsStripped(s: string)
    ensures var t := Strip(s); t == [] || (!IsWhite(t[0]) && !IsWhite(t[|t| - 1]))
  {
    var l := StripLeft(s);
    var t := StripRight(l);
    if t != [] {
      assert t[0] == l[0];
    }
  }

  /** A normalised word has no surrounding whitespace and no letter A-Z. */
  lemma CleanIsClean(line: string)
    ensures var w := Clean(line);
      (w == [] || (!IsWhite(w[0]) && !IsWhite(w[|w| - 1]))) && forall k :: 0 <= k < |w| ==> !('A' <= w[k] <= 'Z')
  {
    var t := Strip(line);
    StripIsStripped(line);
    if t != [] {
      LowerKeepsWhite(t[0]);
      LowerKeepsWhite(t[|t| - 1]);
    }
  }

  /** Stripping text that has no surrounding whitespace changes nothing. */
  lemma StripClean(s: string)
    requires s == [] || (!IsWhite(s[0]) && !IsWhite(s[|s| - 1]))
    ensures Strip(s) == s
  {
  }

  /** Normalising a normalised word changes nothing. */
  lemma CleanIdempotent(line: string)
    ensures Clean(Clean(line)) == Clean(line)
  {
    var w := Clean(line);
    CleanIsClean(line);
    StripClean(w);
    assert Lower(w) == w;
  }

  /** The dictionary is strictly sorted and holds exactly the normalised lines. */
  lemma NormalizeSpec(lines: seq<string>)
    ensures StrictlySorted(Normalize(lines))
    ensures forall w :: w in Normalize(lines) <==> exists l :: l in lines && w == Clean(l)
  {
  }

  /** A strictly sorted list has no duplicates. */
  lemma SortedIsDistinct(s: seq<string>)
    requires StrictlySorted(s)
    ensures IndexMaps.Distinct(s)
  {
    forall i, j | 0 <= i < j < |s| ensures s[i] != s[j] {
      if s[i] == s[j] {
        LessIrreflexive(s[i]);
      }
    }
  }

  /** The words of the dictionary are already normalised. */
  lemma CleanFixesDictionary(lines: seq<string>)
    ensures forall w :: w in Normalize(lines) ==> Clean(w) == w
  {
    forall w | w in Normalize(lines) ensures Clean(w) == w {
      var l :| l in lines && w == Clean(l);
      CleanIdempotent(l);
    }
  }

  /** Normalising words that normalisation leaves alone gives back the set of those words. */
  lemma CleanSetOfFixed(d: seq<string>)
    requires forall w :: w in d ==> Clean(w) == w
    ensures (set l | l in d :: Clean(l)) == set l | l in d
  {
  }

  /** Normalising the dictionary again gives the same dictionary. */
  lemma NormalizeIdempotent(lines: seq<string>)
    ensures Normalize(Normalize(lines)) == Normalize(lines)
  {
    var d := Normalize(lines);
    CleanFixesDictionary(lines);
    CleanSetOfFixed(d);
    var s := set l | l in lines :: Clean(l);
    assert d == Sorted(s);
    MembersOfSorted(s);
    assert Normalize(d) == Sorted(set l | l in d);
  }

  /** The words of sorted(s) form s again. */
  lemma MembersOfSorted(s: set<string>)
    ensures (set l | l in Sorted(s)) == s
  {
  }
}
