/**
 * The word list file. save_graph in loader.py writes every dictionary word
 * followed by a newline; LoadWords in finder.cpp reads the file back with
 * the stream extraction operator, which skips whitespace and then takes the
 * longest run of non-whitespace characters.
 */
module Words {

  /** The characters isspace accepts in the default C locale. */
  predicate IsSpace(c: char) {
    c == ' ' || c == '\t' || c == '\n' || c == '\U{000B}' || c == '\U{000C}' || c == '\r'
  }

  /** What one extraction can produce: a non-empty run without whitespace. */
  predicate IsWord(w: string) {
    w != [] && forall k :: 0 <= k < |w| ==> !IsSpace(w[k])
  }

  /** Length of the run of non-whitespace characters at the front of s. */
  function RunLength(s: string): (n: nat)
    ensures n <= |s|
    ensures forall k :: 0 <= k < n ==> !IsSpace(s[k])
    ensures n < |s| ==> IsSpace(s[n])
  {
    if s == [] || IsSpace(s[0]) then 0 else 1 + RunLength(s[1..])
  }

  /** The whitespace-separated tokens of s, in order. */
  function Tokens(s: string): seq<string>
    decreases |s|
  {
    if s == [] then []
    else if IsSpace(s[0]) then Tokens(s[1..])
    else
      var n := RunLength(s);
      [s[..n]] + Tokens(s[n..])
  }

  /** The text save_graph writes to words.txt: each word on a line of its own. */
  function WordsFile(dictionary: seq<string>): (text: string)
    ensures text == [] || text[|text| - 1] == '\n'
  {
    if dictionary == [] then []
    else WordsFile(dictionary[..|dictionary| - 1]) + dictionary[|dictionary| - 1] + "\n"
  }

  // ----- Lemmas -----

  /** A run that the characters after it cannot extend is the run RunLength measures. */
  lemma {:induction false} RunLengthIs(s: string, n: nat)
    requires n <= |s|
    requires forall k :: 0 <= k < n ==> !IsSpace(s[k])
    requires n == |s| || IsSpace(s[n])
    ensures RunLength(s) == n
  {
    if n > 0 {
      RunLengthIs(s[1..], n - 1);
    }
  }

  /** Every token is a word: non-empty and free of whitespace. */
  lemma {:induction false} TokensAreWords(s: string)
    ensures forall k :: 0 <= k < |Tokens(s)| ==> IsWord(Tokens(s)[k])
    decreases |s|
  {
    if s != [] {
      if IsSpace(s[0]) {
        TokensAreWords(s[1..]);
      } else {
        TokensAreWords(s[RunLength(s)..]);
      }
    }
  }

  /** Text that ends in whitespace splits the tokens cleanly at its end. */
  lemma {:induction false} TokensSplit(a: string, b: string)
    requires a == [] || IsSpace(a[|a| - 1])
    ensures Tokens(a + b) == Tokens(a) + Tokens(b)
    decreases |a|
  {
    if a == [] {
      assert a + b == b;
    } else if IsSpace(a[0]) {
      assert (a + b)[1..] == a[1..] + b;
      TokensSplit(a[1..], b);
    } else {
      var n := RunLength(a);
      RunLengthIs(a + b, n);
      assert (a + b)[..n] == a[..n];
      assert (a + b)[n..] == a[n..] + b;
      TokensSplit(a[n..], b);
    }
  }

  /** A word followed by a newline is read as that one word. */
  lemma WordLine(w: string)
    requires IsWord(w)
    ensures Tokens(w + "\n") == [w]
  {
    var s := w + "\n";
    RunLengthIs(s, |w|);
    assert s[..|w|] == w;
    assert s[|w|..] == "\n";
    assert "\n"[1..] == [];
  }

  /**
   * Round trip: reading words.txt gives back the dictionary written to it,
   * provided every word is a non-empty run without whitespace.
   */
  lemma {:induction false} WordsFileRoundTrip(dictionary: seq<string>)
    requires forall k :: 0 <= k < |dictionary| ==> IsWord(dictionary[k])
    ensures Tokens(WordsFile(dictionary)) == dictionary
  {
    if dictionary != [] {
      var init, last := dictionary[..|dictionary| - 1], dictionary[|dictionary| - 1];
      WordsFileRoundTrip(init);
      assert WordsFile(dictionary) == WordsFile(init) + (last + "\n");
      TokensSplit(WordsFile(init), last + "\n");
      WordLine(last);
      assert init + [last] == dictionary;
    }
  }

  /** The condition above is needed: an empty word writes a blank line, and reading skips it. */
  lemma BlankWordIsSkipped()
    ensures Tokens(WordsFile(["", "a"])) == ["a"]
  {
    assert WordsFile([""]) == "\n" by {
      assert [""][..0] == [];
    }
    assert WordsFile(["", "a"]) == "\n" + "a\n" by {
      assert ["", "a"][..1] == [""];
    }
    TokensSplit("\n", "a\n");
    assert "\n"[1..] == [];
    assert Tokens("\n") == [];
    WordLine("a");
    assert "a" + "\n" == "a\n";
  }

  /** Whitespace at position j is skipped. */
  lemma SkipSpace(s: string, j: nat)
    requires j < |s| && IsSpace(s[j])
    ensures Tokens(s[j..]) == Tokens(s[j + 1..])
  {
    assert s[j..][1..] == s[j + 1..];
  }

  /** A maximal run of non-whitespace starting at j is the next token. */
  lemma TakeWord(s: string, j: nat, k: nat)
    requires j < k <= |s|
    requires forall m :: j <= m < k ==> !IsSpace(s[m])
    requires k == |s| || IsSpace(s[k])
    ensures Tokens(s[j..]) == [s[j..k]] + Tokens(s[k..])
  {
    var t := s[j..];
    RunLengthIs(t, k - j);
    assert t[..k - j] == s[j..k];
    assert t[k - j..] == s[k..];
  }

  // ----- finder.cpp: LoadWords -----

  /** LoadWords over the file's text: it extracts word after word until none is left, appending each. */
  method LoadWords(text: string) returns (words: seq<string>)
    ensures words == Tokens(text)
  {
    words := [];
    var i := 0;
    while i < |text|
      invariant 0 <= i <= |text|
      invariant Tokens(text) == words + Tokens(text[i..])
      decreases |text| - i
    {
      // skip the whitespace in front of the next word
      var j := i;
      while j < |text| && IsSpace(text[j])
        invariant i <= j <= |text|
        invariant Tokens(text[i..]) == Tokens(text[j..])
      {
        SkipSpace(text, j);
        j := j + 1;
      }
      if j == |text| {
        assert text[j..] == [];
        break;
      }
      // read the word
      var k := j;
      while k < |text| && !IsSpace(text[k])
        invariant j <= k <= |text|
        invariant forall m :: j <= m < k ==> !IsSpace(text[m])
      {
        k := k + 1;
      }
      TakeWord(text, j, k);
      words := words + [text[j..k]];
      i := k;
    }
  }
}
