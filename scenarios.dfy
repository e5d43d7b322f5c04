/**
 * Calls of `add`, `contains`, `getWordsForPrefix` and `size` on small
 * concrete inputs, with the outcomes proved from the operations'
 * contracts alone; they pin down the tree's sharp edges.
 */
module Scenarios {
  import opened JavaInt
  import opened AutoComplete

  /**
   * Adding a strict prefix of a stored word counts it in `size`, yet
   * `contains` never finds it: the existing node is not marked.
   */
  method PrefixOfStoredWord() returns (found: bool, n: int32)
    ensures !found && n == 2
  {
    var t := new PrefixTree();
    t.Add("cat");
    assert "cat"[..2] == "ca";
    assert "ca" in Prefixes("cat");
    t.Add("ca");
    found := t.Contains("ca");
    n := t.Size();
  }

  /** Every `add("")` counts one more word, but `""` is never contained. */
  method EmptyWordCounted() returns (found: bool, n: int32)
    ensures !found && n == 2
  {
    var t := new PrefixTree();
    t.Add("");
    t.Add("");
    found := t.Contains("");
    n := t.Size();
  }

  /** Adding a stored word again changes nothing, so `size` stays 1. */
  method AddTwice() returns (found: bool, n: int32)
    ensures found && n == 1
  {
    var t := new PrefixTree();
    t.Add("cat");
    t.Add("cat");
    found := t.Contains("cat");
    n := t.Size();
  }

  /** A stored word whose node has no children yields no completions for itself. */
  method LeafPrefix() returns (found: bool, words: seq<string>)
    ensures found && words == []
  {
    var t := new PrefixTree();
    t.Add("cat");
    found := t.Contains("cat");
    assert t.Matches("cat") == {"cat"};
    words := t.GetWordsForPrefix("cat");
    DistinctCount(words);
  }

  /** A strict prefix of the only stored word yields exactly that word. */
  method InnerPrefix() returns (words: seq<string>)
    ensures words == ["cat"]
  {
    var t := new PrefixTree();
    t.Add("cat");
    assert "c" <= "cat";
    assert t.Matches("c") == {"cat"};
    words := t.GetWordsForPrefix("c");
    DistinctCount(words);
    assert words[0] in Elements(words);
  }
}
