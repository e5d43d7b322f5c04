/**
 * A prefix tree (trie) for autocompletion: words are stored as paths of
 * character-labelled nodes below a sentinel root, and a node whose path spells
 * an added word carries the `isWord` flag.
 *
 * The nodes live on the heap and are updated in place, as in the original.
 * The tree's ghost state gives the abstract view: `Paths` maps every character
 * path that exists in the tree to its node, and `Words` is the set of paths
 * whose node is marked.
 */
module AutoComplete {
  import opened JavaInt

  /** Taking one more character of `s` appends that character. */
  lemma TakeOneMore(s: string, i: nat)
    requires i < |s|
    ensures s[..i + 1] == s[..i] + [s[i]]
    ensures i + 1 == |s| ==> s[..i + 1] == s
  {
  }

  /** Taking all of `s` gives `s`. */
  lemma TakeAll(s: string)
    ensures s[..|s|] == s
  {
  }

  /** The prefixes of `word`, from the empty one to `word` itself. */
  function Prefixes(word: string): set<string>
  {
    set i | 0 <= i <= |word| :: word[..i]
  }

  /** The prefixes of `s + [c]` are those of `s` and `s + [c]` itself, which is longer than all of `s`'s. */
  lemma PrefixesSnoc(s: string, c: char)
    ensures Prefixes(s + [c]) == Prefixes(s) + {s + [c]}
    ensures forall x :: x in Prefixes(s) ==> |x| <= |s|
  {
    var longer := s + [c];
    forall x | x in Prefixes(longer) ensures x in Prefixes(s) + {longer} {
      var j :| 0 <= j <= |longer| && x == longer[..j];
      if j <= |s| {
        assert x == s[..j];
      } else {
        assert x == longer;
      }
    }
    forall x | x in Prefixes(s) ensures x in Prefixes(longer) {
      var j :| 0 <= j <= |s| && x == s[..j];
      assert x == longer[..j];
    }
    assert longer == longer[..|longer|];
  }

  /**
   * One step down a walk: if the paths were `keys0` plus the prefixes of
   * `path`, adding `path + [c]` makes them `keys0` plus the prefixes of the
   * longer path, and that path is new exactly when it is not in `keys0`.
   */
  lemma GrowKeys(keys0: set<string>, before: set<string>, after: set<string>, path: string, c: char)
    requires before == keys0 + Prefixes(path) && after == before + {path + [c]}
    ensures after == keys0 + Prefixes(path + [c])
    ensures path + [c] in before <==> path + [c] in keys0
  {
    PrefixesSnoc(path, c);
  }

  /** A list that extends `before` splits, from index `k` on, into `before`'s tail and the extension. */
  lemma SliceAppend(result: seq<string>, before: seq<string>, k: nat)
    requires k <= |before| <= |result| && result[..|before|] == before
    ensures result[k..] == before[k..] + result[|before|..]
  {
    assert result == before + result[|before|..];
  }

  /** The set of elements of a list of strings. */
  function Elements(s: seq<string>): set<string>
  {
    set x | x in s
  }

  /** No string occurs twice in the list. */
  predicate Distinct(s: seq<string>)
  {
    forall i, j :: 0 <= i < j < |s| ==> s[i] != s[j]
  }

  /** Joining two repeat-free lists with no string in common keeps them repeat-free. */
  lemma DistinctAppend(a: seq<string>, b: seq<string>)
    requires Distinct(a) && Distinct(b)
    requires Elements(a) !! Elements(b)
    ensures Distinct(a + b)
    ensures Elements(a + b) == Elements(a) + Elements(b)
  {
    var s := a + b;
    forall i, j | 0 <= i < j < |s|
      ensures s[i] != s[j]
    {
      if i < |a| && |a| <= j {
        assert s[i] in Elements(a) && s[j] in Elements(b);
      }
    }
    assert Elements(a + b) == Elements(a) + Elements(b) by {
      forall x | x in Elements(a + b) ensures x in Elements(a) + Elements(b) {
        var k :| 0 <= k < |s| && s[k] == x;
        if k < |a| { assert a[k] == x; } else { assert b[k - |a|] == x; }
      }
    }
  }

  /** A repeat-free list holds exactly as many strings as its length. */
  lemma {:induction false} DistinctCount(s: seq<string>)
    requires Distinct(s)
    ensures |Elements(s)| == |s|
  {
    if s != [] {
      var rest := s[1..];
      assert Distinct(rest) by {
        forall i, j | 0 <= i < j < |rest| ensures rest[i] != rest[j] {
          assert rest[i] == s[i + 1] && rest[j] == s[j + 1];
        }
      }
      DistinctCount(rest);
      assert s[0] !in Elements(rest) by {
        forall k | 0 <= k < |rest| ensures rest[k] != s[0] {
          assert rest[k] == s[k + 1];
        }
      }
      assert Elements(s) == Elements(rest) + {s[0]} by {
        assert s == [s[0]] + rest;
      }
    }
  }

  /** One character position of some word(s). */
  class TreeNode {
    var letter: char
    var children: map<char, TreeNode>
    var isWord: bool

    constructor ()
      ensures letter == '\0' && children == map[] && !isWord
    {
      letter := '\0';
      children := map[];
      isWord := false;
    }
  }

  /** A fresh node for `letter`, without children, marked when `last` holds. */
  method NewLeaf(letter: char, last: bool) returns (node: TreeNode)
    ensures fresh(node)
    ensures node.letter == letter && node.children == map[] && node.isWord == last
  {
    node := new TreeNode();
    node.letter := letter;
    if last {
      node.isWord := true;
    }
  }

  class PrefixTree {
    var root: TreeNode
    /** Incremented by every `Add` that did not find its word already stored. */
    var size: int32

    /** Every character path present in the tree, mapped to its node. */
    ghost var Paths: map<string, TreeNode>
    /** The nodes of the tree. */
    ghost var Repr: set<TreeNode>
    /** The paths whose node is marked as a word. */
    ghost var Words: set<string>
    /** How many times `size` has been incremented. */
    ghost var Count: nat

    /** Every node of the tree belongs to `Repr`. */
    ghost predicate Owned()
      reads this`Paths, this`Repr
    {
      forall p :: p in Paths ==> Paths[p] in Repr
    }

    /** Every edge leads to the node of the extended path. */
    ghost predicate EdgesDown()
      reads this`Paths, this`Repr, Repr
      requires Owned()
    {
      forall p, c {:trigger c in Paths[p].children} :: p in Paths && c in Paths[p].children ==>
        p + [c] in Paths && Paths[p + [c]] == Paths[p].children[c]
    }

    /** Every non-root path hangs off its parent's node under its last character, which is its node's letter. */
    ghost predicate EdgesUp()
      reads this`Paths, this`Repr, Repr
      requires Owned()
    {
      forall p, c {:trigger p + [c] in Paths} :: p + [c] in Paths ==>
        p in Paths && c in Paths[p].children && Paths[p + [c]].letter == c
    }

    /** No node is shared by two paths. */
    ghost predicate Unshared()
      reads this`Paths
    {
      forall p, q {:trigger Paths[p], Paths[q]} :: p in Paths && q in Paths && p != q ==> Paths[p] != Paths[q]
    }

    /** `Words` is exactly the set of paths whose node is marked. */
    ghost predicate Marked()
      reads this`Paths, this`Repr, this`Words, Repr
      requires Owned()
    {
      forall w :: w in Words <==> w in Paths && Paths[w].isWord
    }

    /**
     * The nodes form a strict tree below `root`, whose (empty) path is never
     * marked.
     */
    ghost predicate Linked()
      reads this`Paths, this`Repr, this`root, this`Words, Repr
    {
      && Owned()
      && "" in Paths && Paths[""] == root
      && !root.isWord
      && EdgesDown()
      && EdgesUp()
      && Unshared()
      && Marked()
    }

    /** A node without children ends a stored word (the root excepted). */
    ghost predicate LeavesAreWords()
      reads this`Paths, this`Repr, this`root, this`Words, Repr
      requires Linked()
    {
      forall q :: q in Paths && q != "" && Paths[q].children == map[] ==> Paths[q].isWord
    }

    /** Every node without children, except possibly the one at `p`, ends a stored word. */
    ghost predicate LeavesAreWordsBut(p: string)
      reads this`Paths, this`Repr, this`root, this`Words, Repr
      requires Linked()
    {
      forall q :: q in Paths && q != "" && q != p && Paths[q].children == map[] ==> Paths[q].isWord
    }

    /** The shape of the tree: linked, and every leaf ends a stored word. */
    ghost predicate WellFormed()
      reads this`Paths, this`Repr, this`root, this`Words, Repr
    {
      Linked() && LeavesAreWords()
    }

    /**
     * The class invariant: a well-formed tree, and `size` holds the number of
     * counted `Add` calls, which is at least the number of stored words.
     */
    ghost predicate Valid()
      reads this, Repr
    {
      && WellFormed()
      && |Words| <= Count
      && size == Wrap(Count)
    }

    /** The stored words that start with `prefix`. */
    ghost function Matches(prefix: string): set<string>
      reads this`Words
    {
      set w | w in Words && prefix <= w
    }

    /** The node at path `p`, or null when the path is missing. */
    ghost function NodeAt(p: string): TreeNode?
      reads this`Paths
    {
      if p in Paths then Paths[p] else null
    }

    /** The paths at or below `p`; it shrinks strictly on every step down the tree. */
    ghost function Below(p: string): set<string>
      reads this`Paths
    {
      set q | q in Paths && p <= q
    }

    /** An empty tree: an unmarked root with no children, and `size` zero. */
    constructor ()
      ensures Valid() && fresh(Repr)
      ensures Paths.Keys == {""} && Words == {} && Count == 0
    {
      var r := new TreeNode();
      root := r;
      size := 0;
      Paths := map["" := r];
      Repr := {r};
      Words := {};
      Count := 0;
    }

    /** Every prefix of a path of the tree is a path of the tree. */
    lemma {:induction false} PrefixClosed(q: string, i: nat)
      requires Linked()
      requires q in Paths && i <= |q|
      ensures q[..i] in Paths
      decreases |q| - i
    {
      if i < |q| {
        PrefixClosed(q, i + 1);
        assert q[..i + 1] == q[..i] + [q[i]];
      } else {
        assert q[..i] == q;
      }
    }

    /** A path strictly longer than `p` that extends it goes through a child of `p`'s node. */
    lemma ExtensionHasChild(p: string, w: string)
      requires Linked()
      requires w in Paths && p < w
      ensures p in Paths && w[|p|] in Paths[p].children
      ensures p + [w[|p|]] in Paths && p + [w[|p|]] <= w
    {
      PrefixClosed(w, |p| + 1);
      assert w[..|p| + 1] == p + [w[|p|]];
    }

    /** The words below the edge `letter` of `s` are the longer matches of `s` continuing with `letter`. */
    lemma MatchesOfChild(s: string, letter: char)
      ensures Matches(s + [letter]) == set w | w in Matches(s) && w != s && w[|s|] == letter
    {
      forall w | w in Matches(s + [letter])
        ensures w in Matches(s) && w != s && w[|s|] == letter
      {
        assert w[..|s|] == (s + [letter])[..|s|] == s;
      }
      forall w | w in Matches(s) && w != s && w[|s|] == letter
        ensures w in Matches(s + [letter])
      {
        assert w[..|s| + 1] == s + [letter];
      }
    }

    /** No stored word starts with a prefix whose path is missing. */
    lemma MissingPathHasNoMatches(prefix: string)
      requires WellFormed()
      requires prefix !in Paths
      ensures Matches(prefix) == {}
    {
      forall w | w in Words && prefix <= w
        ensures false
      {
        assert w[..|prefix|] == prefix;
        PrefixClosed(w, |prefix|);
      }
    }

    /** Every non-root path of the tree is a prefix of some stored word. */
    lemma {:induction false} PathLeadsToWord(p: string)
      requires WellFormed()
      requires p in Paths && p != ""
      ensures exists w :: w in Words && p <= w
      decreases Below(p)
    {
      if !Paths[p].isWord {
        var c :| c in Paths[p].children;
        var child := p + [c];
        assert p in Below(p) && p !in Below(child);
        assert Below(child) < Below(p);
        PathLeadsToWord(child);
        var w :| w in Words && child <= w;
        assert p <= w;
      }
    }

    /**
     * A path whose node has no children is a stored word, and it is the only
     * stored word that starts with it.
     */
    lemma LeafMatchesOnlyItself(prefix: string)
      requires WellFormed()
      requires prefix in Paths && prefix != "" && Paths[prefix].children == map[]
      ensures prefix in Words && Matches(prefix) == {prefix}
    {
      forall w | w in Words && prefix <= w
        ensures w == prefix
      {
        if w != prefix {
          ExtensionHasChild(prefix, w);
        }
      }
    }

    /** A path whose node has a child is a prefix of some strictly longer stored word. */
    lemma InnerPathHasLongerMatch(prefix: string)
      requires WellFormed()
      requires prefix in Paths && Paths[prefix].children != map[]
      ensures exists w :: w in Matches(prefix) && w != prefix
    {
      var c :| c in Paths[prefix].children;
      PathLeadsToWord(prefix + [c]);
      var w :| w in Words && prefix + [c] <= w;
      assert prefix <= w && w != prefix;
      assert w in Matches(prefix);
    }

    /**
     * Exact membership: walks the path of `word` one character at a time.
     * The empty word is never found.
     */
    method Contains(word: string) returns (found: bool)
      requires WellFormed()
      ensures found <==> word in Words
      ensures found <==> word != "" && word in Paths && Paths[word].isWord
    {
      var parentNode := root;
      for i := 0 to |word|
        invariant word[..i] in Paths && Paths[word[..i]] == parentNode
        invariant i == |word| ==> word !in Words
      {
        var currentChar := word[i];
        var currentNode: TreeNode? := if currentChar in parentNode.children then parentNode.children[currentChar] else null;
        assert word[..i + 1] == word[..i] + [currentChar];
        if currentChar in parentNode.children && currentNode.isWord && i == |word| - 1 {
          assert word[..i + 1] == word;
          return true;
        } else {
          if currentChar !in parentNode.children {
            if word in Paths {
              PrefixClosed(word, i + 1);
            }
            return false;
          } else {
            parentNode := currentNode;
          }
        }
      }
      assert word[..|word|] == word;
      return false;
    }

    /**
     * What linking the fresh leaf `newNode` under `parentNode` with key `c`
     * changes: one new edge and one new path, and no other field of any node.
     */
    twostate predicate Linking(parentNode: TreeNode, path: string, c: char, new newNode: TreeNode)
      reads this, Repr
    {
      && old(Linked())
      && Owned()
      && path in old(Paths) && old(Paths)[path] == parentNode
      && c !in old(parentNode.children) && newNode !in old(Repr)
      && Repr == old(Repr) + {newNode}
      && Paths == old(Paths)[path + [c] := newNode]
      && Words == (if newNode.isWord then old(Words) + {path + [c]} else old(Words))
      && root == old(root)
      && newNode.letter == c && newNode.children == map[]
      && parentNode.children == old(parentNode.children)[c := newNode]
      && parentNode.letter == old(parentNode.letter) && parentNode.isWord == old(parentNode.isWord)
      && (forall n {:trigger n in old(Repr)} :: n in old(Repr) && n != parentNode ==>
            n.letter == old(n.letter) && n.children == old(n.children) && n.isWord == old(n.isWord))
    }

    /**
     * Linking a fresh leaf keeps the tree linked (edges, parents, sharing and
     * marks); when the parent was the only leaf that could be unmarked, the
     * new leaf is now the only one, and there is none when it is marked.
     */
    twostate lemma LinkingKeepsLinked(path: string, new newNode: TreeNode)
      requires path in old(Paths) && Linking(old(Paths)[path], path, newNode.letter, newNode)
      requires old(LeavesAreWordsBut(path))
      ensures Linked()
      ensures LeavesAreWordsBut(path + [newNode.letter])
      ensures newNode.isWord ==> LeavesAreWords()
    {
      var parentNode, c := old(Paths)[path], newNode.letter;
      forall p, d | p in Paths && d in Paths[p].children
        ensures p + [d] in Paths && Paths[p + [d]] == Paths[p].children[d]
      {
        if p == path && d == c {
        } else if p == path {
          assert d in old(parentNode.children);
          assert path + [d] in old(Paths);
        } else {
          assert p != path + [c];
          assert p in old(Paths);
          assert p + [d] in old(Paths);
        }
      }
      forall p, d | p + [d] in Paths
        ensures p in Paths && d in Paths[p].children && Paths[p + [d]].letter == d
      {
        if p + [d] == path + [c] {
          assert p == (p + [d])[..|p|] == path;
        } else {
          assert p + [d] in old(Paths);
          assert p in old(Paths);
        }
      }
      forall w
        ensures w in Words <==> w in Paths && Paths[w].isWord
      {
        if w != path + [c] && w in Paths {
          assert w in old(Paths);
        }
      }
      forall q | q in Paths && q != "" && q != path + [c] && Paths[q].children == map[]
        ensures Paths[q].isWord
      {
        assert q in old(Paths);
      }
    }

    /**
     * Creates the node for `path + [c]` below `parentNode`, marked when `last`
     * holds, and links it under the key `c`.
     */
    method Attach(parentNode: TreeNode, ghost path: string, c: char, last: bool) returns (newNode: TreeNode)
      requires Linked()
      requires path in Paths && Paths[path] == parentNode && c !in parentNode.children
      requires LeavesAreWordsBut(path)
      modifies this`Paths, this`Repr, this`Words, parentNode
      ensures Linked() && Linking(parentNode, path, c, newNode)
      ensures fresh(newNode) && newNode.isWord == last
      ensures Paths.Keys == old(Paths).Keys + {path + [c]}
      ensures forall p :: p in old(Paths) ==> Paths[p] == old(Paths)[p]
      ensures LeavesAreWordsBut(path + [c]) && (last ==> LeavesAreWords())
    {
      newNode := NewLeaf(c, last);
      parentNode.children := parentNode.children[c := newNode];
      Paths := Paths[path + [c] := newNode];
      Repr := Repr + {newNode};
      if last {
        Words := Words + {path + [c]};
      }
      LinkingKeepsLinked(path, newNode);
    }

    /**
     * One step of the loop of `Add`: follows the edge `c` below `parentNode`,
     * first creating and linking its node when it is missing.
     */
    method Advance(parentNode: TreeNode, ghost path: string, c: char, last: bool) returns (next: TreeNode)
      requires Linked()
      requires path in Paths && Paths[path] == parentNode
      requires LeavesAreWordsBut(path)
      modifies this`Paths, this`Repr, this`Words, parentNode
      ensures Linked()
      ensures old(Repr) <= Repr && fresh(Repr - old(Repr)) && next in Repr
      ensures path + [c] in Paths && Paths[path + [c]] == next
      ensures Paths.Keys == old(Paths).Keys + {path + [c]}
      ensures forall p :: p in old(Paths) ==> Paths[p] == old(Paths)[p]
      ensures Words == if last && path + [c] !in old(Paths) then old(Words) + {path + [c]} else old(Words)
      ensures LeavesAreWordsBut(path + [c]) && (last ==> LeavesAreWords())
    {
      if c !in parentNode.children {
        next := Attach(parentNode, path, c, last);
      } else {
        LeavesMoveDown(path, c);
        next := parentNode.children[c];
      }
    }

    /**
     * The loop of `Add`: walks down `word`, creating every missing node and
     * marking only a node created for the last character.
     */
    method Descend(word: string)
      requires WellFormed()
      modifies this`Paths, this`Repr, this`Words, Repr
      ensures WellFormed()
      ensures fresh(Repr - old(Repr))
      ensures Paths.Keys == old(Paths).Keys + Prefixes(word)
      ensures forall p :: p in old(Paths) ==> Paths[p] == old(Paths)[p]
      ensures Words == if word !in old(Paths) then old(Words) + {word} else old(Words)
    {
      ghost var paths0, words0 := Paths, Words;
      ghost var path: string := [];
      var parentNode := root;
      for i := 0 to |word|
        invariant Linked()
        invariant parentNode in Repr && fresh(Repr - old(Repr))
        invariant path == word[..i]
        invariant path in Paths && Paths[path] == parentNode
        invariant Paths.Keys == paths0.Keys + Prefixes(path)
        invariant forall p :: p in paths0 ==> Paths[p] == paths0[p]
        invariant Words == if i == |word| && word !in paths0 then words0 + {word} else words0
        invariant LeavesAreWordsBut(path)
        invariant i == |word| ==> LeavesAreWords()
      {
        ghost var before := Paths.Keys;
        parentNode := Advance(parentNode, path, word[i], i == |word| - 1);
        GrowKeys(paths0.Keys, before, Paths.Keys, path, word[i]);
        TakeOneMore(word, i);
        path := path + [word[i]];
      }
      TakeAll(word);
    }

    /** Stepping into an existing child leaves the parent with a child, so it is no exception to the leaf rule. */
    lemma LeavesMoveDown(p: string, c: char)
      requires Linked() && p in Paths && c in Paths[p].children && LeavesAreWordsBut(p)
      ensures LeavesAreWords()
    {
    }

    /** Every prefix of a path is a path. */
    lemma PrefixesPresent(word: string)
      requires Linked() && word in Paths
      ensures Prefixes(word) <= Paths.Keys
    {
      forall q | q in Prefixes(word) ensures q in Paths {
        var i :| 0 <= i <= |word| && q == word[..i];
        PrefixClosed(word, i);
      }
    }

    /**
     * Adds `word`, creating a node for every character whose edge is missing.
     * Only a node created for the last character is marked, so a word whose
     * path already exists (a prefix of a stored word, or the empty word) is
     * counted in `size` but never becomes stored.
     */
    method Add(word: string)
      requires Valid()
      modifies this, Repr
      ensures Valid() && fresh(Repr - old(Repr))
      ensures root == old(root)
      // adding a stored word changes nothing
      ensures old(word in Words) ==> unchanged(this) && unchanged(old(Repr))
      // otherwise the count goes up by one
      ensures old(word !in Words) ==> Count == old(Count) + 1 && size == Inc(old(size))
      // the word becomes stored exactly when its last node did not exist
      ensures Words == if old(word in Words) || word in old(Paths) then old(Words) else old(Words) + {word}
      // the paths are the old ones plus every prefix of the word
      ensures Paths.Keys == old(Paths).Keys + Prefixes(word)
      // existing paths keep their nodes
      ensures forall p :: p in old(Paths) ==> Paths[p] == old(Paths)[p]
    {
      var present := Contains(word);
      if present {
        PrefixesPresent(word);
        return;
      }
      Descend(word);
      IncrementSize();
    }

    /**
     * What `Add` leaves alone: every old node keeps its letter (the root's
     * letter is never read) and its flag, and of the new nodes only the
     * word's own is marked.
     */
    twostate lemma AddKeepsNodes(word: string)
      requires old(Linked()) && Linked()
      requires Paths.Keys == old(Paths).Keys + Prefixes(word)
      requires forall p :: p in old(Paths) ==> Paths[p] == old(Paths)[p]
      requires Words == if old(word in Words) || word in old(Paths) then old(Words) else old(Words) + {word}
      ensures forall p :: p in old(Paths) && p != "" ==> Paths[p].letter == old(Paths[p].letter)
      ensures forall p :: p in old(Paths) ==> Paths[p].isWord == old(Paths[p].isWord)
      ensures forall p :: p in Paths && p !in old(Paths) ==> Paths[p].isWord == (p == word)
    {
      forall p | p in old(Paths) && p != ""
        ensures Paths[p].letter == old(Paths[p].letter)
      {
        var q, c := p[..|p| - 1], p[|p| - 1];
        assert q + [c] == p;
        assert q + [c] in old(Paths);
        assert q + [c] in Paths;
      }
    }

    /** Java's `size++`: one more counted `Add`, wrapping at the `int` bounds. */
    method IncrementSize()
      requires size == Wrap(Count)
      modifies this`size, this`Count
      ensures Count == old(Count) + 1 && size == Inc(old(size))
      ensures size == Wrap(Count)
    {
      size := Inc(size);
      Count := Count + 1;
    }

    /**
     * Appends `sb + node.letter` if its node is marked, then walks every child
     * subtree in an arbitrary order (the order of the map's key set).
     */
    method PreOrderTraverse(words: seq<string>, node: TreeNode, sb: string) returns (result: seq<string>)
      requires WellFormed()
      requires sb + [node.letter] in Paths && Paths[sb + [node.letter]] == node
      ensures |words| <= |result| && result[..|words|] == words
      ensures Distinct(result[|words|..])
      ensures Elements(result[|words|..]) == Matches(sb + [node.letter])
      decreases Below(sb + [node.letter])
    {
      var s := sb + [node.letter];
      result := words;
      if node.isWord {
        result := result + [s];
      }
      var keys := node.children.Keys;
      forall w | w in Matches(s) && w != s
        ensures w[|s|] in keys
      {
        ExtensionHasChild(s, w);
      }
      assert result[|words|..] == if node.isWord then [s] else [];
      while keys != {}
        invariant keys <= node.children.Keys
        invariant |words| <= |result| && result[..|words|] == words
        invariant Distinct(result[|words|..])
        invariant Elements(result[|words|..]) == set w | w in Matches(s) && (w == s || w[|s|] !in keys)
        decreases keys
      {
        var letter :| letter in keys;
        var child := node.children[letter];
        assert s + [child.letter] == s + [letter];
        assert Below(s + [letter]) < Below(s) by {
          assert s in Below(s) && s !in Below(s + [letter]);
        }
        var before := result;
        result := PreOrderTraverse(result, child, s);
        var added := result[|before|..];
        SliceAppend(result, before, |words|);
        MatchesOfChild(s, letter);
        DistinctAppend(before[|words|..], added);
        keys := keys - {letter};
      }
    }

    /**
     * The stored words that start with a non-empty `prefix`, in an arbitrary
     * order. The result is empty when the prefix's path is missing and also
     * when the prefix's node has no children, even though that node then ends
     * a stored word.
     */
    method GetWordsForPrefix(prefix: string) returns (words: seq<string>)
      requires Valid()
      requires prefix != ""
      ensures Distinct(words)
      ensures Elements(words) == if prefix in Paths && Paths[prefix].children != map[] then Matches(prefix) else {}
      ensures Elements(words) == if Matches(prefix) == {prefix} then {} else Matches(prefix)
    {
      words := [];
      var parentNode := root;
      var prefixNode: TreeNode? := null;
      var i := 0;
      while i < |prefix|
        invariant 0 <= i <= |prefix|
        invariant prefix[..i] in Paths && Paths[prefix[..i]] == parentNode
        invariant prefixNode == null ==> i < |prefix|
        invariant prefixNode != null ==> NodeAt(prefix) == prefixNode
      {
        var currentChar := prefix[i];
        var currentNode: TreeNode? := if currentChar in parentNode.children then parentNode.children[currentChar] else null;
        assert prefix[..i + 1] == prefix[..i] + [currentChar];
        if currentNode == null {
          if prefix in Paths {
            PrefixClosed(prefix, i + 1);
          }
          MissingPathHasNoMatches(prefix);
          return;
        }
        if i == |prefix| - 1 {
          assert prefix[..i + 1] == prefix;
          prefixNode := currentNode;
          break;
        }
        parentNode := currentNode;
        i := i + 1;
      }
      var sb := prefix[..|prefix| - 1];
      if prefixNode == null || prefixNode.children == map[] {
        LeafMatchesOnlyItself(prefix);
        return;
      }
      assert sb + [prefixNode.letter] == prefix;
      words := PreOrderTraverse(words, prefixNode, sb);
      InnerPathHasLongerMatch(prefix);
    }

    /** The number of `Add` calls that did not find their word, as a Java `int`. */
    function Size(): (n: int32)
      reads this, Repr
      requires Valid()
      ensures n == Wrap(Count)
      ensures Count <= MaxInt ==> |Words| <= n as int
    {
      size
    }
  }
}
