/**
 * The `Homework` subclass of `Trie` (task2_trie.py:9-110): counting the
 * stored keys that end with a suffix, and asking whether some stored key
 * starts with a prefix. Its methods read the trie and never change it;
 * they take the trie as a parameter.
 */
module Homework {
  import opened Seqs
  import opened TrieSpec
  import opened Tries

  /** The `ValueError` a method raises, with its message. */
  datatype Error = ValueError(message: string)

  datatype Result<T> = Success(value: T) | Failure(error: Error)

  const EmptyPattern: Error := ValueError("Параметр pattern не може бути порожнім рядком")
  const EmptyPrefix: Error := ValueError("Параметр prefix не може бути порожнім рядком")

  /** `word.endswith(pattern)`: the last `|pattern|` characters of `word` are `pattern`, compared exactly, case included. */
  predicate EndsWith(word: string, pattern: string) {
    |pattern| <= |word| && word[|word| - |pattern|..] == pattern
  }

  /** `EndsWith` agrees with its meaning: `word` is some string followed by `pattern`. */
  lemma EndsWithIsSuffix(word: string, pattern: string)
    ensures EndsWith(word, pattern) <==> exists u :: u + pattern == word
  {
    if EndsWith(word, pattern) {
      var u := word[..|word| - |pattern|];
      assert u + pattern == word;
    }
    if exists u :: u + pattern == word {
      var u :| u + pattern == word;
      assert word[|u|..] == pattern;
    }
  }

  /** How many of `words` end with `pattern`, counted as the loop of `count_words_with_suffix` does. */
  function CountEndsWith(words: seq<string>, pattern: string): (n: nat)
    ensures n <= |words|
  {
    if words == [] then 0
    else CountEndsWith(words[..|words| - 1], pattern) + (if EndsWith(words[|words| - 1], pattern) then 1 else 0)
  }

  /** The count is 0 exactly when no word ends with `pattern`, and the whole length exactly when every word does. */
  lemma {:induction false} CountEndsWithExtremes(words: seq<string>, pattern: string)
    ensures CountEndsWith(words, pattern) == 0 <==> forall k :: 0 <= k < |words| ==> !EndsWith(words[k], pattern)
    ensures CountEndsWith(words, pattern) == |words| <==> forall k :: 0 <= k < |words| ==> EndsWith(words[k], pattern)
  {
    if words != [] {
      var init := words[..|words| - 1];
      CountEndsWithExtremes(init, pattern);
      assert forall k :: 0 <= k < |init| ==> init[k] == words[k];
    }
  }

  /** The distinct strings of `words` that end with `pattern`. */
  ghost function Matching(words: set<string>, pattern: string): set<string> {
    set w | w in words && EndsWith(w, pattern)
  }

  /** In a list without repeats, the count of words ending with `pattern` is the number of such words. */
  lemma {:induction false} CountIsCardinality(words: seq<string>, pattern: string)
    requires Distinct(words)
    ensures CountEndsWith(words, pattern) == |Matching((set w | w in words), pattern)|
  {
    if words == [] {
      assert Matching((set w | w in words), pattern) == {};
    } else {
      var init, last := words[..|words| - 1], words[|words| - 1];
      assert Distinct(init);
      CountIsCardinality(init, pattern);
      assert words == init + [last];
      assert last !in init;
      var before := Matching((set w | w in init), pattern);
      if EndsWith(last, pattern) {
        assert Matching((set w | w in words), pattern) == before + {last};
      } else {
        assert Matching((set w | w in words), pattern) == before;
      }
    }
  }

  /** Counting through the keys as `keys()` lists them counts each stored key once. */
  lemma CountKeys<V>(s: Shape<V>, pattern: string)
    requires WF(s)
    ensures CountEndsWith(Preorder(s, ""), pattern) == |Matching(KeySet(s), pattern)|
  {
    PreorderOrdered(s, "");
    PreorderElems(s, "");
    CountIsCardinality(Preorder(s, ""), pattern);
    assert (set w | w in Preorder(s, "")) == KeySet(s);
  }

  /**
   * `_collect_all_words(node, current_word, result)` (task2_trie.py:76-89),
   * a copy of `_collect_keys`: the same keys in the same order.
   */
  method CollectAllWords<V>(t: Trie<V>, node: TrieNode<V>, ghost p: string, currentWord: string, result: seq<string>) returns (collected: seq<string>)
    requires t.Valid() && p in t.nodeAt && node == t.nodeAt[p] && currentWord == p
    ensures collected == result + Preorder(t.shape, p)
    decreases Below(t.shape, p)
  {
    assert t.Mirrors(p) && ChildrenMatch(t.shape, p);
    ghost var own := if t.shape[p].isEnd then [p] else [];
    var order := node.order;
    collected := result;
    if node.isEndOfWord {
      collected := collected + [currentWord];
    }
    var i := 0;
    while i < |order|
      invariant 0 <= i <= |order|
      invariant collected == result + own + PreorderKids(t.shape, p, order[..i])
    {
      PreorderKidsSnoc(t.shape, p, order, i);
      ConcatAssoc(result + own, PreorderKids(t.shape, p, order[..i]), Preorder(t.shape, p + [order[i]]));
      var c := order[i];
      BelowShrinks(t.shape, p, c);
      collected := CollectAllWords(t, node.children[c], p + [c], currentWord + [c], collected);
      i := i + 1;
    }
    assert order[..i] == order;
    ConcatAssoc(result, own, PreorderKids(t.shape, p, order));
  }

  /** The counting loop of `count_words_with_suffix` (task2_trie.py:38-41) over the collected words. */
  method CountSuffixMatches(words: seq<string>, pattern: string) returns (count: nat)
    ensures count == CountEndsWith(words, pattern)
  {
    count := 0;
    var i := 0;
    while i < |words|
      invariant 0 <= i <= |words| && count == CountEndsWith(words[..i], pattern)
    {
      assert words[..i + 1][..i] == words[..i];
      if EndsWith(words[i], pattern) {
        count := count + 1;
      }
      i := i + 1;
    }
    assert words[..i] == words;
  }

  /**
   * `count_words_with_suffix(pattern)` (task2_trie.py:12-43): a
   * `ValueError` for the empty pattern, otherwise the number of stored keys
   * that end with `pattern`.
   */
  method CountWordsWithSuffix<V>(t: Trie<V>, pattern: string) returns (r: Result<nat>)
    requires t.Valid()
    ensures pattern == [] ==> r == Failure(EmptyPattern)
    ensures pattern != [] ==> r == Success(|Matching(KeySet(t.shape), pattern)|)
  {
    if pattern == [] {
      return Failure(EmptyPattern);
    }
    var allWords := CollectAllWords(t, t.root, "", "", []);
    assert allWords == Preorder(t.shape, "");
    var count := CountSuffixMatches(allWords, pattern);
    CountKeys(t.shape, pattern);
    r := Success(count);
  }

  /**
   * `_has_words_from_node(node)` (task2_trie.py:91-110) on the node of `p`:
   * true at an end of word, otherwise true as soon as one child's subtree
   * holds a word, in the order the children were added.
   */
  method HasWordsFromNode<V>(t: Trie<V>, node: TrieNode<V>, ghost p: string) returns (b: bool)
    requires t.Valid() && p in t.nodeAt && node == t.nodeAt[p]
    ensures b <==> HasWordBelow(t.shape, p)
    decreases Below(t.shape, p)
  {
    assert t.Mirrors(p) && ChildrenMatch(t.shape, p);
    HasWordBelowChildren(t.shape, p);
    if node.isEndOfWord {
      return true;
    }
    var order := node.order;
    var i := 0;
    while i < |order|
      invariant 0 <= i <= |order|
      invariant forall j :: 0 <= j < i ==> !HasWordBelow(t.shape, p + [order[j]])
    {
      var c := order[i];
      BelowShrinks(t.shape, p, c);
      var found := HasWordsFromNode(t, node.children[c], p + [c]);
      if found {
        return true;
      }
      i := i + 1;
    }
    return false;
  }

  /**
   * `has_prefix(prefix)` (task2_trie.py:45-74): a `ValueError` for the
   * empty prefix, otherwise whether some stored key starts with `prefix`
   * (a key equal to `prefix` included).
   */
  method HasPrefix<V>(t: Trie<V>, prefix: string) returns (r: Result<bool>)
    requires t.Valid()
    ensures prefix == [] ==> r == Failure(EmptyPrefix)
    ensures prefix != [] ==> r == Success(HasWordBelow(t.shape, prefix))
  {
    if prefix == [] {
      return Failure(EmptyPrefix);
    }
    var node := t.root;
    var i := 0;
    while i < |prefix|
      invariant 0 <= i <= |prefix| && prefix[..i] in t.nodeAt && node == t.nodeAt[prefix[..i]]
    {
      var c := prefix[i];
      TakeSnoc(prefix, i + 1);
      assert t.Mirrors(prefix[..i]) && ChildrenMatch(t.shape, prefix[..i]);
      if c !in node.children {
        MissingChildNoWords(t.shape, prefix[..i], c);
        if HasWordBelow(t.shape, prefix) {
          HasWordBelowShorter(t.shape, prefix[..i + 1], prefix);
        }
        return Success(false);
      }
      node := node.children[c];
      i := i + 1;
    }
    assert prefix[..i] == prefix;
    var found := HasWordsFromNode(t, node, prefix);
    r := Success(found);
  }

  /** On a fresh trie, `count_words_with_suffix` counts nothing and `has_prefix` finds nothing. */
  lemma EmptyTrieAnswers<V>(pattern: string, prefix: string)
    ensures |Matching(KeySet(EmptyShape<V>()), pattern)| == 0
    ensures !HasWordBelow(EmptyShape<V>(), prefix)
  {
    assert Matching(KeySet(EmptyShape<V>()), pattern) == {};
    EmptyHasNoWords<V>(prefix);
  }
}
