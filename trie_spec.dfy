/**
 * The prefix tree of trie.py seen as a value: every node is named by the
 * string spelt on the way to it from the root, and the shape maps each
 * such path to what its `TrieNode` holds.
 */
module TrieSpec {
  import opened Seqs

  /** A Python value that may be `None`. */
  datatype Option<V> = None | Some(value: V)

  /**
   * One `TrieNode`: `is_end_of_word`, `value`, and the keys of its
   * `children` dict in insertion order.
   */
  datatype NodeInfo<V> = NodeInfo(isEnd: bool, value: Option<V>, order: seq<char>)

  type Shape<V> = map<string, NodeInfo<V>>

  /** A fresh `TrieNode()`: no children, not an end of word, value `None`. */
  function EmptyNode<V>(): NodeInfo<V> {
    NodeInfo(false, None, [])
  }

  /**
   * The root exists; the parent of every non-root node is a node; and each
   * node's child characters are listed once, in its order, and name exactly
   * the one-character extensions of its path that are nodes.
   */
  ghost predicate WF<V>(s: Shape<V>) {
    "" in s && PrefixClosed(s) && forall p {:trigger ChildrenMatch(s, p)} :: p in s ==> ChildrenMatch(s, p)
  }

  /** The parent of every node is a node, so every prefix of a node is a node (`PrefixIn`). */
  ghost predicate PrefixClosed<V>(s: Shape<V>) {
    forall p, c :: p + [c] in s ==> p in s
  }

  ghost predicate ChildrenMatch<V>(s: Shape<V>, p: string)
    requires p in s
  {
    Distinct(s[p].order) && forall c :: c in s[p].order <==> p + [c] in s
  }

  /** What `get` answers: the value of the node of `key` when it is an end of word, else `None`. */
  ghost function Lookup<V>(s: Shape<V>, key: string): Option<V> {
    if key in s && s[key].isEnd then s[key].value else None
  }

  /** The stored keys: paths to end-of-word nodes. */
  ghost function KeySet<V>(s: Shape<V>): set<string> {
    set w | w in s && s[w].isEnd
  }

  /** The tree of a fresh `Trie()`: the root alone. */
  function EmptyShape<V>(): (s: Shape<V>)
    ensures WF(s) && KeySet(s) == {}
  {
    map["" := EmptyNode()]
  }

  /** One step of the walk in `put`: the child `c` of `p` is created, last in `p`'s order, if it is missing. */
  function Step<V>(s: Shape<V>, p: string, c: char): (r: Shape<V>)
    requires p in s
    ensures p + [c] in r && r.Keys == s.Keys + {p + [c]}
  {
    if p + [c] in s then s
    else s[p := s[p].(order := s[p].order + [c])][p + [c] := EmptyNode()]
  }

  /** The shape after the walk of `put` has gone `n` characters down `key`. */
  function AddPath<V>(s: Shape<V>, key: string, n: nat): (r: Shape<V>)
    requires "" in s && n <= |key|
    ensures key[..n] in r && "" in r
  {
    if n == 0 then s
    else
      assert key[..n - 1] + [key[n - 1]] == key[..n];
      Step(AddPath(s, key, n - 1), key[..n - 1], key[n - 1])
  }

  /** One more character of the walk. */
  lemma AddPathStep<V>(s: Shape<V>, key: string, n: nat)
    requires "" in s && n < |key|
    ensures AddPath(s, key, n + 1) == Step(AddPath(s, key, n), key[..n], key[n])
  {
  }

  /** `put(key, value)`: the walk creates the missing nodes of `key`, whose node is then marked an end of word holding `value`. */
  function Put<V>(s: Shape<V>, key: string, value: Option<V>): Shape<V>
    requires "" in s
  {
    var s1 := AddPath(s, key, |key|);
    assert key[..|key|] == key;
    s1[key := s1[key].(isEnd := true, value := value)]
  }

  /** The paths `put` walks through for `key`: its first `n + 1` prefixes. */
  ghost function Prefixes(key: string, n: nat): set<string>
    requires n <= |key|
  {
    set j | 0 <= j <= n :: key[..j]
  }

  /** `r` has every node of `s` with the same flag and value, and its other nodes are ends of no word. */
  ghost predicate Grown<V>(s: Shape<V>, r: Shape<V>) {
    s.Keys <= r.Keys &&
    (forall q :: q in s ==> r[q].isEnd == s[q].isEnd && r[q].value == s[q].value) &&
    forall q :: q in r && q !in s ==> !r[q].isEnd
  }

  lemma GrownTrans<V>(s: Shape<V>, s1: Shape<V>, r: Shape<V>)
    requires Grown(s, s1) && Grown(s1, r)
    ensures Grown(s, r)
  {
  }

  /** Changing the flags and values of a well-formed shape, but not its nodes or orders, keeps it well-formed. */
  lemma RelabelKeeps<V>(s: Shape<V>, r: Shape<V>)
    requires WF(s) && r.Keys == s.Keys
    requires forall q :: q in r ==> r[q].order == s[q].order
    ensures WF(r)
  {
    forall q | q in r ensures ChildrenMatch(r, q) {
      assert ChildrenMatch(s, q);
    }
  }

  lemma PrefixesStep(key: string, n: nat)
    requires 0 < n <= |key|
    ensures Prefixes(key, n) == Prefixes(key, n - 1) + {key[..n]}
  {
  }

  lemma PrefixesZero(key: string)
    ensures Prefixes(key, 0) == {""}
  {
    assert key[..0] == "";
  }

  lemma StepClosed<V>(s: Shape<V>, p: string, c: char)
    requires PrefixClosed(s) && p in s
    ensures PrefixClosed(Step(s, p, c))
  {
    var r := Step(s, p, c);
    forall q, d | q + [d] in r ensures q in r {
      if q + [d] == p + [c] {
        assert q == (q + [d])[..|q|] == (p + [c])[..|p|] == p;
      }
    }
  }

  lemma StepParentMatch<V>(s: Shape<V>, p: string, c: char)
    requires p in s && ChildrenMatch(s, p) && p + [c] !in s
    ensures ChildrenMatch(Step(s, p, c), p)
  {
    var r := Step(s, p, c);
    DistinctAppend(s[p].order, c);
    forall d ensures d in r[p].order <==> p + [d] in r {
      assert (p + [d])[|p|] == d;
    }
  }

  lemma StepNewMatch<V>(s: Shape<V>, p: string, c: char)
    requires p in s && PrefixClosed(s) && p + [c] !in s
    ensures ChildrenMatch(Step(s, p, c), p + [c])
  {
    var r := Step(s, p, c);
    forall d ensures p + [c] + [d] !in r {
      assert |p + [c] + [d]| != |p + [c]|;
    }
  }

  lemma StepOtherMatch<V>(s: Shape<V>, p: string, c: char, q: string)
    requires p in s && q in s && q != p && ChildrenMatch(s, q)
    ensures ChildrenMatch(Step(s, p, c), q)
  {
    var r := Step(s, p, c);
    forall d ensures q + [d] in r <==> q + [d] in s {
      assert (q + [d])[..|q|] == q && (p + [c])[..|p|] == p;
    }
  }

  /** A step of the walk keeps the shape well-formed and only adds an empty node. */
  lemma StepKeeps<V>(s: Shape<V>, p: string, c: char)
    requires WF(s) && p in s
    ensures WF(Step(s, p, c)) && Grown(s, Step(s, p, c))
  {
    var r := Step(s, p, c);
    var pc := p + [c];
    if pc !in s {
      StepClosed(s, p, c);
      forall q | q in r ensures ChildrenMatch(r, q) {
        if q == p {
          StepParentMatch(s, p, c);
        } else if q == pc {
          StepNewMatch(s, p, c);
        } else {
          StepOtherMatch(s, p, c, q);
        }
      }
    }
  }

  /** The walk of `put` keeps the shape well-formed, adds exactly the prefixes of `key`, and only empty nodes. */
  lemma {:induction false} AddPathKeeps<V>(s: Shape<V>, key: string, n: nat)
    requires WF(s) && n <= |key|
    ensures WF(AddPath(s, key, n)) && Grown(s, AddPath(s, key, n))
    ensures AddPath(s, key, n).Keys == s.Keys + Prefixes(key, n)
  {
    if n > 0 {
      TakeSnoc(key, n);
      PrefixesStep(key, n);
      AddPathKeeps(s, key, n - 1);
      var s1 := AddPath(s, key, n - 1);
      StepKeeps(s1, key[..n - 1], key[n - 1]);
      var r := Step(s1, key[..n - 1], key[n - 1]);
      assert AddPath(s, key, n) == r;
      GrownTrans(s, s1, r);
    } else {
      PrefixesZero(key);
    }
  }

  /** Marking the node of `key` in a shape grown from `s` stores `key` and leaves every other key of `s` as it was. */
  lemma MarkKeeps<V>(s: Shape<V>, s1: Shape<V>, key: string, value: Option<V>)
    requires Grown(s, s1) && key in s1
    ensures var r := s1[key := s1[key].(isEnd := true, value := value)];
      Lookup(r, key) == value &&
      (forall k :: k != key ==> Lookup(r, k) == Lookup(s, k)) &&
      KeySet(r) == KeySet(s) + {key}
  {
    var r := s1[key := s1[key].(isEnd := true, value := value)];
    forall w ensures w in KeySet(r) <==> w in KeySet(s) + {key} {
      if w != key && w in r {
        assert r[w] == s1[w];
      }
    }
  }

  /**
   * `put(key, value)` keeps the shape well-formed; afterwards `get(key)` is
   * `value`, every other key answers as before, the stored keys gain `key`,
   * and the only new nodes are the prefixes of `key`.
   */
  lemma PutSpec<V>(s: Shape<V>, key: string, value: Option<V>)
    requires WF(s)
    ensures WF(Put(s, key, value))
    ensures Lookup(Put(s, key, value), key) == value
    ensures forall k :: k != key ==> Lookup(Put(s, key, value), k) == Lookup(s, k)
    ensures Put(s, key, value).Keys == s.Keys + Prefixes(key, |key|)
    ensures KeySet(Put(s, key, value)) == KeySet(s) + {key}
  {
    AddPathKeeps(s, key, |key|);
    var s1 := AddPath(s, key, |key|);
    assert key[..|key|] == key;
    var r := s1[key := s1[key].(isEnd := true, value := value)];
    assert Put(s, key, value) == r;
    RelabelKeeps(s1, r);
    MarkKeeps(s, s1, key, value);
  }

  /** A shape is prefix-closed down to every length. */
  lemma {:induction false} PrefixIn<V>(s: Shape<V>, w: string, n: nat)
    requires PrefixClosed(s) && w in s && n <= |w|
    ensures w[..n] in s
    decreases |w| - n
  {
    if n == |w| {
      assert w[..n] == w;
    } else {
      PrefixIn(s, w, n + 1);
      TakeSnoc(w, n + 1);
    }
  }

  /** The nodes at or below the node of `p`. */
  ghost function Below<V>(s: Shape<V>, p: string): set<string> {
    set w | w in s && p <= w
  }

  /** Going down to a child strictly shrinks the part of the tree below. */
  lemma BelowShrinks<V>(s: Shape<V>, p: string, c: char)
    requires p in s
    ensures Below(s, p + [c]) < Below(s, p)
  {
    forall w | w in Below(s, p + [c]) ensures w in Below(s, p) {
      assert w[..|p|] == (p + [c])[..|p|] == p;
    }
    assert p !in Below(s, p + [c]);
  }

  /** A path lies below a child of `p` exactly when it extends `p` by that child's character. */
  lemma ExtendsChild(p: string, c: char, w: string)
    ensures p + [c] <= w <==> p < w && w[|p|] == c
  {
    if p < w && w[|p|] == c {
      assert w[..|p| + 1] == w[..|p|] + [w[|p|]];
    }
  }

  /**
   * The keys `_collect_keys` appends from the node of `p`: `p` itself when
   * it is an end of word, then, child by child in insertion order, the keys
   * below each child.
   */
  ghost function Preorder<V>(s: Shape<V>, p: string): seq<string>
    requires WF(s) && p in s
    decreases Below(s, p), 1, 0
  {
    assert ChildrenMatch(s, p);
    (if s[p].isEnd then [p] else []) + PreorderKids(s, p, s[p].order)
  }

  /** The keys collected below the children `cs` of `p`, in the order of `cs`. */
  ghost function PreorderKids<V>(s: Shape<V>, p: string, cs: seq<char>): seq<string>
    requires WF(s) && p in s && forall c :: c in cs ==> p + [c] in s
    decreases Below(s, p), 0, |cs|
  {
    if cs == [] then []
    else
      var c := cs[|cs| - 1];
      BelowShrinks(s, p, c);
      PreorderKids(s, p, cs[..|cs| - 1]) + Preorder(s, p + [c])
  }

  /** Collecting below one more child appends that child's keys. */
  lemma PreorderKidsSnoc<V>(s: Shape<V>, p: string, cs: seq<char>, i: nat)
    requires WF(s) && p in s && (forall c :: c in cs ==> p + [c] in s) && i < |cs|
    ensures PreorderKids(s, p, cs[..i + 1]) == PreorderKids(s, p, cs[..i]) + Preorder(s, p + [cs[i]])
  {
    assert cs[..i + 1][..i] == cs[..i];
  }

  /** `_collect_keys` from the node of `p` lists exactly the stored keys that extend `p`. */
  lemma {:induction false} PreorderElems<V>(s: Shape<V>, p: string)
    requires WF(s) && p in s
    ensures forall w :: w in Preorder(s, p) <==> w in s && s[w].isEnd && p <= w
    decreases Below(s, p), 1, 0
  {
    assert ChildrenMatch(s, p);
    var kids := PreorderKids(s, p, s[p].order);
    assert Preorder(s, p) == (if s[p].isEnd then [p] else []) + kids;
    PreorderKidsElems(s, p, s[p].order);
    forall w ensures w in Preorder(s, p) <==> w in s && s[w].isEnd && p <= w {
      if w in s && p <= w && w != p {
        assert |p| < |w| && w[..|p|] == p;
        PrefixIn(s, w, |p| + 1);
        assert w[..|p| + 1] == p + [w[|p|]];
        assert w[|p|] in s[p].order;
        assert p < w;
      }
    }
  }

  lemma {:induction false} PreorderKidsElems<V>(s: Shape<V>, p: string, cs: seq<char>)
    requires WF(s) && p in s && forall c :: c in cs ==> p + [c] in s
    ensures forall w :: w in PreorderKids(s, p, cs) <==> w in s && s[w].isEnd && p < w && w[|p|] in cs
    decreases Below(s, p), 0, |cs|
  {
    if cs != [] {
      var c := cs[|cs| - 1];
      var init := cs[..|cs| - 1];
      assert cs == init + [c];
      BelowShrinks(s, p, c);
      PreorderKidsElems(s, p, init);
      PreorderElems(s, p + [c]);
      forall w ensures p + [c] <= w <==> p < w && w[|p|] == c {
        ExtendsChild(p, c, w);
      }
    }
  }

  /** Every key comes before the keys that extend it: the pre-order of `_collect_keys`. */
  ghost predicate ExtensionsAfter(xs: seq<string>) {
    forall i, j :: 0 <= i < |xs| && 0 <= j < |xs| && xs[i] < xs[j] ==> i < j
  }

  /**
   * Two lists free of repeats, ordered with extensions after, whose elements
   * part ways right after `p`, concatenate to such a list.
   */
  lemma ConcatSeparated(a: seq<string>, b: seq<string>, p: string)
    requires Distinct(a) && Distinct(b) && ExtensionsAfter(a) && ExtensionsAfter(b)
    requires forall i :: 0 <= i < |a| ==> |p| < |a[i]|
    requires forall j :: 0 <= j < |b| ==> |p| < |b[j]|
    requires forall i, j :: 0 <= i < |a| && 0 <= j < |b| ==> a[i][|p|] != b[j][|p|]
    ensures Distinct(a + b) && ExtensionsAfter(a + b)
  {
    DistinctConcat(a, b);
    var ab := a + b;
    forall i, j | 0 <= i < |ab| && 0 <= j < |ab| && ab[i] < ab[j] ensures i < j {
      if i >= |a| && j >= |a| {
        assert b[i - |a|] < b[j - |a|];
      } else if i < |a| && j < |a| {
        assert a[i] < a[j];
      }
    }
  }

  /** `_collect_keys` lists each key once, and a key before its extensions. */
  lemma {:induction false} PreorderOrdered<V>(s: Shape<V>, p: string)
    requires WF(s) && p in s
    ensures Distinct(Preorder(s, p)) && ExtensionsAfter(Preorder(s, p))
    decreases Below(s, p), 1, 0
  {
    assert ChildrenMatch(s, p);
    var kids := PreorderKids(s, p, s[p].order);
    PreorderKidsOrdered(s, p, s[p].order);
    PreorderKidsElems(s, p, s[p].order);
    if s[p].isEnd {
      var xs := [p] + kids;
      assert Preorder(s, p) == xs;
      forall j | 0 <= j < |kids| ensures kids[j] != p && !(kids[j] < p) && |p| < |kids[j]| {
        assert kids[j] in kids;
      }
      forall i, j | 0 <= i < |xs| && 0 <= j < |xs| && xs[i] < xs[j] ensures i < j {
        if i > 0 && j > 0 {
          assert kids[i - 1] < kids[j - 1];
        }
      }
    }
  }

  lemma {:induction false} PreorderKidsOrdered<V>(s: Shape<V>, p: string, cs: seq<char>)
    requires WF(s) && p in s && forall c :: c in cs ==> p + [c] in s
    requires Distinct(cs)
    ensures Distinct(PreorderKids(s, p, cs)) && ExtensionsAfter(PreorderKids(s, p, cs))
    decreases Below(s, p), 0, |cs|
  {
    if cs != [] {
      var c := cs[|cs| - 1];
      var init := cs[..|cs| - 1];
      assert cs == init + [c];
      BelowShrinks(s, p, c);
      PreorderKidsOrdered(s, p, init);
      PreorderOrdered(s, p + [c]);
      PreorderKidsElems(s, p, init);
      PreorderElems(s, p + [c]);
      var a, b := PreorderKids(s, p, init), Preorder(s, p + [c]);
      forall j | 0 <= j < |b| ensures |p| < |b[j]| && b[j][|p|] == c {
        assert b[j] in b;
        ExtendsChild(p, c, b[j]);
      }
      forall i | 0 <= i < |a| ensures |p| < |a[i]| && a[i][|p|] in init {
        assert a[i] in a;
      }
      ConcatSeparated(a, b, p);
    }
  }

  /** A key that ends in `n` characters beyond `w[..n]` is a node only when that prefix is. */
  lemma PrefixOf<V>(s: Shape<V>, w: string, n: nat)
    requires PrefixClosed(s) && n <= |w|
    ensures w in s ==> w[..n] in s
  {
    if w in s {
      PrefixIn(s, w, n);
    }
  }

  /** Some stored key extends `p` (or is `p`). */
  ghost predicate HasWordBelow<V>(s: Shape<V>, p: string) {
    exists w :: w in KeySet(s) && p <= w
  }

  /**
   * A stored key extends `p` exactly when `p` is itself an end of word or a
   * stored key extends one of its children: the recursion of
   * `_has_words_from_node`.
   */
  lemma HasWordBelowChildren<V>(s: Shape<V>, p: string)
    requires WF(s) && p in s
    ensures HasWordBelow(s, p) <==> s[p].isEnd || exists c :: c in s[p].order && HasWordBelow(s, p + [c])
  {
    assert ChildrenMatch(s, p);
    if s[p].isEnd {
      assert p in KeySet(s);
    }
    if HasWordBelow(s, p) && !s[p].isEnd {
      var w :| w in KeySet(s) && p <= w;
      assert w != p && w[..|p|] == p;
      assert |p| < |w|;
      var c := w[|p|];
      ExtendsChild(p, c, w);
      PrefixIn(s, w, |p| + 1);
      assert w[..|p| + 1] == p + [c];
      assert c in s[p].order && HasWordBelow(s, p + [c]);
    }
    if exists c :: c in s[p].order && HasWordBelow(s, p + [c]) {
      var c :| c in s[p].order && HasWordBelow(s, p + [c]);
      var w :| w in KeySet(s) && p + [c] <= w;
      ExtendsChild(p, c, w);
      assert p <= w;
    }
  }

  /** A child `c` of a node `p` that is missing means that no stored key extends `p + [c]`. */
  lemma MissingChildNoWords<V>(s: Shape<V>, p: string, c: char)
    requires WF(s) && p + [c] !in s
    ensures !HasWordBelow(s, p + [c])
  {
    forall w | w in KeySet(s) ensures !(p + [c] <= w) {
      if |p| + 1 <= |w| {
        PrefixOf(s, w, |p| + 1);
        assert w[..|p| + 1] != p + [c];
      }
    }
  }

  /** A stored key that extends `q` extends every prefix of `q`. */
  lemma HasWordBelowShorter<V>(s: Shape<V>, p: string, q: string)
    requires p <= q && HasWordBelow(s, q)
    ensures HasWordBelow(s, p)
  {
    var w :| w in KeySet(s) && q <= w;
    assert w[..|q|] == q && q[..|p|] == p;
    assert w[..|p|] == p;
  }

  /** The trie of a fresh `Trie()` holds no key, so no prefix has a key below it. */
  lemma EmptyHasNoWords<V>(p: string)
    ensures !HasWordBelow(EmptyShape<V>(), p)
  {
    assert KeySet(EmptyShape<V>()) == {};
  }

  /**
   * `put(key, None)` stores `key` (it is an end of word, so `keys()` lists
   * it) while `get(key)` answers `None`, so `contains(key)` is false.
   */
  lemma StoredNoneIsAbsent<V>(s: Shape<V>, key: string)
    requires WF(s)
    ensures key in KeySet(Put(s, key, None)) && Lookup(Put(s, key, None), key) == None
  {
    PutSpec(s, key, None);
  }
}
