/**
 * The prefix tree of trie.py as objects on the heap: `TrieNode`s linked
 * through their `children` dicts, under a `Trie` that holds the root.
 * Ghost fields tie the heap to its abstract shape (module TrieSpec): the
 * node of every path, and the shape the nodes spell.
 */
module Tries {
  import opened Seqs
  import opened TrieSpec

  /**
   * A node (trie.py:5-12). The `children` dict is a map together with its
   * keys in insertion order, which is the order Python iterates it in.
   */
  class TrieNode<V> {
    var children: map<char, TrieNode<V>>
    var order: seq<char>
    var isEndOfWord: bool
    var value: Option<V>
    /** The path from the root to this node. */
    ghost const path: string

    constructor (ghost path: string)
      ensures children == map[] && order == [] && !isEndOfWord && value == None
      ensures this.path == path
    {
      children := map[];
      order := [];
      isEndOfWord := false;
      value := None;
      this.path := path;
    }
  }

  class Trie<V> {
    var root: TrieNode<V>
    /** The abstract tree the nodes spell. */
    ghost var shape: Shape<V>
    /** The node of every path. */
    ghost var nodeAt: map<string, TrieNode<V>>
    ghost var Repr: set<object>

    ghost predicate Valid()
      reads this, Repr
    {
      ShapeOK() && NodesMirror()
    }

    /** The ghost state alone: a well-formed shape, a node for each of its paths, the root at the empty path. */
    ghost predicate ShapeOK()
      reads this
    {
      this in Repr && WF(shape) && nodeAt.Keys == shape.Keys &&
      "" in nodeAt && nodeAt[""] == root &&
      forall p :: p in nodeAt ==> nodeAt[p] in Repr
    }

    ghost predicate NodesMirror()
      requires ShapeOK()
      reads this, Repr
    {
      forall p {:trigger Mirrors(p)} :: p in nodeAt ==> Mirrors(p)
    }

    /**
     * The node of `p` holds what the shape says of `p`, and its `children`
     * dict maps each listed character `c` to the node of `p + [c]`.
     */
    ghost predicate Mirrors(p: string)
      requires p in nodeAt && p in shape
      reads this, nodeAt[p]
    {
      var n := nodeAt[p];
      n.path == p && n.isEndOfWord == shape[p].isEnd && n.value == shape[p].value &&
      n.order == shape[p].order &&
      forall c :: (c in n.children <==> c in n.order) && (c in n.children ==> p + [c] in nodeAt && n.children[c] == nodeAt[p + [c]])
    }

    /** `Trie()` (trie.py:18-20): the root alone, storing no key. */
    constructor ()
      ensures Valid() && fresh(Repr)
      ensures shape == EmptyShape() && KeySet(shape) == {}
    {
      var r := new TrieNode<V>("");
      root := r;
      shape := EmptyShape();
      nodeAt := map["" := r];
      Repr := {this, r};
    }

    /** Hangs a fresh empty node under the node of `p` as its child `c`, last in its order (trie.py:35-36). */
    method AddChild(node: TrieNode<V>, ghost p: string, c: char) returns (child: TrieNode<V>)
      requires Valid() && p in nodeAt && node == nodeAt[p] && p + [c] !in shape
      modifies this, node
      ensures Valid() && fresh(child)
      ensures shape == Step(old(shape), p, c)
      ensures nodeAt == old(nodeAt)[p + [c] := child] && Repr == old(Repr) + {child}
      ensures root == old(root)
    {
      StepKeeps(shape, p, c);
      child := new TrieNode(p + [c]);
      node.children := node.children[c := child];
      node.order := node.order + [c];
      shape := Step(shape, p, c);
      nodeAt := nodeAt[p + [c] := child];
      Repr := Repr + {child};
      AddedMirrors((p, c));
    }

    /**
     * After `AddChild` hung a new node at `p + [c]` (with `(p, c)` passed as
     * one `step`), every node still mirrors its path.
     */
    twostate lemma AddedMirrors(step: (string, char))
      requires var (p, c) := step;
        old(Valid()) && old(p in nodeAt) && p + [c] !in old(shape) &&
        shape == Step(old(shape), p, c) && WF(shape) &&
        p + [c] in nodeAt && nodeAt == old(nodeAt)[p + [c] := nodeAt[p + [c]]] &&
        nodeAt[p + [c]].path == p + [c] && nodeAt[p + [c]].order == [] && nodeAt[p + [c]].children == map[] &&
        !nodeAt[p + [c]].isEndOfWord && nodeAt[p + [c]].value == None &&
        nodeAt[p].children == old(nodeAt[p].children)[c := nodeAt[p + [c]]] &&
        nodeAt[p].order == old(nodeAt[p].order) + [c] &&
        nodeAt[p].isEndOfWord == old(nodeAt[p].isEndOfWord) && nodeAt[p].value == old(nodeAt[p].value) &&
        forall o: object :: o in old(Repr) && o != nodeAt[p] && o != this ==> unchanged(o)
      ensures ShapeOK() ==> NodesMirror()
    {
      var (p, c) := step;
      forall q | q in nodeAt ensures Mirrors(q) {
        if q == p + [c] {
          assert Mirrors(q);
        } else if q == p {
          assert old(Mirrors(p));
          assert Mirrors(q);
        } else {
          assert old(Mirrors(q));
          assert old(nodeAt[q]) in old(Repr);
          assert Mirrors(q);
        }
      }
    }

    /** One step of the walk in `put` (trie.py:35-37): the child `c` of the node of `p`, created if missing. */
    method Descend(node: TrieNode<V>, ghost p: string, c: char) returns (next: TrieNode<V>)
      requires Valid() && p in nodeAt && node == nodeAt[p]
      modifies Repr
      ensures Valid() && fresh(Repr - old(Repr))
      ensures shape == Step(old(shape), p, c)
      ensures p + [c] in nodeAt && next == nodeAt[p + [c]]
    {
      assert Mirrors(p) && ChildrenMatch(shape, p);
      if c !in node.children {
        next := AddChild(node, p, c);
      } else {
        next := node.children[c];
      }
    }

    /** Marks the node of `key` as an end of word holding `value` (trie.py:39-40). */
    method Mark(node: TrieNode<V>, ghost key: string, value: Option<V>)
      requires Valid() && key in nodeAt && node == nodeAt[key]
      modifies this, node
      ensures Valid()
      ensures shape == old(shape)[key := old(shape)[key].(isEnd := true, value := value)]
      ensures nodeAt == old(nodeAt) && Repr == old(Repr) && root == old(root)
    {
      RelabelKeeps(shape, shape[key := shape[key].(isEnd := true, value := value)]);
      node.isEndOfWord := true;
      node.value := value;
      shape := shape[key := shape[key].(isEnd := true, value := value)];
      MarkedMirrors(key);
    }

    /** After `Mark` on the node of `key`, every node still mirrors its path. */
    twostate lemma MarkedMirrors(key: string)
      requires old(Valid()) && key in old(nodeAt) && nodeAt == old(nodeAt) && Repr == old(Repr)
      requires shape == old(shape)[key := old(shape)[key].(isEnd := nodeAt[key].isEndOfWord, value := nodeAt[key].value)]
      requires nodeAt[key].children == old(nodeAt[key].children) && nodeAt[key].order == old(nodeAt[key].order)
      requires forall o: object :: o in old(Repr) && o != nodeAt[key] && o != this ==> unchanged(o)
      ensures ShapeOK() ==> NodesMirror()
    {
      forall q | q in nodeAt ensures Mirrors(q) {
        assert old(Mirrors(q));
        if q != key {
          assert old(Mirrors(key));
          assert old(nodeAt[q]) in old(Repr) && nodeAt[q] != nodeAt[key];
        } else {
          assert shape[q].isEnd == nodeAt[q].isEndOfWord && shape[q].value == nodeAt[q].value;
          assert shape[q].order == old(shape[q].order);
        }
      }
    }

    /**
     * `put(key, value)` (trie.py:22-40): walks down `key`, creating the
     * missing nodes, and marks the last one; the shape becomes the one
     * `TrieSpec.Put` describes.
     */
    method Put(key: string, value: Option<V>)
      requires Valid()
      modifies Repr
      ensures Valid() && fresh(Repr - old(Repr))
      ensures shape == TrieSpec.Put(old(shape), key, value)
    {
      ghost var s0 := shape;
      var node := root;
      var i := 0;
      while i < |key|
        invariant 0 <= i <= |key| && Valid() && fresh(Repr - old(Repr))
        invariant shape == AddPath(s0, key, i)
        invariant key[..i] in nodeAt && node == nodeAt[key[..i]]
      {
        TakeSnoc(key, i + 1);
        AddPathStep(s0, key, i);
        node := Descend(node, key[..i], key[i]);
        i := i + 1;
      }
      assert key[..i] == key;
      Mark(node, key, value);
    }

    /**
     * `get(key)` (trie.py:42-61): walks down `key` and answers `None` at the
     * first missing child; at the end, the node's value if it is an end of
     * word, else `None`.
     */
    method Get(key: string) returns (r: Option<V>)
      requires Valid()
      ensures r == Lookup(shape, key)
    {
      var node := root;
      var i := 0;
      while i < |key|
        invariant 0 <= i <= |key| && key[..i] in nodeAt && node == nodeAt[key[..i]]
      {
        var c := key[i];
        TakeSnoc(key, i + 1);
        assert Mirrors(key[..i]) && ChildrenMatch(shape, key[..i]);
        if c !in node.children {
          PrefixOf(shape, key, i + 1);
          return None;
        }
        node := node.children[c];
        i := i + 1;
      }
      assert key[..i] == key;
      assert Mirrors(key);
      r := if node.isEndOfWord then node.value else None;
    }

    /** `contains(key)` (trie.py:63-73): `get(key)` is not `None`, so a key stored with the value `None` counts as absent. */
    method Contains(key: string) returns (b: bool)
      requires Valid()
      ensures b <==> Lookup(shape, key).Some?
    {
      var r := Get(key);
      b := r.Some?;
    }

    /**
     * `_collect_keys(node, prefix, result)` (trie.py:86-99) on the node of
     * `p`: appends `p` if it ends a word, then the keys below each child in
     * the order the children were added. The list Python extends in place is
     * passed in and returned.
     */
    method CollectKeys(node: TrieNode<V>, ghost p: string, prefix: string, result: seq<string>) returns (collected: seq<string>)
      requires Valid() && p in nodeAt && node == nodeAt[p] && prefix == p
      ensures collected == result + Preorder(shape, p)
      decreases Below(shape, p)
    {
      assert Mirrors(p) && ChildrenMatch(shape, p);
      ghost var own := if shape[p].isEnd then [p] else [];
      var order := node.order;
      collected := result;
      if node.isEndOfWord {
        collected := collected + [prefix];
      }
      var i := 0;
      while i < |order|
        invariant 0 <= i <= |order|
        invariant collected == result + own + PreorderKids(shape, p, order[..i])
      {
        PreorderKidsSnoc(shape, p, order, i);
        ConcatAssoc(result + own, PreorderKids(shape, p, order[..i]), Preorder(shape, p + [order[i]]));
        var c := order[i];
        BelowShrinks(shape, p, c);
        collected := CollectKeys(node.children[c], p + [c], prefix + [c], collected);
        i := i + 1;
      }
      assert order[..i] == order;
      ConcatAssoc(result, own, PreorderKids(shape, p, order));
    }

    /**
     * `keys()` (trie.py:75-84): every stored key exactly once, each before
     * the keys that extend it, children in the order they were added.
     */
    method Keys() returns (result: seq<string>)
      requires Valid()
      ensures result == Preorder(shape, "")
      ensures forall w :: w in result <==> w in KeySet(shape)
      ensures Distinct(result) && ExtensionsAfter(result)
    {
      result := CollectKeys(root, "", "", []);
      PreorderElems(shape, "");
      PreorderOrdered(shape, "");
    }
  }
}
