/**
 * The compressed trie of trie.c: nodes labelled by fragment descriptors
 * over the arena, with up to 26 children keyed by the first letter of
 * their labels. This module holds the node type, the abstract meaning of
 * a subtree (the words it spells) and the structural invariant; the
 * operations live in the TrieInsert, TrieFind and TrieDelete modules.
 */
module Trie {
  import opened Wrappers
  import opened Arena

  /**
   * `struct Node`: the label (`edge`, the C field `word`), the end-of-word mark and the child
   * slots; slot k, when present, holds the child whose label starts with
   * the k-th letter of the alphabet.
   */
  datatype Node = Node(edge: Desc, eow: bool, children: map<int, Node>)

  /** A fresh node ending a word and without children. */
  function Leaf(d: Desc): Node {
    Node(d, true, map[])
  }

  /** Every arena entry is a lowercase word. */
  ghost predicate ArenaLower(base: seq<string>) {
    forall i :: 0 <= i < |base| ==> AllLower(base[i])
  }

  /** Every label of the subtree lies inside the arena. */
  ghost predicate LabelsValid(base: seq<string>, n: Node)
    decreases n
  {
    && Valid(base, n.edge)
    && forall k :: k in n.children ==> LabelsValid(base, n.children[k])
  }

  /** Every label below the root lies inside the arena. */
  ghost predicate RootValid(base: seq<string>, r: Node) {
    forall k :: k in r.children ==> LabelsValid(base, r.children[k])
  }

  /**
   * `w` is a word of the subtree of `n`, spelled from the start of `n`'s
   * label: the label is a prefix of `w`, and either `w` ends with the label
   * on a node marked end-of-word, or the rest of `w` is a word of the child
   * in the slot of its next letter.
   */
  ghost predicate Has(base: seq<string>, n: Node, w: string)
    decreases n
  {
    var lab := Text(base, n.edge);
    && lab <= w
    && if |w| == |lab| then n.eow
       else Slot(w[|lab|]) in n.children && Has(base, n.children[Slot(w[|lab|])], w[|lab|..])
  }

  /**
   * The words stored in the trie: the root has an empty label and its own
   * end-of-word mark is never read, so a stored word is non-empty and is
   * spelled from the child in the slot of its first letter.
   */
  ghost predicate InTrie(base: seq<string>, root: Option<Node>, w: string) {
    && root.Some?
    && |w| >= 1
    && Slot(w[0]) in root.value.children
    && Has(base, root.value.children[Slot(w[0])], w)
  }

  /**
   * The invariant of a non-root node reached along `pre`, the text of the
   * path from the root to its parent:
   *  - its label is non-empty and is anchored to `pre` in the arena,
   *  - it ends a word or has at least two children (so no dead branch and
   *    no node that could be merged with an only child),
   *  - child slot k holds a node whose label starts with letter k, and
   *    every child satisfies the invariant along `pre` + this label.
   */
  ghost predicate NodeInv(base: seq<string>, n: Node, pre: string)
    decreases n
  {
    && Anchored(base, n.edge, pre)
    && n.edge.length >= 1
    && (n.eow || |n.children| >= 2)
    && forall k :: k in n.children ==>
         && 0 <= k < 26
         && FirstLetter(base, n.children[k].edge) == k
         && NodeInv(base, n.children[k], pre + Text(base, n.edge))
  }

  /**
   * The invariant of the root: an empty label, at least one child (a root
   * left without children is freed), and well-formed children keyed by
   * their first letters.
   */
  ghost predicate RootInv(base: seq<string>, r: Node) {
    && r.edge == EmptyDesc
    && |r.children| >= 1
    && forall k :: k in r.children ==>
         && 0 <= k < 26
         && FirstLetter(base, r.children[k].edge) == k
         && NodeInv(base, r.children[k], [])
  }

  /** The invariant of an optional root (a null root is the empty trie). */
  ghost predicate TrieInv(base: seq<string>, root: Option<Node>) {
    root.Some? ==> RootInv(base, root.value)
  }

  lemma {:induction false} InvLabelsValid(base: seq<string>, n: Node, pre: string)
    requires NodeInv(base, n, pre)
    ensures LabelsValid(base, n)
    decreases n
  {
    forall k | k in n.children
      ensures LabelsValid(base, n.children[k])
    {
      InvLabelsValid(base, n.children[k], pre + Text(base, n.edge));
    }
  }

  lemma RootInvValid(base: seq<string>, r: Node)
    requires RootInv(base, r)
    ensures RootValid(base, r)
  {
    forall k | k in r.children
      ensures LabelsValid(base, r.children[k])
    {
      InvLabelsValid(base, r.children[k], []);
    }
  }

  lemma TrieInvValid(base: seq<string>, root: Option<Node>)
    requires TrieInv(base, root)
    ensures root.Some? ==> RootValid(base, root.value)
  {
    if root.Some? {
      RootInvValid(base, root.value);
    }
  }

  /**
   * A node whose label is replaced by another one, anchored elsewhere but
   * reaching the same path text, keeps the invariant: the children only
   * see the text of the path down to them.
   */
  lemma Reanchor(base: seq<string>, n: Node, pre: string, m: Node, pre2: string)
    requires NodeInv(base, n, pre)
    requires m.eow == n.eow && m.children == n.children
    requires Anchored(base, m.edge, pre2) && m.edge.length >= 1
    requires pre2 + Text(base, m.edge) == pre + Text(base, n.edge)
    ensures NodeInv(base, m, pre2)
  {
  }

  /** A fresh leaf holds exactly the word its label spells. */
  lemma LeafHas(base: seq<string>, d: Desc, w: string)
    ensures Has(base, Leaf(d), w) <==> w == Text(base, d)
  {
  }

  /** A word of a subtree begins with the subtree's label. */
  lemma HasLabel(base: seq<string>, n: Node, w: string)
    requires Has(base, n, w)
    ensures Text(base, n.edge) <= w
  {
  }

  /**
   * Replacing the child in slot k changes only the words that continue
   * through slot k.
   */
  lemma ReplaceChildHas(base: seq<string>, n: Node, k: int, c: Node, w: string)
    ensures var lab := Text(base, n.edge);
      Has(base, n.(children := n.children[k := c]), w) <==>
        if lab <= w && |w| > |lab| && Slot(w[|lab|]) == k then Has(base, c, w[|lab|..])
        else Has(base, n, w)
  {
  }

  /** Removing the child in slot k drops exactly the words continuing through it. */
  lemma RemoveChildHas(base: seq<string>, n: Node, k: int, w: string)
    ensures var lab := Text(base, n.edge);
      Has(base, n.(children := n.children - {k}), w) <==>
        Has(base, n, w) && !(lab <= w && |w| > |lab| && Slot(w[|lab|]) == k)
  {
  }

  /**
   * Narrowing a label by its first `c` characters, which `w` starts with,
   * leaves the subtree holding the same words with those characters cut.
   */
  lemma NarrowHas(base: seq<string>, n: Node, c: int, w: string)
    requires Valid(base, n.edge) && 0 <= c <= n.edge.length
    requires c <= |w| && w[..c] == Text(base, n.edge)[..c]
    ensures Has(base, n.(edge := Advance(n.edge, c)), w[c..]) <==> Has(base, n, w)
  {
    var lab := Text(base, n.edge);
    var m := n.(edge := Advance(n.edge, c));
    AdvanceText(base, n.edge, c);
    assert Text(base, m.edge) == lab[c..];
    assert lab == lab[..c] + lab[c..];
    assert w == w[..c] + w[c..];
    assert lab[c..] <= w[c..] <==> lab <= w;
    if |w| > |lab| && lab <= w {
      assert w[c..][|lab| - c] == w[|lab|];
      assert w[c..][|lab| - c..] == w[|lab|..];
    }
  }

  /**
   * Extending a label, through a child that starts with the extension, by
   * everything below: a word of the child, prefixed by the label, is a word
   * of the node.
   */
  lemma ChildHas(base: seq<string>, n: Node, k: int, w: string)
    requires k in n.children
    requires Valid(base, n.children[k].edge) && n.children[k].edge.length >= 1
    requires FirstLetter(base, n.children[k].edge) == k
    requires Has(base, n.children[k], w)
    ensures Has(base, n, Text(base, n.edge) + w)
  {
    var lab := Text(base, n.edge);
    var c := n.children[k];
    assert Text(base, c.edge) <= w;
    var x := lab + w;
    assert x[|lab|] == w[0] == Text(base, c.edge)[0];
    assert x[|lab|..] == w;
  }

  lemma NonEmptyMap(m: map<int, Node>)
    requires |m| >= 1
    ensures exists k :: k in m
  {
    var keys := m.Keys;
    if forall k :: k !in keys {
    }
  }

  /**
   * A witness word of a subtree: under the invariant every subtree holds
   * a word, which is what lets `trie_find` answer without looking below.
   */
  ghost function {:induction false} SomeWord(base: seq<string>, n: Node, pre: string): (w: string)
    requires NodeInv(base, n, pre)
    ensures Has(base, n, w)
    decreases n
  {
    if n.eow then
      Text(base, n.edge)
    else
      NonEmptyMap(n.children);
      var k :| k in n.children;
      ChildHas(base, n, k, SomeWord(base, n.children[k], pre + Text(base, n.edge)));
      Text(base, n.edge) + SomeWord(base, n.children[k], pre + Text(base, n.edge))
  }

  /** Marking a node end-of-word adds exactly the word its path spells. */
  lemma MarkHas(base: seq<string>, n: Node, w: string)
    ensures Has(base, n.(eow := true), w) <==> Has(base, n, w) || w == Text(base, n.edge)
  {
  }

  /** Unmarking a node removes exactly the word its path spells. */
  lemma UnmarkHas(base: seq<string>, n: Node, w: string)
    ensures Has(base, n.(eow := false), w) <==> Has(base, n, w) && w != Text(base, n.edge)
  {
  }

  /**
   * Adding a fresh leaf in the empty slot of its first letter adds exactly
   * the word spelled by the node's label followed by the leaf's label.
   */
  lemma AddLeafHas(base: seq<string>, n: Node, d: Desc, w: string)
    requires Valid(base, d) && d.length >= 1
    requires Slot(Text(base, d)[0]) !in n.children
    ensures Has(base, n.(children := n.children[Slot(Text(base, d)[0]) := Leaf(d)]), w)
        <==> Has(base, n, w) || w == Text(base, n.edge) + Text(base, d)
  {
    var lab := Text(base, n.edge);
    var k := Slot(Text(base, d)[0]);
    ReplaceChildHas(base, n, k, Leaf(d), w);
    var word := lab + Text(base, d);
    assert word[|lab|..] == Text(base, d);
    if lab <= w && |w| > |lab| {
      LeafHas(base, d, w[|lab|..]);
      assert w == w[..|lab|] + w[|lab|..];
    }
  }

  /** Appending to the arena changes neither the invariant nor the words of a subtree. */
  lemma {:induction false} ExtendNode(base: seq<string>, s: string, n: Node, pre: string)
    requires NodeInv(base, n, pre)
    ensures NodeInv(base + [s], n, pre)
    ensures forall w :: Has(base + [s], n, w) <==> Has(base, n, w)
    decreases n
  {
    ExtendText(base, s, n.edge);
    ExtendAnchored(base, s, n.edge, pre);
    forall k | k in n.children
      ensures FirstLetter(base + [s], n.children[k].edge) == k
      ensures NodeInv(base + [s], n.children[k], pre + Text(base, n.edge))
    {
      ExtendText(base, s, n.children[k].edge);
      ExtendNode(base, s, n.children[k], pre + Text(base, n.edge));
    }
    InvLabelsValid(base, n, pre);
    forall w
      ensures Has(base + [s], n, w) <==> Has(base, n, w)
    {
      ExtendHas(base, s, n, w);
    }
  }

  lemma {:induction false} ExtendHas(base: seq<string>, s: string, n: Node, w: string)
    requires LabelsValid(base, n)
    ensures Has(base + [s], n, w) <==> Has(base, n, w)
    decreases n
  {
    ExtendText(base, s, n.edge);
    var lab := Text(base, n.edge);
    if lab <= w && |w| > |lab| && Slot(w[|lab|]) in n.children {
      ExtendHas(base, s, n.children[Slot(w[|lab|])], w[|lab|..]);
    }
  }

  /** Appending to the arena changes neither the invariant nor the stored words. */
  lemma ExtendTrie(base: seq<string>, s: string, root: Option<Node>)
    requires TrieInv(base, root)
    ensures TrieInv(base + [s], root)
    ensures forall w :: InTrie(base + [s], root, w) <==> InTrie(base, root, w)
  {
    if root.Some? {
      var r := root.value;
      forall k | k in r.children
        ensures FirstLetter(base + [s], r.children[k].edge) == k
        ensures NodeInv(base + [s], r.children[k], [])
        ensures forall w :: Has(base + [s], r.children[k], w) <==> Has(base, r.children[k], w)
      {
        InvLabelsValid(base, r.children[k], []);
        ExtendText(base, s, r.children[k].edge);
        ExtendNode(base, s, r.children[k], []);
      }
    }
  }
}
