/**
 * The prefix query `trie_find` of trie.c and its correctness: under the
 * trie invariant, reaching the end of the pattern anywhere on an edge
 * means some stored word continues it.
 */
module TrieFind {
  import opened Wrappers
  import opened Arena
  import opened Trie

  /**
   * `trie_find_recur` on the non-null node `n`: the common part of the
   * label and the pattern decides; a pattern used up is found, a label left
   * part way is a mismatch, and otherwise the search goes on in the slot of
   * the pattern's next letter (an empty slot is the C null child, 0).
   */
  function FindRec(base: seq<string>, n: Node, p: string): bool
    requires LabelsValid(base, n)
    decreases n
  {
    var common := CommonSubstr(base, n.edge, p);
    if common == |p| then true
    else if common < n.edge.length then false
    else
      var k := Slot(p[common]);
      k in n.children && FindRec(base, n.children[k], p[common..])
  }

  /**
   * `trie_find`: a null root finds nothing; the root's label is empty, so
   * an empty pattern is found at once and any other pattern is looked up in
   * the slot of its first letter.
   */
  function Find(base: seq<string>, root: Option<Node>, p: string): bool
    requires root.Some? ==> RootValid(base, root.value)
  {
    match root
    case None => false
    case Some(r) =>
      if |p| == 0 then true
      else Slot(p[0]) in r.children && FindRec(base, r.children[Slot(p[0])], p)
  }

  /** Some word of the subtree of `n` starts with `p`. */
  ghost predicate SomeWordStartsWith(base: seq<string>, n: Node, p: string) {
    exists w :: Has(base, n, w) && p <= w
  }

  /** The pattern is used up inside `n`'s label: the subtree's words all extend it. */
  lemma FoundCase(base: seq<string>, n: Node, pre: string, p: string)
    requires NodeInv(base, n, pre) && LabelsValid(base, n)
    requires CommonSubstr(base, n.edge, p) == |p|
    ensures FindRec(base, n, p) && SomeWordStartsWith(base, n, p)
  {
    var lab := Text(base, n.edge);
    var w := SomeWord(base, n, pre);
    assert p == lab[..|p|] <= lab <= w;
  }

  /** The pattern leaves `n`'s label part way: no word of the subtree starts with it. */
  lemma MismatchCase(base: seq<string>, n: Node, p: string)
    requires LabelsValid(base, n)
    requires CommonSubstr(base, n.edge, p) < |p| && CommonSubstr(base, n.edge, p) < n.edge.length
    ensures !FindRec(base, n, p) && !SomeWordStartsWith(base, n, p)
  {
    var lab := Text(base, n.edge);
    var common := CommonSubstr(base, n.edge, p);
    forall w | Has(base, n, w)
      ensures !(p <= w)
    {
      assert lab <= w;
      assert w[common] == lab[common] != p[common];
    }
  }

  /** The pattern runs past `n`'s label into an empty slot: nothing below continues it. */
  lemma MissingChildCase(base: seq<string>, n: Node, p: string)
    requires LabelsValid(base, n)
    requires n.edge.length == CommonSubstr(base, n.edge, p) < |p|
    requires Slot(p[n.edge.length]) !in n.children
    ensures !FindRec(base, n, p) && !SomeWordStartsWith(base, n, p)
  {
    var common := n.edge.length;
    forall w | Has(base, n, w)
      ensures !(p <= w)
    {
      assert |w| > common ==> Slot(w[common]) in n.children;
    }
  }

  /** The pattern runs past `n`'s label into the child of its next letter. */
  lemma DescendCase(base: seq<string>, n: Node, p: string)
    requires LabelsValid(base, n)
    requires n.edge.length == CommonSubstr(base, n.edge, p) < |p|
    requires Slot(p[n.edge.length]) in n.children
    requires var ch := n.children[Slot(p[n.edge.length])];
      && Valid(base, ch.edge) && ch.edge.length >= 1
      && FirstLetter(base, ch.edge) == Slot(p[n.edge.length])
      && (FindRec(base, ch, p[n.edge.length..]) <==> SomeWordStartsWith(base, ch, p[n.edge.length..]))
    ensures FindRec(base, n, p) <==> SomeWordStartsWith(base, n, p)
  {
    var lab := Text(base, n.edge);
    var common := n.edge.length;
    var k := Slot(p[common]);
    var rest := p[common..];
    var ch := n.children[k];
    LabelThenRest(p, lab);
    assert FindRec(base, n, p) == FindRec(base, ch, rest);
    if FindRec(base, ch, rest) {
      DescendUp(base, n, k, rest);
    }
    if SomeWordStartsWith(base, n, p) {
      DescendDown(base, n, k, rest);
    }
  }

  /** A word of the child continuing `rest` gives a word of `n` continuing its label and `rest`. */
  lemma DescendUp(base: seq<string>, n: Node, k: int, rest: string)
    requires k in n.children
    requires Valid(base, n.children[k].edge) && n.children[k].edge.length >= 1
    requires FirstLetter(base, n.children[k].edge) == k
    requires SomeWordStartsWith(base, n.children[k], rest)
    ensures SomeWordStartsWith(base, n, Text(base, n.edge) + rest)
  {
    var v :| Has(base, n.children[k], v) && rest <= v;
    ChildHas(base, n, k, v);
    assert Text(base, n.edge) + rest <= Text(base, n.edge) + v;
  }

  /** A word of `n` continuing its label and `rest` continues, below the label, in the child of `rest`'s letter. */
  lemma DescendDown(base: seq<string>, n: Node, k: int, rest: string)
    requires k in n.children && |rest| >= 1 && Slot(rest[0]) == k
    requires SomeWordStartsWith(base, n, Text(base, n.edge) + rest)
    ensures SomeWordStartsWith(base, n.children[k], rest)
  {
    var lab := Text(base, n.edge);
    var w :| Has(base, n, w) && lab + rest <= w;
    assert w[..|lab|] == lab && w[|lab|] == rest[0];
    assert Has(base, n.children[k], w[|lab|..]) && rest <= w[|lab|..];
  }

  /**
   * `trie_find_recur` is exact under the invariant: it answers 1 iff some
   * word of the subtree has the pattern as a prefix.
   */
  lemma {:induction false} FindRecSpec(base: seq<string>, n: Node, pre: string, p: string)
    requires NodeInv(base, n, pre) && LabelsValid(base, n)
    ensures FindRec(base, n, p) <==> SomeWordStartsWith(base, n, p)
    decreases n
  {
    var common := CommonSubstr(base, n.edge, p);
    if common == |p| {
      FoundCase(base, n, pre, p);
    } else if common < n.edge.length {
      MismatchCase(base, n, p);
    } else if Slot(p[common]) in n.children {
      FindRecSpec(base, n.children[Slot(p[common])], pre + Text(base, n.edge), p[common..]);
      DescendCase(base, n, p);
    } else {
      MissingChildCase(base, n, p);
    }
  }

  /**
   * `trie_find` answers 1 exactly when some stored word has the pattern
   * as a prefix (for the empty pattern: when the dictionary is non-empty).
   */
  lemma FindSpec(base: seq<string>, root: Option<Node>, p: string)
    requires TrieInv(base, root)
    requires root.Some? ==> RootValid(base, root.value)
    ensures Find(base, root, p) <==> exists w :: InTrie(base, root, w) && p <= w
  {
    match root
    case None =>
    case Some(r) =>
      if |p| == 0 {
        NonEmptyMap(r.children);
        var k :| k in r.children;
        var w := SomeWord(base, r.children[k], []);
        HasLabel(base, r.children[k], w);
        assert Slot(w[0]) == k;
        assert InTrie(base, root, w);
      } else {
        var k := Slot(p[0]);
        if k in r.children {
          FindRecSpec(base, r.children[k], [], p);
          if FindRec(base, r.children[k], p) {
            var w :| Has(base, r.children[k], w) && p <= w;
            assert InTrie(base, root, w);
          }
        }
        forall w | InTrie(base, root, w) && p <= w
          ensures Has(base, r.children[k], w)
        {
        }
      }
  }
}
