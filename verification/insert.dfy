/**
 * Insertion into the compressed trie: `trie_insert_recur` of trie.c,
 * with the edge split, and its correctness with respect to the words the
 * trie stores.
 */
module TrieInsert {
  import opened Wrappers
  import opened Arena
  import opened Trie

  /**
   * The edge split: a new node labelled with the first `common` characters
   * of `n`'s label takes `n`'s place, and `n`, narrowed to the rest of its
   * label and keeping its children and end-of-word mark, becomes its only
   * child, re-keyed under its new first letter.
   */
  function Split(base: seq<string>, n: Node, common: int): Node {
    var lower := n.(edge := Advance(n.edge, common));
    Node(Desc(n.edge.index, n.edge.start, common), false, map[FirstLetter(base, lower.edge) := lower])
  }

  /**
   * `trie_insert_recur` on the non-null non-root node `n`: inserts the
   * fragment `d` (whose first letter selected `n`) below `n`. None is the
   * C result -1 (the word is already present); otherwise the new subtree.
   *
   * After a split the C code goes on with the fresh intermediate node,
   * whose end-of-word mark is 0 and whose only child is keyed by a letter
   * different from the fragment's next letter; both continuations are
   * therefore written out here: the intermediate node itself ends the word,
   * or a fresh leaf is added beside the narrowed node.
   */
  function InsertRec(base: seq<string>, n: Node, d: Desc): Option<Node>
    requires LabelsValid(base, n) && Valid(base, d)
    decreases n
  {
    var common := CommonPrefix(base, d, n.edge);
    if common < n.edge.length then
      var top := Split(base, n, common);
      if common == d.length then
        Some(top.(eow := true))
      else
        var rest := Advance(d, common);
        Some(top.(children := top.children[FirstLetter(base, rest) := Leaf(rest)]))
    else if common == d.length then
      if n.eow then None else Some(n.(eow := true))
    else
      var rest := Advance(d, common);
      var k := FirstLetter(base, rest);
      if k in n.children then
        match InsertRec(base, n.children[k], rest)
        case None => None
        case Some(c) => Some(n.(children := n.children[k := c]))
      else
        Some(n.(children := n.children[k := Leaf(rest)]))
  }

  /**
   * `trie_insert_recur(&root, desc)`: a null root is created (label
   * `empty_word_desc`) together with a leaf for the fragment; otherwise the
   * root's empty label matches nothing and the insertion continues in the
   * child slot of the fragment's first letter.
   */
  function InsertRoot(base: seq<string>, root: Option<Node>, d: Desc): Option<Node>
    requires Valid(base, d) && d.length >= 1
    requires root.Some? ==> RootValid(base, root.value)
  {
    var k := FirstLetter(base, d);
    match root
    case None => Some(Node(EmptyDesc, true, map[k := Leaf(d)]))
    case Some(r) =>
      if k in r.children then
        match InsertRec(base, r.children[k], d)
        case None => None
        case Some(c) => Some(r.(children := r.children[k := c]))
      else
        Some(r.(children := r.children[k := Leaf(d)]))
  }

  /**
   * `m`, the result of inserting `word` into `n`, is a well-formed subtree
   * at the same place (same first letter), holding the words of `n` and
   * `word`.
   */
  ghost predicate InsertedInto(base: seq<string>, n: Node, m: Node, pre: string, word: string) {
    && NodeInv(base, m, pre)
    && FirstLetter(base, m.edge) == FirstLetter(base, n.edge)
    && forall w :: Has(base, m, w) <==> Has(base, n, w) || w == word
  }

  /** A fresh leaf for a fragment anchored to its path is well formed. */
  lemma LeafInv(base: seq<string>, d: Desc, pre: string)
    requires Anchored(base, d, pre) && d.length >= 1
    ensures NodeInv(base, Leaf(d), pre)
  {
  }

  /** The narrowed node of a split is well formed below the new intermediate node. */
  lemma NarrowInv(base: seq<string>, n: Node, pre: string, c: int)
    requires NodeInv(base, n, pre) && 0 <= c < n.edge.length
    ensures NodeInv(base, n.(edge := Advance(n.edge, c)), pre + Text(base, n.edge)[..c])
  {
    NarrowLabel(base, n.edge, pre, c);
    Reanchor(base, n, pre, n.(edge := Advance(n.edge, c)), pre + Text(base, n.edge)[..c]);
  }

  /**
   * A label narrowed by its first `c` characters is anchored to the path
   * extended by those characters, and reaches the same path text.
   */
  lemma NarrowLabel(base: seq<string>, d: Desc, pre: string, c: int)
    requires Anchored(base, d, pre) && 0 <= c <= d.length
    ensures Anchored(base, Advance(d, c), pre + Text(base, d)[..c])
    ensures (pre + Text(base, d)[..c]) + Text(base, Advance(d, c)) == pre + Text(base, d)
  {
    AnchoredAdvance(base, d, pre, c);
    AdvanceText(base, d, c);
    SplitJoin(pre, Text(base, d), c);
  }

  /**
   * The edge split preserves the words of the subtree; the intermediate
   * node is labelled with the first `c` characters of the old label,
   * anchored where the old label was, and its only child (the narrowed
   * node, keyed by the letter after the common part) is well formed.
   */
  lemma SplitSpec(base: seq<string>, n: Node, pre: string, c: int)
    requires ArenaLower(base) && NodeInv(base, n, pre) && 1 <= c < n.edge.length
    ensures var top := Split(base, n, c);
      && Anchored(base, top.edge, pre)
      && top.edge.length == c
      && Text(base, top.edge) == Text(base, n.edge)[..c]
      && FirstLetter(base, top.edge) == FirstLetter(base, n.edge)
      && !top.eow
      && |top.children| == 1
      && (forall k :: k in top.children ==>
            && k == Slot(Text(base, n.edge)[c])
            && 0 <= k < 26
            && FirstLetter(base, top.children[k].edge) == k
            && NodeInv(base, top.children[k], pre + Text(base, top.edge)))
      && (forall w :: Has(base, top, w) <==> Has(base, n, w))
  {
    var lab := Text(base, n.edge);
    var lower := n.(edge := Advance(n.edge, c));
    SplitLabel(base, n.edge, pre, c);
    SplitChild(base, n, pre, c);
    assert Split(base, n, c).children == map[Slot(lab[c]) := lower];
    SplitWords(base, n, c);
  }

  /** The label of the intermediate node of a split: the first `c` characters, anchored where the old label was. */
  lemma SplitLabel(base: seq<string>, d: Desc, pre: string, c: int)
    requires Anchored(base, d, pre) && 1 <= c <= d.length
    ensures Anchored(base, Desc(d.index, d.start, c), pre)
    ensures Text(base, Desc(d.index, d.start, c)) == Text(base, d)[..c]
    ensures FirstLetter(base, Desc(d.index, d.start, c)) == FirstLetter(base, d)
  {
    TakeText(base, d, c);
  }

  /** The narrowed node of a split, keyed by the letter after the common part, is well formed. */
  lemma SplitChild(base: seq<string>, n: Node, pre: string, c: int)
    requires ArenaLower(base) && NodeInv(base, n, pre) && 1 <= c < n.edge.length
    ensures 0 <= Slot(Text(base, n.edge)[c]) < 26
    ensures FirstLetter(base, Advance(n.edge, c)) == Slot(Text(base, n.edge)[c])
    ensures NodeInv(base, n.(edge := Advance(n.edge, c)), pre + Text(base, n.edge)[..c])
  {
    var lab := Text(base, n.edge);
    AdvanceText(base, n.edge, c);
    TextLower(base, n.edge);
    assert IsLower(lab[c]);
    NarrowInv(base, n, pre, c);
  }

  /** A split keeps the words of the subtree. */
  lemma SplitWords(base: seq<string>, n: Node, c: int)
    requires Valid(base, n.edge) && 1 <= c < n.edge.length
    ensures forall w :: Has(base, Split(base, n, c), w) <==> Has(base, n, w)
  {
    var lab := Text(base, n.edge);
    var top := Split(base, n, c);
    TakeText(base, n.edge, c);
    AdvanceText(base, n.edge, c);
    forall w
      ensures Has(base, top, w) <==> Has(base, n, w)
    {
      if lab[..c] <= w && |w| > c {
        NarrowHas(base, n, c, w);
      }
      if Has(base, n, w) {
        assert lab[..c] <= lab <= w;
      }
    }
  }

  /** After a split the intermediate node itself ends the inserted word. */
  lemma SplitEndSpec(base: seq<string>, n: Node, pre: string, c: int)
    requires ArenaLower(base) && NodeInv(base, n, pre) && 1 <= c < n.edge.length
    ensures InsertedInto(base, n, Split(base, n, c).(eow := true), pre, Text(base, n.edge)[..c])
  {
    var top := Split(base, n, c);
    SplitSpec(base, n, pre, c);
    forall w
      ensures Has(base, top.(eow := true), w) <==> Has(base, n, w) || w == Text(base, n.edge)[..c]
    {
      MarkHas(base, top, w);
    }
  }

  /** After a split a fresh leaf for the rest of the fragment joins the narrowed node. */
  lemma SplitLeafSpec(base: seq<string>, n: Node, pre: string, c: int, d: Desc)
    requires ArenaLower(base) && NodeInv(base, n, pre) && 1 <= c < n.edge.length
    requires Anchored(base, d, pre) && c < d.length
    requires Text(base, d)[..c] == Text(base, n.edge)[..c]
    requires Text(base, d)[c] != Text(base, n.edge)[c]
    ensures var rest := Advance(d, c);
      InsertedInto(base, n, Split(base, n, c).(children := Split(base, n, c).children[FirstLetter(base, rest) := Leaf(rest)]),
                   pre, Text(base, d))
  {
    var top := Split(base, n, c);
    var rest := Advance(d, c);
    var m := top.(children := top.children[FirstLetter(base, rest) := Leaf(rest)]);
    SplitSpec(base, n, pre, c);
    SlotInjective(Text(base, d)[c], Text(base, n.edge)[c]);
    assert Slot(Text(base, d)[c]) !in top.children;
    SplitLeafInv(base, n, pre, c, d, m);
    SplitLeafWords(base, n, c, d, m);
  }

  /** The node of `SplitLeafSpec` is well formed. */
  lemma SplitLeafInv(base: seq<string>, n: Node, pre: string, c: int, d: Desc, m: Node)
    requires ArenaLower(base) && NodeInv(base, n, pre) && 1 <= c < n.edge.length
    requires Anchored(base, d, pre) && c < d.length
    requires Text(base, d)[..c] == Text(base, n.edge)[..c]
    requires Text(base, d)[c] != Text(base, n.edge)[c]
    requires m == Split(base, n, c).(children := Split(base, n, c).children[FirstLetter(base, Advance(d, c)) := Leaf(Advance(d, c))])
    ensures NodeInv(base, m, pre)
  {
    var lab := Text(base, n.edge);
    var word := Text(base, d);
    var top := Split(base, n, c);
    var rest := Advance(d, c);
    SplitSpec(base, n, pre, c);
    AdvanceText(base, d, c);
    TextLower(base, d);
    assert IsLower(word[c]);
    AnchoredAdvance(base, d, pre, c);
    LeafInv(base, rest, pre + lab[..c]);
    SlotInjective(word[c], lab[c]);
    AddChildInv(base, top, pre, FirstLetter(base, rest), Leaf(rest), m);
  }

  /** The node of `SplitLeafSpec` holds the old words and the fragment's. */
  lemma SplitLeafWords(base: seq<string>, n: Node, c: int, d: Desc, m: Node)
    requires Valid(base, n.edge) && 1 <= c < n.edge.length
    requires Valid(base, d) && c < d.length
    requires Text(base, d)[..c] == Text(base, n.edge)[..c]
    requires forall w :: Has(base, Split(base, n, c), w) <==> Has(base, n, w)
    requires Text(base, Split(base, n, c).edge) == Text(base, n.edge)[..c]
    requires Slot(Text(base, d)[c]) !in Split(base, n, c).children
    requires m == Split(base, n, c).(children := Split(base, n, c).children[FirstLetter(base, Advance(d, c)) := Leaf(Advance(d, c))])
    ensures forall w :: Has(base, m, w) <==> Has(base, n, w) || w == Text(base, d)
  {
    var lab := Text(base, n.edge);
    var word := Text(base, d);
    var top := Split(base, n, c);
    var rest := Advance(d, c);
    AdvanceText(base, d, c);
    PrefixRest(word, lab, c);
    forall w
      ensures Has(base, m, w) <==> Has(base, n, w) || w == word
    {
      AddLeafHas(base, top, rest, w);
    }
  }

  /** A word agreeing with a label on its first `c` characters is that prefix followed by its rest. */
  lemma PrefixRest(word: string, lab: string, c: int)
    requires 0 <= c <= |word| && c <= |lab| && word[..c] == lab[..c]
    ensures word == lab[..c] + word[c..]
  {
    assert word == word[..c] + word[c..];
  }

  /**
   * Putting a well-formed child, keyed by its first letter, into a slot of
   * a node whose own label and children are well formed gives a well-formed
   * node, as long as it ends a word or has two children.
   */
  lemma AddChildInv(base: seq<string>, n: Node, pre: string, k: int, c: Node, m: Node)
    requires Anchored(base, n.edge, pre) && n.edge.length >= 1
    requires forall j :: j in n.children ==>
               && 0 <= j < 26
               && FirstLetter(base, n.children[j].edge) == j
               && NodeInv(base, n.children[j], pre + Text(base, n.edge))
    requires 0 <= k < 26 && FirstLetter(base, c.edge) == k && NodeInv(base, c, pre + Text(base, n.edge))
    requires m == n.(children := n.children[k := c])
    requires m.eow || |m.children| >= 2
    ensures NodeInv(base, m, pre)
  {
    var path := pre + Text(base, n.edge);
    assert m.edge == n.edge;
    forall j | j in m.children
      ensures 0 <= j < 26 && FirstLetter(base, m.children[j].edge) == j && NodeInv(base, m.children[j], path)
    {
      if j != k {
        assert m.children[j] == n.children[j];
      }
    }
  }

  /** Insertion when the fragment leaves `n`'s label part way: the edge split. */
  lemma InsertSplitSpec(base: seq<string>, n: Node, d: Desc, pre: string)
    requires ArenaLower(base) && NodeInv(base, n, pre) && LabelsValid(base, n)
    requires Anchored(base, d, pre) && d.length >= 1
    requires Text(base, d)[0] == Text(base, n.edge)[0]
    requires CommonPrefix(base, d, n.edge) < n.edge.length
    ensures !Has(base, n, Text(base, d))
    ensures InsertRec(base, n, d).Some?
    ensures InsertedInto(base, n, InsertRec(base, n, d).value, pre, Text(base, d))
  {
    var lab := Text(base, n.edge);
    var word := Text(base, d);
    var c := CommonPrefix(base, d, n.edge);
    if c == d.length {
      assert word == lab[..c] && |word| < |lab|;
      SplitEndSpec(base, n, pre, c);
    } else {
      assert word[c] != lab[c];
      SplitLeafSpec(base, n, pre, c, d);
    }
  }

  /** Insertion that continues into an existing child succeeds there and nowhere else. */
  lemma DescendSpec(base: seq<string>, n: Node, pre: string, k: int, c: Node, rest: string)
    requires NodeInv(base, n, pre) && k in n.children
    requires |rest| >= 1 && Slot(rest[0]) == k
    requires InsertedInto(base, n.children[k], c, pre + Text(base, n.edge), rest)
    ensures InsertedInto(base, n, n.(children := n.children[k := c]), pre, Text(base, n.edge) + rest)
  {
    DescendInv(base, n, pre, k, c);
    DescendWords(base, n, k, c, rest, n.(children := n.children[k := c]));
  }

  lemma DescendInv(base: seq<string>, n: Node, pre: string, k: int, c: Node)
    requires NodeInv(base, n, pre) && k in n.children
    requires NodeInv(base, c, pre + Text(base, n.edge))
    requires FirstLetter(base, c.edge) == FirstLetter(base, n.children[k].edge)
    ensures NodeInv(base, n.(children := n.children[k := c]), pre)
  {
  }

  lemma DescendWords(base: seq<string>, n: Node, k: int, c: Node, rest: string, m: Node)
    requires k in n.children && m == n.(children := n.children[k := c])
    requires |rest| >= 1 && Slot(rest[0]) == k
    requires forall w :: Has(base, c, w) <==> Has(base, n.children[k], w) || w == rest
    ensures forall w :: Has(base, m, w) <==> Has(base, n, w) || w == Text(base, n.edge) + rest
  {
    forall w
      ensures Has(base, m, w) <==> Has(base, n, w) || w == Text(base, n.edge) + rest
    {
      DescendWordAt(base, n, k, c, rest, w);
    }
  }

  /** One word of the node once the child in slot k has gained `rest`. */
  lemma DescendWordAt(base: seq<string>, n: Node, k: int, c: Node, rest: string, w: string)
    requires k in n.children
    requires |rest| >= 1 && Slot(rest[0]) == k
    requires var lab := Text(base, n.edge);
      lab <= w && |w| > |lab| ==>
        (Has(base, c, w[|lab|..]) <==> Has(base, n.children[k], w[|lab|..]) || w[|lab|..] == rest)
    ensures Has(base, n.(children := n.children[k := c]), w) <==> Has(base, n, w) || w == Text(base, n.edge) + rest
  {
    var lab := Text(base, n.edge);
    assert (lab + rest)[|lab|..] == rest;
    ReplaceChildHas(base, n, k, c, w);
    if lab <= w && |w| > |lab| {
      assert w == lab + w[|lab|..];
    }
  }

  /** The fragment ends exactly at `n`: only the end-of-word mark decides. */
  lemma HereSpec(base: seq<string>, n: Node, pre: string)
    requires NodeInv(base, n, pre)
    ensures Has(base, n, Text(base, n.edge)) <==> n.eow
    ensures !n.eow ==> InsertedInto(base, n, n.(eow := true), pre, Text(base, n.edge))
  {
    forall w
      ensures Has(base, n.(eow := true), w) <==> Has(base, n, w) || w == Text(base, n.edge)
    {
      MarkHas(base, n, w);
    }
  }

  /** The fragment continues past `n` into an empty slot: a fresh leaf. */
  lemma NewLeafSpec(base: seq<string>, n: Node, pre: string, rest: Desc)
    requires ArenaLower(base) && NodeInv(base, n, pre)
    requires Anchored(base, rest, pre + Text(base, n.edge)) && rest.length >= 1
    requires Slot(Text(base, rest)[0]) !in n.children
    ensures !Has(base, n, Text(base, n.edge) + Text(base, rest))
    ensures InsertedInto(base, n, n.(children := n.children[Slot(Text(base, rest)[0]) := Leaf(rest)]),
                         pre, Text(base, n.edge) + Text(base, rest))
  {
    var lab := Text(base, n.edge);
    var k := Slot(Text(base, rest)[0]);
    var m := n.(children := n.children[k := Leaf(rest)]);
    TextLower(base, rest);
    assert IsLower(Text(base, rest)[0]);
    LeafInv(base, rest, pre + lab);
    AddChildInv(base, n, pre, k, Leaf(rest), m);
    NewLeafWords(base, n, rest, m);
  }

  /** A fresh leaf in an empty slot adds exactly its path's word, which was not there. */
  lemma NewLeafWords(base: seq<string>, n: Node, rest: Desc, m: Node)
    requires Valid(base, rest) && rest.length >= 1
    requires Slot(Text(base, rest)[0]) !in n.children
    requires m == n.(children := n.children[Slot(Text(base, rest)[0]) := Leaf(rest)])
    ensures !Has(base, n, Text(base, n.edge) + Text(base, rest))
    ensures forall w :: Has(base, m, w) <==> Has(base, n, w) || w == Text(base, n.edge) + Text(base, rest)
  {
    var lab := Text(base, n.edge);
    var word := lab + Text(base, rest);
    assert word[|lab|..] == Text(base, rest);
    forall w
      ensures Has(base, m, w) <==> Has(base, n, w) || w == word
    {
      AddLeafHas(base, n, rest, w);
    }
  }

  /** A word continuing past `n` through slot k is a word of that child. */
  lemma DescendHas(base: seq<string>, n: Node, k: int, rest: string)
    requires k in n.children && |rest| >= 1 && Slot(rest[0]) == k
    ensures Has(base, n, Text(base, n.edge) + rest) <==> Has(base, n.children[k], rest)
  {
    var lab := Text(base, n.edge);
    assert (lab + rest)[|lab|..] == rest;
  }

  /** The fragment runs past `n`'s label: what is left of it, anchored below `n`. */
  lemma PastLabel(base: seq<string>, n: Node, d: Desc, pre: string)
    requires NodeInv(base, n, pre) && LabelsValid(base, n)
    requires Anchored(base, d, pre)
    requires CommonPrefix(base, d, n.edge) == n.edge.length < d.length
    ensures Anchored(base, Advance(d, n.edge.length), pre + Text(base, n.edge))
    ensures Advance(d, n.edge.length).length >= 1
    ensures Text(base, d) == Text(base, n.edge) + Text(base, Advance(d, n.edge.length))
    ensures FirstLetter(base, Advance(d, n.edge.length)) == Slot(Text(base, Advance(d, n.edge.length))[0])
  {
    var c := n.edge.length;
    var word := Text(base, d);
    AdvanceText(base, d, c);
    AnchoredAdvance(base, d, pre, c);
    assert word[..c] == Text(base, n.edge);
    assert word == word[..c] + word[c..];
  }

  /** The fragment continues into the child in its slot, given what insertion does there. */
  lemma DescendCase(base: seq<string>, n: Node, d: Desc, pre: string, k: int, r: Option<Node>)
    requires NodeInv(base, n, pre) && LabelsValid(base, n)
    requires Anchored(base, d, pre)
    requires CommonPrefix(base, d, n.edge) == n.edge.length < d.length
    requires k == FirstLetter(base, Advance(d, n.edge.length)) && k in n.children
    requires r == InsertRec(base, n.children[k], Advance(d, n.edge.length))
    requires r.None? <==> Has(base, n.children[k], Text(base, Advance(d, n.edge.length)))
    requires r.Some? ==> InsertedInto(base, n.children[k], r.value, pre + Text(base, n.edge),
                                      Text(base, Advance(d, n.edge.length)))
    ensures InsertRec(base, n, d).None? <==> Has(base, n, Text(base, d))
    ensures InsertRec(base, n, d).Some? ==>
              InsertedInto(base, n, InsertRec(base, n, d).value, pre, Text(base, d))
  {
    var rest := Advance(d, n.edge.length);
    PastLabel(base, n, d, pre);
    DescendHas(base, n, k, Text(base, rest));
    if r.Some? {
      DescendSpec(base, n, pre, k, r.value, Text(base, rest));
    }
  }

  /** The fragment ends exactly where `n`'s label ends. */
  lemma HereCase(base: seq<string>, n: Node, d: Desc, pre: string)
    requires NodeInv(base, n, pre) && LabelsValid(base, n) && Valid(base, d)
    requires CommonPrefix(base, d, n.edge) == n.edge.length == d.length
    ensures InsertRec(base, n, d).None? <==> Has(base, n, Text(base, d))
    ensures InsertRec(base, n, d).Some? ==>
              InsertedInto(base, n, InsertRec(base, n, d).value, pre, Text(base, d))
  {
    WholePrefix(Text(base, d), Text(base, n.edge));
    HereSpec(base, n, pre);
  }

  /** The fragment runs past `n`'s label into an empty slot. */
  lemma NewLeafCase(base: seq<string>, n: Node, d: Desc, pre: string)
    requires ArenaLower(base) && NodeInv(base, n, pre) && LabelsValid(base, n)
    requires Anchored(base, d, pre)
    requires CommonPrefix(base, d, n.edge) == n.edge.length < d.length
    requires FirstLetter(base, Advance(d, n.edge.length)) !in n.children
    ensures InsertRec(base, n, d).None? <==> Has(base, n, Text(base, d))
    ensures InsertRec(base, n, d).Some? ==>
              InsertedInto(base, n, InsertRec(base, n, d).value, pre, Text(base, d))
  {
    PastLabel(base, n, d, pre);
    NewLeafSpec(base, n, pre, Advance(d, n.edge.length));
  }

  /** The child in the slot of a fragment's first letter starts with that letter. */
  lemma ChildStart(base: seq<string>, n: Node, pre: string, k: int, rest: Desc)
    requires NodeInv(base, n, pre) && k in n.children
    requires Valid(base, rest) && rest.length >= 1 && k == Slot(Text(base, rest)[0])
    ensures |Text(base, n.children[k].edge)| >= 1
    ensures Text(base, rest)[0] == Text(base, n.children[k].edge)[0]
  {
    var ch := n.children[k];
    assert NodeInv(base, ch, pre + Text(base, n.edge)) && FirstLetter(base, ch.edge) == k;
    assert Valid(base, ch.edge) && ch.edge.length >= 1;
    assert Slot(Text(base, ch.edge)[0]) == k;
    SlotInjective(Text(base, rest)[0], Text(base, ch.edge)[0]);
  }

  /** Insertion when the fragment runs through all of `n`'s label. */
  lemma {:induction false} InsertRecSpec(base: seq<string>, n: Node, d: Desc, pre: string)
    requires ArenaLower(base) && NodeInv(base, n, pre) && LabelsValid(base, n)
    requires Anchored(base, d, pre) && d.length >= 1
    requires Text(base, d)[0] == Text(base, n.edge)[0]
    ensures InsertRec(base, n, d).None? <==> Has(base, n, Text(base, d))
    ensures InsertRec(base, n, d).Some? ==>
              InsertedInto(base, n, InsertRec(base, n, d).value, pre, Text(base, d))
    decreases n
  {
    var c := CommonPrefix(base, d, n.edge);
    if c < n.edge.length {
      InsertSplitSpec(base, n, d, pre);
    } else if c == d.length {
      HereCase(base, n, d, pre);
    } else {
      var rest := Advance(d, c);
      PastLabel(base, n, d, pre);
      var k := FirstLetter(base, rest);
      if k in n.children {
        ChildStart(base, n, pre, k, rest);
        InsertRecSpec(base, n.children[k], rest, pre + Text(base, n.edge));
        DescendCase(base, n, d, pre, k, InsertRec(base, n.children[k], rest));
      } else {
        NewLeafCase(base, n, d, pre);
      }
    }
  }

  /** `r` is a well-formed root storing the words of `root` and `word`. */
  ghost predicate InsertedAtRoot(base: seq<string>, root: Option<Node>, r: Node, word: string) {
    && RootInv(base, r)
    && forall w :: InTrie(base, Some(r), w) <==> InTrie(base, root, w) || w == word
  }

  /** The first insertion creates the root and one leaf below it. */
  lemma NewRootSpec(base: seq<string>, d: Desc)
    requires ArenaLower(base) && Anchored(base, d, []) && d.length >= 1
    ensures InsertedAtRoot(base, None, Node(EmptyDesc, true, map[FirstLetter(base, d) := Leaf(d)]), Text(base, d))
  {
    var word := Text(base, d);
    TextLower(base, d);
    assert IsLower(word[0]);
    LeafInv(base, d, []);
    forall w
      ensures InTrie(base, Some(Node(EmptyDesc, true, map[FirstLetter(base, d) := Leaf(d)])), w) <==> w == word
    {
      LeafHas(base, d, w);
    }
  }

  /** A fresh leaf in an empty root slot. */
  lemma RootLeafSpec(base: seq<string>, r: Node, d: Desc)
    requires ArenaLower(base) && RootInv(base, r) && Anchored(base, d, []) && d.length >= 1
    requires FirstLetter(base, d) !in r.children
    ensures !InTrie(base, Some(r), Text(base, d))
    ensures InsertedAtRoot(base, Some(r), r.(children := r.children[FirstLetter(base, d) := Leaf(d)]), Text(base, d))
  {
    var word := Text(base, d);
    var k := FirstLetter(base, d);
    TextLower(base, d);
    assert IsLower(word[0]);
    LeafInv(base, d, []);
    RootReplaceInv(base, r, k, Leaf(d), r.(children := r.children[k := Leaf(d)]));
    forall w
      ensures InTrie(base, Some(r.(children := r.children[k := Leaf(d)])), w) <==> InTrie(base, Some(r), w) || w == word
    {
      RootReplaceHas(base, r, k, Leaf(d), r.(children := r.children[k := Leaf(d)]), w);
      LeafHas(base, d, w);
    }
  }

  /** Insertion below an existing root child. */
  lemma RootDescendSpec(base: seq<string>, r: Node, k: int, c: Node, word: string)
    requires RootInv(base, r) && k in r.children
    requires |word| >= 1 && Slot(word[0]) == k
    requires InsertedInto(base, r.children[k], c, [], word)
    ensures InsertedAtRoot(base, Some(r), r.(children := r.children[k := c]), word)
  {
    RootReplaceInv(base, r, k, c, r.(children := r.children[k := c]));
    forall w
      ensures InTrie(base, Some(r.(children := r.children[k := c])), w) <==> InTrie(base, Some(r), w) || w == word
    {
      RootReplaceHas(base, r, k, c, r.(children := r.children[k := c]), w);
    }
  }

  /** Putting a well-formed child, keyed by its first letter, into a root slot keeps the root well formed. */
  lemma RootReplaceInv(base: seq<string>, r: Node, k: int, c: Node, m: Node)
    requires RootInv(base, r) && 0 <= k < 26
    requires FirstLetter(base, c.edge) == k && NodeInv(base, c, [])
    requires m == r.(children := r.children[k := c])
    ensures RootInv(base, m)
  {
  }

  /** Replacing the child in root slot k changes only the words starting with letter k. */
  lemma RootReplaceHas(base: seq<string>, r: Node, k: int, c: Node, m: Node, w: string)
    requires m == r.(children := r.children[k := c])
    ensures InTrie(base, Some(m), w) <==>
              if |w| >= 1 && Slot(w[0]) == k then Has(base, c, w) else InTrie(base, Some(r), w)
  {
  }

  /**
   * Insertion at the root: a fragment already stored is refused (None, the
   * C result -1); otherwise the new trie is well formed and stores exactly
   * the old words and the fragment's text.
   */
  lemma InsertRootSpec(base: seq<string>, root: Option<Node>, d: Desc)
    requires ArenaLower(base) && TrieInv(base, root)
    requires root.Some? ==> RootValid(base, root.value)
    requires Anchored(base, d, []) && d.length >= 1
    ensures InsertRoot(base, root, d).None? <==> InTrie(base, root, Text(base, d))
    ensures InsertRoot(base, root, d).Some? ==>
              InsertedAtRoot(base, root, InsertRoot(base, root, d).value, Text(base, d))
  {
    match root
    case None =>
      NewRootSpec(base, d);
    case Some(r) =>
      if FirstLetter(base, d) in r.children {
        RootChildCase(base, r, d);
      } else {
        RootLeafSpec(base, r, d);
      }
  }

  /** Insertion at a root whose slot for the fragment's first letter is occupied. */
  lemma RootChildCase(base: seq<string>, r: Node, d: Desc)
    requires ArenaLower(base) && RootInv(base, r) && RootValid(base, r)
    requires Anchored(base, d, []) && d.length >= 1
    requires FirstLetter(base, d) in r.children
    ensures InsertRoot(base, Some(r), d).None? <==> InTrie(base, Some(r), Text(base, d))
    ensures InsertRoot(base, Some(r), d).Some? ==>
              InsertedAtRoot(base, Some(r), InsertRoot(base, Some(r), d).value, Text(base, d))
  {
    var word := Text(base, d);
    var k := FirstLetter(base, d);
    var ch := r.children[k];
    assert NodeInv(base, ch, []) && FirstLetter(base, ch.edge) == k;
    SlotInjective(word[0], Text(base, ch.edge)[0]);
    InsertRecSpec(base, ch, d, []);
    var res := InsertRec(base, ch, d);
    if res.Some? {
      assert InsertRoot(base, Some(r), d) == Some(r.(children := r.children[k := res.value]));
      RootDescendSpec(base, r, k, res.value, word);
    } else {
      assert InsertRoot(base, Some(r), d) == None;
    }
  }
}
