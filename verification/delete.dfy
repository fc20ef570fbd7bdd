/**
 * Deletion from the compressed trie: `trie_delete_recur` of trie.c with
 * its bottom-up compaction (freeing dead leaves, merging a node that is
 * left with one child and no word into that child), and its correctness.
 */
module TrieDelete {
  import opened Wrappers
  import opened Arena
  import opened Trie

  /**
   * The outcome of a deletion walk: `Missing` is the C result -1 (the walk
   * met a null child); `Done` carries the new subtree, None once freed.
   */
  datatype Deleted = Missing | Done(subtree: Option<Node>)

  /** The occupied child slots from slot `i` on. */
  ghost function SlotsFrom(children: map<int, Node>, i: int): set<int> {
    set k | k in children && i <= k < 26
  }

  /** `number_of_children`: the number of occupied slots among 0..25, counted from `i`. */
  function CountFrom(children: map<int, Node>, i: int): (r: int)
    requires 0 <= i <= 26
    ensures r == |SlotsFrom(children, i)|
    decreases 26 - i
  {
    if i == 26 then
      assert SlotsFrom(children, i) == {};
      0
    else
      var r := CountFrom(children, i + 1);
      if i in children then
        assert SlotsFrom(children, i) == SlotsFrom(children, i + 1) + {i};
        1 + r
      else
        assert SlotsFrom(children, i) == SlotsFrom(children, i + 1);
        r
  }

  function NumberOfChildren(n: Node): int {
    CountFrom(n.children, 0)
  }

  /**
   * `find_child`: the child in the lowest occupied slot from `i` on, or
   * None when every slot from `i` on is empty.
   */
  function FindChild(children: map<int, Node>, i: int): (r: Option<Node>)
    requires 0 <= i <= 26
    ensures r.None? <==> SlotsFrom(children, i) == {}
    ensures r.Some? ==> exists k :: k in SlotsFrom(children, i) && r.value == children[k]
                          && forall j :: i <= j < k ==> j !in children
    decreases 26 - i
  {
    if i == 26 then
      None
    else if i in children then
      assert i in SlotsFrom(children, i);
      Some(children[i])
    else
      assert SlotsFrom(children, i) == SlotsFrom(children, i + 1);
      FindChild(children, i + 1)
  }

  /**
   * The merge of trie.c:241-247: `n` disappears and its only child takes
   * its place, its descriptor start moved back and its length grown by the
   * length of `n`'s label.
   */
  function Merge(n: Node, only: Node): Node {
    only.(edge := Desc(only.edge.index, only.edge.start - n.edge.length, only.edge.length + n.edge.length))
  }

  /**
   * The compaction of trie.c:234-256 at a non-root node once the walk below
   * it is over; `target` says the deleted word ends at this node (the C
   * `delete_result` is still -1 there). A node with children loses the
   * word's mark when it is the target, and is merged into its only child
   * when it is left with one child and no word; a childless node is freed
   * when it is the target or ends no word.
   */
  function Compact(n: Node, target: bool): Option<Node> {
    var count := NumberOfChildren(n);
    if count != 0 then
      var m := if target then n.(eow := false) else n;
      if count == 1 && !m.eow then
        match FindChild(m.children, 0)
        case Some(only) => Some(Merge(m, only))
        case None => Some(m)  // count == 1 guarantees an occupied slot
      else
        Some(m)
    else if target || !n.eow then
      None
    else
      Some(n)
  }

  /** The subtree after replacing the child in slot k (None removes it). */
  function WithChild(n: Node, k: int, c: Option<Node>): Node {
    n.(children := if c.Some? then n.children[k := c.value] else n.children - {k})
  }

  /**
   * `trie_delete_recur` on the non-null non-root node `n`: the walk
   * follows the descriptor of the word by label lengths and first letters
   * only, without comparing characters.
   */
  function DeleteRec(base: seq<string>, n: Node, d: Desc): Deleted
    decreases n
  {
    var len := n.edge.length;
    if len != d.length then
      var rest := Advance(d, len);
      var k := FirstLetter(base, rest);
      if k !in n.children then
        Missing
      else
        match DeleteRec(base, n.children[k], rest)
        case Missing => Missing
        case Done(c) => Done(Compact(WithChild(n, k, c), false))
    else
      Done(Compact(n, true))
  }

  /**
   * `trie_delete_recur(&root, desc)`: the root is walked like any node
   * (its label is empty), is never merged, and is freed when it is left
   * without children.
   */
  function DeleteRoot(base: seq<string>, root: Option<Node>, d: Desc): Deleted {
    match root
    case None => Missing
    case Some(r) =>
      var len := r.edge.length;
      if len != d.length then
        var rest := Advance(d, len);
        var k := FirstLetter(base, rest);
        if k !in r.children then
          Missing
        else
          match DeleteRec(base, r.children[k], rest)
          case Missing => Missing
          case Done(c) =>
            var r' := WithChild(r, k, c);
            if NumberOfChildren(r') == 0 then Done(None) else Done(Some(r'))
      else if NumberOfChildren(r) == 0 then
        Done(None)
      else
        Done(Some(r))
  }

  /**
   * The node invariant without its last clause: a node on the deletion
   * path whose children are well formed but which may itself have been
   * left with fewer than two children and no word.
   */
  ghost predicate Loose(base: seq<string>, n: Node, pre: string) {
    && Anchored(base, n.edge, pre)
    && n.edge.length >= 1
    && forall k :: k in n.children ==>
         && 0 <= k < 26
         && FirstLetter(base, n.children[k].edge) == k
         && NodeInv(base, n.children[k], pre + Text(base, n.edge))
  }

  /** The optional subtree `r` holds the word `w`. */
  ghost predicate HasOpt(base: seq<string>, r: Option<Node>, w: string) {
    r.Some? && Has(base, r.value, w)
  }

  /**
   * `r`, what became of `n` when `word` was deleted from it, is absent or
   * a well-formed subtree at the same place, and holds the words of `n`
   * except `word`.
   */
  ghost predicate RemovedFrom(base: seq<string>, n: Node, r: Option<Node>, pre: string, word: string) {
    && (r.Some? ==> NodeInv(base, r.value, pre) && FirstLetter(base, r.value.edge) == FirstLetter(base, n.edge))
    && forall w :: HasOpt(base, r, w) <==> Has(base, n, w) && w != word
  }

  /** With every key a letter slot, counting the slots counts the children. */
  lemma CountIsSize(n: Node)
    requires forall k :: k in n.children ==> 0 <= k < 26
    ensures NumberOfChildren(n) == |n.children|
  {
    assert SlotsFrom(n.children, 0) == n.children.Keys;
  }

  /** A map with a single key has no other key. */
  lemma SingleKey(children: map<int, Node>, k: int)
    requires |children| == 1 && k in children
    ensures forall j :: j in children ==> j == k
  {
    var rest := children.Keys - {k};
    assert |rest| == 0;
    forall j | j in children
      ensures j == k
    {
      assert j in rest || j == k;
    }
  }

  /**
   * The merge is correct because the child's label is anchored to the
   * path through its parent: moving its start back by the parent's label
   * length yields a label spelling the parent's label followed by the
   * child's, so the merged node holds the same words.
   */
  lemma MergeSpec(base: seq<string>, n: Node, pre: string, k: int)
    requires Loose(base, n, pre) && !n.eow
    requires k in n.children && forall j :: j in n.children ==> j == k
    ensures var m := Merge(n, n.children[k]);
      && Text(base, m.edge) == Text(base, n.edge) + Text(base, n.children[k].edge)
      && NodeInv(base, m, pre)
      && FirstLetter(base, m.edge) == FirstLetter(base, n.edge)
      && forall w :: Has(base, m, w) <==> Has(base, n, w)
  {
    var lab := Text(base, n.edge);
    var c := n.children[k];
    var labc := Text(base, c.edge);
    var m := Merge(n, c);
    var s := base[c.edge.index];
    var t := c.edge.start;
    var L := n.edge.length;
    assert s[t - |pre| - L .. t] == pre + lab;
    assert s[t - L .. t] == lab by {
      assert s[t - L .. t] == s[t - |pre| - L .. t][|pre|..];
    }
    assert s[t - L - |pre| .. t - L] == pre by {
      assert s[t - L - |pre| .. t - L] == s[t - |pre| - L .. t][..|pre|];
    }
    assert Text(base, m.edge) == lab + labc by {
      assert s[t - L .. t + c.edge.length] == s[t - L .. t] + s[t .. t + c.edge.length];
    }
    assert (pre + lab) + labc == pre + (lab + labc);
    assert NodeInv(base, m, pre);
    forall w
      ensures Has(base, m, w) <==> Has(base, n, w)
    {
      MergeHas(base, n, k, w);
    }
  }

  /** The word-level half of the merge. */
  lemma MergeHas(base: seq<string>, n: Node, k: int, w: string)
    requires Valid(base, n.edge) && !n.eow
    requires k in n.children && forall j :: j in n.children ==> j == k
    requires Valid(base, n.children[k].edge) && n.children[k].edge.length >= 1
    requires FirstLetter(base, n.children[k].edge) == k
    requires Text(base, Merge(n, n.children[k]).edge) == Text(base, n.edge) + Text(base, n.children[k].edge)
    ensures Has(base, Merge(n, n.children[k]), w) <==> Has(base, n, w)
  {
    var lab := Text(base, n.edge);
    var c := n.children[k];
    var labc := Text(base, c.edge);
    var L := |lab|;
    if lab <= w && |w| > L {
      var v := w[L..];
      assert labc <= v <==> lab + labc <= w;
      if labc <= v {
        assert w[L] == labc[0];
        if |v| > |labc| {
          assert v[|labc|] == w[L + |labc|];
          assert v[|labc|..] == w[L + |labc|..];
        }
      }
    }
  }

  /** Clearing the mark of the target node removes exactly its word. */
  lemma UnmarkSpec(base: seq<string>, n: Node, pre: string, target: bool)
    requires Loose(base, n, pre)
    ensures var m := if target then n.(eow := false) else n;
      && Loose(base, m, pre)
      && forall w :: Has(base, m, w) <==> Has(base, n, w) && w != (if target then Text(base, n.edge) else [])
  {
    forall w
      ensures Has(base, if target then n.(eow := false) else n, w)
              <==> Has(base, n, w) && w != (if target then Text(base, n.edge) else [])
    {
      UnmarkHas(base, n, w);
      if Has(base, n, w) {
        HasLabel(base, n, w);
      }
    }
  }

  /** A node left with one child and no word is merged into that child. */
  lemma CompactMergeSpec(base: seq<string>, m: Node, pre: string)
    requires Loose(base, m, pre) && !m.eow && |m.children| == 1
    ensures FindChild(m.children, 0).Some?
    ensures var r := Merge(m, FindChild(m.children, 0).value);
      && NodeInv(base, r, pre)
      && FirstLetter(base, r.edge) == FirstLetter(base, m.edge)
      && forall w :: Has(base, r, w) <==> Has(base, m, w)
  {
    CountIsSize(m);
    var only := FindChild(m.children, 0).value;
    var k :| k in SlotsFrom(m.children, 0) && only == m.children[k]
             && forall j :: 0 <= j < k ==> j !in m.children;
    SingleKey(m.children, k);
    MergeSpec(base, m, pre, k);
  }

  /**
   * Compaction restores the invariant at a node of the deletion path and
   * drops exactly the word ending at it when it is the target.
   */
  lemma CompactSpec(base: seq<string>, n: Node, pre: string, target: bool)
    requires Loose(base, n, pre)
    ensures RemovedFrom(base, n, Compact(n, target), pre, if target then Text(base, n.edge) else [])
  {
    CountIsSize(n);
    var m := if target then n.(eow := false) else n;
    if |n.children| == 0 {
      CompactFreeSpec(base, n, pre, target);
    } else {
      UnmarkSpec(base, n, pre, target);
      if |n.children| == 1 && !m.eow {
        CompactMergeSpec(base, m, pre);
      } else {
        CompactKeepSpec(base, n, pre, target);
      }
    }
  }

  /** A node keeping a word or two children stays, only losing the mark when it is the target. */
  lemma CompactKeepSpec(base: seq<string>, n: Node, pre: string, target: bool)
    requires Loose(base, n, pre) && NumberOfChildren(n) == |n.children| >= 1
    requires var m := if target then n.(eow := false) else n;
      && Loose(base, m, pre) && (m.eow || |n.children| >= 2)
    ensures Compact(n, target) == Some(if target then n.(eow := false) else n)
    ensures NodeInv(base, Compact(n, target).value, pre)
  {
  }

  /** A childless node is freed unless it still ends a word other than the deleted one. */
  lemma CompactFreeSpec(base: seq<string>, n: Node, pre: string, target: bool)
    requires Loose(base, n, pre) && |n.children| == 0 && NumberOfChildren(n) == 0
    ensures RemovedFrom(base, n, Compact(n, target), pre, if target then Text(base, n.edge) else [])
  {
    var word := if target then Text(base, n.edge) else [];
    forall w | Has(base, n, w)
      ensures w == Text(base, n.edge) && n.eow
    {
    }
    if !target && n.eow {
      forall w | Has(base, n, w)
        ensures w != word
      {
        HasLabel(base, n, w);
      }
    }
  }

  /**
   * Replacing the child in slot k by what remained of it once `rest` was
   * deleted deletes `Text(n.edge) + rest` from `n`.
   */
  lemma WithChildSpec(base: seq<string>, n: Node, pre: string, k: int, c: Option<Node>, rest: string)
    requires NodeInv(base, n, pre) && k in n.children
    requires |rest| >= 1 && Slot(rest[0]) == k
    requires RemovedFrom(base, n.children[k], c, pre + Text(base, n.edge), rest)
    ensures Loose(base, WithChild(n, k, c), pre)
    ensures forall w :: Has(base, WithChild(n, k, c), w) <==> Has(base, n, w) && w != Text(base, n.edge) + rest
  {
    WithChildLoose(base, n, pre, k, c, rest);
    WithChildWords(base, n, pre, k, c, rest);
  }

  lemma WithChildLoose(base: seq<string>, n: Node, pre: string, k: int, c: Option<Node>, rest: string)
    requires NodeInv(base, n, pre) && k in n.children
    requires RemovedFrom(base, n.children[k], c, pre + Text(base, n.edge), rest)
    ensures Loose(base, WithChild(n, k, c), pre)
  {
  }

  lemma WithChildWords(base: seq<string>, n: Node, pre: string, k: int, c: Option<Node>, rest: string)
    requires k in n.children
    requires |rest| >= 1 && Slot(rest[0]) == k
    requires forall w :: HasOpt(base, c, w) <==> Has(base, n.children[k], w) && w != rest
    ensures forall w :: Has(base, WithChild(n, k, c), w) <==> Has(base, n, w) && w != Text(base, n.edge) + rest
  {
    forall w
      ensures Has(base, WithChild(n, k, c), w) <==> Has(base, n, w) && w != Text(base, n.edge) + rest
    {
      WithChildWordAt(base, n, k, c, rest, w);
    }
  }

  /** One word of the node once the child in slot k has lost `rest`. */
  lemma WithChildWordAt(base: seq<string>, n: Node, k: int, c: Option<Node>, rest: string, w: string)
    requires k in n.children
    requires |rest| >= 1 && Slot(rest[0]) == k
    requires var lab := Text(base, n.edge);
      lab <= w && |w| > |lab| ==>
        (HasOpt(base, c, w[|lab|..]) <==> Has(base, n.children[k], w[|lab|..]) && w[|lab|..] != rest)
    ensures Has(base, WithChild(n, k, c), w) <==> Has(base, n, w) && w != Text(base, n.edge) + rest
  {
    var lab := Text(base, n.edge);
    assert (lab + rest)[|lab|..] == rest;
    if c.Some? {
      ReplaceChildHas(base, n, k, c.value, w);
    } else {
      RemoveChildHas(base, n, k, w);
    }
    if lab <= w && |w| > |lab| {
      assert w == lab + w[|lab|..];
    }
  }

  /** The deleted word ends at `n`. */
  lemma DeleteHereSpec(base: seq<string>, n: Node, d: Desc, pre: string)
    requires NodeInv(base, n, pre) && Valid(base, d) && Has(base, n, Text(base, d))
    requires n.edge.length == d.length
    ensures DeleteRec(base, n, d) == Done(Compact(n, true))
    ensures RemovedFrom(base, n, Compact(n, true), pre, Text(base, d))
  {
    assert Text(base, d) == Text(base, n.edge);
    CompactSpec(base, n, pre, true);
  }

  /** The deleted word continues below `n`, through slot k. */
  lemma DeleteDescendSpec(base: seq<string>, n: Node, d: Desc, pre: string, c: Option<Node>)
    requires NodeInv(base, n, pre) && Valid(base, d) && Has(base, n, Text(base, d))
    requires n.edge.length != d.length
    requires var rest := Advance(d, n.edge.length);
      && FirstLetter(base, rest) in n.children
      && DeleteRec(base, n.children[FirstLetter(base, rest)], rest) == Done(c)
      && RemovedFrom(base, n.children[FirstLetter(base, rest)], c, pre + Text(base, n.edge), Text(base, rest))
    ensures var k := FirstLetter(base, Advance(d, n.edge.length));
      && DeleteRec(base, n, d) == Done(Compact(WithChild(n, k, c), false))
      && RemovedFrom(base, n, Compact(WithChild(n, k, c), false), pre, Text(base, d))
  {
    var lab := Text(base, n.edge);
    var word := Text(base, d);
    var len := n.edge.length;
    var rest := Advance(d, len);
    AdvanceText(base, d, len);
    var k := FirstLetter(base, rest);
    HasLabel(base, n, word);
    LabelRest(base, n, d);
    DeleteRecStep(base, n, d, c);
    WithChildSpec(base, n, pre, k, c, Text(base, rest));
    CompactSpec(base, WithChild(n, k, c), pre, false);
    RemovedCompose(base, n, WithChild(n, k, c), pre, word);
  }

  /** A word that goes on past `n`'s label is that label followed by the rest of the fragment. */
  lemma LabelRest(base: seq<string>, n: Node, d: Desc)
    requires Valid(base, n.edge) && Valid(base, d)
    requires Text(base, n.edge) <= Text(base, d) && n.edge.length != d.length
    ensures n.edge.length < d.length
    ensures Valid(base, Advance(d, n.edge.length))
    ensures Text(base, d) == Text(base, n.edge) + Text(base, Advance(d, n.edge.length))
  {
    var word := Text(base, d);
    var len := n.edge.length;
    AdvanceText(base, d, len);
    assert word == word[..len] + word[len..];
  }

  /** The C walk below a node with a label shorter than the fragment. */
  lemma DeleteRecStep(base: seq<string>, n: Node, d: Desc, c: Option<Node>)
    requires n.edge.length != d.length
    requires var rest := Advance(d, n.edge.length);
      && FirstLetter(base, rest) in n.children
      && DeleteRec(base, n.children[FirstLetter(base, rest)], rest) == Done(c)
    ensures DeleteRec(base, n, d) == Done(Compact(WithChild(n, FirstLetter(base, Advance(d, n.edge.length)), c), false))
  {
  }

  /** Compacting a node from which `word` was removed finishes the removal. */
  lemma RemovedCompose(base: seq<string>, n: Node, m: Node, pre: string, word: string)
    requires m.edge == n.edge && n.edge.length >= 1
    requires forall w :: Has(base, m, w) <==> Has(base, n, w) && w != word
    requires RemovedFrom(base, m, Compact(m, false), pre, [])
    ensures RemovedFrom(base, n, Compact(m, false), pre, word)
  {
    forall w | Has(base, m, w)
      ensures w != []
    {
      HasLabel(base, m, w);
    }
  }

  /**
   * `trie_delete_recur` on a stored word: the walk reaches the word's
   * node, and the subtree that remains is well formed and holds every
   * other word.
   */
  lemma {:induction false} DeleteRecSpec(base: seq<string>, n: Node, d: Desc, pre: string)
    requires NodeInv(base, n, pre) && Valid(base, d) && Has(base, n, Text(base, d))
    ensures DeleteRec(base, n, d).Done?
    ensures RemovedFrom(base, n, DeleteRec(base, n, d).subtree, pre, Text(base, d))
    decreases n
  {
    var lab := Text(base, n.edge);
    var word := Text(base, d);
    var len := n.edge.length;
    if len == d.length {
      DeleteHereSpec(base, n, d, pre);
    } else {
      var rest := Advance(d, len);
      AdvanceText(base, d, len);
      var k := FirstLetter(base, rest);
      assert k == Slot(word[len]);
      assert Has(base, n.children[k], Text(base, rest));
      DeleteRecSpec(base, n.children[k], rest, pre + lab);
      DeleteDescendSpec(base, n, d, pre, DeleteRec(base, n.children[k], rest).subtree);
    }
  }

  /** The words of a root after one of its children was replaced or removed. */
  lemma RootWithChildWords(base: seq<string>, r: Node, k: int, c: Option<Node>, word: string)
    requires k in r.children && |word| >= 1 && Slot(word[0]) == k
    requires forall w :: HasOpt(base, c, w) <==> Has(base, r.children[k], w) && w != word
    ensures forall w :: InTrie(base, Some(WithChild(r, k, c)), w) <==> InTrie(base, Some(r), w) && w != word
  {
    var r' := WithChild(r, k, c);
    forall w
      ensures InTrie(base, Some(r'), w) <==> InTrie(base, Some(r), w) && w != word
    {
      if |w| >= 1 && Slot(w[0]) == k {
        assert InTrie(base, Some(r'), w) <==> HasOpt(base, c, w);
      } else {
        assert InTrie(base, Some(r'), w) <==> InTrie(base, Some(r), w);
      }
    }
  }

  /** Replacing a root child by what remained of it deletes the word from the trie. */
  lemma RootWithChildSpec(base: seq<string>, r: Node, k: int, c: Option<Node>, word: string)
    requires RootInv(base, r) && k in r.children
    requires |word| >= 1 && Slot(word[0]) == k
    requires RemovedFrom(base, r.children[k], c, [], word)
    ensures forall j :: j in WithChild(r, k, c).children ==> 0 <= j < 26
    ensures |WithChild(r, k, c).children| >= 1 ==> RootInv(base, WithChild(r, k, c))
    ensures forall w :: InTrie(base, Some(WithChild(r, k, c)), w) <==> InTrie(base, Some(r), w) && w != word
    ensures |WithChild(r, k, c).children| == 0 ==> forall w :: InTrie(base, Some(r), w) ==> w == word
  {
    var r' := WithChild(r, k, c);
    RootWithChildWords(base, r, k, c, word);
    if |r'.children| == 0 {
      forall w | InTrie(base, Some(r), w)
        ensures w == word
      {
        assert !InTrie(base, Some(r'), w);
      }
    }
  }

  /**
   * Deleting a stored word from the trie: the walk succeeds, the trie that
   * remains satisfies the invariant (a root left without children is
   * freed) and stores exactly the other words.
   */
  lemma DeleteRootSpec(base: seq<string>, root: Option<Node>, d: Desc)
    requires TrieInv(base, root) && Valid(base, d) && InTrie(base, root, Text(base, d))
    ensures DeleteRoot(base, root, d).Done?
    ensures TrieInv(base, DeleteRoot(base, root, d).subtree)
    ensures forall w :: InTrie(base, DeleteRoot(base, root, d).subtree, w) <==> InTrie(base, root, w) && w != Text(base, d)
  {
    var r := root.value;
    var word := Text(base, d);
    assert r.edge.length == 0 && Advance(d, 0) == d;
    var k := FirstLetter(base, d);
    assert k == Slot(word[0]);
    DeleteRecSpec(base, r.children[k], d, []);
    var c := DeleteRec(base, r.children[k], d).subtree;
    var r' := WithChild(r, k, c);
    DeleteRootStep(base, r, d, c);
    RootWithChildSpec(base, r, k, c, word);
    CountIsSize(r');
  }

  /** The C walk from the root, whose label is empty, once the child of the first letter is done. */
  lemma DeleteRootStep(base: seq<string>, r: Node, d: Desc, c: Option<Node>)
    requires r.edge == EmptyDesc && d.length >= 1
    requires FirstLetter(base, d) in r.children
    requires DeleteRec(base, r.children[FirstLetter(base, d)], d) == Done(c)
    ensures var r' := WithChild(r, FirstLetter(base, d), c);
      DeleteRoot(base, Some(r), d) == if NumberOfChildren(r') == 0 then Done(None) else Done(Some(r'))
  {
    assert Advance(d, 0) == d;
  }
}
