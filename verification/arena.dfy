/**
 * The string arena (`base_words`) and the fragment descriptor (`Word_desc`)
 * that views it, together with the character-level helpers of trie.c that
 * read the arena through a descriptor.
 */
module Arena {

  /** A view of the characters `base[index][start .. start+length)`. */
  datatype Desc = Desc(index: int, start: int, length: int)

  /** `empty_word_desc`, the label of the root. */
  const EmptyDesc := Desc(0, 0, 0)

  /** The descriptor lies inside the arena entry it names. */
  predicate Valid(base: seq<string>, d: Desc) {
    && 0 <= d.index < |base|
    && 0 <= d.start
    && 0 <= d.length
    && d.start + d.length <= |base[d.index]|
  }

  /** The characters a descriptor denotes (empty for a descriptor outside the arena). */
  function Text(base: seq<string>, d: Desc): (t: string)
    ensures Valid(base, d) ==> |t| == d.length
  {
    if Valid(base, d) then base[d.index][d.start .. d.start + d.length] else []
  }

  predicate IsLower(c: char) {
    'a' <= c <= 'z'
  }

  predicate AllLower(s: string) {
    forall i :: 0 <= i < |s| ==> IsLower(s[i])
  }

  /** A dictionary word: non-empty, lowercase letters only. */
  predicate IsWord(s: string) {
    |s| >= 1 && AllLower(s)
  }

  /** Position of a letter in the alphabet: 'a' is 0. */
  function Slot(c: char): int {
    c as int - 'a' as int
  }

  lemma SlotInjective(c: char, e: char)
    ensures Slot(c) == Slot(e) ==> c == e
  {
  }

  /**
   * `first_letter`: the alphabet slot of the first character a descriptor
   * points at. A descriptor pointing outside the arena (which the C code
   * never produces under the trie invariants) yields -1, a slot no node uses.
   */
  function FirstLetter(base: seq<string>, d: Desc): (k: int)
    ensures Valid(base, d) && d.length > 0 ==> k == Slot(Text(base, d)[0])
    ensures Valid(base, d) && d.length > 0 && IsLower(Text(base, d)[0]) ==> 0 <= k < 26
  {
    if 0 <= d.index < |base| && 0 <= d.start < |base[d.index]|
    then Slot(base[d.index][d.start])
    else -1
  }

  /** The descriptor with its first `n` characters dropped. */
  function Advance(d: Desc, n: int): Desc {
    Desc(d.index, d.start + n, d.length - n)
  }

  lemma AdvanceText(base: seq<string>, d: Desc, n: int)
    requires Valid(base, d) && 0 <= n <= d.length
    ensures Valid(base, Advance(d, n))
    ensures Text(base, Advance(d, n)) == Text(base, d)[n..]
  {
  }

  lemma TakeText(base: seq<string>, d: Desc, n: int)
    requires Valid(base, d) && 0 <= n <= d.length
    ensures Valid(base, Desc(d.index, d.start, n))
    ensures Text(base, Desc(d.index, d.start, n)) == Text(base, d)[..n]
  {
    var s := base[d.index];
    assert Text(base, d)[..n] == s[d.start .. d.start + d.length][..n] == s[d.start .. d.start + n];
  }

  /**
   * The descriptor is preceded in its arena entry by `pre`: the characters
   * just before `start` spell `pre`. Every trie label is anchored to the
   * path leading to its node, which is what makes the merge of a node
   * into its only child (moving the child's start backwards) correct.
   */
  predicate Anchored(base: seq<string>, d: Desc, pre: string) {
    && Valid(base, d)
    && |pre| <= d.start
    && base[d.index][d.start - |pre| .. d.start] == pre
  }

  /**
   * `common_prefix_by_desc`: the length of the longest common prefix of the
   * two fragments.
   */
  function CommonPrefix(base: seq<string>, fst: Desc, snd: Desc): (c: int)
    requires Valid(base, fst) && Valid(base, snd)
    ensures 0 <= c <= fst.length && c <= snd.length
    ensures Text(base, fst)[..c] == Text(base, snd)[..c]
    ensures c < fst.length && c < snd.length ==> Text(base, fst)[c] != Text(base, snd)[c]
  {
    CommonPrefixFrom(base, fst, snd, 0)
  }

  /** The loop of `common_prefix_by_desc`, from `common_length == c` on. */
  function CommonPrefixFrom(base: seq<string>, fst: Desc, snd: Desc, c: int): (r: int)
    requires Valid(base, fst) && Valid(base, snd)
    requires 0 <= c <= fst.length && c <= snd.length
    requires Text(base, fst)[..c] == Text(base, snd)[..c]
    decreases fst.length - c
    ensures c <= r <= fst.length && r <= snd.length
    ensures Text(base, fst)[..r] == Text(base, snd)[..r]
    ensures r < fst.length && r < snd.length ==> Text(base, fst)[r] != Text(base, snd)[r]
  {
    if c < fst.length && c < snd.length
       && base[fst.index][fst.start + c] == base[snd.index][snd.start + c]
    then
      assert Text(base, fst)[..c + 1] == Text(base, fst)[..c] + [Text(base, fst)[c]];
      assert Text(base, snd)[..c + 1] == Text(base, snd)[..c] + [Text(base, snd)[c]];
      CommonPrefixFrom(base, fst, snd, c + 1)
    else
      c
  }

  /**
   * `common_substr`: the length of the longest common prefix of a fragment
   * and a plain string.
   */
  function CommonSubstr(base: seq<string>, d: Desc, w: string): (c: int)
    requires Valid(base, d)
    ensures 0 <= c <= d.length && c <= |w|
    ensures Text(base, d)[..c] == w[..c]
    ensures c < d.length && c < |w| ==> Text(base, d)[c] != w[c]
  {
    CommonSubstrFrom(base, d, w, 0)
  }

  /** The loop of `common_substr`, with `iter == d.start + c`. */
  function CommonSubstrFrom(base: seq<string>, d: Desc, w: string, c: int): (r: int)
    requires Valid(base, d)
    requires 0 <= c <= d.length && c <= |w|
    requires Text(base, d)[..c] == w[..c]
    decreases d.length - c
    ensures c <= r <= d.length && r <= |w|
    ensures Text(base, d)[..r] == w[..r]
    ensures r < d.length && r < |w| ==> Text(base, d)[r] != w[r]
  {
    if c < d.length && c < |w| && w[c] == base[d.index][d.start + c] then
      assert Text(base, d)[..c + 1] == Text(base, d)[..c] + [Text(base, d)[c]];
      assert w[..c + 1] == w[..c] + [w[c]];
      CommonSubstrFrom(base, d, w, c + 1)
    else
      c
  }

  /** Appending to the arena changes nothing a valid descriptor denotes. */
  lemma ExtendText(base: seq<string>, s: string, d: Desc)
    requires Valid(base, d)
    ensures Valid(base + [s], d)
    ensures Text(base + [s], d) == Text(base, d)
    ensures FirstLetter(base + [s], d) == FirstLetter(base, d)
  {
    assert (base + [s])[d.index] == base[d.index];
  }

  lemma ExtendAnchored(base: seq<string>, s: string, d: Desc, pre: string)
    requires Anchored(base, d, pre)
    ensures Anchored(base + [s], d, pre)
  {
    assert (base + [s])[d.index] == base[d.index];
  }

  /** Dropping `c` characters keeps a descriptor anchored, to the longer path. */
  lemma AnchoredAdvance(base: seq<string>, d: Desc, pre: string, c: int)
    requires Anchored(base, d, pre) && 0 <= c <= d.length
    ensures Anchored(base, Advance(d, c), pre + Text(base, d)[..c])
  {
    var s := base[d.index];
    assert s[d.start - |pre| .. d.start + c] == s[d.start - |pre| .. d.start] + s[d.start .. d.start + c];
  }

  /** A path extended by part of a label, then the rest of the label. */
  lemma SplitJoin(pre: string, lab: string, c: int)
    requires 0 <= c <= |lab|
    ensures (pre + lab[..c]) + lab[c..] == pre + lab
  {
    assert lab == lab[..c] + lab[c..];
  }

  /**
   * Characters `start..end` of a valid descriptor's text, as a descriptor
   * of their own: anchored at the empty path, since they lie in the arena.
   */
  lemma SubText(base: seq<string>, e: Desc, start: int, end: int)
    requires Valid(base, e) && 0 <= start <= end < e.length
    ensures Anchored(base, Desc(e.index, start + e.start, end - start + 1), [])
    ensures Text(base, Desc(e.index, start + e.start, end - start + 1)) == Text(base, e)[start..end + 1]
  {
    var s := base[e.index];
    var desc := Desc(e.index, start + e.start, end - start + 1);
    var t := Text(base, e);
    assert Text(base, desc) == s[e.start + start .. e.start + end + 1];
    forall k | 0 <= k < end + 1 - start
      ensures Text(base, desc)[k] == t[start..end + 1][k]
    {
      assert t[start + k] == s[e.start + start + k];
    }
  }

  /** A string that starts with a label is the label followed by the rest. */
  lemma LabelThenRest(p: string, lab: string)
    requires |lab| <= |p| && lab[..|lab|] == p[..|lab|]
    ensures p == lab + p[|lab|..]
  {
    assert lab == lab[..|lab|];
    assert p == p[..|lab|] + p[|lab|..];
  }

  /** Two strings of one length that agree up to that length are equal. */
  lemma WholePrefix(a: string, b: string)
    requires |a| == |b| && a[..|a|] == b[..|b|]
    ensures a == b
  {
    assert a == a[..|a|];
  }

  /** Every character an arena of lowercase words holds is lowercase. */
  lemma TextLower(base: seq<string>, d: Desc)
    requires forall i :: 0 <= i < |base| ==> AllLower(base[i])
    ensures AllLower(Text(base, d))
  {
    if Valid(base, d) {
      forall i | 0 <= i < d.length
        ensures IsLower(Text(base, d)[i])
      {
        assert Text(base, d)[i] == base[d.index][d.start + i];
      }
    }
  }
}
