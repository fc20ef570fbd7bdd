/**
 * The dictionary engine of trie.c: the globals `base_words`, `word_list`
 * and `root` as one state value, and the public operations `trie_init`,
 * `trie_insert`, `trie_prev`, `trie_delete`, `trie_find` and
 * `trie_clear_and_init` as functions from a state to a new state and the
 * C return value. `base_words_count` and `words_count` are the lengths of
 * the two sequences.
 */
module Dictionary {
  import opened Wrappers
  import opened Arena
  import opened Trie
  import opened TrieInsert
  import opened TrieFind
  import opened TrieDelete

  /**
   * The arena of words inserted directly, the registry mapping each word
   * number to its descriptor (None once deleted), and the trie.
   */
  datatype Dict = Dict(base: seq<string>, words: seq<Option<Desc>>, root: Option<Node>)

  /** The words the dictionary stores: those spelled by the trie. */
  ghost predicate Stored(d: Dict, w: string) {
    InTrie(d.base, d.root, w)
  }

  /** Word number `i` has been assigned and not deleted. */
  ghost predicate Live(d: Dict, i: int) {
    0 <= i < |d.words| && d.words[i].Some?
  }

  /** The text of a registry entry. */
  ghost function EntryText(d: Dict, i: int): string
    requires Live(d, i)
  {
    Text(d.base, d.words[i].value)
  }

  /** Some live word number denotes `w`. */
  ghost predicate Registered(d: Dict, w: string) {
    exists i :: Live(d, i) && EntryText(d, i) == w
  }

  /**
   * The state invariant: a lowercase arena, a well-formed trie, and live
   * registry entries that denote, one to one, exactly the stored words.
   */
  ghost predicate Inv(d: Dict) {
    && ArenaLower(d.base)
    && TrieInv(d.base, d.root)
    && EntriesStored(d)
    && EntriesDistinct(d)
    && AllRegistered(d)
  }

  /** Every live entry is a non-empty fragment of the arena spelling a stored word. */
  ghost predicate EntriesStored(d: Dict) {
    forall i :: Live(d, i) ==>
      && Valid(d.base, d.words[i].value)
      && d.words[i].value.length >= 1
      && Stored(d, EntryText(d, i))
  }

  /** No two live entries spell the same word. */
  ghost predicate EntriesDistinct(d: Dict) {
    forall i, j :: Live(d, i) && Live(d, j) && i != j ==> EntryText(d, i) != EntryText(d, j)
  }

  /** Every stored word has a live entry. */
  ghost predicate AllRegistered(d: Dict) {
    forall w :: Stored(d, w) ==> Registered(d, w)
  }

  /** `trie_init`: no root, an empty arena and an empty registry. */
  function Init(): (d: Dict)
    ensures Inv(d)
    ensures forall w :: !Stored(d, w)
    ensures |d.words| == 0 && |d.base| == 0
  {
    Dict([], [], None)
  }

  lemma InvRootValid(d: Dict)
    requires Inv(d)
    ensures d.root.Some? ==> RootValid(d.base, d.root.value)
  {
    TrieInvValid(d.base, d.root);
  }

  /** Every live entry denotes the same text over `base2` as over the current arena. */
  ghost predicate TextsKept(d: Dict, base2: seq<string>) {
    forall i :: Live(d, i) ==>
      Valid(base2, d.words[i].value) && Text(base2, d.words[i].value) == Text(d.base, d.words[i].value)
  }

  lemma ExtendKeepsTexts(d: Dict, s: string)
    requires Inv(d)
    ensures TextsKept(d, d.base + [s])
  {
    forall i | Live(d, i)
      ensures Valid(d.base + [s], d.words[i].value)
      ensures Text(d.base + [s], d.words[i].value) == Text(d.base, d.words[i].value)
    {
      ExtendText(d.base, s, d.words[i].value);
    }
  }

  /**
   * Registering a new word number for `desc`, after the trie has gained
   * exactly its text, restores the invariant.
   */
  lemma AddEntryInv(d: Dict, base2: seq<string>, root2: Option<Node>, desc: Desc)
    requires Inv(d) && ArenaLower(base2) && TextsKept(d, base2)
    requires Valid(base2, desc) && desc.length >= 1
    requires !Stored(d, Text(base2, desc))
    requires TrieInv(base2, root2)
    requires forall w :: InTrie(base2, root2, w) <==> Stored(d, w) || w == Text(base2, desc)
    ensures Inv(Dict(base2, d.words + [Some(desc)], root2))
  {
    var d2 := Dict(base2, d.words + [Some(desc)], root2);
    AddEntryStored(d, d2, desc);
    AddEntryRegistered(d, d2, desc);
  }

  /**
   * `d2` is `d` with an entry for `desc` appended, over an arena that keeps
   * every live entry's text, and with a trie that gained exactly the text
   * of `desc`, which it did not hold before.
   */
  ghost predicate Appended(d: Dict, d2: Dict, desc: Desc) {
    && TextsKept(d, d2.base)
    && d2.words == d.words + [Some(desc)]
    && Valid(d2.base, desc) && desc.length >= 1
    && !Stored(d, Text(d2.base, desc))
    && forall w :: Stored(d2, w) <==> Stored(d, w) || w == Text(d2.base, desc)
  }

  /** The appended entry keeps every entry stored and all entries distinct. */
  lemma AddEntryStored(d: Dict, d2: Dict, desc: Desc)
    requires EntriesStored(d) && EntriesDistinct(d) && Appended(d, d2, desc)
    ensures EntriesStored(d2) && EntriesDistinct(d2)
  {
    var n := |d.words|;
    forall i | Live(d2, i)
      ensures Valid(d2.base, d2.words[i].value) && d2.words[i].value.length >= 1
      ensures Stored(d2, EntryText(d2, i))
      ensures i == n || (Live(d, i) && EntryText(d2, i) == EntryText(d, i))
    {
      if i < n {
        assert d2.words[i] == d.words[i];
        assert Live(d, i);
      }
    }
  }

  /** After the append every stored word has a live entry. */
  lemma AddEntryRegistered(d: Dict, d2: Dict, desc: Desc)
    requires AllRegistered(d) && Appended(d, d2, desc)
    ensures AllRegistered(d2)
  {
    var n := |d.words|;
    assert Live(d2, n) && EntryText(d2, n) == Text(d2.base, desc);
    forall w | Stored(d2, w)
      ensures Registered(d2, w)
    {
      if w != Text(d2.base, desc) {
        var i :| Live(d, i) && EntryText(d, i) == w;
        assert d2.words[i] == d.words[i];
        assert Live(d2, i) && EntryText(d2, i) == w;
      }
    }
  }

  /**
   * `trie_insert`: the word is appended to the arena and given the next
   * word number; if the dictionary already holds it, both appends are
   * undone and the result is -1, otherwise the result is its number.
   */
  function Insert(d: Dict, word: string): (r: (Dict, int))
    requires Inv(d) && IsWord(word)
    ensures Inv(r.0)
    ensures Stored(d, word) <==> r.1 == -1
    ensures Stored(d, word) ==> r.0 == d
    ensures !Stored(d, word) ==>
              && r.1 == |d.words|
              && r.0.base == d.base + [word]
              && r.0.words == d.words + [Some(Desc(|d.base|, 0, |word|))]
              && EntryText(r.0, r.1) == word
    ensures forall w :: Stored(r.0, w) <==> Stored(d, w) || w == word
  {
    var base2 := d.base + [word];
    var desc := Desc(|d.base|, 0, |word|);
    InvRootValid(d);
    ExtendTrie(d.base, word, d.root);
    assert base2[|d.base|] == word;
    assert Text(base2, desc) == word;
    assert Anchored(base2, desc, []);
    assert ArenaLower(base2) by {
      forall i | 0 <= i < |base2|
        ensures AllLower(base2[i])
      {
        if i < |d.base| {
          assert base2[i] == d.base[i];
        }
      }
    }
    TrieInvValid(base2, d.root);
    InsertRootSpec(base2, d.root, desc);
    match InsertRoot(base2, d.root, desc)
    case None => (d, -1)
    case Some(root2) =>
      ExtendKeepsTexts(d, word);
      AddEntryInv(d, base2, Some(root2), desc);
      var d2 := Dict(base2, d.words + [Some(desc)], Some(root2));
      assert Live(d2, |d.words|);
      (d2, |d.words|)
  }

  /** The arguments of `trie_prev` that it rejects with -1 before touching anything. */
  predicate PrevRejects(d: Dict, index: int, start: int, end: int) {
    || index < 0 || index >= |d.words| || start > end
    || d.words[index].None? || d.words[index].value.length <= end
    || start < 0
  }

  /** The descriptor `trie_prev` builds: characters `start..end` of word `index`. */
  function PrevDesc(d: Dict, index: int, start: int, end: int): Desc
    requires !PrevRejects(d, index, start, end)
  {
    var e := d.words[index].value;
    Desc(e.index, start + e.start, end - start + 1)
  }

  /** A live entry is a non-empty fragment of the arena. */
  lemma LiveValid(d: Dict, i: int)
    requires Inv(d) && Live(d, i)
    ensures Valid(d.base, d.words[i].value) && d.words[i].value.length >= 1
  {
  }

  /** The fragment of word `index` that `trie_prev` denotes. */
  lemma PrevDescText(d: Dict, index: int, start: int, end: int)
    requires !PrevRejects(d, index, start, end) && Valid(d.base, d.words[index].value)
    ensures Anchored(d.base, PrevDesc(d, index, start, end), [])
    ensures Text(d.base, PrevDesc(d, index, start, end)) == EntryText(d, index)[start..end + 1]
    ensures |EntryText(d, index)[start..end + 1]| >= 1
  {
    SubText(d.base, d.words[index].value, start, end);
  }

  function Prev(d: Dict, index: int, start: int, end: int): (r: (Dict, int))
    requires Inv(d)
    ensures Inv(r.0)
    ensures r.0.base == d.base
    ensures PrevRejects(d, index, start, end) ==> r == (d, -1)
    ensures !PrevRejects(d, index, start, end) ==>
              var word := EntryText(d, index)[start..end + 1];
              && (Stored(d, word) <==> r.1 == -1)
              && (Stored(d, word) ==> r.0 == d)
              && (!Stored(d, word) ==>
                    && r.1 == |d.words|
                    && r.0.words == d.words + [Some(PrevDesc(d, index, start, end))]
                    && EntryText(r.0, r.1) == word)
              && forall w :: Stored(r.0, w) <==> Stored(d, w) || w == word
  {
    if PrevRejects(d, index, start, end) then
      (d, -1)
    else
      var desc := PrevDesc(d, index, start, end);
      InvRootValid(d);
      LiveValid(d, index);
      PrevDescText(d, index, start, end);
      InsertRootSpec(d.base, d.root, desc);
      match InsertRoot(d.base, d.root, desc)
      case None => (d, -1)
      case Some(root2) =>
        AddEntryInv(d, d.base, Some(root2), desc);
        var d2 := Dict(d.base, d.words + [Some(desc)], Some(root2));
        assert Live(d2, |d.words|);
        (d2, |d.words|)
  }

  /**
   * `trie_delete`: removes the word with the given number from the trie
   * and frees the number; -1 for a number never given out or already
   * deleted, 1 otherwise.
   */
  function Delete(d: Dict, number: int): (r: (Dict, int))
    requires Inv(d)
    ensures Inv(r.0)
    ensures r.0.base == d.base && |r.0.words| == |d.words|
    ensures !Live(d, number) ==> r == (d, -1)
    ensures Live(d, number) ==>
              && r.1 == 1
              && r.0.words == d.words[number := None]
              && forall w :: Stored(r.0, w) <==> Stored(d, w) && w != EntryText(d, number)
  {
    if number < 0 || number >= |d.words| || d.words[number].None? then
      (d, -1)
    else
      var desc := d.words[number].value;
      assert Live(d, number);
      DeleteRootSpec(d.base, d.root, desc);
      var d2 := Dict(d.base, d.words[number := None], DeleteRoot(d.base, d.root, desc).subtree);
      DeleteKeepsInv(d, number, d2);
      (d2, 1)
  }

  lemma DeleteKeepsInv(d: Dict, number: int, d2: Dict)
    requires Inv(d) && Live(d, number)
    requires d2.base == d.base && d2.words == d.words[number := None]
    requires TrieInv(d2.base, d2.root)
    requires forall w :: Stored(d2, w) <==> Stored(d, w) && w != EntryText(d, number)
    ensures Inv(d2)
  {
    DeleteKeepsEntries(d, number, d2);
    DeleteKeepsRegistered(d, number, d2);
  }

  /** After a deletion the remaining entries are still stored and still distinct. */
  lemma DeleteKeepsEntries(d: Dict, number: int, d2: Dict)
    requires EntriesStored(d) && EntriesDistinct(d) && Live(d, number)
    requires d2.base == d.base && d2.words == d.words[number := None]
    requires forall w :: Stored(d2, w) <==> Stored(d, w) && w != EntryText(d, number)
    ensures EntriesStored(d2) && EntriesDistinct(d2)
  {
    forall i | Live(d2, i)
      ensures Live(d, i) && i != number && EntryText(d2, i) == EntryText(d, i)
    {
      assert d2.words[i] == d.words[i];
    }
  }

  /** After a deletion every stored word still has a live entry. */
  lemma DeleteKeepsRegistered(d: Dict, number: int, d2: Dict)
    requires AllRegistered(d) && Live(d, number)
    requires d2.base == d.base && d2.words == d.words[number := None]
    requires forall w :: Stored(d2, w) <==> Stored(d, w) && w != EntryText(d, number)
    ensures AllRegistered(d2)
  {
    forall w | Stored(d2, w)
      ensures Registered(d2, w)
    {
      var i :| Live(d, i) && EntryText(d, i) == w;
      assert d2.words[i] == d.words[i];
      assert Live(d2, i) && EntryText(d2, i) == w;
    }
  }

  /**
   * `trie_find`: whether some stored word begins with `p`; the empty
   * pattern is found exactly when the dictionary is not empty.
   */
  function Find(d: Dict, p: string): (r: bool)
    requires Inv(d)
    ensures r <==> exists w :: Stored(d, w) && p <= w
  {
    InvRootValid(d);
    FindSpec(d.base, d.root, p);
    StoredPrefix(d, p);
    TrieFind.Find(d.base, d.root, p)
  }

  lemma StoredPrefix(d: Dict, p: string)
    ensures (exists w :: Stored(d, w) && p <= w) <==> (exists w :: InTrie(d.base, d.root, w) && p <= w)
  {
    if exists w :: InTrie(d.base, d.root, w) && p <= w {
      var w :| InTrie(d.base, d.root, w) && p <= w;
      assert Stored(d, w);
    }
  }

  /** `trie_clear_and_init`: everything is released and the engine starts over. */
  function ClearAndInit(d: Dict): (r: Dict)
    ensures Inv(r)
    ensures forall w :: !Stored(r, w)
    ensures |r.words| == 0 && |r.base| == 0
  {
    Init()
  }

  /** The root is null exactly when the dictionary stores no word. */
  lemma EmptyIffNoRoot(d: Dict)
    requires Inv(d)
    ensures d.root.None? <==> forall w :: !Stored(d, w)
  {
    if d.root.Some? {
      var r := d.root.value;
      NonEmptyMap(r.children);
      var k :| k in r.children;
      var w := SomeWord(d.base, r.children[k], []);
      assert Stored(d, w);
    }
  }

  /** After `trie_clear_and_init` the next insert succeeds and gets number 0. */
  lemma ClearThenInsert(d: Dict, word: string)
    requires IsWord(word)
    ensures Insert(ClearAndInit(d), word).1 == 0
    ensures Stored(Insert(ClearAndInit(d), word).0, word)
  {
  }

  /** Inserting the same word twice: the second call is ignored and changes nothing. */
  lemma InsertTwice(d: Dict, word: string)
    requires Inv(d) && IsWord(word)
    ensures Insert(Insert(d, word).0, word) == (Insert(d, word).0, -1)
  {
  }

  /** Two words sharing "ca": both prefixes of the pair are found, a longer pattern is not. */
  lemma SharedPrefixScenario()
    ensures Insert(Init(), "cat").1 == 0
    ensures Insert(Insert(Init(), "cat").0, "car").1 == 1
    ensures Find(Insert(Insert(Init(), "cat").0, "car").0, "ca")
    ensures !Find(Insert(Insert(Init(), "cat").0, "car").0, "cats")
  {
    var d1 := Insert(Init(), "cat").0;
    var d2 := Insert(d1, "car").0;
    assert "cat" != "car" by { assert "cat"[2] != "car"[2]; }
    assert "ca" <= "cat";
    assert Stored(d2, "cat");
    forall w | Stored(d2, w)
      ensures !("cats" <= w)
    {
      assert w == "cat" || w == "car";
    }
  }

  /**
   * A fragment outlives the word it was cut from: after `prev 0 0 1` and
   * `delete 0`, "ca" is still found and "cat" is not.
   */
  lemma FragmentScenario()
    ensures Insert(Init(), "cat").1 == 0
    ensures Prev(Insert(Init(), "cat").0, 0, 0, 1).1 == 1
    ensures Delete(Prev(Insert(Init(), "cat").0, 0, 0, 1).0, 0).1 == 1
    ensures !Find(Delete(Prev(Insert(Init(), "cat").0, 0, 0, 1).0, 0).0, "cat")
    ensures Find(Delete(Prev(Insert(Init(), "cat").0, 0, 0, 1).0, 0).0, "ca")
  {
    var d1 := Insert(Init(), "cat").0;
    assert EntryText(d1, 0) == "cat";
    assert "cat"[0..2] == "ca";
    assert "ca" != "cat";
    var d2 := Prev(d1, 0, 0, 1).0;
    assert d2.words[0] == d1.words[0] && d2.base == d1.base;
    assert Live(d2, 0) && EntryText(d2, 0) == "cat";
    var d3 := Delete(d2, 0).0;
    assert Stored(d3, "ca");
    forall w | Stored(d3, w)
      ensures !("cat" <= w)
    {
      assert w == "ca";
    }
  }

  /** Deleting the only word empties the trie back to a null root. */
  lemma SingleWordScenario()
    ensures Delete(Insert(Init(), "ab").0, 0).1 == 1
    ensures Delete(Insert(Init(), "ab").0, 0).0.root.None?
    ensures !Find(Delete(Insert(Init(), "ab").0, 0).0, "a")
  {
    var d1 := Insert(Init(), "ab").0;
    assert Live(d1, 0) && EntryText(d1, 0) == "ab";
    var d2 := Delete(d1, 0).0;
    forall w ensures !Stored(d2, w) {
      assert Stored(d1, w) ==> w == "ab";
    }
    EmptyIffNoRoot(d2);
  }
}
