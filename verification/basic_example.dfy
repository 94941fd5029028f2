/** The calls made by the demonstration driver BasicExample.java, and the
    prefix-word case, stated as facts about the model. The driver starts
    from a freshly built trie; the facts below hold from any trie that
    stores nothing (for the word trie: also pruned), which
    `ConstructorsBlank` shows the constructors build. Each fact follows
    from the set theorems, not from evaluating the trees. */
module BasicExample {
  import CharTrie
  import CharTrieSpec
  import BitTrie
  import BitTrieSpec

  /** A string over 'a'..'z', which the word trie accepts. */
  type Word = w: string | CharTrie.IsWord(w)

  /** The words the driver and the prefix cases use, each checked once to
      be a `Word`. */
  const Cat: Word := "cat"
  const Bat: Word := "bat"
  const Kitchen: Word := "kitchen"
  const Scat: Word := "scat"
  const Ca: Word := "ca"
  const Catalog: Word := "catalog"
  const A: Word := "a"
  const B: Word := "b"
  const Ab: Word := "ab"

  /** A word trie that stores nothing, as `new CharTrie()` builds it. */
  ghost predicate Blank(e: CharTrie.Trie)
  {
    CharTrie.Valid(e.root) && CharTrieSpec.Pruned(e.root) && CharTrieSpec.Words(e.root) == {}
  }

  /** e after inserting "cat", "bat" and "kitchen". */
  function ThreeWords(e: CharTrie.Trie): (t: CharTrie.Trie)
    requires CharTrie.Valid(e.root)
    ensures CharTrie.Valid(t.root)
  {
    CharTrie.Insert(CharTrie.Insert(CharTrie.Insert(e, Cat), Bat), Kitchen)
  }

  /** Three insertions into a blank trie store exactly the three words. */
  lemma InsertThree(e: CharTrie.Trie, u: string, v: string, w: string)
    requires Blank(e) && CharTrie.IsWord(u) && CharTrie.IsWord(v) && CharTrie.IsWord(w)
    ensures CharTrieSpec.Words(CharTrie.Insert(CharTrie.Insert(CharTrie.Insert(e, u), v), w).root) == {u, v, w}
    ensures CharTrieSpec.Pruned(CharTrie.Insert(CharTrie.Insert(CharTrie.Insert(e, u), v), w).root)
  {
    var t1 := CharTrie.Insert(e, u);
    var t2 := CharTrie.Insert(t1, v);
    CharTrieSpec.InsertWords(e, u);
    CharTrieSpec.InsertWords(t1, v);
    CharTrieSpec.InsertWords(t2, w);
    CharTrieSpec.InsertPruned(e, u);
    CharTrieSpec.InsertPruned(t1, v);
    CharTrieSpec.InsertPruned(t2, w);
  }

  lemma ThreeWordsContent(e: CharTrie.Trie)
    requires Blank(e)
    ensures CharTrieSpec.Words(ThreeWords(e).root) == {Cat, Bat, Kitchen}
    ensures CharTrieSpec.Pruned(ThreeWords(e).root)
  {
    InsertThree(e, Cat, Bat, Kitchen);
  }

  /** Lookups in a word trie storing exactly "cat", "bat" and "kitchen": it
      is not empty, it contains "cat", and it contains neither "scat" (a
      missing edge) nor "ca" (a prefix that is not a word end). */
  lemma ThreeWordsLookups(t: CharTrie.Trie)
    requires CharTrie.Valid(t.root) && CharTrieSpec.Words(t.root) == {Cat, Bat, Kitchen}
    ensures !CharTrie.IsEmpty(t)
    ensures CharTrie.ContainsKey(t, Cat)
    ensures !CharTrie.ContainsKey(t, Scat)
    ensures !CharTrie.ContainsKey(t, Ca)
  {
    CharTrieSpec.ContainsKeyWords(t, Cat);
    CharTrieSpec.ContainsKeyWords(t, Scat);
    CharTrieSpec.ContainsKeyWords(t, Ca);
    CharTrieSpec.EmptinessWords(t);
  }

  /** After remove("cat") from such a trie it is still not empty, "cat" is
      gone and "bat" stays. */
  lemma ThreeWordsRemoveCat(t: CharTrie.Trie)
    requires CharTrie.Valid(t.root) && CharTrieSpec.Words(t.root) == {Cat, Bat, Kitchen}
    ensures !CharTrie.IsEmpty(CharTrie.Remove(t, Cat))
    ensures !CharTrie.ContainsKey(CharTrie.Remove(t, Cat), Cat)
    ensures CharTrie.ContainsKey(CharTrie.Remove(t, Cat), Bat)
  {
    var t' := CharTrie.Remove(t, Cat);
    CharTrieSpec.EmptinessWords(t);
    CharTrieSpec.RemoveWords(t, Cat);
    CharTrieSpec.ContainsKeyWords(t', Bat);
    CharTrieSpec.EmptinessWords(t');
  }

  /** The word-trie half of the driver. */
  lemma CharTrieDriver(e: CharTrie.Trie)
    requires Blank(e)
    ensures CharTrie.IsEmpty(e)
    ensures var t := ThreeWords(e);
      && !CharTrie.IsEmpty(t)
      && CharTrie.ContainsKey(t, Cat) && !CharTrie.ContainsKey(t, Scat) && !CharTrie.ContainsKey(t, Ca)
    ensures var t := CharTrie.Remove(ThreeWords(e), Cat);
      && !CharTrie.IsEmpty(t)
      && !CharTrie.ContainsKey(t, Cat) && CharTrie.ContainsKey(t, Bat)
  {
    CharTrieSpec.EmptinessWords(e);
    ThreeWordsContent(e);
    ThreeWordsLookups(ThreeWords(e));
    ThreeWordsRemoveCat(ThreeWords(e));
  }

  /** e after inserting u, then v. */
  function InsertTwo(e: CharTrie.Trie, u: string, v: string): (t: CharTrie.Trie)
    requires CharTrie.Valid(e.root) && CharTrie.IsWord(u) && CharTrie.IsWord(v)
    ensures CharTrie.Valid(t.root)
  {
    CharTrie.Insert(CharTrie.Insert(e, u), v)
  }

  /** Removing a word that is a prefix of another stored word keeps the
      nodes the longer word still needs. */
  lemma CatalogSurvives(e: CharTrie.Trie)
    requires Blank(e)
    ensures CharTrie.ContainsKey(InsertTwo(e, Cat, Catalog), Catalog)
    ensures !CharTrie.ContainsKey(CharTrie.Remove(InsertTwo(e, Cat, Catalog), Cat), Cat)
    ensures CharTrie.ContainsKey(CharTrie.Remove(InsertTwo(e, Cat, Catalog), Cat), Catalog)
  {
    var t1 := CharTrie.Insert(e, Cat);
    var t := InsertTwo(e, Cat, Catalog);
    CharTrieSpec.InsertWords(e, Cat);
    CharTrieSpec.InsertWords(t1, Catalog);
    CharTrieSpec.ContainsKeyWords(t, Catalog);
    CharTrieSpec.RemoveWords(t, Cat);
    CharTrieSpec.ContainsKeyWords(CharTrie.Remove(t, Cat), Catalog);
  }

  /** Removing "a" from a trie holding "a" and "b" leaves exactly "b": no
      word that was never inserted, such as "ab", appears. */
  lemma NoPhantomWord(e: CharTrie.Trie)
    requires Blank(e)
    ensures !CharTrie.ContainsKey(CharTrie.Remove(InsertTwo(e, A, B), A), Ab)
    ensures CharTrie.ContainsKey(CharTrie.Remove(InsertTwo(e, A, B), A), B)
    ensures CharTrieSpec.Words(CharTrie.Remove(InsertTwo(e, A, B), A).root) == {B}
  {
    var t1 := CharTrie.Insert(e, A);
    var t := InsertTwo(e, A, B);
    var t' := CharTrie.Remove(t, A);
    CharTrieSpec.InsertWords(e, A);
    CharTrieSpec.InsertWords(t1, B);
    CharTrieSpec.RemoveWords(t, A);
    CharTrieSpec.ContainsKeyWords(t', Ab);
    CharTrieSpec.ContainsKeyWords(t', B);
  }

  /** A binary trie that stores nothing, as `new BitTrie()` builds it. */
  ghost predicate BlankBits(e: BitTrie.Trie)
  {
    BitTrieSpec.Valid(e) && BitTrieSpec.Keys(e) == {}
  }

  /** e after inserting 5, 7 and 9. */
  function ThreeKeys(e: BitTrie.Trie): (t: BitTrie.Trie)
  {
    BitTrie.Insert(BitTrie.Insert(BitTrie.Insert(e, 5), 7), 9)
  }

  lemma ThreeKeysContent(e: BitTrie.Trie)
    requires BlankBits(e)
    ensures BitTrieSpec.Keys(ThreeKeys(e)) == {5, 7, 9}
    ensures BitTrieSpec.Valid(ThreeKeys(e))
  {
    var t1 := BitTrie.Insert(e, 5);
    var t2 := BitTrie.Insert(t1, 7);
    BitTrieSpec.InsertKeys(e, 5);
    BitTrieSpec.InsertKeys(t1, 7);
    BitTrieSpec.InsertKeys(t2, 9);
    BitTrieSpec.InsertValid(e, 5);
    BitTrieSpec.InsertValid(t1, 7);
    BitTrieSpec.InsertValid(t2, 9);
  }

  /** Lookups in a valid binary trie storing exactly 5, 7 and 9: it is not
      empty, it contains 5 but not 6; after remove(5) it is still not empty,
      no longer contains 5, and still contains 7. */
  lemma ThreeKeysFacts(t: BitTrie.Trie)
    requires BitTrieSpec.Valid(t) && BitTrieSpec.Keys(t) == {5, 7, 9}
    ensures !BitTrie.IsEmpty(t)
    ensures BitTrie.ContainsKey(t, 5) && !BitTrie.ContainsKey(t, 6)
    ensures !BitTrie.IsEmpty(BitTrie.Remove(t, 5))
    ensures !BitTrie.ContainsKey(BitTrie.Remove(t, 5), 5)
    ensures BitTrie.ContainsKey(BitTrie.Remove(t, 5), 7)
  {
    var t' := BitTrie.Remove(t, 5);
    BitTrieSpec.ContainsKeyKeys(t, 5);
    BitTrieSpec.ContainsKeyKeys(t, 6);
    BitTrieSpec.EmptinessKeys(t);
    BitTrieSpec.RemoveValid(t, 5);
    BitTrieSpec.ContainsKeyKeys(t', 7);
    BitTrieSpec.EmptinessKeys(t');
  }

  /** The binary-trie half of the driver. */
  lemma BitTrieDriver(e: BitTrie.Trie)
    requires BlankBits(e)
    ensures BitTrie.IsEmpty(e)
    ensures !BitTrie.IsEmpty(ThreeKeys(e))
    ensures BitTrie.ContainsKey(ThreeKeys(e), 5)
    ensures !BitTrie.ContainsKey(ThreeKeys(e), 6)
    ensures !BitTrie.IsEmpty(BitTrie.Remove(ThreeKeys(e), 5))
    ensures !BitTrie.ContainsKey(BitTrie.Remove(ThreeKeys(e), 5), 5)
    ensures BitTrie.ContainsKey(BitTrie.Remove(ThreeKeys(e), 5), 7)
  {
    BitTrieSpec.EmptinessKeys(e);
    ThreeKeysContent(e);
    ThreeKeysFacts(ThreeKeys(e));
  }

  /** The constructors build blank tries, so the driver's facts hold for
      the tries BasicExample.java builds. */
  lemma ConstructorsBlank()
    ensures Blank(CharTrie.Empty()) && BlankBits(BitTrie.Empty())
  {
    CharTrieSpec.EmptyTrie();
    BitTrieSpec.EmptyValid();
  }
}
