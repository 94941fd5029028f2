/** The word trie's removal as CharTrie.java writes it, kept apart from the
    model the rest of the project uses.

    At the end of the key, `removeUtil` returns the trie's root instead of
    the node it was given (line 153), and the caller stores that reference
    in its child slot. The result is a cycle, which a tree of immutable
    values cannot hold, so this module models the object graph as a heap:
    a sequence of nodes whose child slots hold addresses, with the root at
    address 0. `PhantomWord` and `LostWord` exhibit what the cycle does;
    `CharTrie.RemoveUtil` is the corrected definition, which returns the
    node itself, and `CharTrieSpec.RemoveWords` proves it removes exactly
    the key. */
module CharTrieAsWritten {
  import opened Wrappers
  import CharTrie

  /** A node of the object graph: child references are heap addresses. */
  datatype HNode = HNode(children: seq<Option<nat>>, wordEnd: bool)

  /** The objects, by address. */
  type Heap = seq<HNode>

  /** The address of the trie's root. */
  const Root: nat := 0

  /** ALPHABET_SIZE slots, each empty or referring to an allocated node. */
  predicate NodeClosed(n: HNode, size: nat)
  {
    && |n.children| == CharTrie.AlphabetSize
    && forall i | 0 <= i < |n.children| :: n.children[i].Some? ==> n.children[i].value < size
  }

  /** The root is allocated and no reference dangles. */
  predicate Closed(h: Heap)
  {
    |h| > 0 && forall a | 0 <= a < |h| :: NodeClosed(h[a], |h|)
  }

  /** `new TrieNode()`. */
  function NewHNode(): (n: HNode)
    ensures NodeClosed(n, 0) && !n.wordEnd
  {
    HNode(seq(CharTrie.AlphabetSize, _ => None), false)
  }

  /** `new CharTrie()`: a heap holding only the root. */
  function NewHeap(): (h: Heap)
    ensures Closed(h) && |h| == 1
  {
    [NewHNode()]
  }

  /** A node with one child slot reassigned. */
  function SetChild(h: Heap, a: nat, i: nat, c: Option<nat>): (r: Heap)
    requires Closed(h) && a < |h| && i < CharTrie.AlphabetSize && (c.Some? ==> c.value < |h|)
    ensures Closed(r) && |r| == |h|
  {
    h[a := h[a].(children := h[a].children[i := c])]
  }

  /** The loop of `insert` from the node at address a: allocate every
      missing node on the key's path at the end of the heap, then flag the
      last one. */
  function InsertFrom(h: Heap, a: nat, w: string): (r: Heap)
    requires Closed(h) && a < |h| && CharTrie.IsWord(w)
    ensures Closed(r) && |h| <= |r|
    decreases |w|
  {
    if |w| == 0 then h[a := h[a].(wordEnd := true)]
    else
      var i := CharTrie.Index(w[0]);
      match h[a].children[i]
      case Some(c) => InsertFrom(h, c, w[1..])
      case None =>
        var c := |h|;
        var h' := h + [NewHNode()];
        InsertFrom(SetChild(h', a, i, Some(c)), c, w[1..])
  }

  /** `insert(key)`. */
  function Insert(h: Heap, w: string): (r: Heap)
    requires Closed(h) && CharTrie.IsWord(w)
    ensures Closed(r)
  {
    InsertFrom(h, Root, w)
  }

  /** The walk of `containsKey` from address a; None on a missing edge. */
  function Walk(h: Heap, a: nat, w: string): (r: Option<nat>)
    requires Closed(h) && a < |h| && CharTrie.IsWord(w)
    ensures r.Some? ==> r.value < |h|
    decreases |w|
  {
    if |w| == 0 then Some(a)
    else
      match h[a].children[CharTrie.Index(w[0])]
      case None => None
      case Some(c) => Walk(h, c, w[1..])
  }

  /** `containsKey(key)`. */
  predicate ContainsKey(h: Heap, w: string)
    requires Closed(h) && CharTrie.IsWord(w)
  {
    match Walk(h, Root, w)
    case None => false
    case Some(a) => h[a].wordEnd
  }

  /** `isPrefix(node)`: some slot is occupied. */
  predicate HasChild(n: HNode)
  {
    exists i | 0 <= i < |n.children| :: n.children[i].Some?
  }

  /** `isEmpty()`. */
  predicate IsEmpty(h: Heap)
    requires Closed(h)
  {
    !HasChild(h[Root])
  }

  /** `removeUtil(node, key, depth)` as written: the heap after its in-place
      changes, and the reference it returns. At the end of the key it
      clears the flag and returns the root; the assignment `node = null`
      there changes a local variable only. Above the end it stores the
      recursive result in the slot, and returns null when the node is left
      with no child and no flag. */
  function RemoveUtil(h: Heap, o: Option<nat>, key: string, depth: nat): (r: (Heap, Option<nat>))
    requires Closed(h) && CharTrie.IsWord(key) && depth <= |key|
    requires o.Some? ==> o.value < |h|
    ensures Closed(r.0) && |r.0| == |h| && (r.1.Some? ==> r.1.value < |h|)
    ensures o.Some? && depth == |key| ==> r.1 == Some(Root)
    ensures o.None? ==> r == (h, None)
    decreases |key| - depth
  {
    match o
    case None => (h, None)
    case Some(a) =>
      if depth == |key| then
        (h[a := h[a].(wordEnd := false)], Some(Root))
      else
        var i := CharTrie.Index(key[depth]);
        var (h1, c) := RemoveUtil(h, h[a].children[i], key, depth + 1);
        var h2 := SetChild(h1, a, i, c);
        if !HasChild(h2[a]) && !h2[a].wordEnd then (h2, None) else (h2, Some(a))
  }

  /** `remove(key)`: the reference `removeUtil` returns for the root is
      discarded. */
  function Remove(h: Heap, key: string): (r: Heap)
    requires Closed(h) && CharTrie.IsWord(key)
    ensures Closed(r) && |r| == |h|
  {
    if !IsEmpty(h) && ContainsKey(h, key) then RemoveUtil(h, Some(Root), key, 0).0 else h
  }

  /** The heap after inserting "a" and "b" into a new trie: the root, the
      node for "a" and the node for "b". */
  lemma InsertAB()
    ensures var h := Insert(Insert(NewHeap(), "a"), "b");
      && |h| == 3
      && h[Root].children[0] == Some(1) && h[Root].children[1] == Some(2)
      && h[1].wordEnd && h[1].children[1].None? && h[2].wordEnd
  {
    var h1 := Insert(NewHeap(), "a");
    assert h1[Root].children[0] == Some(1) && h1[Root].children[1].None?;
    assert h1[1].wordEnd && h1[1].children[1].None?;
  }

  /** Insert "a" and "b", then remove "a": the slot for 'a' at the root now
      refers to the root itself, so containsKey("ab") holds although "ab"
      was never inserted. */
  lemma PhantomWord()
    ensures var h := Insert(Insert(NewHeap(), "a"), "b");
      !ContainsKey(h, "ab") && ContainsKey(Remove(h, "a"), "ab")
  {
    var h := Insert(Insert(NewHeap(), "a"), "b");
    InsertAB();
    assert HasChild(h[Root]);
    assert ContainsKey(h, "a");
    var r := RemoveUtil(h, Some(1), "a", 1);
    assert r.1 == Some(Root) && r.0[2] == h[2];
    var h' := Remove(h, "a");
    assert h' == SetChild(r.0, Root, 0, Some(Root));
    assert Walk(h', Root, "ab") == Some(2);
  }

  /** The heap after inserting "a" and "ab" into a new trie. */
  lemma InsertAAB()
    ensures var h := Insert(Insert(NewHeap(), "a"), "ab");
      && |h| == 3
      && h[Root].children[0] == Some(1)
      && h[1].wordEnd && h[1].children[1] == Some(2) && h[2].wordEnd
  {
    var h1 := Insert(NewHeap(), "a");
    assert h1[Root].children[0] == Some(1);
    assert h1[1].wordEnd && h1[1].children[1].None?;
  }

  /** Insert "a" and "ab", then remove "a": the slot for 'a' at the root is
      overwritten with the root, and the node path of "ab" is lost. */
  lemma LostWord()
    ensures var h := Insert(Insert(NewHeap(), "a"), "ab");
      ContainsKey(h, "ab") && !ContainsKey(Remove(h, "a"), "ab")
  {
    var h := Insert(Insert(NewHeap(), "a"), "ab");
    InsertAAB();
    assert Walk(h, Root, "ab") == Some(2);
    assert HasChild(h[Root]);
    assert ContainsKey(h, "a");
    var r := RemoveUtil(h, Some(1), "a", 1);
    assert r.1 == Some(Root) && r.0[Root] == h[Root];
    var h' := Remove(h, "a");
    assert h' == SetChild(r.0, Root, 0, Some(Root));
    assert h'[Root].children[1].None?;
    assert Walk(h', Root, "ab").None?;
  }
}
