/** The word trie of CharTrie.java: a 26-way prefix tree over the letters
    'a'..'z', one level per character, in which a node is flagged when an
    inserted word ends there.

    The Java class mutates nodes in place. Here every operation is a pure
    function that returns the new tree, and the child slot that Java
    reassigns (`node.children[index] = removeUtil(...)`) is rebuilt with a
    sequence update. The abstraction `Words` maps a tree to the set of words
    it stores; the operations are proved against it. */
module CharTrie {
  import opened Wrappers

  /** ALPHABET_SIZE: one child slot per lowercase letter. */
  const AlphabetSize: nat := 26

  /** A trie node (`TrieNode`): one optional child per letter and the
      `wordEnd` flag, true iff some inserted word ends exactly here. */
  datatype Node = Node(children: seq<Option<Node>>, wordEnd: bool)

  /** A word trie owns its root node. */
  datatype Trie = Trie(root: Node)

  predicate IsLetter(c: char)
  {
    'a' <= c <= 'z'
  }

  /** The keys the Java code can index without going out of bounds. */
  predicate IsWord(w: string)
  {
    forall i | 0 <= i < |w| :: IsLetter(w[i])
  }

  /** The child slot of a letter, `key.charAt(level) - 'a'`. */
  function Index(c: char): (i: nat)
    requires IsLetter(c)
    ensures i < AlphabetSize
  {
    (c as int) - ('a' as int)
  }

  /** The letter whose child slot is `i`. */
  function Letter(i: nat): (c: char)
    requires i < AlphabetSize
    ensures IsLetter(c) && Index(c) == i
  {
    (('a' as int) + i) as char
  }

  /** Every node of the tree has exactly ALPHABET_SIZE child slots, as the
      array `new TrieNode[ALPHABET_SIZE]` does. */
  predicate Valid(n: Node)
  {
    && |n.children| == AlphabetSize
    && forall i | 0 <= i < |n.children| :: n.children[i].Some? ==> Valid(n.children[i].value)
  }

  /** `new TrieNode()`: every slot empty, not a word end. */
  function NewNode(): (n: Node)
    ensures Valid(n) && !n.wordEnd
    ensures forall i | 0 <= i < |n.children| :: n.children[i].None?
  {
    Node(seq(AlphabetSize, _ => None), false)
  }

  /** `new CharTrie()`: a trie holding a fresh root. */
  function Empty(): (t: Trie)
    ensures Valid(t.root) && IsEmpty(t) && !t.root.wordEnd
  {
    Trie(NewNode())
  }

  /** The slot scan of `isPrefix`: is any slot from `from` onward occupied? */
  function OccupiedFrom(cs: seq<Option<Node>>, from: nat): (r: bool)
    requires from <= |cs|
    ensures r <==> exists i | from <= i < |cs| :: cs[i].Some?
    decreases |cs| - from
  {
    if from == |cs| then false
    else if cs[from].Some? then true
    else OccupiedFrom(cs, from + 1)
  }

  /** `isPrefix(node)`: the node leads to at least one longer word. */
  predicate IsPrefix(n: Node)
    ensures IsPrefix(n) <==> exists i | 0 <= i < |n.children| :: n.children[i].Some?
  {
    OccupiedFrom(n.children, 0)
  }

  /** `isEmpty()`: the root has no child at all. It does not look at the
      root's own `wordEnd`, so a trie holding only the empty word is empty. */
  predicate IsEmpty(t: Trie)
    ensures IsEmpty(t) <==> forall i | 0 <= i < |t.root.children| :: t.root.children[i].None?
  {
    !OccupiedFrom(t.root.children, 0)
  }

  /** The walk of `containsKey`: the node reached by following `w` from `n`
      one letter at a time, or None as soon as a required edge is missing. */
  function Find(n: Node, w: string): (r: Option<Node>)
    requires Valid(n) && IsWord(w)
    ensures r.Some? ==> Valid(r.value)
    ensures |w| == 0 ==> r == Some(n)
    decreases |w|
  {
    if |w| == 0 then Some(n)
    else
      match n.children[Index(w[0])]
      case None => None
      case Some(c) => Find(c, w[1..])
  }

  /** `containsKey(key)`: the walk succeeds and ends on a word end. Only
      the empty word can be contained in an empty trie. */
  predicate ContainsKey(t: Trie, w: string)
    requires Valid(t.root) && IsWord(w)
    ensures ContainsKey(t, w) && |w| > 0 ==> !IsEmpty(t)
  {
    match Find(t.root, w)
    case None => false
    case Some(m) => m.wordEnd
  }

  /** The path-extending step of `insert`: follow `w`, creating a fresh node
      for every missing edge, and set `wordEnd` on the last node. Afterwards
      the walk for `w` succeeds and ends on a word end. */
  function InsertAt(n: Node, w: string): (r: Node)
    requires Valid(n) && IsWord(w)
    ensures Valid(r)
    ensures Find(r, w).Some? && Find(r, w).value.wordEnd
    decreases |w|
  {
    if |w| == 0 then n.(wordEnd := true)
    else
      var i := Index(w[0]);
      var c := match n.children[i] case Some(c) => c case None => NewNode();
      n.(children := n.children[i := Some(InsertAt(c, w[1..]))])
  }

  /** `insert(key)`. */
  function Insert(t: Trie, w: string): (r: Trie)
    requires Valid(t.root) && IsWord(w)
    ensures Valid(r.root)
  {
    Trie(InsertAt(t.root, w))
  }

  /** A node worth keeping: it ends a word or leads to one. */
  predicate Live(n: Node)
  {
    n.wordEnd || IsPrefix(n)
  }

  /** What `removeUtil` does to a node that exists, before deciding whether
      the node itself is dropped: at the end of the key it clears `wordEnd`
      (lines 143-147); above it, it reinstalls the child slot of the next
      letter with the result of the recursive call (lines 157-158). The
      remaining key `w` stands for the Java pair (key, depth). Afterwards
      the walk for `w` no longer ends on a word end. */
  function RemoveAt(n: Node, w: string): (r: Node)
    requires Valid(n) && IsWord(w)
    ensures Valid(r)
    ensures |w| == 0 ==> !r.wordEnd
    ensures Find(r, w).Some? ==> !Find(r, w).value.wordEnd
    decreases |w|, 0
  {
    if |w| == 0 then n.(wordEnd := false)
    else
      var i := Index(w[0]);
      n.(children := n.children[i := RemoveUtil(n.children[i], w[1..])])
  }

  /** `removeUtil(node, key, depth)`: returns the subtree to install in the
      parent's slot, None when the node is dropped. At the end of the key the
      node is dropped when it has no child (lines 149-151); above it, when it
      has no child and does not end a word (lines 161-163). Line 153 of the
      Java source returns `root` instead of `node`, which in Java re-points
      the parent's slot at the trie root; this model returns the node, as the
      method's documented "@return modified node" and lines 149-150 intend.
      `CharTrieAsWritten.RemoveUtil` models line 153 as written. */
  function RemoveUtil(o: Option<Node>, w: string): (r: Option<Node>)
    requires o.Some? ==> Valid(o.value)
    requires IsWord(w)
    ensures r.Some? ==> Valid(r.value) && Live(r.value)
    decreases |w|, 1
  {
    match o
    case None => None
    case Some(n) =>
      var m := RemoveAt(n, w);
      if |w| == 0 then
        if !IsPrefix(m) then None else Some(m)
      else
        if !IsPrefix(m) && !m.wordEnd then None else Some(m)
  }

  /** `remove(key)`: only when the trie is not empty and holds the word.
      Java discards the value `removeUtil(root, key, 0)` returns but keeps the
      changes made to the root in place, so the root is never dropped. */
  function Remove(t: Trie, w: string): (r: Trie)
    requires Valid(t.root) && IsWord(w)
    ensures Valid(r.root)
  {
    if !IsEmpty(t) && ContainsKey(t, w) then Trie(RemoveAt(t.root, w)) else t
  }
}
