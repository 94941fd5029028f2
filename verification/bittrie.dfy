/** The binary key trie of BitTrie.java: a 2-way prefix tree of fixed depth
    32 whose path for a key is the sequence of bits 31, 30, ..., 0 as
    `Bits.CurrentBit` reads them. Internal nodes carry the sentinel value -1;
    the node at the end of a path (depth 32) carries the key last inserted
    along it; the root is built with value 0.

    As for the word trie, every operation is a pure function that returns
    the new tree. Levels are numbered like the Java loop index and the
    `bit_size` argument of `removeUtil`: the root is examined at bit 31, its
    children at bit 30, and the nodes at depth 32 sit at level -1. */
module BitTrie {
  import opened Wrappers
  import opened Bits

  /** BIT_SIZE: the first bit examined, at the root. */
  const BitSize: int := 31

  /** A trie node (`TrieNode`): its value and the children `child[0]` and
      `child[1]`. */
  datatype Node = Node(value: int, zero: Option<Node>, one: Option<Node>)

  /** A binary trie owns its root node. */
  datatype Trie = Trie(root: Node)

  /** `new TrieNode()`: sentinel value, no child. */
  function NewNode(): (n: Node)
    ensures n.value == -1 && Childless(n)
  {
    Node(-1, None, None)
  }

  /** `new TrieNode(x)`: value x, no child. */
  function NodeOf(x: int): (n: Node)
    ensures n.value == x && Childless(n)
  {
    Node(x, None, None)
  }

  /** `new BitTrie()`: the root is built with value 0 and no child. */
  function Empty(): (t: Trie)
    ensures IsEmpty(t) && t.root.value == 0
  {
    Trie(NodeOf(0))
  }

  /** `child[bit]`. */
  function Child(n: Node, bit: nat): (r: Option<Node>)
    requires bit < 2
  {
    if bit == 0 then n.zero else n.one
  }

  /** The node with `child[bit]` reassigned and nothing else changed. */
  function WithChild(n: Node, bit: nat, c: Option<Node>): (r: Node)
    requires bit < 2
    ensures Child(r, bit) == c && Child(r, 1 - bit) == Child(n, 1 - bit)
    ensures r.value == n.value
  {
    if bit == 0 then n.(zero := c) else n.(one := c)
  }

  predicate Childless(n: Node)
  {
    n.zero.None? && n.one.None?
  }

  /** `isEmpty()`: the root has neither child, so no key is contained. */
  predicate IsEmpty(t: Trie)
    ensures IsEmpty(t) ==> forall k | IsInt32(k) :: !ContainsKey(t, k)
  {
    Childless(t.root)
  }

  /** The walk shared by `insert` and `containsKey`: from the node examined
      at bit b, follow the key's bits b, b-1, ..., 0, and return the node at
      the end of the path, or None as soon as a required child is missing. */
  function Find(n: Node, key: int, b: int): (r: Option<Node>)
    requires IsInt32(key) && -1 <= b <= BitSize
    ensures b == -1 ==> r == Some(n)
    ensures b >= 0 && r.Some? ==> !Childless(n)
    decreases b + 1
  {
    if b == -1 then Some(n)
    else
      match Child(n, CurrentBit(key, b))
      case None => None
      case Some(c) => Find(c, key, b - 1)
  }

  /** `containsKey(key)`: the whole 32-level path exists. The value found at
      its end is not consulted. Since bit 31 always reads 0, the walk leaves
      the root through child[0], so a trie whose root has no child[0]
      contains no key at all. */
  predicate ContainsKey(t: Trie, key: int)
    requires IsInt32(key)
    ensures t.root.zero.None? ==> !ContainsKey(t, key)
  {
    SignBitReadsZero(key);
    Find(t.root, key, BitSize).Some?
  }

  /** The loop of `insert` from the node examined at bit b: create every
      missing child on the key's path with `new TrieNode()` and write the
      key into the node at the end. */
  function InsertAt(n: Node, key: int, b: int): (r: Node)
    requires IsInt32(key) && -1 <= b <= BitSize
    ensures b >= 0 ==> r.value == n.value
    decreases b + 1
  {
    if b == -1 then n.(value := key)
    else
      var bit := CurrentBit(key, b);
      var c := match Child(n, bit) case Some(c) => c case None => NewNode();
      WithChild(n, bit, Some(InsertAt(c, key, b - 1)))
  }

  /** `insert(key)`. */
  function Insert(t: Trie, key: int): (r: Trie)
    requires IsInt32(key)
    ensures r.root.value == t.root.value
  {
    Trie(InsertAt(t.root, key, BitSize))
  }

  /** The condition under which `removeUtil` drops a node at the end of a
      path: it holds the key being removed, or it has no child and holds
      the sentinel. */
  predicate Clearable(leaf: Node, key: int)
  {
    leaf.value == key || (Childless(leaf) && leaf.value == -1)
  }

  /** What `removeUtil` does to an existing node above the end of the path,
      before deciding whether to drop it: reinstall the child on the key's
      path with the result of the recursive call (lines 131-133). */
  function RemoveAt(n: Node, key: int, b: int): (r: Node)
    requires IsInt32(key) && 0 <= b <= BitSize
    ensures r.value == n.value
    decreases b + 1, 0
  {
    var bit := CurrentBit(key, b);
    WithChild(n, bit, RemoveUtil(Child(n, bit), key, b - 1))
  }

  /** `removeUtil(node, key, bit_size)`: the subtree to install in the
      parent's slot, None when the node is dropped. At the end of the path
      the node is dropped when it is clearable (lines 120-128); above it,
      when it is left without a child and holds the sentinel (lines
      135-137). */
  function RemoveUtil(o: Option<Node>, key: int, b: int): (r: Option<Node>)
    requires IsInt32(key) && -1 <= b <= BitSize
    ensures r.Some? ==> o.Some? && r.value.value == o.value.value
    decreases b + 1, 1
  {
    match o
    case None => None
    case Some(n) =>
      if b == -1 then
        if n.value == key then None
        else if Childless(n) && n.value == -1 then None
        else Some(n)
      else
        var m := RemoveAt(n, key, b);
        if Childless(m) && m.value == -1 then None else Some(m)
  }

  /** `remove(key)`: only when the trie is not empty and contains the key.
      Java discards the value `removeUtil(root, key, BIT_SIZE)` returns and
      keeps the changes made to the root in place. */
  function Remove(t: Trie, key: int): (r: Trie)
    requires IsInt32(key)
    ensures r.root.value == t.root.value
  {
    if !IsEmpty(t) && ContainsKey(t, key) then Trie(RemoveAt(t.root, key, BitSize)) else t
  }
}
