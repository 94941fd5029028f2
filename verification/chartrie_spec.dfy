/** What the word trie means: the set of words it stores, the pruning
    invariant that `removeUtil` maintains, and the theorems connecting
    `insert`, `containsKey`, `isEmpty` and `remove` to that set. */
module CharTrieSpec {
  import opened Wrappers
  import opened CharTrie

  /** The words stored below `n`: the empty word when `n` is a word end, and
      every word of the child in slot i with Letter(i) put in front. */
  ghost function Words(n: Node): (r: set<string>)
    requires Valid(n)
    decreases n, 1
  {
    (if n.wordEnd then {[]} else {}) + WordsFrom(n, 0)
  }

  /** The words reached through the child slots i, i+1, ..., 25 of `n`. */
  ghost function WordsFrom(n: Node, i: nat): (r: set<string>)
    requires Valid(n) && i <= AlphabetSize
    decreases n, 0, AlphabetSize - i
  {
    if i == AlphabetSize then {}
    else
      var rest := WordsFrom(n, i + 1);
      match n.children[i]
      case None => rest
      case Some(c) => (set v | v in Words(c) :: [Letter(i)] + v) + rest
  }

  /** The words below an optional child slot. */
  ghost function OptWords(o: Option<Node>): (r: set<string>)
    requires o.Some? ==> Valid(o.value)
  {
    match o
    case None => {}
    case Some(n) => Words(n)
  }

  /** The pruning invariant: below the root, every node ends a word or
      leads to one. The root itself is exempt, since it is never dropped. */
  ghost predicate Pruned(n: Node)
    requires Valid(n)
    decreases n
  {
    forall i | 0 <= i < |n.children| ::
      n.children[i].Some? ==> Live(n.children[i].value) && Pruned(n.children[i].value)
  }

  lemma LetterIndex(c: char)
    requires IsLetter(c)
    ensures Letter(Index(c)) == c
  {
  }

  lemma WordsFromMember(n: Node, i: nat, w: string)
    requires Valid(n) && i <= AlphabetSize
    ensures w in WordsFrom(n, i) <==>
      && |w| > 0 && IsLetter(w[0]) && i <= Index(w[0])
      && n.children[Index(w[0])].Some? && w[1..] in Words(n.children[Index(w[0])].value)
    decreases AlphabetSize - i
  {
    if i < AlphabetSize {
      WordsFromMember(n, i + 1, w);
      if |w| > 0 {
        assert w == [w[0]] + w[1..];
        if IsLetter(w[0]) {
          LetterIndex(w[0]);
        }
      }
    }
  }

  /** Membership in `Words`, one level at a time. */
  lemma WordsMember(n: Node, w: string)
    requires Valid(n)
    ensures w in Words(n) <==>
      if |w| == 0 then n.wordEnd
      else IsLetter(w[0]) && n.children[Index(w[0])].Some? && w[1..] in Words(n.children[Index(w[0])].value)
  {
    WordsFromMember(n, 0, w);
  }

  /** Two non-empty words that start with the same letter are equal iff
      their tails are. */
  lemma SameHead(v: string, w: string)
    requires |v| > 0 && |w| > 0 && IsLetter(v[0]) && IsLetter(w[0]) && Index(v[0]) == Index(w[0])
    ensures v == w <==> v[1..] == w[1..]
  {
    LetterIndex(v[0]);
    LetterIndex(w[0]);
    if v[1..] == w[1..] {
      assert v == [v[0]] + v[1..];
      assert w == [w[0]] + w[1..];
    }
  }

  /** Only lowercase words are ever stored. */
  lemma {:induction false} WordsAreWords(n: Node, w: string)
    requires Valid(n) && w in Words(n)
    ensures IsWord(w)
    decreases |w|
  {
    WordsMember(n, w);
    if |w| > 0 {
      WordsAreWords(n.children[Index(w[0])].value, w[1..]);
      assert forall i | 1 <= i < |w| :: w[i] == w[1..][i - 1];
    }
  }

  /** A node that neither ends a word nor has a child stores nothing. */
  lemma DeadWords(n: Node)
    requires Valid(n) && !Live(n)
    ensures Words(n) == {}
  {
    forall v | v in Words(n)
      ensures false
    {
      WordsMember(n, v);
    }
  }

  /** A node kept by the pruning invariant stores at least one word. */
  lemma {:induction false} LiveWords(n: Node)
    requires Valid(n) && Live(n) && Pruned(n)
    ensures Words(n) != {}
    decreases n
  {
    if n.wordEnd {
      WordsMember(n, []);
    } else {
      var i :| 0 <= i < |n.children| && n.children[i].Some?;
      var c := n.children[i].value;
      LiveWords(c);
      var v :| v in Words(c);
      var w := [Letter(i)] + v;
      assert w[1..] == v;
      WordsMember(n, w);
    }
  }

  /** containsKey agrees with the abstraction: it follows the path and
      reports the word-end flag of the node reached, which is exactly
      membership in `Words`. A missing edge and a prefix node that is not a
      word end both answer false. */
  lemma {:induction false} FindWords(n: Node, w: string)
    requires Valid(n) && IsWord(w)
    ensures w in Words(n) <==> Find(n, w).Some? && Find(n, w).value.wordEnd
    decreases |w|
  {
    WordsMember(n, w);
    if |w| > 0 {
      match n.children[Index(w[0])]
      case None =>
      case Some(c) => FindWords(c, w[1..]);
    }
  }

  lemma ContainsKeyWords(t: Trie, w: string)
    requires Valid(t.root) && IsWord(w)
    ensures ContainsKey(t, w) <==> w in Words(t.root)
  {
    FindWords(t.root, w);
  }

  /** Following a word is following its prefix, then the rest: a missing
      edge anywhere on the prefix makes the whole walk fail. */
  lemma {:induction false} FindConcat(n: Node, p: string, s: string)
    requires Valid(n) && IsWord(p) && IsWord(s)
    ensures IsWord(p + s)
    ensures Find(n, p + s) == (match Find(n, p) case None => None case Some(m) => Find(m, s))
    decreases |p|
  {
    assert forall i | 0 <= i < |p + s| :: (p + s)[i] == if i < |p| then p[i] else s[i - |p|];
    if |p| > 0 {
      assert (p + s)[0] == p[0];
      assert (p + s)[1..] == p[1..] + s;
      match n.children[Index(p[0])]
      case None =>
      case Some(c) => FindConcat(c, p[1..], s);
    } else {
      assert p + s == s;
    }
  }

  lemma NewNodeWords()
    ensures Words(NewNode()) == {}
    ensures Pruned(NewNode())
  {
    DeadWords(NewNode());
  }

  /** A new trie is empty and stores no word. */
  lemma EmptyTrie()
    ensures Words(Empty().root) == {} && Pruned(Empty().root) && IsEmpty(Empty())
  {
    NewNodeWords();
  }

  /** The root has no child iff no non-empty word is stored (the second
      direction needs the pruning invariant). */
  lemma EmptinessWords(t: Trie)
    requires Valid(t.root)
    ensures IsEmpty(t) ==> Words(t.root) <= {[]}
    ensures Pruned(t.root) && Words(t.root) <= {[]} ==> IsEmpty(t)
  {
    if IsEmpty(t) {
      forall v | v in Words(t.root)
        ensures v == []
      {
        WordsMember(t.root, v);
      }
    }
    if Pruned(t.root) && !IsEmpty(t) {
      var i :| 0 <= i < |t.root.children| && t.root.children[i].Some?;
      var c := t.root.children[i].value;
      LiveWords(c);
      var v :| v in Words(c);
      var w := [Letter(i)] + v;
      assert w[1..] == v;
      WordsMember(t.root, w);
    }
  }

  /** insert adds exactly its word: every word stored before stays stored
      (no flag is cleared, no node dropped) and nothing else appears. */
  lemma {:induction false} InsertAtWords(n: Node, w: string)
    requires Valid(n) && IsWord(w)
    ensures Words(InsertAt(n, w)) == Words(n) + {w}
    decreases |w|
  {
    var r := InsertAt(n, w);
    if |w| == 0 {
      forall v
        ensures v in Words(r) <==> v in Words(n) + {w}
      {
        WordsMember(r, v);
        WordsMember(n, v);
      }
    } else {
      var i := Index(w[0]);
      var c := match n.children[i] case Some(c) => c case None => NewNode();
      InsertAtWords(c, w[1..]);
      NewNodeWords();
      forall v
        ensures v in Words(r) <==> v in Words(n) + {w}
      {
        WordsMember(r, v);
        WordsMember(n, v);
        if |v| > 0 && IsLetter(v[0]) && Index(v[0]) == i {
          SameHead(v, w);
        }
      }
    }
  }

  lemma InsertWords(t: Trie, w: string)
    requires Valid(t.root) && IsWord(w)
    ensures Words(Insert(t, w).root) == Words(t.root) + {w}
    ensures ContainsKey(Insert(t, w), w)
    ensures forall v | IsWord(v) && ContainsKey(t, v) :: ContainsKey(Insert(t, w), v)
  {
    InsertAtWords(t.root, w);
    ContainsKeyWords(Insert(t, w), w);
    forall v | IsWord(v) && ContainsKey(t, v)
      ensures ContainsKey(Insert(t, w), v)
    {
      ContainsKeyWords(t, v);
      ContainsKeyWords(Insert(t, w), v);
    }
  }

  /** Inserting a word twice builds the same tree as inserting it once. */
  lemma {:induction false} InsertAtIdempotent(n: Node, w: string)
    requires Valid(n) && IsWord(w)
    ensures InsertAt(InsertAt(n, w), w) == InsertAt(n, w)
    decreases |w|
  {
    if |w| > 0 {
      var i := Index(w[0]);
      var c := match n.children[i] case Some(c) => c case None => NewNode();
      InsertAtIdempotent(c, w[1..]);
      var r := InsertAt(n, w);
      assert r.children[i := r.children[i]] == r.children;
    }
  }

  lemma InsertIdempotent(t: Trie, w: string)
    requires Valid(t.root) && IsWord(w)
    ensures Insert(Insert(t, w), w) == Insert(t, w)
  {
    InsertAtIdempotent(t.root, w);
  }

  /** insert only adds nodes that lie on the inserted path, so it keeps the
      pruning invariant, and the node it returns is live. */
  lemma {:induction false} InsertAtPruned(n: Node, w: string)
    requires Valid(n) && Pruned(n) && IsWord(w)
    ensures Pruned(InsertAt(n, w)) && Live(InsertAt(n, w))
    decreases |w|
  {
    var r := InsertAt(n, w);
    if |w| > 0 {
      var i := Index(w[0]);
      var c := match n.children[i] case Some(c) => c case None => NewNode();
      NewNodeWords();
      InsertAtPruned(c, w[1..]);
      assert r.children[i].Some?;
    }
  }

  lemma InsertPruned(t: Trie, w: string)
    requires Valid(t.root) && Pruned(t.root) && IsWord(w)
    ensures Pruned(Insert(t, w).root)
  {
    InsertAtPruned(t.root, w);
  }

  /** Inserting the empty word flags the root but adds no child, so
      containsKey("") becomes true while isEmpty() does not change. */
  lemma InsertEmptyWord(t: Trie)
    requires Valid(t.root)
    ensures ContainsKey(Insert(t, []), [])
    ensures IsEmpty(Insert(t, [])) == IsEmpty(t)
  {
  }

  /** The clear-and-prune pass removes exactly its word: pruning only drops
      nodes that store nothing, so every other word survives. */
  /** Replacing the slot of w's first letter with a subtree that stores
      the old subtree's words except w's tail removes exactly w. */
  lemma ReplaceSlotWords(n: Node, o': Option<Node>, w: string, v: string)
    requires Valid(n) && IsWord(w) && |w| > 0
    requires o'.Some? ==> Valid(o'.value)
    requires OptWords(o') == OptWords(n.children[Index(w[0])]) - {w[1..]}
    ensures Valid(n.(children := n.children[Index(w[0]) := o']))
    ensures v in Words(n.(children := n.children[Index(w[0]) := o'])) <==> v in Words(n) - {w}
  {
    var i := Index(w[0]);
    var r := n.(children := n.children[i := o']);
    WordsMember(r, v);
    WordsMember(n, v);
    if |v| > 0 && IsLetter(v[0]) {
      if Index(v[0]) == i {
        SameHead(v, w);
        assert r.children[i] == o';
        assert v[1..] in OptWords(o') <==> v[1..] in OptWords(n.children[i]) && v[1..] != w[1..];
      } else {
        assert v[0] != w[0];
      }
    }
  }

  lemma {:induction false} RemoveAtWords(n: Node, w: string)
    requires Valid(n) && IsWord(w)
    ensures Words(RemoveAt(n, w)) == Words(n) - {w}
    decreases |w|
  {
    var r := RemoveAt(n, w);
    if |w| == 0 {
      forall v
        ensures v in Words(r) <==> v in Words(n) - {w}
      {
        WordsMember(r, v);
        WordsMember(n, v);
      }
    } else {
      var i := Index(w[0]);
      var o := n.children[i];
      var o' := RemoveUtil(o, w[1..]);
      assert r.children[i] == o';
      if o.Some? {
        RemoveAtWords(o.value, w[1..]);
        var m := RemoveAt(o.value, w[1..]);
        if o'.Some? {
          assert o'.value == m;
        } else {
          DeadWords(m);
        }
      }
      assert OptWords(o') == OptWords(o) - {w[1..]};
      forall v
        ensures v in Words(r) <==> v in Words(n) - {w}
      {
        ReplaceSlotWords(n, o', w, v);
      }
    }
  }

  /** remove deletes its word and keeps every other one, except that a trie
      whose root has no child is never touched: the empty word stored alone
      cannot be removed. */
  lemma RemoveWords(t: Trie, w: string)
    requires Valid(t.root) && IsWord(w)
    ensures Words(Remove(t, w).root) ==
      if IsEmpty(t) && w == [] then Words(t.root) else Words(t.root) - {w}
    ensures !(IsEmpty(t) && w == []) ==> !ContainsKey(Remove(t, w), w)
    ensures forall v | IsWord(v) && v != w :: ContainsKey(Remove(t, w), v) == ContainsKey(t, v)
  {
    ContainsKeyWords(t, w);
    EmptinessWords(t);
    if !IsEmpty(t) && ContainsKey(t, w) {
      RemoveAtWords(t.root, w);
    }
    ContainsKeyWords(Remove(t, w), w);
    forall v | IsWord(v) && v != w
      ensures ContainsKey(Remove(t, w), v) == ContainsKey(t, v)
    {
      ContainsKeyWords(t, v);
      ContainsKeyWords(Remove(t, w), v);
    }
  }

  /** The pass drops every node left without a child and without a word
      end, so the pruning invariant holds again afterwards. */
  lemma {:induction false} RemoveAtPruned(n: Node, w: string)
    requires Valid(n) && Pruned(n) && IsWord(w)
    ensures Pruned(RemoveAt(n, w))
    decreases |w|
  {
    if |w| > 0 {
      var i := Index(w[0]);
      var o := n.children[i];
      if o.Some? {
        RemoveAtPruned(o.value, w[1..]);
      }
    }
  }

  lemma RemovePruned(t: Trie, w: string)
    requires Valid(t.root) && Pruned(t.root) && IsWord(w)
    ensures Pruned(Remove(t, w).root)
  {
    if !IsEmpty(t) && ContainsKey(t, w) {
      RemoveAtPruned(t.root, w);
    }
  }

  /** In a pruned trie that stores only the empty word the root has no
      child, so remove("") is skipped and the word stays. */
  lemma EmptyWordStuck(t: Trie)
    requires Valid(t.root) && Pruned(t.root) && Words(t.root) == {[]}
    ensures IsEmpty(t) && ContainsKey(t, [])
    ensures Remove(t, []) == t && ContainsKey(Remove(t, []), [])
  {
    EmptinessWords(t);
    ContainsKeyWords(t, []);
  }

  /** A pruned tree is determined by the words it stores. */
  lemma {:induction false} Canonical(a: Node, b: Node)
    requires Valid(a) && Valid(b) && Pruned(a) && Pruned(b)
    requires Words(a) == Words(b)
    ensures a == b
    decreases a
  {
    WordsMember(a, []);
    WordsMember(b, []);
    forall i | 0 <= i < AlphabetSize
      ensures a.children[i] == b.children[i]
    {
      if a.children[i].Some? {
        SlotsAgree(a, b, i);
      }
      if b.children[i].Some? {
        SlotsAgree(b, a, i);
      }
      if a.children[i].Some? {
        var ca := a.children[i].value;
        var cb := b.children[i].value;
        forall v
          ensures v in Words(ca) <==> v in Words(cb)
        {
          var w := [Letter(i)] + v;
          assert w[1..] == v;
          WordsMember(a, w);
          WordsMember(b, w);
        }
        Canonical(ca, cb);
      }
    }
    assert a.children == b.children;
  }

  /** An occupied slot of a pruned tree forces the same slot to be occupied
      in any pruned tree storing the same words. */
  lemma SlotsAgree(a: Node, b: Node, i: nat)
    requires Valid(a) && Valid(b) && Pruned(a) && Words(a) == Words(b)
    requires i < AlphabetSize && a.children[i].Some?
    ensures b.children[i].Some?
  {
    var ca := a.children[i].value;
    LiveWords(ca);
    var v :| v in Words(ca);
    var w := [Letter(i)] + v;
    assert w[1..] == v;
    WordsMember(a, w);
    WordsMember(b, w);
  }

  /** Removing a word just inserted into a pruned trie gives back the very
      same trie, unless that word is the empty word and the root has no
      child (then remove is skipped). */
  lemma RemoveInsert(t: Trie, w: string)
    requires Valid(t.root) && Pruned(t.root) && IsWord(w)
    requires w !in Words(t.root)
    requires w != [] || !IsEmpty(t)
    ensures Remove(Insert(t, w), w) == t
  {
    var t1 := Insert(t, w);
    InsertWords(t, w);
    InsertPruned(t, w);
    RemoveWords(t1, w);
    RemovePruned(t1, w);
    Canonical(Remove(t1, w).root, t.root);
  }
}
