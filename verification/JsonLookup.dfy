/** Lookups that walk the flat token array of an accepted document. */
module JsonLookup {
  import opened JsonSyntax
  import opened JsonGrammar
  import opened JsonLayout

  /** The index that child `i` of the node at `obj` has in the token array. */
  function KidIndex(n: Tree, obj: nat, i: nat): nat
    requires i <= |n.kids|
  {
    obj + 1 + SizeAll(n.kids[..i])
  }

  function Members(n: Tree): nat {
    |n.kids| / 2
  }

  /** The raw bytes of the key of member `m`. */
  function Key(json: bytes, n: Tree, m: nat): bytes
    requires Grammar(json, n) && n.kind == Object && m < Members(n)
  {
    KeySpan(json, n, m);
    json[n.kids[2 * m].start..n.kids[2 * m].end]
  }

  lemma KeySpan(json: bytes, n: Tree, m: nat)
    requires Grammar(json, n) && n.kind == Object && m < Members(n)
    ensures 2 * m < |n.kids| && n.kids[2 * m].start <= n.kids[2 * m].end <= |json|
  {
    hide StringBody, IsPrimitive, Gaps, Blank;
  }

  ghost predicate Parsed(json: bytes, tokens: seq<Token>, t: Tree) {
    Grammar(json, t) && tokens == Flatten(t, -1, 0)
  }

  /** The array that `ParseJson` fills is one the lookups may walk. */
  lemma ParsedWhenRead(json: bytes, t: Tree)
    requires ReadDocument(json) == Some(t)
    ensures Parsed(json, Flatten(t, -1, 0), t) && Nested(t)
  {
    hide ReadDocument;
    ReaderMatchesGrammar(json, t);
    GrammarNests(json, t);
  }

  /** Token `obj` is an object. */
  ghost predicate ObjectAt(json: bytes, tokens: seq<Token>, t: Tree, obj: int) {
    && Parsed(json, tokens, t) && 0 <= obj < |tokens|
    && tokens[obj].kind == Object
  }

  // Where the children of a node are

  lemma {:induction false} NodeInNode(t: Tree, k: nat, d: nat)
    requires k < Size(t) && d < Size(NodeAt(t, k))
    ensures k + d < Size(t) && NodeAt(t, k + d) == NodeAt(NodeAt(t, k), d)
    decreases t
  {
    hide SizeAll, NodeAtAll;
    if k > 0 { NodeInNodes(t.kids, k - 1, d); }
  }

  lemma {:induction false} NodeInNodes(kids: seq<Tree>, k: nat, d: nat)
    requires k < SizeAll(kids) && d < Size(NodeAtAll(kids, k))
    ensures k + d < SizeAll(kids) && NodeAtAll(kids, k + d) == NodeAt(NodeAtAll(kids, k), d)
    decreases kids
  {
    hide Size, NodeAt;
    var init, last := kids[..|kids| - 1], kids[|kids| - 1];
    if k < SizeAll(init) {
      NodeInNodes(init, k, d);
    } else {
      NodeInNode(last, k - SizeAll(init), d);
    }
  }

  lemma {:induction false} KidAmong(kids: seq<Tree>, i: nat)
    requires i < |kids|
    ensures SizeAll(kids[..i]) < SizeAll(kids) && NodeAtAll(kids, SizeAll(kids[..i])) == kids[i]
    decreases |kids|
  {
    var init := kids[..|kids| - 1];
    if i < |init| {
      KidAmong(init, i);
      assert init[..i] == kids[..i];
    } else {
      assert kids[..i] == init;
    }
  }

  lemma KidSizes(kids: seq<Tree>, i: nat)
    requires i < |kids|
    ensures SizeAll(kids[..i + 1]) == SizeAll(kids[..i]) + Size(kids[i])
  {
    hide Size;
    assert kids[..i + 1][..i] == kids[..i];
  }

  lemma KidNode(t: Tree, obj: nat, i: nat)
    requires obj < Size(t) && i < |NodeAt(t, obj).kids|
    ensures var n, at := NodeAt(t, obj), KidIndex(NodeAt(t, obj), obj, i);
            at < Size(t) && NodeAt(t, at) == n.kids[i] && at + Size(n.kids[i]) == KidIndex(n, obj, i + 1)
  {
    hide SizeAll, NodeAtAll;
    var n := NodeAt(t, obj);
    KidAmong(n.kids, i);
    KidSizes(n.kids, i);
    NodeInNode(t, obj, 1 + SizeAll(n.kids[..i]));
  }

  lemma {:induction false} KidParent(kids: seq<Tree>, parent: int, base: nat, i: nat)
    requires i < |kids|
    ensures SizeAll(kids[..i]) < SizeAll(kids)
    ensures FlattenAll(kids, parent, base)[SizeAll(kids[..i])].parent == parent
    decreases |kids|
  {
    hide Flatten;
    KidAmong(kids, i);
    var init, last := kids[..|kids| - 1], kids[|kids| - 1];
    RootToken(last, parent, base + SizeAll(init));
    if i < |init| {
      KidParent(init, parent, base, i);
      assert init[..i] == kids[..i];
    } else {
      assert kids[..i] == init;
    }
  }

  lemma {:induction false} NodeGrammar(text: bytes, t: Tree, k: nat)
    requires Grammar(text, t) && k < Size(t)
    ensures Grammar(text, NodeAt(t, k))
    decreases t
  {
    hide Frame, SizeAll, Leaf, NodeAtAll;
    if k > 0 {
      assert t.kids != [] by { assert SizeAll(t.kids) > 0; EmptySize(t.kids); }
      LeafChildless(text, t);
      NodesGrammar(text, t.kids, k - 1);
    }
  }

  lemma EmptySize(kids: seq<Tree>)
    ensures kids == [] ==> SizeAll(kids) == 0
  {
  }

  lemma LeafChildless(text: bytes, t: Tree)
    requires Grammar(text, t)
    ensures t.kind in {String, Primitive} ==> t.kids == []
    ensures t.kind !in {String, Primitive} ==> forall i | 0 <= i < |t.kids| :: Grammar(text, t.kids[i])
  {
  }

  lemma {:induction false} NodesGrammar(text: bytes, kids: seq<Tree>, k: nat)
    requires k < SizeAll(kids) && forall i | 0 <= i < |kids| :: Grammar(text, kids[i])
    ensures Grammar(text, NodeAtAll(kids, k))
    decreases kids
  {
    hide Grammar, Size, NodeAt;
    var init, last := kids[..|kids| - 1], kids[|kids| - 1];
    if k < SizeAll(init) {
      NodesGrammar(text, init, k);
    } else {
      NodeGrammar(text, last, k - SizeAll(init));
    }
  }

  /** Everything the walks below read at member `m` of an object, or past its last member. */
  lemma MemberTokens(json: bytes, tokens: seq<Token>, t: Tree, obj: nat, m: nat)
    requires ObjectAt(json, tokens, t, obj) && m <= Members(NodeAt(t, obj))
    ensures var n := NodeAt(t, obj);
            var index := KidIndex(n, obj, 2 * m);
            && Grammar(json, n) && n.kind == Object && obj < index <= |tokens|
            && n.end == tokens[obj].end
            && (m == Members(n) ==> index == |tokens| || tokens[index].start >= n.end)
            && (m < Members(n) ==>
                  && index + 1 < |tokens| && tokens[index].start < n.end
                  && tokens[index].kind == String && tokens[index].parent == obj && tokens[index + 1].parent == obj
                  && 0 <= tokens[index].start <= tokens[index].end <= |json|
                  && json[tokens[index].start..tokens[index].end] == Key(json, n, m)
                  && index + 1 == KidIndex(n, obj, 2 * m + 1)
                  && forall value, next | value == index + 1 && NextIs(tokens, value, next) :: next == KidIndex(n, obj, 2 * m + 2))
  {
    hide Grammar, Flatten, SizeAll, NodeAt, NextIs, KidIndex;
    var n := NodeAt(t, obj);
    NodeGrammar(json, t, obj);
    GrammarNests(json, t);
    NodeToken(t, obj);
    if m == Members(n) {
      PastMembers(json, tokens, t, obj);
    } else {
      KeyToken(json, tokens, t, obj, m);
      ValueToken(json, tokens, t, obj, m);
    }
  }

  lemma ObjectShape(json: bytes, n: Tree)
    requires Grammar(json, n) && n.kind == Object
    ensures |n.kids| == 2 * Members(n)
    ensures forall m | 0 <= m < Members(n) :: n.kids[2 * m].kind == String && Grammar(json, n.kids[2 * m])
  {
    hide Gaps, Blank;
  }

  lemma PastMembers(json: bytes, tokens: seq<Token>, t: Tree, obj: nat)
    requires ObjectAt(json, tokens, t, obj) && Nested(t)
    requires Grammar(json, NodeAt(t, obj)) && NodeAt(t, obj).kind == Object
    ensures var n := NodeAt(t, obj);
            var index := KidIndex(n, obj, 2 * Members(n));
            obj < index <= |tokens| && (index == |tokens| || tokens[index].start >= n.end)
  {
    hide Grammar, Flatten, SizeAll, NodeAt;
    var n := NodeAt(t, obj);
    ObjectShape(json, n);
    assert n.kids[..|n.kids|] == n.kids;
    SubtreeIsContiguous(t, -1, 0, obj);
  }

  lemma KidTokenParent(tokens: seq<Token>, t: Tree, obj: nat, i: nat)
    requires tokens == Flatten(t, -1, 0) && Nested(t) && obj < |tokens| && i < |NodeAt(t, obj).kids|
    ensures KidIndex(NodeAt(t, obj), obj, i) < |tokens|
    ensures tokens[KidIndex(NodeAt(t, obj), obj, i)].parent == obj
  {
    hide NodeAt, FlattenAll, SizeAll, Nested;
    var n := NodeAt(t, obj);
    SubtreeIsContiguous(t, -1, 0, obj);
    KidNode(t, obj, i);
    KidParent(n.kids, obj, obj + 1, i);
    var d := 1 + SizeAll(n.kids[..i]);
    assert tokens[obj + d] == Flatten(n, tokens[obj].parent, obj)[d];
  }

  lemma KeyToken(json: bytes, tokens: seq<Token>, t: Tree, obj: nat, m: nat)
    requires ObjectAt(json, tokens, t, obj) && Nested(t) && m < Members(NodeAt(t, obj))
    requires Grammar(json, NodeAt(t, obj)) && NodeAt(t, obj).kind == Object
    ensures var n := NodeAt(t, obj);
            var index := KidIndex(n, obj, 2 * m);
            && obj < index < |tokens| && tokens[index].start < n.end
            && tokens[index].kind == String && tokens[index].parent == obj
            && 0 <= tokens[index].start <= tokens[index].end <= |json|
            && json[tokens[index].start..tokens[index].end] == Key(json, n, m)
            && index + 1 == KidIndex(n, obj, 2 * m + 1)
  {
    hide Flatten, SizeAll, NodeAt, StringBody, IsPrimitive, Gaps, Blank, Frame;
    var n := NodeAt(t, obj);
    ObjectShape(json, n);
    KidNode(t, obj, 2 * m);
    NodeToken(t, KidIndex(n, obj, 2 * m));
    KidTokenParent(tokens, t, obj, 2 * m);
    EmptySize(n.kids[2 * m].kids);
    GrammarNests(json, n);
  }

  lemma ValueToken(json: bytes, tokens: seq<Token>, t: Tree, obj: nat, m: nat)
    requires ObjectAt(json, tokens, t, obj) && Nested(t) && m < Members(NodeAt(t, obj))
    requires Grammar(json, NodeAt(t, obj)) && NodeAt(t, obj).kind == Object
    ensures var n := NodeAt(t, obj);
            var value := KidIndex(n, obj, 2 * m + 1);
            && value < |tokens| && tokens[value].parent == obj
            && forall next | NextIs(tokens, value, next) :: next == KidIndex(n, obj, 2 * m + 2)
  {
    hide Grammar, Flatten, SizeAll, NodeAt, NextIs;
    var n := NodeAt(t, obj);
    ObjectShape(json, n);
    KidNode(t, obj, 2 * m + 1);
    KidTokenParent(tokens, t, obj, 2 * m + 1);
    forall value, next | value == KidIndex(n, obj, 2 * m + 1) && NextIs(tokens, value, next)
      ensures next == KidIndex(n, obj, 2 * m + 2)
    {
      NextPassesSubtree(t, KidIndex(n, obj, 2 * m + 1), next);
    }
  }

  // The walks

  method TokenNext(tokens: seq<Token>, index: int) returns (next: int)
    ensures if 0 <= index < |tokens| then NextIs(tokens, index, next) else next == |tokens|
  {
    if index < 0 || index >= |tokens| {
      return |tokens|;
    }
    var end := tokens[index].end;
    next := index + 1;
    while next < |tokens| && tokens[next].start < end
      invariant index < next <= |tokens| && forall j | index < j < next :: tokens[j].start < end
    {
      next := next + 1;
    }
  }

  /** The member with raw key `key`: its value's index, -1 when there is none, -2 when it is repeated
      or when `obj` is not an object. */
  method ObjectField(json: bytes, tokens: seq<Token>, obj: int, key: bytes, ghost t: Tree) returns (found: int)
    requires Parsed(json, tokens, t)
    ensures !ObjectAt(json, tokens, t, obj) ==> found == -2
    ensures ObjectAt(json, tokens, t, obj) ==>
              var n := NodeAt(t, obj);
              && Grammar(json, n) && n.kind == Object
              && (found == -1 <==> forall m | 0 <= m < Members(n) :: Key(json, n, m) != key)
              && (found == -2 <==> exists a, b | 0 <= a < b < Members(n) :: Key(json, n, a) == key == Key(json, n, b))
              && (found == -1 || found == -2 ||
                  exists m | 0 <= m < Members(n) :: Key(json, n, m) == key && found == KidIndex(n, obj, 2 * m + 1))
  {
    hide Grammar, Flatten, NodeAt, SizeAll, KidIndex, Key, NextIs;
    if obj < 0 || obj >= |tokens| || tokens[obj].kind != Object {
      return -2;
    }
    ghost var n := NodeAt(t, obj);
    found := -1;
    var index := obj + 1;
    ghost var m := 0;
    ghost var hit := 0;
    MemberTokens(json, tokens, t, obj, 0);
    FirstKid(n, obj);
    while index < |tokens| && tokens[index].start < tokens[obj].end
      invariant 0 <= m <= Members(n) && index == KidIndex(n, obj, 2 * m)
      invariant found == -1 ==> forall i | 0 <= i < m :: Key(json, n, i) != key
      invariant found != -1 ==>
                  && 0 <= hit < m && Key(json, n, hit) == key && found == KidIndex(n, obj, 2 * hit + 1) >= 0
                  && forall i | 0 <= i < m && i != hit :: Key(json, n, i) != key
      decreases Members(n) - m
    {
      MemberTokens(json, tokens, t, obj, m);
      var value := index + 1;
      if tokens[index].parent != obj || tokens[index].kind != String ||
         value >= |tokens| || tokens[value].parent != obj {
        return -2;
      }
      if json[tokens[index].start..tokens[index].end] == key {
        if found >= 0 {
          assert Key(json, n, hit) == key == Key(json, n, m);
          return -2;
        }
        found, hit := value, m;
      }
      index := TokenNext(tokens, value);
      m := m + 1;
    }
    MemberTokens(json, tokens, t, obj, m);
  }

  /** Whether the object's keys are pairwise distinct and all among `allowed`. */
  ghost predicate FieldsAllowed(json: bytes, n: Tree, allowed: seq<bytes>)
    requires Grammar(json, n) && n.kind == Object
  {
    && (forall m | 0 <= m < Members(n) :: Key(json, n, m) in allowed)
    && (forall a, b | 0 <= a < b < Members(n) :: Key(json, n, a) != Key(json, n, b))
  }

  method ObjectValidateFields(json: bytes, tokens: seq<Token>, obj: int, allowed: seq<bytes>, ghost t: Tree)
    returns (ok: bool)
    requires Parsed(json, tokens, t)
    ensures !ObjectAt(json, tokens, t, obj) ==> !ok
    ensures ObjectAt(json, tokens, t, obj) ==>
              var n := NodeAt(t, obj);
              Grammar(json, n) && n.kind == Object && (ok <==> FieldsAllowed(json, n, allowed))
  {
    hide Grammar, Flatten, NodeAt, SizeAll, KidIndex, Key, NextIs;
    if obj < 0 || obj >= |tokens| || tokens[obj].kind != Object {
      return false;
    }
    ghost var n := NodeAt(t, obj);
    var index := obj + 1;
    ghost var m := 0;
    MemberTokens(json, tokens, t, obj, 0);
    FirstKid(n, obj);
    while index < |tokens| && tokens[index].start < tokens[obj].end
      invariant 0 <= m <= Members(n) && index == KidIndex(n, obj, 2 * m)
      invariant forall a | 0 <= a < m :: Key(json, n, a) in allowed
      invariant forall a, b | 0 <= a < b < m :: Key(json, n, a) != Key(json, n, b)
      decreases Members(n) - m
    {
      MemberTokens(json, tokens, t, obj, m);
      var value := index + 1;
      if tokens[index].parent != obj || tokens[index].kind != String ||
         value >= |tokens| || tokens[value].parent != obj {
        return false;
      }
      var current := json[tokens[index].start..tokens[index].end];
      var known := KnownField(current, allowed);
      if !known {
        return false;
      }
      var repeated := RepeatedField(json, tokens, obj, index, t, m);
      if repeated {
        return false;
      }
      index := TokenNext(tokens, value);
      m := m + 1;
    }
    MemberTokens(json, tokens, t, obj, m);
    return true;
  }

  method KnownField(key: bytes, allowed: seq<bytes>) returns (known: bool)
    ensures known <==> key in allowed
  {
    var i := 0;
    while i < |allowed|
      invariant 0 <= i <= |allowed| && key !in allowed[..i]
    {
      if key == allowed[i] {
        return true;
      }
      i := i + 1;
    }
    assert allowed[..i] == allowed;
    return false;
  }

  /** The walk over the members before member `m`. */
  method RepeatedField(json: bytes, tokens: seq<Token>, obj: int, index: int, ghost t: Tree, ghost m: nat)
    returns (repeated: bool)
    requires ObjectAt(json, tokens, t, obj)
    requires Grammar(json, NodeAt(t, obj)) && NodeAt(t, obj).kind == Object
    requires m < Members(NodeAt(t, obj)) && index == KidIndex(NodeAt(t, obj), obj, 2 * m)
    ensures var n := NodeAt(t, obj);
            repeated <==> exists a | 0 <= a < m :: Key(json, n, a) == Key(json, n, m)
  {
    hide Grammar, Flatten, NodeAt, SizeAll, KidIndex, Key, NextIs;
    ghost var n := NodeAt(t, obj);
    var previous := obj + 1;
    ghost var a := 0;
    MemberTokens(json, tokens, t, obj, m);
    FirstKid(n, obj);
    while previous < index
      invariant 0 <= a <= m && previous == KidIndex(n, obj, 2 * a)
      invariant forall b | 0 <= b < a :: Key(json, n, b) != Key(json, n, m)
      decreases m - a
    {
      KidOrder(n, obj, m, a);
      MemberTokens(json, tokens, t, obj, a);
      if tokens[previous].parent == obj &&
         json[tokens[index].start..tokens[index].end] == json[tokens[previous].start..tokens[previous].end] {
        return true;
      }
      previous := TokenNext(tokens, previous + 1);
      a := a + 1;
    }
    KidOrder(n, obj, a, m);
    return false;
  }

  /** Later children have larger indexes. */
  lemma {:induction false} KidOrder(n: Tree, obj: nat, a: nat, b: nat)
    requires 2 * a <= |n.kids| && 2 * b <= |n.kids|
    ensures a < b <==> KidIndex(n, obj, 2 * a) < KidIndex(n, obj, 2 * b)
  {
    if a < b {
      SizesGrow(n.kids, 2 * a, 2 * b);
    } else {
      SizesGrow(n.kids, 2 * b, 2 * a);
    }
  }

  lemma {:induction false} SizesGrow(kids: seq<Tree>, i: nat, j: nat)
    requires i <= j <= |kids|
    ensures SizeAll(kids[..i]) + (j - i) <= SizeAll(kids[..j])
    decreases j - i
  {
    hide Size, SizeAll;
    if i < j {
      SizesGrow(kids, i, j - 1);
      KidSizes(kids, j - 1);
    }
  }

  lemma FirstKid(n: Tree, obj: nat)
    ensures KidIndex(n, obj, 0) == obj + 1
  {
  }
}
