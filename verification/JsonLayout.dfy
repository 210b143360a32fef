/** What the flat token array of an accepted document looks like: the preorder of its tree. */
module JsonLayout {
  import opened JsonSyntax
  import opened JsonGrammar

  /** Child spans lie strictly inside the parent's, in order and apart. Only containers have children. */
  ghost predicate Nested(t: Tree)
    decreases t
  {
    && t.start <= t.end
    && (t.kids != [] ==> t.kind in {Object, Array})
    && Ordered(t.kids, t.start, t.end)
    && forall i | 0 <= i < |t.kids| :: Nested(t.kids[i])
  }

  ghost predicate Ordered(kids: seq<Tree>, lo: int, hi: int) {
    && (forall i | 0 <= i < |kids| :: lo < kids[i].start && kids[i].end < hi)
    && (forall i, j | 0 <= i < j < |kids| :: kids[i].end < kids[j].start)
  }

  /** The tree whose root is entry `k` of the preorder of `t`. */
  function NodeAt(t: Tree, k: nat): (n: Tree)
    requires k < Size(t)
    decreases t
  {
    if k == 0 then t else NodeAtAll(t.kids, k - 1)
  }

  function NodeAtAll(kids: seq<Tree>, k: nat): (n: Tree)
    requires k < SizeAll(kids)
    decreases kids
  {
    var init := kids[..|kids| - 1];
    if k < SizeAll(init) then NodeAtAll(init, k) else NodeAt(kids[|kids| - 1], k - SizeAll(init))
  }

  /** `next` is where `token_next` stops from `index`. */
  ghost predicate NextIs(tokens: seq<Token>, index: int, next: int) {
    && 0 <= index < next <= |tokens|
    && (forall j | index < j < next :: tokens[j].start < tokens[index].end)
    && (next < |tokens| ==> tokens[next].start >= tokens[index].end)
  }

  ghost predicate Encloses(outer: Token, inner: Token) {
    outer.kind in {Object, Array} && outer.start < inner.start && inner.end < outer.end
  }

  /** The parent of entry `k` comes before it and encloses it; entry 0 has index `base`. */
  ghost predicate Parented(s: seq<Token>, base: int, k: int)
    requires 0 <= k < |s|
  {
    var p := s[k].parent - base;
    0 <= p < k && Encloses(s[p], s[k])
  }

  /** Whether token `j` is `i` or has `i` among its ancestors. */
  predicate Descends(tokens: seq<Token>, j: int, i: int)
    decreases j
  {
    j == i || (0 <= i < j < |tokens| && tokens[j].parent < j && Descends(tokens, tokens[j].parent, i))
  }

  // From the grammar to nested spans

  lemma {:induction false} KidsInOrder(text: bytes, t: Tree, i: nat)
    requires Frame(text, t) && i < |t.kids|
    requires forall j | 0 <= j < |t.kids| :: Grammar(text, t.kids[j])
    ensures t.start < Open(t.kids[i])
    ensures forall j | 0 <= j < i :: Close(t.kids[j]) < Open(t.kids[i])
    decreases i
  {
    hide Grammar;
    if i > 0 {
      KidsInOrder(text, t, i - 1);
      OpensSolid(text, t.kids[i - 1]);
      assert Gap(text, Close(t.kids[i - 1]), Open(t.kids[i]), Separator(t.kind, i - 1));
    }
  }

  lemma {:induction false} GrammarNests(text: bytes, t: Tree)
    requires Grammar(text, t)
    ensures Nested(t)
    decreases t
  {
    hide IsPrimitive, StringBody, Gaps, EndsPrimitive;
    if t.kids != [] {
      forall i | 0 <= i < |t.kids|
        ensures Nested(t.kids[i]) && t.start < t.kids[i].start && Close(t.kids[i]) < t.end
        ensures forall j | 0 <= j < i :: t.kids[j].end < t.kids[i].start
      {
        KidInside(text, t, i);
        GrammarNests(text, t.kids[i]);
      }
    }
  }

  lemma KidInside(text: bytes, t: Tree, i: nat)
    requires Frame(text, t) && i < |t.kids|
    requires forall j | 0 <= j < |t.kids| :: Grammar(text, t.kids[j])
    ensures t.start < t.kids[i].start && Close(t.kids[i]) < t.end
    ensures forall j | 0 <= j < i :: t.kids[j].end < t.kids[i].start
  {
    hide Grammar, Gaps;
    var last := |t.kids| - 1;
    KidsInOrder(text, t, i);
    KidsInOrder(text, t, last);
    OpensSolid(text, t.kids[last]);
    assert Close(t.kids[last]) < t.end;
  }

  // Spans and parents in the flat array

  ghost predicate Inside(token: Token, lo: int, hi: int) {
    lo < token.start <= token.end < hi
  }

  lemma {:induction false} TokensInside(t: Tree, parent: int, base: nat)
    requires Nested(t)
    ensures forall k | 1 <= k < Size(t) :: Inside(Flatten(t, parent, base)[k], t.start, t.end)
    decreases t
  {
    hide FlattenAll, SizeAll, Ordered, Inside;
    AllTokensInside(t.kids, base, base + 1, t.start, t.end);
    var s, inner := Flatten(t, parent, base), FlattenAll(t.kids, base, base + 1);
    forall k | 1 <= k < Size(t)
      ensures Inside(s[k], t.start, t.end)
    {
      assert s[k] == inner[k - 1];
    }
  }

  lemma {:induction false} AllTokensInside(kids: seq<Tree>, parent: int, base: nat, lo: int, hi: int)
    requires Ordered(kids, lo, hi) && forall i | 0 <= i < |kids| :: Nested(kids[i])
    ensures forall k | 0 <= k < SizeAll(kids) :: Inside(FlattenAll(kids, parent, base)[k], lo, hi)
    decreases kids
  {
    hide Flatten, Nested;
    if kids != [] {
      var init, last := kids[..|kids| - 1], kids[|kids| - 1];
      var n := SizeAll(init);
      var s, left, right := FlattenAll(kids, parent, base), FlattenAll(init, parent, base), Flatten(last, parent, base + n);
      AllTokensInside(init, parent, base, lo, hi);
      TokensInside(last, parent, base + n);
      RootToken(last, parent, base + n);
      forall k | 0 <= k < SizeAll(kids)
        ensures Inside(s[k], lo, hi)
      {
        assert s[k] == if k < n then left[k] else right[k - n];
        assert k > n ==> Inside(right[k - n], last.start, last.end);
      }
    }
  }

  lemma RootToken(t: Tree, parent: int, base: nat)
    ensures Flatten(t, parent, base)[0] == Token(t.kind, t.start, t.end, parent)
    ensures Nested(t) ==> t.start <= t.end
  {
  }

  lemma {:induction false} ParentsEnclose(t: Tree, parent: int, base: nat)
    requires Nested(t)
    ensures forall k | 1 <= k < Size(t) :: Parented(Flatten(t, parent, base), base, k)
    decreases t
  {
    hide FlattenAll, Ordered;
    var s, inner := Flatten(t, parent, base), FlattenAll(t.kids, base, base + 1);
    AllParentsEnclose(t.kids, base, base + 1);
    TokensInside(t, parent, base);
    forall k | 1 <= k < Size(t)
      ensures Parented(s, base, k)
    {
      assert s[k] == inner[k - 1];
      assert Inside(s[k], t.start, t.end);
      if inner[k - 1].parent != base {
        assert Parented(inner, base + 1, k - 1);
        assert s[s[k].parent - base] == inner[s[k].parent - (base + 1)];
      }
    }
  }

  lemma {:induction false} AllParentsEnclose(kids: seq<Tree>, parent: int, base: nat)
    requires forall i | 0 <= i < |kids| :: Nested(kids[i])
    ensures forall k | 0 <= k < SizeAll(kids) ::
              var s := FlattenAll(kids, parent, base); s[k].parent == parent || Parented(s, base, k)
    decreases kids
  {
    hide Flatten, Nested, Encloses;
    if kids != [] {
      var init, last := kids[..|kids| - 1], kids[|kids| - 1];
      var n := SizeAll(init);
      var s, left, right := FlattenAll(kids, parent, base), FlattenAll(init, parent, base), Flatten(last, parent, base + n);
      AllParentsEnclose(init, parent, base);
      ParentsEnclose(last, parent, base + n);
      RootToken(last, parent, base + n);
      forall k | 0 <= k < SizeAll(kids)
        ensures s[k].parent == parent || Parented(s, base, k)
      {
        if k < n {
          assert s[k] == left[k];
          assert left[k].parent == parent || Parented(left, base, k);
        } else if k > n {
          assert s[k] == right[k - n] && Parented(right, base + n, k - n);
          assert s[s[k].parent - base] == right[s[k].parent - (base + n)];
        }
      }
    }
  }

  // The entries of a subtree are contiguous, and later entries start past its end.

  ghost predicate SubtreeAt(s: seq<Token>, base: nat, k: nat, n: Tree) {
    var stop := k + Size(n);
    && stop <= |s|
    && s[k..stop] == Flatten(n, s[k].parent, base + k)
    && forall j | stop <= j < |s| :: n.end < s[j].start
  }

  lemma {:induction false} SubtreeIsContiguous(t: Tree, parent: int, base: nat, k: nat)
    requires Nested(t) && k < Size(t)
    ensures SubtreeAt(Flatten(t, parent, base), base, k, NodeAt(t, k)) && Nested(NodeAt(t, k))
    decreases t
  {
    hide FlattenAll, SizeAll, Ordered, SubtreeAt;
    var s := Flatten(t, parent, base);
    if k == 0 {
      WholeSubtree(t, parent, base);
    } else {
      AllSubtreesContiguous(t.kids, base, base + 1, t.start, t.end, k - 1);
      ShiftSubtree([s[0]], FlattenAll(t.kids, base, base + 1), base, k - 1, NodeAt(t, k));
    }
  }

  lemma WholeSubtree(t: Tree, parent: int, base: nat)
    ensures SubtreeAt(Flatten(t, parent, base), base, 0, t)
  {
    hide FlattenAll, SizeAll;
    var s := Flatten(t, parent, base);
    assert s[0..|s|] == s;
  }

  lemma ShiftSubtree(left: seq<Token>, right: seq<Token>, base: nat, k: nat, n: Tree)
    requires SubtreeAt(right, base + |left|, k, n)
    ensures SubtreeAt(left + right, base, |left| + k, n)
  {
    hide Flatten, Size;
    var s := left + right;
    assert s[|left| + k..|left| + k + Size(n)] == right[k..k + Size(n)];
    forall j | |left| + k + Size(n) <= j < |s|
      ensures n.end < s[j].start
    {
      assert s[j] == right[j - |left|];
    }
  }

  lemma ExtendSubtree(left: seq<Token>, right: seq<Token>, base: nat, k: nat, n: Tree)
    requires SubtreeAt(left, base, k, n)
    requires forall j | 0 <= j < |right| :: n.end < right[j].start
    ensures SubtreeAt(left + right, base, k, n)
  {
    hide Flatten, Size;
    var s := left + right;
    assert s[k..k + Size(n)] == left[k..k + Size(n)];
  }

  lemma {:induction false} AllSubtreesContiguous(kids: seq<Tree>, parent: int, base: nat, lo: int, hi: int, k: nat)
    requires Ordered(kids, lo, hi) && k < SizeAll(kids)
    requires forall i | 0 <= i < |kids| :: Nested(kids[i])
    ensures SubtreeAt(FlattenAll(kids, parent, base), base, k, NodeAtAll(kids, k)) && Nested(NodeAtAll(kids, k))
    ensures NodeAtAll(kids, k).end < hi
    decreases kids
  {
    hide Flatten, Nested, SubtreeAt, NodeAt;
    var init, last := kids[..|kids| - 1], kids[|kids| - 1];
    var n := SizeAll(init);
    var left, right := FlattenAll(init, parent, base), Flatten(last, parent, base + n);
    if k < n {
      AllSubtreesContiguous(init, parent, base, lo, last.start, k);
      TokensInside(last, parent, base + n);
      RootToken(last, parent, base + n);
      ExtendSubtree(left, right, base, k, NodeAtAll(init, k));
    } else {
      SubtreeIsContiguous(last, parent, base + n, k - n);
      ShiftSubtree(left, right, base, k - n, NodeAt(last, k - n));
      NodeEnds(last, k - n);
    }
  }

  lemma {:induction false} NodeEnds(t: Tree, k: nat)
    requires Nested(t) && k < Size(t)
    ensures NodeAt(t, k).end <= t.end
    decreases t
  {
    hide SizeAll, FlattenAll;
    if k > 0 { AllSubtreesContiguous(t.kids, 0, 0, t.start, t.end, k - 1); }
  }

  lemma NodeToken(t: Tree, k: nat)
    requires Nested(t) && k < Size(t)
    ensures var n, token := NodeAt(t, k), Flatten(t, -1, 0)[k];
            token.kind == n.kind && token.start == n.start && token.end == n.end
  {
    hide Nested, NodeAt;
    SubtreeIsContiguous(t, -1, 0, k);
    var s, n := Flatten(t, -1, 0), NodeAt(t, k);
    assert s[k..k + Size(n)][0] == s[k];
  }

  /** `token_next` stops exactly past the subtree of the entry it starts from. */
  lemma NextPassesSubtree(t: Tree, k: nat, next: int)
    requires Nested(t) && k < Size(t)
    ensures NextIs(Flatten(t, -1, 0), k, next) <==> next == k + Size(NodeAt(t, k))
  {
    hide Nested, NodeAt, Flatten;
    var s, n := Flatten(t, -1, 0), NodeAt(t, k);
    SubtreeIsContiguous(t, -1, 0, k);
    NodeToken(t, k);
    TokensInside(n, s[k].parent, k);
    var stop := k + Size(n);
    forall j | k < j < stop
      ensures s[j].start < s[k].end
    {
      assert s[j] == Flatten(n, s[k].parent, k)[j - k];
      assert Inside(s[j], n.start, n.end);
    }
    assert k < stop < next <= |s| ==> n.end < s[stop].start;
  }

  /** Every accepted document yields a preorder: parents come first and enclose their children,
      siblings are disjoint and in order. */
  lemma PreorderLayout(text: bytes, t: Tree)
    requires Document(text, t)
    ensures var s := Flatten(t, -1, 0);
            && s[0].parent == -1
            && (forall k | 1 <= k < |s| :: Parented(s, 0, k))
            && (forall j, k | 0 <= j < k < |s| && s[j].parent == s[k].parent :: s[j].end < s[k].start)
  {
    hide Flatten, Encloses, Blank, Grammar;
    GrammarNests(text, t);
    ParentsEnclose(t, -1, 0);
    RootToken(t, -1, 0);
    var s := Flatten(t, -1, 0);
    forall j, k | 0 <= j < k < |s| && s[j].parent == s[k].parent
      ensures s[j].end < s[k].start
    {
      LaterSibling(t, j, k);
    }
  }

  lemma LaterSibling(t: Tree, j: nat, k: nat)
    requires Nested(t) && j < k < Size(t)
    requires Flatten(t, -1, 0)[j].parent == Flatten(t, -1, 0)[k].parent
    ensures Flatten(t, -1, 0)[j].end < Flatten(t, -1, 0)[k].start
  {
    hide Nested, NodeAt, Flatten;
    SubtreeIsContiguous(t, -1, 0, j);
    NodeToken(t, j);
    if k < j + Size(NodeAt(t, j)) {
      ParentInSubtree(t, j, k);
    }
  }

  lemma ParentInSubtree(t: Tree, j: nat, k: nat)
    requires Nested(t) && j < k < Size(t) && k < j + Size(NodeAt(t, j))
    ensures Flatten(t, -1, 0)[j].parent < j <= Flatten(t, -1, 0)[k].parent
  {
    hide Nested, NodeAt, Flatten, Encloses;
    var s, n := Flatten(t, -1, 0), NodeAt(t, j);
    SubtreeIsContiguous(t, -1, 0, j);
    ParentsEnclose(t, -1, 0);
    RootToken(t, -1, 0);
    ParentsEnclose(n, s[j].parent, j);
    assert s[k] == Flatten(n, s[j].parent, j)[k - j];
    assert Parented(Flatten(n, s[j].parent, j), j, k - j);
    assert j > 0 ==> Parented(s, 0, j);
  }

  lemma EntryEnds(t: Tree, i: nat, p: nat)
    requires Nested(t) && i <= p < Size(t) && p < i + Size(NodeAt(t, i))
    ensures Flatten(t, -1, 0)[p].end <= NodeAt(t, i).end
  {
    hide Nested, NodeAt, Flatten;
    var s, n := Flatten(t, -1, 0), NodeAt(t, i);
    SubtreeIsContiguous(t, -1, 0, i);
    NodeToken(t, i);
    TokensInside(n, s[i].parent, i);
    assert s[p] == Flatten(n, s[i].parent, i)[p - i];
    assert i < p ==> Inside(s[p], n.start, n.end);
  }

  /** The entries that `token_next` jumps over are exactly the proper descendants. */
  lemma {:induction false} NextPassesDescendants(t: Tree, i: nat, next: int, j: nat)
    requires Nested(t) && i < Size(t) && NextIs(Flatten(t, -1, 0), i, next) && j < Size(t)
    ensures Descends(Flatten(t, -1, 0), j, i) <==> i <= j < next
    decreases j
  {
    hide Nested, NodeAt, Flatten, NextIs;
    var s, n := Flatten(t, -1, 0), NodeAt(t, i);
    NextPassesSubtree(t, i, next);
    SubtreeIsContiguous(t, -1, 0, i);
    NodeToken(t, i);
    ParentsEnclose(t, -1, 0);
    TokensInside(t, -1, 0);
    if i < j {
      assert Inside(s[j], t.start, t.end);
      var p := s[j].parent;
      assert Parented(s, 0, j);
      NextPassesDescendants(t, i, next, p);
      if j < next {
        ParentsEnclose(n, s[i].parent, i);
        assert s[j] == Flatten(n, s[i].parent, i)[j - i];
        assert Parented(Flatten(n, s[i].parent, i), i, j - i);
      } else if i <= p < next {
        EntryEnds(t, i, p);
      }
    }
  }
}
