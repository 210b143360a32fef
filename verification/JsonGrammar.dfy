/** The language the tokenizer accepts, given twice: as a recursive-descent reader that
    computes the tree, and as a grammar stated node by node on a finished tree. */
module JsonGrammar {
  import opened JsonSyntax

  // The reader

  datatype Read = Fail | Read(tree: Tree, next: nat)

  datatype ReadAll = FailAll | ReadAll(kids: seq<Tree>, next: nat)

  function SkipSpace(text: bytes, pos: nat): (r: nat)
    requires pos <= |text|
    ensures pos <= r <= |text| && Blank(text, pos, r)
    ensures r == |text| || !IsSpace(text[r])
    decreases |text| - pos
  {
    if pos < |text| && IsSpace(text[pos]) then SkipSpace(text, pos + 1) else pos
  }

  /** The position of the quote that closes a string whose contents start at `pos`. */
  function ScanString(text: bytes, pos: nat): (r: Option<nat>)
    requires pos <= |text|
    ensures r.Some? ==> pos <= r.value < |text| && text[r.value] == QUOTE
    decreases |text| - pos
  {
    if pos >= |text| then None
    else if text[pos] == QUOTE then Some(pos)
    else if text[pos] < 0x20 then None
    else if text[pos] != BACKSLASH then ScanString(text, pos + 1)
    else if pos + 1 >= |text| then None
    else if IsSimpleEscape(text[pos + 1]) then ScanString(text, pos + 2)
    else if text[pos + 1] == 0x75 && pos + 6 <= |text| && FourHex(text, pos + 2) then ScanString(text, pos + 6)
    else None
  }

  predicate FourHex(text: bytes, pos: nat)
    requires pos + 4 <= |text|
  {
    forall i | pos <= i < pos + 4 :: IsHex(text[i])
  }

  function ScanPrimitive(text: bytes, pos: nat): (r: nat)
    requires pos <= |text|
    ensures pos <= r <= |text|
    ensures forall i | pos <= i < r :: !EndsPrimitive(text[i])
    ensures r == |text| || EndsPrimitive(text[r])
    decreases |text| - pos
  {
    if pos < |text| && !EndsPrimitive(text[pos]) then ScanPrimitive(text, pos + 1) else pos
  }

  ghost function ReadString(text: bytes, pos: nat): (r: Read)
    requires pos <= |text|
    ensures r.Read? ==> pos < r.next <= |text|
  {
    if pos >= |text| || text[pos] != QUOTE then Fail
    else match ScanString(text, pos + 1)
      case None => Fail
      case Some(close) => Read(Tree(String, pos + 1, close, []), close + 1)
  }

  ghost function ReadPrimitive(text: bytes, pos: nat): (r: Read)
    requires pos <= |text|
    ensures r.Read? ==> pos < r.next <= |text|
  {
    var end := ScanPrimitive(text, pos);
    if end > pos && IsPrimitive(text[pos..end]) then Read(Tree(Primitive, pos, end, []), end) else Fail
  }

  ghost function ReadValue(text: bytes, pos: nat, depth: nat): (r: Read)
    requires pos <= |text|
    ensures r.Read? ==> pos < r.next <= |text|
    decreases |text| - pos, 1
  {
    if pos >= |text| then Fail
    else if text[pos] == OPEN_BRACE || text[pos] == OPEN_BRACKET then ReadContainer(text, pos, depth)
    else if text[pos] == QUOTE then ReadString(text, pos)
    else ReadPrimitive(text, pos)
  }

  ghost function ReadContainer(text: bytes, pos: nat, depth: nat): (r: Read)
    requires pos < |text| && text[pos] in {OPEN_BRACE, OPEN_BRACKET}
    ensures r.Read? ==> pos < r.next <= |text|
    decreases |text| - pos, 0
  {
    var kind := if text[pos] == OPEN_BRACE then Object else Array;
    var p := SkipSpace(text, pos + 1);
    if depth > MAX_DEPTH then Fail
    else if p < |text| && text[p] == Closer(kind) then Read(Tree(kind, pos, p + 1, []), p + 1)
    else match ReadItems(text, p, depth + 1, kind)
      case FailAll => Fail
      case ReadAll(kids, next) => Read(Tree(kind, pos, next, kids), next)
  }

  /** One element of an array, or the key and the value of one object member. */
  ghost function ReadItem(text: bytes, pos: nat, depth: nat, kind: Kind): (r: ReadAll)
    requires pos <= |text|
    ensures r.ReadAll? ==> pos < r.next <= |text| && |r.kids| == (if kind == Object then 2 else 1)
    decreases |text| - pos, 2
  {
    if kind != Object then
      match ReadValue(text, pos, depth)
      case Fail => FailAll
      case Read(v, next) => ReadAll([v], next)
    else match ReadString(text, pos)
      case Fail => FailAll
      case Read(k, p) =>
        var q := SkipSpace(text, p);
        if q >= |text| || text[q] != COLON then FailAll
        else match ReadValue(text, SkipSpace(text, q + 1), depth)
          case Fail => FailAll
          case Read(v, next) => ReadAll([k, v], next)
  }

  /** The items of a non-empty container, up to and including its closer. */
  ghost function ReadItems(text: bytes, pos: nat, depth: nat, kind: Kind): (r: ReadAll)
    requires pos <= |text|
    ensures r.ReadAll? ==> pos < r.next <= |text| && |r.kids| > 0
    decreases |text| - pos, 3
  {
    match ReadItem(text, pos, depth, kind)
    case FailAll => FailAll
    case ReadAll(item, end) =>
      var p := SkipSpace(text, end);
      if p >= |text| then FailAll
      else if text[p] == Closer(kind) then ReadAll(item, p + 1)
      else if text[p] != COMMA then FailAll
      else Prepend(item, ReadItems(text, SkipSpace(text, p + 1), depth, kind))
  }

  function Prepend(kids: seq<Tree>, r: ReadAll): ReadAll {
    match r
    case FailAll => FailAll
    case ReadAll(rest, next) => ReadAll(kids + rest, next)
  }

  ghost function ReadDocument(text: bytes): (r: Option<Tree>) {
    if text == [] || |text| > MAX_REQUEST_JSON then None
    else match ReadValue(text, SkipSpace(text, 0), 0)
      case Fail => None
      case Read(t, next) => if SkipSpace(text, next) == |text| then Some(t) else None
  }

  // The grammar

  ghost predicate Blank(text: bytes, lo: int, hi: int) {
    0 <= lo <= hi <= |text| && forall i | lo <= i < hi :: IsSpace(text[i])
  }

  /** Exactly one separator, with optional white space on both sides. */
  ghost predicate Gap(text: bytes, lo: int, hi: int, separator: byte) {
    exists c | 0 <= lo <= c < hi <= |text| :: text[c] == separator && Blank(text, lo, c) && Blank(text, c + 1, hi)
  }

  function Closer(kind: Kind): byte {
    if kind == Object then CLOSE_BRACE else CLOSE_BRACKET
  }

  function Opener(kind: Kind): byte {
    if kind == Object then OPEN_BRACE else OPEN_BRACKET
  }

  /** `char` productions of section 7 of RFC 8259, on bytes, with the NUL escape of the code. */
  ghost predicate StringBody(s: bytes)
    decreases |s|
  {
    s == [] ||
    (s[0] >= 0x20 && s[0] != QUOTE && s[0] != BACKSLASH && StringBody(s[1..])) ||
    (|s| >= 2 && s[0] == BACKSLASH && IsSimpleEscape(s[1]) && StringBody(s[2..])) ||
    (|s| >= 6 && s[0] == BACKSLASH && s[1] == 0x75 && FourHex(s, 2) && StringBody(s[6..]))
  }

  /** The byte between a child and its next sibling: a colon after a key, else a comma. */
  function Separator(kind: Kind, i: nat): byte {
    if kind == Object && i % 2 == 0 then COLON else COMMA
  }

  ghost predicate Leaf(text: bytes, t: Tree) {
    match t.kind
    case String =>
      && 1 <= t.start <= t.end < |text| && t.kids == []
      && text[t.start - 1] == QUOTE && text[t.end] == QUOTE && StringBody(text[t.start..t.end])
    case Primitive =>
      && t.start < t.end <= |text| && t.kids == [] && IsPrimitive(text[t.start..t.end])
      && (forall i | t.start <= i < t.end :: !EndsPrimitive(text[i]))
      && (t.end == |text| || EndsPrimitive(text[t.end]))
    case _ => false
  }

  /** The brackets, separators and white space of a container, given the spans of its kids. */
  ghost predicate Frame(text: bytes, t: Tree)
  {
    var n := |t.kids|;
    && t.kind in {Object, Array}
    && t.start + 1 < t.end <= |text|
    && text[t.start] == Opener(t.kind) && text[t.end - 1] == Closer(t.kind)
    && (t.kind == Object ==> n % 2 == 0 && forall i | 0 <= i < n && i % 2 == 0 :: t.kids[i].kind == String)
    && (if n == 0 then Blank(text, t.start + 1, t.end - 1)
        else
          && Blank(text, t.start + 1, Open(t.kids[0]))
          && Blank(text, Close(t.kids[n - 1]), t.end - 1)
          && Gaps(text, t.kind, t.kids))
  }

  ghost predicate Gaps(text: bytes, kind: Kind, kids: seq<Tree>) {
    forall i | 0 <= i < |kids| - 1 :: Gap(text, Close(kids[i]), Open(kids[i + 1]), Separator(kind, i))
  }

  ghost predicate Grammar(text: bytes, t: Tree)
    decreases t
  {
    if t.kind in {String, Primitive} then Leaf(text, t)
    else Frame(text, t) && forall i | 0 <= i < |t.kids| :: Grammar(text, t.kids[i])
  }

  /** How many containers enclose the innermost one, itself included. */
  function Nesting(t: Tree): (n: nat)
    decreases t
  {
    if t.kind in {String, Primitive} then 0 else 1 + NestingAll(t.kids)
  }

  function NestingAll(kids: seq<Tree>): (n: nat)
    ensures forall i | 0 <= i < |kids| :: Nesting(kids[i]) <= n
    decreases kids
  {
    if kids == [] then 0
    else
      var first, rest := Nesting(kids[0]), NestingAll(kids[1..]);
      assert forall i | 1 <= i < |kids| :: kids[i] == kids[1..][i - 1];
      if first > rest then first else rest
  }

  ghost predicate Document(text: bytes, t: Tree) {
    Grammar(text, t) && Blank(text, 0, Open(t)) && Blank(text, Close(t), |text|)
  }

  // The reader and the grammar agree.

  lemma {:induction false} NestingAtMost(kids: seq<Tree>, bound: nat)
    requires forall i | 0 <= i < |kids| :: Nesting(kids[i]) <= bound
    ensures NestingAll(kids) <= bound
    decreases |kids|
  {
    if kids != [] {
      NestingAtMost(kids[1..], bound);
    }
  }

  lemma {:induction false} ScanStringSound(text: bytes, pos: nat)
    requires pos <= |text| && ScanString(text, pos).Some?
    ensures StringBody(text[pos..ScanString(text, pos).value])
    decreases |text| - pos
  {
    var close := ScanString(text, pos).value;
    var body := text[pos..close];
    if text[pos] != QUOTE {
      var step := if text[pos] != BACKSLASH then 1 else if IsSimpleEscape(text[pos + 1]) then 2 else 6;
      ScanStringSound(text, pos + step);
      assert body[step..] == text[pos + step..close];
    }
  }

  lemma {:induction false} ScanStringComplete(text: bytes, pos: nat, close: nat)
    requires pos <= close < |text| && text[close] == QUOTE && StringBody(text[pos..close])
    ensures ScanString(text, pos) == Some(close)
    decreases close - pos
  {
    var body := text[pos..close];
    if body != [] {
      var step := if body[0] != BACKSLASH then 1 else if IsSimpleEscape(body[1]) then 2 else 6;
      assert body[step..] == text[pos + step..close];
      assert step == 6 ==> forall i | pos + 2 <= i < pos + 6 :: text[i] == body[i - pos];
      ScanStringComplete(text, pos + step, close);
    }
  }

  lemma {:induction false} SkipSpaceStops(text: bytes, pos: nat, hi: nat)
    requires Blank(text, pos, hi)
    requires hi == |text| || !IsSpace(text[hi])
    ensures SkipSpace(text, pos) == hi
    decreases hi - pos
  {
    if pos < hi { SkipSpaceStops(text, pos + 1, hi); }
  }

  lemma {:induction false} ScanPrimitiveStops(text: bytes, pos: nat, end: nat)
    requires pos <= end <= |text|
    requires forall i | pos <= i < end :: !EndsPrimitive(text[i])
    requires end == |text| || EndsPrimitive(text[end])
    ensures ScanPrimitive(text, pos) == end
    decreases end - pos
  {
    if pos < end { ScanPrimitiveStops(text, pos + 1, end); }
  }

  lemma PrimitiveStart(s: bytes)
    requires IsPrimitive(s)
    ensures s != [] && s[0] !in {OPEN_BRACE, OPEN_BRACKET, CLOSE_BRACE, CLOSE_BRACKET, QUOTE} && !IsSpace(s[0])
  {
    if IsNumber(s) {
      var u := if s != [] && s[0] == 0x2D then s[1..] else s;
      var k :| 0 <= k <= |u| && IntPart(u[..k]) && Fraction(u[k..]);
      assert u[..k][0] == u[0] && IsDigit(u[0]);
    }
  }

  /** A run of items: `kids` fill the container from `pos` up to the closer just before `next`. */
  ghost predicate Items(text: bytes, kind: Kind, kids: seq<Tree>, pos: int, next: int) {
    var n := |kids|;
    && n > 0 && Open(kids[0]) == pos
    && (forall i | 0 <= i < n :: Grammar(text, kids[i]))
    && Gaps(text, kind, kids)
    && (kind == Object ==> n % 2 == 0 && forall i | 0 <= i < n && i % 2 == 0 :: kids[i].kind == String)
    && 0 < next <= |text| && text[next - 1] == Closer(kind) && Blank(text, Close(kids[n - 1]), next - 1)
  }

  ghost predicate Shallow(kids: seq<Tree>, depth: nat) {
    forall i | 0 <= i < |kids| :: Nesting(kids[i]) == 0 || depth + Nesting(kids[i]) <= MAX_DEPTH + 1
  }

  lemma ItemsLast(text: bytes, kind: Kind, item: seq<Tree>, pos: int, end: int, next: int)
    requires OneItem(text, kind, item, pos, end)
    requires 0 < next <= |text| && text[next - 1] == Closer(kind) && Blank(text, end, next - 1)
    ensures Items(text, kind, item, pos, next)
  {
    hide Grammar, Gaps, Blank, Open, Close, Closer;
  }

  lemma ItemsPrepend(text: bytes, kind: Kind, item: seq<Tree>, rest: seq<Tree>, pos: int, end: int, mid: int, next: int)
    requires kind in {Object, Array} && OneItem(text, kind, item, pos, end)
    requires Items(text, kind, rest, mid, next)
    requires Gap(text, end, mid, COMMA)
    ensures Items(text, kind, item + rest, pos, next)
  {
    hide Grammar, Gap, Blank, Open, Close, Closer;
    var kids := item + rest;
    forall i | 0 <= i < |kids| - 1
      ensures Gap(text, Close(kids[i]), Open(kids[i + 1]), Separator(kind, i))
    {
      if i >= |item| {
        assert kids[i] == rest[i - |item|] && kids[i + 1] == rest[i - |item| + 1];
        assert Separator(kind, i) == Separator(kind, i - |item|);
      }
    }
  }

  lemma ReadStringSound(text: bytes, pos: nat)
    requires pos <= |text| && ReadString(text, pos).Read?
    ensures var Read(t, next) := ReadString(text, pos);
            t.kind == String && Grammar(text, t) && Open(t) == pos && Close(t) == next && Nesting(t) == 0
  {
    hide IsPrimitive;
    ScanStringSound(text, pos + 1);
  }

  lemma {:induction false} ReadValueSound(text: bytes, pos: nat, depth: nat)
    requires pos <= |text| && ReadValue(text, pos, depth).Read?
    ensures var Read(t, next) := ReadValue(text, pos, depth);
            Grammar(text, t) && Open(t) == pos && Close(t) == next && Shallow([t], depth)
    decreases |text| - pos, 1
  {
    hide IsPrimitive, StringBody, Frame, ReadContainer;
    if text[pos] == OPEN_BRACE || text[pos] == OPEN_BRACKET {
      ReadContainerSound(text, pos, depth);
    } else if text[pos] == QUOTE {
      ReadStringSound(text, pos);
    }
  }

  lemma {:induction false} ReadContainerSound(text: bytes, pos: nat, depth: nat)
    requires pos < |text| && text[pos] in {OPEN_BRACE, OPEN_BRACKET}
    requires ReadContainer(text, pos, depth).Read?
    ensures var Read(t, next) := ReadContainer(text, pos, depth);
            Grammar(text, t) && Open(t) == pos && Close(t) == next && Shallow([t], depth)
    decreases |text| - pos, 0
  {
    hide Leaf, IsSpace, Blank, Gaps, SkipSpace, ReadItems, NestingAll;
    var p := SkipSpace(text, pos + 1);
    var t := ReadContainer(text, pos, depth).tree;
    if t.kids != [] {
      ReadItemsSound(text, p, depth + 1, t.kind);
      assert Items(text, t.kind, t.kids, p, t.end);
    }
    NestingAtMost(t.kids, MAX_DEPTH - depth);
  }

  ghost predicate OneItem(text: bytes, kind: Kind, item: seq<Tree>, pos: int, next: int) {
    && |item| == (if kind == Object then 2 else 1)
    && (forall i | 0 <= i < |item| :: Grammar(text, item[i]))
    && Open(item[0]) == pos && Close(item[|item| - 1]) == next
    && Gaps(text, kind, item)
    && (kind == Object ==> item[0].kind == String)
  }

  lemma {:induction false} ReadItemSound(text: bytes, pos: nat, depth: nat, kind: Kind)
    requires pos <= |text| && ReadItem(text, pos, depth, kind).ReadAll?
    ensures var ReadAll(item, next) := ReadItem(text, pos, depth, kind);
            OneItem(text, kind, item, pos, next) && Shallow(item, depth)
    decreases |text| - pos, 2
  {
    hide Grammar, Blank, IsSpace, Nesting, ReadString, ReadValue, Open, Close;
    if kind != Object {
      ReadValueSound(text, pos, depth);
    } else {
      ReadStringSound(text, pos);
      var Read(k, p) := ReadString(text, pos);
      var q := SkipSpace(text, p);
      ReadValueSound(text, SkipSpace(text, q + 1), depth);
      var Read(v, e) := ReadValue(text, SkipSpace(text, q + 1), depth);
      assert Gap(text, Close(k), Open(v), COLON);
      assert [v][0] == v;
    }
  }

  lemma {:induction false} ReadItemsSound(text: bytes, pos: nat, depth: nat, kind: Kind)
    requires pos <= |text| && kind in {Object, Array} && ReadItems(text, pos, depth, kind).ReadAll?
    ensures var ReadAll(kids, next) := ReadItems(text, pos, depth, kind);
            Items(text, kind, kids, pos, next) && Shallow(kids, depth)
    decreases |text| - pos, 3
  {
    hide Grammar, Blank, IsSpace, Nesting, ReadItem, Items, OneItem, SkipSpace;
    ReadItemSound(text, pos, depth, kind);
    var ReadAll(item, end) := ReadItem(text, pos, depth, kind);
    var p := SkipSpace(text, end);
    if text[p] == Closer(kind) {
      ItemsLast(text, kind, item, pos, end, p + 1);
    } else {
      var q := SkipSpace(text, p + 1);
      ReadItemsSound(text, q, depth, kind);
      assert Gap(text, end, q, COMMA);
      ItemsPrepend(text, kind, item, ReadItems(text, q, depth, kind).kids, pos, end, q,
                   ReadItems(text, q, depth, kind).next);
    }
  }

  lemma OpensSolid(text: bytes, t: Tree)
    requires Grammar(text, t)
    ensures 0 <= Open(t) < Close(t) <= |text|
    ensures !IsSpace(text[Open(t)]) && text[Open(t)] !in {CLOSE_BRACE, CLOSE_BRACKET}
  {
    if t.kind == Primitive { PrimitiveStart(text[t.start..t.end]); }
  }

  lemma ReadStringComplete(text: bytes, t: Tree)
    requires Grammar(text, t) && t.kind == String
    ensures 0 <= Open(t) <= |text| && ReadString(text, Open(t)) == Read(t, Close(t))
  {
    hide IsPrimitive;
    ScanStringComplete(text, t.start, t.end);
  }

  lemma ReadPrimitiveComplete(text: bytes, t: Tree, depth: nat)
    requires Grammar(text, t) && t.kind == Primitive
    ensures ReadValue(text, t.start, depth) == Read(t, t.end)
  {
    hide EndsPrimitive, IsPrimitive;
    PrimitiveStart(text[t.start..t.end]);
    ScanPrimitiveStops(text, t.start, t.end);
  }

  lemma {:induction false} ReadValueComplete(text: bytes, t: Tree, depth: nat)
    requires Grammar(text, t) && Shallow([t], depth)
    ensures 0 <= Open(t) <= |text|
    ensures ReadValue(text, Open(t), depth) == Read(t, Close(t))
    decreases t, 3
  {
    hide IsPrimitive, StringBody, IsSpace, ReadContainer;
    assert [t][0] == t;
    match t.kind
    case String => ReadStringComplete(text, t);
    case Primitive => ReadPrimitiveComplete(text, t, depth);
    case _ => ReadContainerComplete(text, t, depth);
  }

  lemma {:induction false} ReadContainerComplete(text: bytes, t: Tree, depth: nat)
    requires Frame(text, t) && forall i | 0 <= i < |t.kids| :: Grammar(text, t.kids[i])
    requires depth + Nesting(t) <= MAX_DEPTH + 1
    ensures ReadContainer(text, t.start, depth) == Read(t, t.end)
    decreases t, 2
  {
    hide Gaps, Grammar, ReadItems;
    if t.kids == [] {
      SkipSpaceStops(text, t.start + 1, t.end - 1);
    } else {
      OpensSolid(text, t.kids[0]);
      SkipSpaceStops(text, t.start + 1, Open(t.kids[0]));
      ReadItemsComplete(text, t, 0, depth + 1);
    }
  }

  lemma {:induction false} ReadItemComplete(text: bytes, t: Tree, i: nat, depth: nat)
    requires Frame(text, t) && i < |t.kids| && (t.kind == Object ==> i % 2 == 0)
    requires forall j | 0 <= j < |t.kids| :: Grammar(text, t.kids[j])
    requires Shallow(t.kids, depth)
    ensures 0 <= Open(t.kids[i]) <= |text|
    ensures var last := if t.kind == Object then i + 1 else i;
            ReadItem(text, Open(t.kids[i]), depth, t.kind) == ReadAll(t.kids[i..last + 1], Close(t.kids[last]))
    decreases t, 0
  {
    hide Grammar, Gap, ReadValue, ReadString, Blank, Nesting, SkipSpace;
    var kids := t.kids;
    OpensSolid(text, kids[i]);
    if t.kind == Array {
      assert Shallow([kids[i]], depth);
      ReadValueComplete(text, kids[i], depth);
      assert kids[i..i + 1] == [kids[i]];
    } else {
      ReadStringComplete(text, kids[i]);
      assert Gap(text, Close(kids[i]), Open(kids[i + 1]), Separator(t.kind, i));
      CrossGap(text, Close(kids[i]), kids[i + 1], COLON);
      assert Shallow([kids[i + 1]], depth);
      ReadValueComplete(text, kids[i + 1], depth);
      assert kids[i..i + 2] == [kids[i], kids[i + 1]];
    }
  }

  lemma CloserIsSolid(kind: Kind)
    ensures kind in {Object, Array} ==> !IsSpace(Closer(kind))
  {
  }

  lemma SliceSplits<T>(s: seq<T>, i: nat, k: nat)
    requires i <= k <= |s|
    ensures s[i..] == s[i..k] + s[k..]
  {
  }

  lemma SliceEnds<T>(s: seq<T>, i: nat, k: nat)
    requires i <= k == |s|
    ensures s[i..k] == s[i..]
  {
  }

  lemma LastItem(text: bytes, pos: nat, depth: nat, kind: Kind, item: seq<Tree>, end: nat, c: nat)
    requires pos <= |text| && end <= |text| && ReadItem(text, pos, depth, kind) == ReadAll(item, end)
    requires c == SkipSpace(text, end) < |text| && text[c] == Closer(kind)
    ensures ReadItems(text, pos, depth, kind) == ReadAll(item, c + 1)
  {
    hide ReadItem, SkipSpace, Closer;
  }

  lemma OneMoreItem(text: bytes, pos: nat, depth: nat, kind: Kind, item: seq<Tree>, end: nat, c: nat)
    requires kind in {Object, Array}
    requires pos <= |text| && end <= |text| && ReadItem(text, pos, depth, kind) == ReadAll(item, end)
    requires c == SkipSpace(text, end) < |text| && text[c] == COMMA
    ensures ReadItems(text, pos, depth, kind) == Prepend(item, ReadItems(text, SkipSpace(text, c + 1), depth, kind))
  {
    hide ReadItem, SkipSpace, Prepend;
  }

  lemma FrameAfter(text: bytes, t: Tree, i: nat)
    requires Frame(text, t) && i < |t.kids| && (t.kind == Object ==> i % 2 == 0)
    ensures t.kind in {Object, Array} && 0 < t.end <= |text|
    ensures var last := if t.kind == Object then i + 1 else i;
            && last < |t.kids|
            && (if last + 1 < |t.kids| then Gap(text, Close(t.kids[last]), Open(t.kids[last + 1]), COMMA)
                else Blank(text, Close(t.kids[last]), t.end - 1) && text[t.end - 1] == Closer(t.kind))
  {
    var last := if t.kind == Object then i + 1 else i;
    assert last + 1 < |t.kids| ==>
        Gap(text, Close(t.kids[last]), Open(t.kids[last + 1]), Separator(t.kind, last));
  }

  /** The reader, started at child `i` of a container, returns all children from `i` on. */
  lemma {:induction false} ReadItemsComplete(text: bytes, t: Tree, i: nat, depth: nat)
    requires Frame(text, t) && i < |t.kids| && (t.kind == Object ==> i % 2 == 0)
    requires forall j | 0 <= j < |t.kids| :: Grammar(text, t.kids[j])
    requires Shallow(t.kids, depth)
    ensures 0 <= Open(t.kids[i]) <= |text|
    ensures ReadItems(text, Open(t.kids[i]), depth, t.kind) == ReadAll(t.kids[i..], t.end)
    decreases t, 1, |t.kids| - i
  {
    hide Grammar, Gap, Blank, Frame, Nesting, ReadItem, ReadItems, SkipSpace, Shallow, Open, Close, Closer;
    FrameAfter(text, t, i);
    var kids := t.kids;
    var last := if t.kind == Object then i + 1 else i;
    ReadItemComplete(text, t, i, depth);
    OpensSolid(text, kids[last]);
    if last + 1 == |kids| {
      CloserIsSolid(t.kind);
      SkipSpaceStops(text, Close(kids[last]), t.end - 1);
      LastItem(text, Open(kids[i]), depth, t.kind, kids[i..last + 1], Close(kids[last]), t.end - 1);
      SliceEnds(kids, i, last + 1);
    } else {
      CrossGap(text, Close(kids[last]), kids[last + 1], COMMA);
      OneMoreItem(text, Open(kids[i]), depth, t.kind, kids[i..last + 1], Close(kids[last]), SkipSpace(text, Close(kids[last])));
      ReadItemsComplete(text, t, last + 1, depth);
      SliceSplits(kids, i, last + 1);
    }
  }

  lemma CrossGap(text: bytes, lo: int, t: Tree, separator: byte)
    requires Gap(text, lo, Open(t), separator) && Grammar(text, t) && !IsSpace(separator)
    ensures 0 <= lo <= |text|
    ensures var c := SkipSpace(text, lo);
            c < |text| && text[c] == separator && SkipSpace(text, c + 1) == Open(t)
  {
    hide Grammar, SkipSpace, IsSpace;
    var c :| 0 <= lo <= c < Open(t) <= |text| && text[c] == separator && Blank(text, lo, c) && Blank(text, c + 1, Open(t));
    OpensSolid(text, t);
    SkipSpaceStops(text, lo, c);
    SkipSpaceStops(text, c + 1, Open(t));
  }

  /** The reader accepts exactly the documents of the grammar that nest at most 17 containers,
      and it returns their only syntax tree. */
  lemma ReaderMatchesGrammar(text: bytes, t: Tree)
    ensures ReadDocument(text) == Some(t) <==>
            0 < |text| <= 64 * 1024 && Document(text, t) && Nesting(t) <= 17
  {
    if text != [] && |text| <= MAX_REQUEST_JSON {
      var p := SkipSpace(text, 0);
      var r := ReadValue(text, p, 0);
      if r.Read? && r.tree == t && SkipSpace(text, r.next) == |text| {
        ReadValueSound(text, p, 0);
        assert [t][0] == t;
      }
      if Document(text, t) && Nesting(t) <= MAX_DEPTH + 1 {
        OpensSolid(text, t);
        SkipSpaceStops(text, 0, Open(t));
        ReadValueComplete(text, t, 0);
        SkipSpaceStops(text, Close(t), |text|);
      }
    }
  }
}
