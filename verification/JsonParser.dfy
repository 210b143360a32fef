/** The tokenizer: a cursor over the text that appends to a fixed token array. */
module JsonParser {
  import opened JsonSyntax
  import opened JsonGrammar

  /** Whether a value that was read also fits the tokens that are left. */
  ghost predicate Fits(r: Read, room: int) {
    r.Read? && Size(r.tree) <= room
  }

  ghost predicate FitsAll(r: ReadAll, room: int) {
    r.ReadAll? && SizeAll(r.kids) <= room
  }

  lemma {:induction false} FlattenConcat(a: seq<Tree>, b: seq<Tree>, parent: int, base: nat)
    ensures SizeAll(a + b) == SizeAll(a) + SizeAll(b)
    ensures FlattenAll(a + b, parent, base)
         == FlattenAll(a, parent, base) + FlattenAll(b, parent, base + SizeAll(a))
    decreases |b|
  {
    if b == [] {
      assert a + b == a;
    } else {
      var init, last := b[..|b| - 1], b[|b| - 1];
      FlattenConcat(a, init, parent, base);
      assert (a + b)[..|a + b| - 1] == a + init;
    }
  }

  lemma FlattenLeaf(t: Tree, parent: int, base: nat)
    requires t.kids == []
    ensures Size(t) == 1 && Flatten(t, parent, base) == [Token(t.kind, t.start, t.end, parent)]
  {
  }

  lemma FlattenItem(kids: seq<Tree>, parent: int, base: nat)
    requires 1 <= |kids| <= 2
    ensures |kids| == 1 ==> SizeAll(kids) == Size(kids[0]) && FlattenAll(kids, parent, base) == Flatten(kids[0], parent, base)
    ensures |kids| == 2 ==>
              && SizeAll(kids) == Size(kids[0]) + Size(kids[1])
              && FlattenAll(kids, parent, base)
                 == Flatten(kids[0], parent, base) + Flatten(kids[1], parent, base + Size(kids[0]))
  {
    hide Flatten, FlattenAll, Size, SizeAll;
    FlattenNone(parent, base);
    FlattenSnoc([], kids[0], parent, base);
    assert [] + [kids[0]] == [kids[0]];
    if |kids| == 1 {
      assert kids == [kids[0]];
    } else {
      FlattenSnoc([kids[0]], kids[1], parent, base);
      assert kids == [kids[0]] + [kids[1]];
    }
  }

  lemma FlattenNone(parent: int, base: nat)
    ensures SizeAll([]) == 0 && FlattenAll([], parent, base) == []
  {
  }

  lemma AppendItem(prefix: seq<Token>, done: seq<Tree>, item: seq<Tree>, container: nat, rest: ReadAll)
    ensures prefix + FlattenAll(done, container, container + 1)
                   + FlattenAll(item, container, container + 1 + SizeAll(done))
         == prefix + FlattenAll(done + item, container, container + 1)
    ensures Prepend(done, Prepend(item, rest)) == Prepend(done + item, rest)
  {
    hide FlattenAll, SizeAll;
    FlattenConcat(done, item, container, container + 1);
    if rest.ReadAll? { assert done + (item + rest.kids) == done + item + rest.kids; }
  }

  lemma ReplaceMiddle<T>(a: seq<T>, x: T, b: seq<T>, y: T)
    ensures (a + [x] + b)[|a| := y] == a + ([y] + b)
  {
  }

  lemma CloseContainer(before: seq<Token>, header: Token, t: Tree)
    requires header == Token(t.kind, t.start, -1, header.parent)
    ensures (before + [header] + FlattenAll(t.kids, |before|, |before| + 1))[|before| := header.(end := t.end)]
         == before + Flatten(t, header.parent, |before|)
    ensures Size(t) == 1 + SizeAll(t.kids)
  {
    hide FlattenAll, SizeAll;
    ReplaceMiddle(before, header, FlattenAll(t.kids, |before|, |before| + 1), header.(end := t.end));
  }

  /** A partial container cannot fit when its items so far plus the next one do not. */
  lemma Overflow(done: seq<Tree>, text: bytes, pos: nat, depth: nat, kind: Kind, room: int)
    requires pos <= |text|
    requires !FitsAll(ReadItem(text, pos, depth, kind), room - SizeAll(done))
    ensures !FitsAll(Prepend(done, ReadItems(text, pos, depth, kind)), room)
  {
    hide ReadItem, ReadItems, SkipSpace, Closer, SizeAll, FlattenAll;
    match ReadItems(text, pos, depth, kind)
    case FailAll =>
    case ReadAll(rest, next) =>
      ItemsStart(text, pos, depth, kind);
      var item := ReadItem(text, pos, depth, kind).kids;
      assert rest == item + rest[|item|..];
      FlattenConcat(done, rest, 0, 0);
      FlattenConcat(item, rest[|item|..], 0, 0);
  }

  lemma ItemsStart(text: bytes, pos: nat, depth: nat, kind: Kind)
    requires pos <= |text| && ReadItems(text, pos, depth, kind).ReadAll?
    ensures ReadItem(text, pos, depth, kind).ReadAll?
    ensures ReadItem(text, pos, depth, kind).kids <= ReadItems(text, pos, depth, kind).kids
  {
    hide ReadItem, SkipSpace, Closer;
  }

  datatype Turn = Failed | Closed | More

  /** How one turn of a container loop ends. */
  ghost function TurnAt(text: bytes, pos: nat, depth: nat, kind: Kind, room: int): Turn
    requires pos <= |text|
  {
    var r := ReadItem(text, pos, depth, kind);
    if !FitsAll(r, room) then Failed
    else
      var p := SkipSpace(text, r.next);
      if p >= |text| then Failed else if text[p] == Closer(kind) then Closed else if text[p] == COMMA then More else Failed
  }

  lemma TurnReads(text: bytes, pos: nat, depth: nat, kind: Kind, done: seq<Tree>, room: int)
    requires pos <= |text|
    ensures var turn := TurnAt(text, pos, depth, kind, room - SizeAll(done));
            var all := ReadItems(text, pos, depth, kind);
            if turn == Failed then !FitsAll(Prepend(done, all), room)
            else
              var r := ReadItem(text, pos, depth, kind);
              var p := SkipSpace(text, r.next);
              && r.ReadAll? && pos < r.next && p < |text|
              && (turn == Closed ==> all == Prepend(r.kids, ReadAll([], p + 1)))
              && (turn == More ==> all == Prepend(r.kids, ReadItems(text, SkipSpace(text, p + 1), depth, kind)))
  {
    hide ReadItem, SkipSpace, Closer, SizeAll;
    if !FitsAll(ReadItem(text, pos, depth, kind), room - SizeAll(done)) {
      Overflow(done, text, pos, depth, kind, room);
    } else {
      assert ReadItem(text, pos, depth, kind).kids + [] == ReadItem(text, pos, depth, kind).kids;
    }
  }

  class Parser {
    const text: bytes
    const tokens: array<Token>
    var position: nat
    var count: nat

    ghost predicate Valid()
      reads this
    {
      position <= |text| && count <= tokens.Length
    }

    ghost function Emitted(): (s: seq<Token>)
      requires Valid()
      reads this, tokens
    {
      tokens[..count]
    }

    ghost function Room(): int
      reads this
    {
      tokens.Length - count
    }

    constructor (text: bytes, tokens: array<Token>)
      ensures Valid() && this.text == text && this.tokens == tokens
      ensures position == 0 && Emitted() == []
    {
      this.text := text;
      this.tokens := tokens;
      position := 0;
      count := 0;
    }

    method SkipSpaces()
      requires Valid()
      modifies this`position
      ensures Valid() && position == SkipSpace(text, old(position))
    {
      while position < |text| && IsSpace(text[position])
        invariant position <= |text| && SkipSpace(text, position) == SkipSpace(text, old(position))
      {
        position := position + 1;
      }
    }

    method NewToken(kind: Kind, start: nat, parent: int) returns (index: int)
      requires Valid()
      modifies this`count, tokens
      ensures Valid()
      ensures index == -1 || index == old(count)
      ensures index == -1 <==> old(Room()) == 0
      ensures index == -1 ==> Emitted() == old(Emitted())
      ensures index >= 0 ==> Emitted() == old(Emitted()) + [Token(kind, start, -1, parent)]
    {
      if count >= tokens.Length {
        return -1;
      }
      tokens[count] := Token(kind, start, -1, parent);
      index := count;
      count := count + 1;
    }

    method CloseToken(index: nat, end: nat)
      requires Valid() && index < count
      modifies tokens
      ensures Emitted() == old(Emitted())[index := old(Emitted())[index].(end := end)]
    {
      tokens[index] := tokens[index].(end := end);
    }

    method ParseString(parent: int) returns (index: int)
      requires Valid()
      modifies this`position, this`count, tokens
      ensures Valid() && -1 <= index
      ensures var r := ReadString(text, old(position));
              if Fits(r, old(Room())) then
                && index == old(count) && position == r.next
                && Emitted() == old(Emitted()) + Flatten(r.tree, parent, old(count))
              else index == -1
    {
      if position >= |text| || text[position] != QUOTE {
        return -1;
      }
      position := position + 1;
      var start := position;
      index := NewToken(String, start, parent);
      if index < 0 {
        return -1;
      }
      while position < |text|
        invariant start <= position <= |text| && count == index + 1 <= tokens.Length
        invariant ScanString(text, position) == ScanString(text, start)
        invariant Emitted() == old(Emitted()) + [Token(String, start, -1, parent)]
      {
        var value := text[position];
        position := position + 1;
        if value == QUOTE {
          CloseToken(index, position - 1);
          FlattenLeaf(Tree(String, start, position - 1, []), parent, index);
          return index;
        }
        if value < 0x20 {
          return -1;
        }
        if value == BACKSLASH {
          if position >= |text| {
            return -1;
          }
          var escaped := text[position];
          position := position + 1;
          if !IsSimpleEscape(escaped) {
            if escaped != 0x75 || |text| - position < 4 || !FourHex(text, position) {
              return -1;
            }
            position := position + 4;
          }
        }
      }
      return -1;
    }

    method ParsePrimitive(parent: int) returns (index: int)
      requires Valid()
      modifies this`position, this`count, tokens
      ensures Valid() && -1 <= index
      ensures var r := ReadPrimitive(text, old(position));
              if Fits(r, old(Room())) then
                && index == old(count) && position == r.next
                && Emitted() == old(Emitted()) + Flatten(r.tree, parent, old(count))
              else index == -1
    {
      var start := position;
      while position < |text| && !EndsPrimitive(text[position])
        modifies this`position
        invariant start <= position <= |text| && ScanPrimitive(text, position) == ScanPrimitive(text, start)
      {
        position := position + 1;
      }
      if position == start {
        return -1;
      }
      var body := text[start..position];
      if body != TRUE && body != FALSE && body != NULL {
        var number := ValidNumber(body);
        if !number {
          return -1;
        }
      }
      FlattenLeaf(Tree(Primitive, start, position, []), parent, count);
      index := NewToken(Primitive, start, parent);
      if index < 0 {
        return -1;
      }
      CloseToken(index, position);
    }

    method ParseValue(parent: int, depth: nat) returns (index: int)
      requires Valid()
      modifies this`position, this`count, tokens
      ensures Valid() && -1 <= index
      ensures var r := ReadValue(text, old(position), depth);
              if Fits(r, old(Room())) then
                && index == old(count) && position == r.next
                && Emitted() == old(Emitted()) + Flatten(r.tree, parent, old(count))
              else index == -1
      decreases |text| - position, 1
    {
      hide ReadContainer, ReadString, ReadPrimitive;
      if position >= |text| {
        return -1;
      }
      if text[position] == OPEN_BRACE || text[position] == OPEN_BRACKET {
        index := ParseContainer(parent, depth);
      } else if text[position] == QUOTE {
        index := ParseString(parent);
      } else {
        index := ParsePrimitive(parent);
      }
    }

    /** One turn of the loops of `parse_object` and `parse_array`, up to the value. */
    method ParseItem(kind: Kind, parent: int, depth: nat) returns (ok: bool)
      requires Valid() && kind in {Object, Array}
      modifies this`position, this`count, tokens
      ensures Valid()
      ensures var r := ReadItem(text, old(position), depth, kind);
              && ok == FitsAll(r, old(Room()))
              && (ok ==> position == r.next && Emitted() == old(Emitted()) + FlattenAll(r.kids, parent, old(count)))
      decreases |text| - position, 2
    {
      hide ReadValue, ReadString, SkipSpace, Size, SizeAll, Flatten, FlattenAll;
      ghost var whole := ReadItem(text, position, depth, kind);
      if whole.ReadAll? { FlattenItem(whole.kids, parent, count); }
      if kind == Object {
        var index := ParseString(parent);
        if index < 0 {
          return false;
        }
        SkipSpaces();
        if position >= |text| || text[position] != COLON {
          return false;
        }
        position := position + 1;
        SkipSpaces();
        index := ParseValue(parent, depth);
        ok := index >= 0;
      } else {
        var index := ParseValue(parent, depth);
        ok := index >= 0;
      }
    }

    /** `parse_object` and `parse_array`, which differ only in the key of an item. */
    method ParseContainer(parent: int, depth: nat) returns (index: int)
      requires Valid() && position < |text| && text[position] in {OPEN_BRACE, OPEN_BRACKET}
      modifies this`position, this`count, tokens
      ensures Valid() && -1 <= index
      ensures var r := ReadContainer(text, old(position), depth);
              if Fits(r, old(Room())) then
                && index == old(count) && position == r.next
                && Emitted() == old(Emitted()) + Flatten(r.tree, parent, old(count))
              else index == -1
      decreases |text| - position, 0
    {
      hide ReadItems, ReadItem, SkipSpace;
      var kind := if text[position] == OPEN_BRACE then Object else Array;
      var start := position;
      if depth > MAX_DEPTH {
        return -1;
      }
      index := NewToken(kind, start, parent);
      if index < 0 {
        return -1;
      }
      position := position + 1;
      SkipSpaces();
      if position < |text| && text[position] == Closer(kind) {
        position := position + 1;
        CloseToken(index, position);
        FlattenLeaf(Tree(kind, start, position, []), parent, index);
        return;
      }
      index := ParseItems(kind, start, index, parent, depth + 1, old(Emitted()));
    }

    /** The item and the separator after it: the rest of one turn of those loops. */
    method ParseTurn(kind: Kind, parent: int, depth: nat) returns (turn: Turn)
      requires Valid() && kind in {Object, Array}
      modifies this`position, this`count, tokens
      ensures Valid()
      ensures turn == TurnAt(text, old(position), depth, kind, old(Room()))
      ensures turn != Failed ==>
                var r := ReadItem(text, old(position), depth, kind);
                var p := SkipSpace(text, r.next);
                && Emitted() == old(Emitted()) + FlattenAll(r.kids, parent, old(count))
                && position == (if turn == Closed then p + 1 else SkipSpace(text, p + 1))
      decreases |text| - position, 3
    {
      hide ReadItem, SkipSpace, Closer, SizeAll, FlattenAll;
      var ok := ParseItem(kind, parent, depth);
      if !ok {
        return Failed;
      }
      SkipSpaces();
      if position >= |text| {
        return Failed;
      }
      if text[position] == Closer(kind) {
        position := position + 1;
        return Closed;
      }
      position := position + 1;
      if text[position - 1] != COMMA {
        return Failed;
      }
      SkipSpaces();
      return More;
    }

    /** The loop of a non-empty container. */
    method ParseItems(kind: Kind, start: nat, container: nat, parent: int, depth: nat, ghost before: seq<Token>)
      returns (index: int)
      requires Valid() && kind in {Object, Array} && start < position && container == |before|
      requires Emitted() == before + [Token(kind, start, -1, parent)]
      modifies this`position, this`count, tokens
      ensures Valid() && -1 <= index
      ensures var r := ReadItems(text, old(position), depth, kind);
              if FitsAll(r, old(Room())) then
                && index == container && position == r.next
                && Emitted() == before + Flatten(Tree(kind, start, r.next, r.kids), parent, container)
              else index == -1
      decreases |text| - position, 4
    {
      hide ReadItem, ReadItems, SkipSpace, Closer, Size, SizeAll, Flatten, FlattenAll, TurnAt;
      ghost var whole := ReadItems(text, position, depth, kind);
      ghost var done: seq<Tree> := [];
      ghost var header := Token(kind, start, -1, parent);
      FlattenNone(container, container + 1);
      while true
        invariant Valid() && start < position && old(position) <= position
        invariant whole == Prepend(done, ReadItems(text, position, depth, kind))
        invariant Emitted() == before + [header] + FlattenAll(done, container, container + 1)
        decreases |text| - position
      {
        ghost var item := ReadItem(text, position, depth, kind);
        TurnReads(text, position, depth, kind, done, old(Room()));
        var turn := ParseTurn(kind, container, depth);
        if turn == Failed {
          return -1;
        }
        AppendItem(before + [header], done, item.kids, container,
                   if turn == Closed then ReadAll([], position) else ReadItems(text, position, depth, kind));
        done := done + item.kids;
        if turn == Closed {
          CloseToken(container, position);
          CloseContainer(before, header, Tree(kind, start, position, done));
          assert done + [] == done;
          return container;
        }
      }
    }
  }

  /** `parse_json`: the token count, or -1. A null text is not representable here. */
  method ParseJson(text: bytes, tokens: array<Token>) returns (count: int)
    modifies tokens
    ensures var t := ReadDocument(text);
            if t.Some? && Size(t.value) <= tokens.Length then
              count == Size(t.value) && tokens[..count] == Flatten(t.value, -1, 0)
            else count == -1
  {
    hide ReadValue, SkipSpace, Size, Flatten;
    if |text| == 0 || |text| > MAX_REQUEST_JSON {
      return -1;
    }
    var parser := new Parser(text, tokens);
    parser.SkipSpaces();
    var root := parser.ParseValue(-1, 0);
    if root != 0 {
      return -1;
    }
    parser.SkipSpaces();
    count := if parser.position == |text| then parser.count else -1;
  }

  // Numbers

  /** Where the run of digits that starts at `pos` ends. */
  method SkipDigits(value: bytes, pos: nat) returns (end: nat)
    requires pos <= |value|
    ensures pos <= end <= |value| && Digits(value[pos..end])
    ensures end == |value| || !IsDigit(value[end])
  {
    end := pos;
    while end < |value| && IsDigit(value[end])
      invariant pos <= end <= |value| && forall i | pos <= i < end :: IsDigit(value[i])
    {
      end := end + 1;
    }
  }

  method ValidNumber(value: bytes) returns (ok: bool)
    ensures ok <==> IsNumber(value)
  {
    hide Unsigned, Fraction, ExpPart;
    var start := if 0 < |value| && value[0] == 0x2D then 1 else 0;
    assert IsNumber(value) == Unsigned(value[start..]);
    if start >= |value| || !IsDigit(value[start]) {
      UnsignedNone(value[start..]);
      return false;
    }
    var whole: nat := start + 1;
    if value[start] != 0x30 {
      whole := SkipDigits(value, start);
    }
    UnsignedAt(value, start, whole);
    var fraction := whole;
    if whole < |value| && value[whole] == 0x2E {
      if whole + 1 >= |value| || !IsDigit(value[whole + 1]) {
        FractionNone(value[whole..]);
        return false;
      }
      fraction := SkipDigits(value, whole + 1);
    }
    FractionAt(value, whole, fraction);
    ok := ValidExponent(value, fraction);
  }

  /** The exponent part of `valid_number`, up to the end of the text. */
  method ValidExponent(value: bytes, pos: nat) returns (ok: bool)
    requires pos <= |value|
    ensures ok <==> ExpPart(value[pos..])
  {
    ghost var s := value[pos..];
    if pos == |value| || value[pos] !in {0x65, 0x45} {
      return pos == |value|;
    }
    var digits := if pos + 1 < |value| && value[pos + 1] in {0x2B, 0x2D} then pos + 2 else pos + 1;
    assert |s| > 1 ==> s[1] == value[pos + 1] && s[digits - pos..] == value[digits..];
    if digits >= |value| || !IsDigit(value[digits]) {
      return false;
    }
    var end := SkipDigits(value, digits);
    assert end < |value| ==> value[digits..][end - digits] == value[end];
    assert end == |value| ==> value[digits..end] == value[digits..];
    ok := end == |value|;
  }

  lemma UnsignedNone(s: bytes)
    requires s == [] || !IsDigit(s[0])
    ensures !Unsigned(s)
  {
    forall k | 0 <= k <= |s|
      ensures !IntPart(s[..k])
    {
      if k > 0 { assert s[..k][0] == s[0]; }
    }
  }

  lemma UnsignedAt(value: bytes, pos: nat, end: nat)
    requires pos < end <= |value| && IsDigit(value[pos])
    requires if value[pos] == 0x30 then end == pos + 1
             else Digits(value[pos..end]) && (end == |value| || !IsDigit(value[end]))
    ensures Unsigned(value[pos..]) == Fraction(value[end..])
  {
    hide Fraction;
    var s, n := value[pos..], end - pos;
    assert s[..n] == value[pos..end] && s[n..] == value[end..];
    forall k | 0 <= k <= |s| && IntPart(s[..k]) && Fraction(s[k..])
      ensures k == n
    {
      assert s[..k][0] == s[0];
      if s[0] != 0x30 {
        FractionStart(s[k..]);
      }
    }
  }

  lemma FractionStart(s: bytes)
    requires Fraction(s)
    ensures s == [] || s[0] in {0x2E, 0x65, 0x45}
  {
    var k :| 0 <= k <= |s| && FracPart(s[..k]) && ExpPart(s[k..]);
    if s != [] {
      if k == 0 { assert s[k..] == s; } else { assert s[..k][0] == s[0]; }
    }
  }

  lemma FractionNone(s: bytes)
    requires s != [] && s[0] == 0x2E && (|s| == 1 || !IsDigit(s[1]))
    ensures !Fraction(s)
  {
    forall k | 0 <= k <= |s|
      ensures !FracPart(s[..k]) || !ExpPart(s[k..])
    {
      if k == 0 {
        assert s[k..] == s;
      } else if k > 1 {
        assert s[..k][1..][0] == s[1];
      }
    }
  }

  /** A fraction and exponent split of `s`, read byte by byte. */
  lemma SplitBytes(s: bytes, k: nat)
    requires k <= |s| && FracPart(s[..k])
    ensures k == 0 || (k > 1 && s[0] == 0x2E && forall i | 1 <= i < k :: IsDigit(s[i]))
    ensures ExpPart(s[k..]) ==> k == |s| || s[k] in {0x65, 0x45}
  {
    if k > 0 {
      assert s[..k][0] == s[0];
      forall i | 1 <= i < k
        ensures IsDigit(s[i])
      {
        assert s[i] == s[..k][1..][i - 1];
      }
    }
    if k < |s| { assert s[k..][0] == s[k]; }
  }

  lemma FractionAt(value: bytes, pos: nat, end: nat)
    requires pos <= end <= |value|
    requires if pos < |value| && value[pos] == 0x2E
             then pos + 1 < end && Digits(value[pos + 1..end]) && (end == |value| || !IsDigit(value[end]))
             else end == pos
    ensures Fraction(value[pos..]) == ExpPart(value[end..])
  {
    hide ExpPart;
    var s, n := value[pos..], end - pos;
    assert s[n..] == value[end..];
    if n > 0 { assert s[..n][1..] == value[pos + 1..end]; }
    assert FracPart(s[..n]);
    SplitBytes(s, n);
    forall k | 0 <= k <= |s| && FracPart(s[..k]) && ExpPart(s[k..])
      ensures k == n
    {
      hide FracPart, Digits;
      SplitBytes(s, k);
    }
  }
}
