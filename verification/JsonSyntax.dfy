/** Bytes, tokens and syntax trees shared by the native JSON codec modules. */
module JsonSyntax {

  type byte = b: int | 0 <= b < 256

  type bytes = seq<byte>

  datatype Option<+T> = None | Some(value: T)

  datatype Kind = Object | Array | String | Primitive

  /** One entry of the flat token array. `parent` is an index into the same array, or -1. */
  datatype Token = Token(kind: Kind, start: int, end: int, parent: int)

  /** The nesting that a token array encodes. The span of a string excludes its quotes. */
  datatype Tree = Tree(kind: Kind, start: nat, end: nat, kids: seq<Tree>)

  const QUOTE: byte := 0x22
  const COMMA: byte := 0x2C
  const COLON: byte := 0x3A
  const BACKSLASH: byte := 0x5C
  const OPEN_BRACKET: byte := 0x5B
  const CLOSE_BRACKET: byte := 0x5D
  const OPEN_BRACE: byte := 0x7B
  const CLOSE_BRACE: byte := 0x7D

  const MAX_REQUEST_JSON := 64 * 1024
  const MAX_DEPTH := 16

  /** C-locale `isspace`: a superset of the white space of section 2 of RFC 8259. */
  predicate IsSpace(b: byte) {
    b == 0x20 || 0x09 <= b <= 0x0D
  }

  predicate IsDigit(b: byte) {
    0x30 <= b <= 0x39
  }

  predicate IsHex(b: byte) {
    IsDigit(b) || 0x61 <= b <= 0x66 || 0x41 <= b <= 0x46
  }

  /** Bytes after a backslash that end the escape. `strchr` also finds the terminating NUL. */
  predicate IsSimpleEscape(b: byte) {
    b in {0x22, 0x5C, 0x2F, 0x62, 0x66, 0x6E, 0x72, 0x74, 0}
  }

  /** Bytes that end a primitive. `strchr` also finds the terminating NUL. */
  predicate EndsPrimitive(b: byte) {
    b in {0x20, 0x09, 0x0D, 0x0A, 0x2C, 0x5D, 0x7D, 0}
  }

  const TRUE: bytes := [0x74, 0x72, 0x75, 0x65]
  const FALSE: bytes := [0x66, 0x61, 0x6C, 0x73, 0x65]
  const NULL: bytes := [0x6E, 0x75, 0x6C, 0x6C]

  // Numbers, by the productions of section 6 of RFC 8259.

  predicate Digits(s: bytes) {
    forall i | 0 <= i < |s| :: IsDigit(s[i])
  }

  predicate IntPart(s: bytes) {
    s == [0x30] || (s != [] && s[0] != 0x30 && Digits(s))
  }

  predicate FracPart(s: bytes) {
    s == [] || (|s| > 1 && s[0] == 0x2E && Digits(s[1..]))
  }

  predicate ExpPart(s: bytes) {
    s == [] ||
    (|s| > 1 && s[0] in {0x65, 0x45} &&
     var digits := if s[1] in {0x2B, 0x2D} then s[2..] else s[1..];
     digits != [] && Digits(digits))
  }

  ghost predicate Fraction(s: bytes) {
    exists k | 0 <= k <= |s| :: FracPart(s[..k]) && ExpPart(s[k..])
  }

  ghost predicate Unsigned(s: bytes) {
    exists k | 0 <= k <= |s| :: IntPart(s[..k]) && Fraction(s[k..])
  }

  ghost predicate IsNumber(s: bytes) {
    if s != [] && s[0] == 0x2D then Unsigned(s[1..]) else Unsigned(s)
  }

  ghost predicate IsPrimitive(s: bytes) {
    s == TRUE || s == FALSE || s == NULL || IsNumber(s)
  }

  /** The position of the opening delimiter of a value. */
  function Open(t: Tree): int {
    if t.kind == String then t.start - 1 else t.start
  }

  /** The position just past the closing delimiter of a value. */
  function Close(t: Tree): int {
    if t.kind == String then t.end + 1 else t.end
  }

  function Size(t: Tree): (n: nat)
    ensures n >= 1
    decreases t
  {
    1 + SizeAll(t.kids)
  }

  function SizeAll(kids: seq<Tree>): (n: nat)
    ensures n >= |kids|
    decreases kids
  {
    if kids == [] then 0 else SizeAll(kids[..|kids| - 1]) + Size(kids[|kids| - 1])
  }

  /** The preorder of a tree whose root lands at index `base`. */
  function Flatten(t: Tree, parent: int, base: nat): (s: seq<Token>)
    ensures |s| == Size(t)
    decreases t
  {
    [Token(t.kind, t.start, t.end, parent)] + FlattenAll(t.kids, base, base + 1)
  }

  function FlattenAll(kids: seq<Tree>, parent: int, base: nat): (s: seq<Token>)
    ensures |s| == SizeAll(kids)
    decreases kids
  {
    if kids == [] then []
    else
      var init := kids[..|kids| - 1];
      FlattenAll(init, parent, base) + Flatten(kids[|kids| - 1], parent, base + SizeAll(init))
  }

  lemma FlattenSnoc(kids: seq<Tree>, kid: Tree, parent: int, base: nat)
    ensures FlattenAll(kids + [kid], parent, base)
         == FlattenAll(kids, parent, base) + Flatten(kid, parent, base + SizeAll(kids))
    ensures SizeAll(kids + [kid]) == SizeAll(kids) + Size(kid)
  {
    var all := kids + [kid];
    assert all[..|all| - 1] == kids;
  }
}
