/** The string printer, the UTF-8 recogniser and the unescaper of the native codec. */
module JsonStrings {
  import opened JsonSyntax
  import opened JsonGrammar

  // UTF-8

  /** A C string read at any offset: NUL past its end. */
  function At(s: bytes, i: nat): byte {
    if i < |s| then s[i] else 0
  }

  predicate Tail(b: byte) {
    0x80 <= b <= 0xBF
  }

  /** `utf8_sequence_length` at offset `i`. */
  function SequenceLength(s: bytes, i: nat): nat {
    var a, b, c, d := At(s, i), At(s, i + 1), At(s, i + 2), At(s, i + 3);
    if a < 0x80 then 1
    else if 0xC2 <= a <= 0xDF && Tail(b) then 2
    else if 0xE0 <= a <= 0xEF && Tail(b) && Tail(c) && !(a == 0xE0 && b < 0xA0) && !(a == 0xED && b >= 0xA0) then 3
    else if 0xF0 <= a <= 0xF4 && Tail(b) && Tail(c) && Tail(d) && !(a == 0xF0 && b < 0x90) && !(a == 0xF4 && b >= 0x90) then 4
    else 0
  }

  /** The production `UTF8-char` of section 4 of RFC 3629. */
  predicate Utf8Char(s: bytes) {
    match |s|
    case 1 => s[0] <= 0x7F
    case 2 => 0xC2 <= s[0] <= 0xDF && Tail(s[1])
    case 3 =>
      && Tail(s[2])
      && ((s[0] == 0xE0 && 0xA0 <= s[1] <= 0xBF) || (0xE1 <= s[0] <= 0xEC && Tail(s[1])) ||
          (s[0] == 0xED && 0x80 <= s[1] <= 0x9F) || (0xEE <= s[0] <= 0xEF && Tail(s[1])))
    case 4 =>
      && Tail(s[2]) && Tail(s[3])
      && ((s[0] == 0xF0 && 0x90 <= s[1] <= 0xBF) || (0xF1 <= s[0] <= 0xF3 && Tail(s[1])) ||
          (s[0] == 0xF4 && 0x80 <= s[1] <= 0x8F))
    case _ => false
  }

  /** The production `UTF8-octets`. */
  ghost predicate WellFormed(s: bytes)
    decreases |s|
  {
    s == [] || exists k | 1 <= k <= |s| :: Utf8Char(s[..k]) && WellFormed(s[k..])
  }

  predicate IsScalar(v: int) {
    0 <= v <= 0x10FFFF && !(0xD800 <= v <= 0xDFFF)
  }

  /** The octets of a character number, by section 3 of RFC 3629. */
  function Encode(v: int): bytes
    requires IsScalar(v)
  {
    if v < 0x80 then [v]
    else if v < 0x800 then [0xC0 + v / 64, 0x80 + v % 64]
    else if v < 0x10000 then [0xE0 + v / 4096, 0x80 + v / 64 % 64, 0x80 + v % 64]
    else [0xF0 + v / 262144, 0x80 + v / 4096 % 64, 0x80 + v / 64 % 64, 0x80 + v % 64]
  }

  /** The character number of an octet sequence, from its payload bits. */
  function Decode(s: bytes): int
    requires Utf8Char(s)
  {
    match |s|
    case 1 => s[0]
    case 2 => Payload(s[0] - 0xC0, s, 1)
    case 3 => Payload(Payload(s[0] - 0xE0, s, 1), s, 2)
    case _ => Payload(Payload(Payload(s[0] - 0xF0, s, 1), s, 2), s, 3)
  }

  function Payload(high: int, s: bytes, i: nat): int
    requires i < |s|
  {
    high * 64 + s[i] as int - 0x80
  }

  /** The grammar's characters are exactly the encodings of scalar values. */
  lemma CharsAreEncodings(s: bytes)
    ensures Utf8Char(s) <==> exists v | IsScalar(v) :: Encode(v) == s
  {
    if Utf8Char(s) {
      DecodeInverts(s);
    }
    forall v | IsScalar(v) && Encode(v) == s
      ensures Utf8Char(s)
    {
      EncodeIsChar(v);
    }
  }

  lemma DecodeInverts(s: bytes)
    requires Utf8Char(s)
    ensures IsScalar(Decode(s)) && Encode(Decode(s)) == s
  {
    match |s|
    case 1 =>
    case 2 => PayloadDigits(s[0] - 0xC0, s, 1);
    case 3 =>
      PayloadDigits(s[0] - 0xE0, s, 1);
      PayloadDigits(Payload(s[0] - 0xE0, s, 1), s, 2);
    case _ => DecodeFour(s);
  }

  lemma DecodeFour(s: bytes)
    requires Utf8Char(s) && |s| == 4
    ensures IsScalar(Decode(s)) && Encode(Decode(s)) == s
  {
    hide Payload;
    var high := Payload(s[0] - 0xF0, s, 1);
    var middle := Payload(high, s, 2);
    PayloadDigits(s[0] - 0xF0, s, 1);
    PayloadDigits(high, s, 2);
    PayloadDigits(middle, s, 3);
    assert 0xF0 <= s[0] <= 0xF4;
    PayloadIs(s[0] - 0xF0, s, 1);
    PayloadIs(high, s, 2);
    PayloadIs(middle, s, 3);
  }

  lemma PayloadIs(high: int, s: bytes, i: nat)
    requires i < |s|
    ensures Payload(high, s, i) == high * 64 + s[i] as int - 0x80
  {
  }

  lemma PayloadDigits(high: int, s: bytes, i: nat)
    requires i < |s| && Tail(s[i]) && high >= 0
    ensures var v := Payload(high, s, i);
            v / 64 == high && v % 64 == s[i] - 0x80 && v / 4096 == high / 64 && v / 262144 == high / 4096
  {
  }

  lemma EncodeIsChar(v: int)
    requires IsScalar(v)
    ensures Utf8Char(Encode(v))
  {
    if v >= 0x10000 {
      FourDigits(v);
    } else if v >= 0x800 {
      ThreeDigits(v);
    }
  }

  lemma ThreeDigits(v: int)
    requires 0x800 <= v < 0x10000
    ensures var a, b := v / 4096, v / 64 % 64;
            && 0 <= a < 16 && 0 <= b < 64 && (a == 0 ==> b >= 0x20)
            && (a == 13 && b >= 0x20 ==> 0xD800 <= v <= 0xDFFF)
  {
    var a, q, c := v / 4096, v / 64, v % 64;
    assert v == 64 * q + c && a == q / 64 && q == 64 * a + q % 64;
  }

  lemma FourDigits(v: int)
    requires 0x10000 <= v <= 0x10FFFF
    ensures var a, b := v / 262144, v / 4096 % 64;
            0 <= a <= 4 && 0 <= b < 64 && (a == 0 ==> b >= 0x10) && (a == 4 ==> b < 0x10)
  {
    var q := v / 4096;
    assert v / 262144 == q / 64 && q == 64 * (q / 64) + q % 64;
  }

  lemma LengthIsChar(s: bytes, i: nat)
    requires i < |s|
    ensures var n := SequenceLength(s, i);
            && (n > 0 ==> i + n <= |s| && Utf8Char(s[i..i + n]))
            && forall c | c <= s[i..] && Utf8Char(c) :: |c| == n
  {
    forall c | c <= s[i..] && Utf8Char(c)
      ensures |c| == SequenceLength(s, i)
    {
      assert forall j | 0 <= j < |c| :: c[j] == At(s, i + j);
    }
  }

  lemma SliceOfSuffix(s: bytes, i: nat, n: nat)
    requires i + n <= |s|
    ensures s[i..][..n] == s[i..i + n] && s[i..][n..] == s[i + n..]
  {
  }

  /** `utf8_sequence_length` recognises exactly the octet sequences of section 4 of RFC 3629. */
  lemma WellFormedStep(s: bytes, i: nat)
    requires i < |s|
    ensures WellFormed(s[i..]) <==> SequenceLength(s, i) > 0 && WellFormed(s[i + SequenceLength(s, i)..])
    ensures SequenceLength(s, i) <= |s| - i
  {
    hide Utf8Char, SequenceLength;
    LengthIsChar(s, i);
    var n, rest := SequenceLength(s, i), s[i..];
    if n > 0 { SliceOfSuffix(s, i, n); }
    if WellFormed(rest) {
      var k :| 1 <= k <= |rest| && Utf8Char(rest[..k]) && WellFormed(rest[k..]);
      assert rest[..k] <= s[i..];
    }
  }

  // The printer

  function HexDigit(d: nat): byte
    requires d < 16
  {
    if d < 10 then 0x30 + d else 0x61 + d - 10
  }

  const REPLACEMENT: bytes := [BACKSLASH, 0x75, 0x66, 0x66, 0x66, 0x64]

  /** How many input bytes the printer consumes at offset `i`. */
  function Step(text: bytes, i: nat): (n: nat)
    requires i < |text|
    ensures 1 <= n <= |text| - i
  {
    if text[i] < 0x80 || SequenceLength(text, i) == 0 then 1 else SequenceLength(text, i)
  }

  /** What the printer emits for them. */
  function Unit(text: bytes, i: nat): bytes
    requires i < |text|
  {
    var value := text[i];
    if value == QUOTE || value == BACKSLASH then [BACKSLASH, value]
    else if 0x20 <= value <= 0x7E then [value]
    else if value >= 0x80 then
      if SequenceLength(text, i) > 0 then text[i..i + Step(text, i)] else REPLACEMENT
    else [BACKSLASH, 0x75, 0x30, 0x30, HexDigit(value / 16), HexDigit(value % 16)]
  }

  function Escaped(text: bytes, i: nat): bytes
    requires i <= |text|
    decreases |text| - i
  {
    if i == |text| then [] else Unit(text, i) + Escaped(text, i + Step(text, i))
  }

  function Literal(text: bytes): bytes {
    [QUOTE] + Escaped(text, 0) + [QUOTE]
  }

  class JsonBuffer {
    const data: array<byte>
    var length: nat
    var failed: bool

    ghost predicate Valid()
      reads this
    {
      !failed ==> length < data.Length
    }

    ghost function Contents(): bytes
      requires Valid() && !failed
      reads this, data
    {
      data[..length]
    }

    constructor (data: array<byte>)
      ensures Valid() && this.data == data && failed == (data.Length == 0)
      ensures !failed ==> Contents() == []
    {
      this.data := data;
      length := 0;
      failed := data.Length == 0;
    }

    method AppendN(text: bytes)
      requires Valid()
      modifies this, data
      ensures Valid()
      ensures failed == (old(failed) || old(length) + |text| >= data.Length)
      ensures length == old(length) + if failed then 0 else |text|
      ensures !failed ==> Contents() == old(Contents()) + text
    {
      if failed || |text| > data.Length - length - 1 {
        failed := true;
        return;
      }
      forall i | 0 <= i < |text| {
        data[length + i] := text[i];
      }
      length := length + |text|;
      data[length] := 0;
    }

    /** `buffer_string`, on the bytes of a C string before its NUL. */
    method AppendString(text: bytes)
      requires Valid() && 0 !in text
      modifies this, data
      ensures Valid()
      ensures failed == (old(failed) || old(length) + |Literal(text)| >= data.Length)
      ensures !failed ==> Contents() == old(Contents()) + Literal(text)
    {
      hide Unit, Step;
      AppendN([QUOTE]);
      var cursor := 0;
      ghost var done := [QUOTE];
      while !failed && cursor < |text|
        invariant Valid() && cursor <= |text|
        invariant done + Escaped(text, cursor) + [QUOTE] == Literal(text)
        invariant failed ==> old(failed) || old(length) + |Literal(text)| >= data.Length
        invariant !failed ==> !old(failed) && length == old(length) + |done| && Contents() == old(Contents()) + done
        decreases |text| - cursor
      {
        ghost var next := cursor + Step(text, cursor);
        AppendUnit(done, text, cursor);
        done := done + Unit(text, cursor);
        cursor := PrintUnit(text, cursor);
      }
      if !failed { assert done + [] + [QUOTE] == done + [QUOTE]; }
      AppendN([QUOTE]);
    }

    /** One turn of the printer's loop. */
    method PrintUnit(text: bytes, cursor: nat) returns (next: nat)
      requires Valid() && !failed && cursor < |text|
      modifies this, data
      ensures Valid() && next == cursor + Step(text, cursor)
      ensures failed == (old(length) + |Unit(text, cursor)| >= data.Length)
      ensures length == old(length) + if failed then 0 else |Unit(text, cursor)|
      ensures !failed ==> Contents() == old(Contents()) + Unit(text, cursor)
    {
      hide SequenceLength;
      var value := text[cursor];
      next := cursor + 1;
      if value == QUOTE || value == BACKSLASH {
        AppendN([BACKSLASH, value]);
      } else if 0x20 <= value <= 0x7E {
        AppendN([value]);
      } else if value >= 0x80 {
        var n := SequenceLength(text, cursor);
        if n > 0 {
          AppendN(text[cursor..cursor + Step(text, cursor)]);
          next := cursor + n;
        } else {
          AppendN(REPLACEMENT);
        }
      } else {
        AppendN([BACKSLASH, 0x75, 0x30, 0x30, HexDigit(value / 16), HexDigit(value % 16)]);
      }
    }
  }

  lemma AppendUnit(done: bytes, text: bytes, i: nat)
    requires i < |text|
    ensures done + Escaped(text, i) + [QUOTE]
         == (done + Unit(text, i)) + Escaped(text, i + Step(text, i)) + [QUOTE]
  {
    hide Unit, Step;
  }

  // What the printer emits is one string token.

  lemma {:induction false} PlainPrefix(p: bytes, rest: bytes)
    requires StringBody(rest) && forall i | 0 <= i < |p| :: p[i] >= 0x20 && p[i] !in {QUOTE, BACKSLASH}
    ensures StringBody(p + rest)
    decreases |p|
  {
    if p == [] {
      assert p + rest == rest;
    } else {
      PlainPrefix(p[1..], rest);
      assert (p + rest)[1..] == p[1..] + rest;
    }
  }

  lemma EscapePrefix(e: bytes, rest: bytes)
    requires StringBody(rest) && |e| in {2, 6} && e[0] == BACKSLASH
    requires if |e| == 2 then IsSimpleEscape(e[1]) else e[1] == 0x75 && FourHex(e, 2)
    ensures StringBody(e + rest)
  {
    var s := e + rest;
    assert s[|e|..] == rest;
    if |e| == 6 {
      forall i | 2 <= i < 6
        ensures IsHex(s[i])
      {
        assert s[i] == e[i];
      }
      assert FourHex(s, 2);
    }
  }

  lemma MultibyteHigh(s: bytes)
    requires Utf8Char(s) && s[0] >= 0x80
    ensures forall i | 0 <= i < |s| :: s[i] >= 0x80
  {
  }

  lemma UnitPrefix(text: bytes, i: nat, rest: bytes)
    requires i < |text| && StringBody(rest)
    ensures StringBody(Unit(text, i) + rest)
  {
    hide StringBody, SequenceLength, IsHex, Utf8Char;
    var value, unit := text[i], Unit(text, i);
    if value == QUOTE || value == BACKSLASH {
      EscapePrefix(unit, rest);
    } else if value >= 0x80 && SequenceLength(text, i) > 0 {
      LengthIsChar(text, i);
      MultibyteHigh(unit);
      PlainPrefix(unit, rest);
    } else if value >= 0x80 || !(0x20 <= value <= 0x7E) {
      UnitHex(text, i);
      EscapePrefix(unit, rest);
    } else {
      PlainPrefix(unit, rest);
    }
  }

  lemma UnitHex(text: bytes, i: nat)
    requires i < |text| && !(0x20 <= text[i] <= 0x7E)
    requires text[i] >= 0x80 ==> SequenceLength(text, i) == 0
    ensures var unit := Unit(text, i);
            |unit| == 6 && unit[0] == BACKSLASH && unit[1] == 0x75 && FourHex(unit, 2)
  {
    hide SequenceLength;
  }

  lemma {:induction false} EscapedIsBody(text: bytes, i: nat)
    requires i <= |text|
    ensures StringBody(Escaped(text, i))
    decreases |text| - i
  {
    hide Unit, Step, StringBody;
    if i < |text| {
      EscapedIsBody(text, i + Step(text, i));
      UnitPrefix(text, i, Escaped(text, i + Step(text, i)));
    } else {
      assert StringBody([]) by { EmptyBody(); }
    }
  }

  lemma EmptyBody()
    ensures StringBody([])
  {
  }

  /** Whatever surrounds a printed literal, the tokenizer reads it as one string that closes at its last quote. */
  lemma PrintedStringIsRead(before: bytes, text: bytes, after: bytes)
    ensures var body := Escaped(text, 0);
            ReadString(before + Literal(text) + after, |before|)
            == Read(Tree(String, |before| + 1, |before| + 1 + |body|, []), |before| + |Literal(text)|)
  {
    hide Unit, Step, StringBody, Escaped;
    var body, whole := Escaped(text, 0), before + Literal(text) + after;
    EscapedIsBody(text, 0);
    var start := |before| + 1;
    assert whole[start..start + |body|] == body;
    assert whole[|before|] == QUOTE && whole[start + |body|] == QUOTE;
    ScanStringComplete(whole, start, start + |body|);
  }

  // The unescaper

  function Cons(b: byte, rest: Option<bytes>): Option<bytes> {
    match rest
    case None => None
    case Some(s) => Some([b] + s)
  }

  /** The escapes that `copy_utf8_string` resolves; every other escape and control byte is an error. */
  function Unescape(raw: bytes): Option<bytes>
    decreases |raw|
  {
    if raw == [] then Some([])
    else if raw[0] == BACKSLASH then
      if |raw| >= 2 && raw[1] in {QUOTE, BACKSLASH, 0x2F} then Cons(raw[1], Unescape(raw[2..])) else None
    else if raw[0] < 0x20 then None
    else Cons(raw[0], Unescape(raw[1..]))
  }

  /** The bytes that a string token yields when at most `maximum` are allowed. */
  ghost function Copied(raw: bytes, maximum: nat): Option<bytes> {
    match Unescape(raw)
    case None => None
    case Some(s) => if s != [] && |s| <= maximum && WellFormed(s) then Some(s) else None
  }

  method CopyUtf8String(json: bytes, token: Token, output: array<byte>, maximum: nat) returns (ok: bool)
    requires token.kind == String ==> 0 <= token.start <= token.end <= |json|
    modifies output
    ensures ok <==> token.kind == String && maximum < output.Length &&
                    Copied(json[token.start..token.end], maximum).Some?
    ensures ok ==> var s := Copied(json[token.start..token.end], maximum).value;
                   |s| <= maximum && output[..|s|] == s && output[|s|] == 0
  {
    hide Unescape, WellFormed, SequenceLength;
    if token.kind != String || output.Length == 0 || maximum >= output.Length {
      return false;
    }
    ghost var raw := json[token.start..token.end];
    var written := CopyBytes(json, token, output, maximum);
    if written < 0 {
      return false;
    }
    ghost var s := output[..written];
    output[written] := 0;
    assert output[..written] == s;
    var utf8 := IsUtf8(output[..written]);
    ok := utf8 && written > 0;
  }

  /** The checking loop over the bytes just copied. */
  method IsUtf8(s: bytes) returns (ok: bool)
    ensures ok <==> WellFormed(s)
  {
    hide WellFormed, SequenceLength;
    var position := 0;
    EmptyWellFormed();
    assert s[0..] == s;
    while position < |s|
      invariant 0 <= position <= |s|
      invariant WellFormed(s[position..]) == WellFormed(s)
    {
      WellFormedStep(s, position);
      var length := SequenceLength(s, position);
      if length == 0 || length > |s| - position {
        return false;
      }
      position := position + length;
    }
    assert s[position..] == [];
    return true;
  }

  lemma EmptyWellFormed()
    ensures WellFormed([])
  {
  }

  /** The copying loop: the number of bytes written, or -1. */
  method CopyBytes(json: bytes, token: Token, output: array<byte>, maximum: nat) returns (written: int)
    requires 0 <= token.start <= token.end <= |json| && maximum < output.Length
    modifies output
    ensures -1 <= written <= maximum
    ensures var r := Unescape(json[token.start..token.end]);
            if r.Some? && |r.value| <= maximum then written == |r.value| && output[..written] == r.value
            else written == -1
  {
    ghost var whole := Unescape(json[token.start..token.end]);
    var read := token.start;
    written := 0;
    if whole.Some? { assert output[..0] + whole.value == whole.value; }
    while read < token.end
      invariant token.start <= read <= token.end && 0 <= written <= maximum
      invariant whole == Joined(output[..written], Unescape(json[read..token.end]))
    {
      ghost var raw := json[read..token.end];
      var value := json[read];
      read := read + 1;
      assert raw[1..] == json[read..token.end];
      if value == BACKSLASH {
        if read >= token.end {
          return -1;
        }
        value := json[read];
        read := read + 1;
        assert raw[1] == value && raw[2..] == json[read..token.end];
        if value !in {QUOTE, BACKSLASH, 0x2F} {
          return -1;
        }
      }
      if value < 0x20 {
        return -1;
      }
      assert Unescape(raw) == Cons(value, Unescape(json[read..token.end]));
      JoinedStep(output[..written], value, Unescape(json[read..token.end]));
      if written >= maximum {
        return -1;
      }
      ghost var before := output[..written];
      output[written] := value;
      written := written + 1;
      assert output[..written] == before + [value];
    }
    assert json[read..token.end] == [];
    assert output[..written] + [] == output[..written];
  }

  function Joined(s: bytes, rest: Option<bytes>): Option<bytes> {
    match rest
    case None => None
    case Some(r) => Some(s + r)
  }

  lemma JoinedStep(s: bytes, b: byte, rest: Option<bytes>)
    ensures Joined(s, Cons(b, rest)) == Joined(s + [b], rest)
  {
    if rest.Some? { assert s + ([b] + rest.value) == s + [b] + rest.value; }
  }

  // Printing and unescaping

  predicate Printable(b: byte) {
    b >= 0x20 && b != 0x7F
  }

  lemma {:induction false} UnescapePlain(p: bytes, rest: bytes)
    requires forall i | 0 <= i < |p| :: p[i] >= 0x20 && p[i] != BACKSLASH
    ensures Unescape(p + rest) == Joined(p, Unescape(rest))
    decreases |p|
  {
    if p == [] {
      assert p + rest == rest;
      if Unescape(rest).Some? { assert [] + Unescape(rest).value == Unescape(rest).value; }
    } else {
      UnescapePlain(p[1..], rest);
      assert (p + rest)[1..] == p[1..] + rest;
      if Unescape(rest).Some? { assert [p[0]] + (p[1..] + Unescape(rest).value) == p + Unescape(rest).value; }
    }
  }

  lemma UnescapePair(b: byte, rest: bytes)
    requires b in {QUOTE, BACKSLASH}
    ensures Unescape([BACKSLASH, b] + rest) == Joined([b], Unescape(rest))
  {
    assert ([BACKSLASH, b] + rest)[2..] == rest;
  }

  lemma UnescapeUnit(text: bytes, i: nat, rest: bytes)
    requires i < |text|
    ensures Unescape(Unit(text, i) + rest) ==
            if Printable(text[i]) && SequenceLength(text, i) > 0
            then Joined(text[i..i + Step(text, i)], Unescape(rest)) else None
  {
    hide SequenceLength, Utf8Char, Unescape;
    var value, unit := text[i], Unit(text, i);
    LengthIsChar(text, i);
    if value == QUOTE || value == BACKSLASH {
      AsciiStep(text, i);
      UnescapePair(value, rest);
    } else if 0x20 <= value <= 0x7E {
      AsciiStep(text, i);
      UnescapePlain(unit, rest);
    } else if value >= 0x80 && SequenceLength(text, i) > 0 {
      MultibyteHigh(unit);
      UnescapePlain(unit, rest);
    } else {
      UnitHex(text, i);
      UnescapeOther(unit, rest);
    }
  }

  lemma AsciiStep(text: bytes, i: nat)
    requires i < |text| && text[i] < 0x80
    ensures Step(text, i) == 1 && SequenceLength(text, i) == 1 && text[i..i + 1] == [text[i]]
  {
  }

  lemma UnescapeOther(e: bytes, rest: bytes)
    requires |e| == 6 && e[0] == BACKSLASH && e[1] == 0x75
    ensures Unescape(e + rest) == None
  {
  }

  lemma StepPrintable(text: bytes, i: nat)
    requires i < |text|
    ensures SequenceLength(text, i) > 0 ==>
              && Step(text, i) == SequenceLength(text, i)
              && (Printable(text[i]) ==> forall j | i <= j < i + Step(text, i) :: Printable(text[j]))
  {
    hide SequenceLength, Utf8Char;
    LengthIsChar(text, i);
    var next := i + Step(text, i);
    if text[i] < 0x80 {
      AsciiStep(text, i);
    } else if SequenceLength(text, i) > 0 {
      MultibyteHigh(text[i..next]);
      forall j | i <= j < next
        ensures Printable(text[j])
      {
        assert text[j] == text[i..next][j - i];
      }
    }
  }

  lemma {:induction false} UnescapeEscaped(text: bytes, i: nat)
    requires i <= |text|
    ensures Unescape(Escaped(text, i)) ==
            if WellFormed(text[i..]) && (forall j | i <= j < |text| :: Printable(text[j])) then Some(text[i..]) else None
    decreases |text| - i
  {
    hide Unit, Step, Unescape, SequenceLength, WellFormed, Utf8Char, Printable;
    if i == |text| {
      EmptyWellFormed();
      EmptyUnescape();
      assert text[i..] == [];
    } else {
      var next := i + Step(text, i);
      UnescapeEscaped(text, next);
      UnescapeUnit(text, i, Escaped(text, next));
      WellFormedStep(text, i);
      StepPrintable(text, i);
      assert text[i..next] + text[next..] == text[i..];
    }
  }

  lemma EmptyUnescape()
    ensures Unescape([]) == Some([])
  {
  }

  /** Copying a printed string gives it back exactly when it is non-empty, within the limit, well-formed
      UTF-8 and free of control bytes and DEL; in every other case the copy is refused. */
  lemma CopyOfPrinted(text: bytes, maximum: nat)
    ensures Copied(Escaped(text, 0), maximum) ==
            if text != [] && |text| <= maximum && WellFormed(text) && (forall j | 0 <= j < |text| :: Printable(text[j]))
            then Some(text) else None
  {
    hide Unescape, WellFormed, Escaped;
    UnescapeEscaped(text, 0);
    assert text[0..] == text;
  }
}
