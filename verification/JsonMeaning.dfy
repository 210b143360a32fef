/** What the contents of a JSON string mean, by section 7 of RFC 8259, and what the printer and the unescaper make of it. */
module JsonMeaning {
  import opened JsonSyntax
  import opened JsonGrammar
  import opened JsonStrings

  /** The value of a hexadecimal digit. */
  function DigitValue(b: byte): (v: nat)
    requires IsHex(b)
    ensures v < 16
  {
    if b <= 0x39 then b - 0x30 else if b <= 0x46 then b - 0x41 + 10 else b - 0x61 + 10
  }

  /** The code unit of `\uXXXX` at the start of a body. */
  function CodeUnit(s: bytes): (v: nat)
    requires |s| >= 6 && FourHex(s, 2)
    ensures v < 0x10000
  {
    ((DigitValue(s[2]) * 16 + DigitValue(s[3])) * 16 + DigitValue(s[4])) * 16 + DigitValue(s[5])
  }

  function ShortEscape(b: byte): Option<byte> {
    match b
    case 0x22 => Some(0x22)
    case 0x5C => Some(0x5C)
    case 0x2F => Some(0x2F)
    case 0x62 => Some(0x08)
    case 0x66 => Some(0x0C)
    case 0x6E => Some(0x0A)
    case 0x72 => Some(0x0D)
    case 0x74 => Some(0x09)
    case _ => None
  }

  predicate IsUnicodeEscape(s: bytes) {
    |s| >= 6 && s[0] == BACKSLASH && s[1] == 0x75 && FourHex(s, 2)
  }

  /** The octets that the contents of a string literal stand for; half of a surrogate pair stands for nothing. */
  function Decoded(s: bytes): Option<bytes>
    decreases |s|
  {
    if s == [] then Some([])
    else if s[0] != BACKSLASH then
      if s[0] < 0x20 || s[0] == QUOTE then None else Joined([s[0]], Decoded(s[1..]))
    else if IsUnicodeEscape(s) then
      var v := CodeUnit(s);
      if IsScalar(v) then Joined(Encode(v), Decoded(s[6..]))
      else if v < 0xDC00 && IsUnicodeEscape(s[6..]) && 0xDC00 <= CodeUnit(s[6..]) <= 0xDFFF then
        Joined(Encode(0x10000 + (v - 0xD800) * 0x400 + CodeUnit(s[6..]) - 0xDC00), Decoded(s[12..]))
      else None
    else if |s| >= 2 && ShortEscape(s[1]).Some? then Joined([ShortEscape(s[1]).value], Decoded(s[2..]))
    else None
  }

  // The printer

  ghost predicate Begins(s: bytes, n: int) {
    1 <= n <= |s| && Utf8Char(s[..n])
  }

  /** A text with U+FFFD in the place of every byte that begins no UTF-8 character. */
  ghost function Repaired(s: bytes): bytes
    decreases |s|
  {
    if s == [] then []
    else if exists n :: Begins(s, n) then
      var n :| Begins(s, n);
      s[..n] + Repaired(s[n..])
    else Encode(0xFFFD) + Repaired(s[1..])
  }

  lemma DecodedByte(b: byte, rest: bytes)
    requires b >= 0x20 && b !in {QUOTE, BACKSLASH}
    ensures Decoded([b] + rest) == Joined([b], Decoded(rest))
  {
    hide Joined;
    assert ([b] + rest)[1..] == rest;
  }

  lemma {:induction false} DecodedPlain(p: bytes, rest: bytes)
    requires forall i | 0 <= i < |p| :: p[i] >= 0x20 && p[i] !in {QUOTE, BACKSLASH}
    ensures Decoded(p + rest) == Joined(p, Decoded(rest))
    decreases |p|
  {
    hide Decoded, Joined;
    if p == [] {
      assert p + rest == rest;
      JoinedNothing(Decoded(rest));
    } else {
      DecodedPlain(p[1..], rest);
      DecodedByte(p[0], p[1..] + rest);
      assert p + rest == [p[0]] + (p[1..] + rest);
      JoinedTwice([p[0]], p[1..], Decoded(rest));
      assert [p[0]] + p[1..] == p;
    }
  }

  lemma JoinedNothing(r: Option<bytes>)
    ensures Joined([], r) == r
  {
    if r.Some? { assert [] + r.value == r.value; }
  }

  lemma JoinedTwice(a: bytes, b: bytes, r: Option<bytes>)
    ensures Joined(a, Joined(b, r)) == Joined(a + b, r)
  {
    if r.Some? { assert a + (b + r.value) == a + b + r.value; }
  }

  lemma DecodedUnicode(e: bytes, rest: bytes, v: nat)
    requires |e| == 6 && IsUnicodeEscape(e) && CodeUnit(e) == v && IsScalar(v)
    ensures Decoded(e + rest) == Joined(Encode(v), Decoded(rest))
  {
    hide IsHex, DigitValue, Encode;
    var s := e + rest;
    assert s[..6] == e && s[6..] == rest;
    assert forall i | 0 <= i < 6 :: s[i] == e[i];
  }

  lemma DecodedShort(b: byte, rest: bytes)
    requires b == QUOTE || b == BACKSLASH
    ensures Decoded([BACKSLASH, b] + rest) == Joined([b], Decoded(rest))
  {
    assert ([BACKSLASH, b] + rest)[2..] == rest;
  }

  lemma DecodedUnit(text: bytes, i: nat, rest: bytes)
    requires i < |text|
    ensures Decoded(Unit(text, i) + rest)
            == Joined(if text[i] >= 0x80 && SequenceLength(text, i) == 0 then Encode(0xFFFD) else text[i..i + Step(text, i)],
                      Decoded(rest))
  {
    hide SequenceLength, Decoded, Utf8Char, Encode;
    var value, unit := text[i], Unit(text, i);
    if value == QUOTE || value == BACKSLASH {
      DecodedShort(value, rest);
      assert text[i..i + 1] == [value];
    } else if value >= 0x80 && SequenceLength(text, i) > 0 {
      LengthIsChar(text, i);
      MultibyteHigh(unit);
      DecodedPlain(unit, rest);
    } else if value >= 0x80 || !(0x20 <= value <= 0x7E) {
      UnitHex(text, i);
      UnitValue(text, i);
      DecodedUnicode(unit, rest, if value >= 0x80 then 0xFFFD else value);
      if value < 0x80 {
        EncodeAscii(value);
        assert text[i..i + 1] == [value];
      }
    } else {
      DecodedPlain(unit, rest);
      assert text[i..i + 1] == [value];
    }
  }

  lemma EncodeAscii(v: byte)
    requires v < 0x80
    ensures IsScalar(v) && Encode(v) == [v]
  {
  }

  lemma UnitValue(text: bytes, i: nat)
    requires i < |text| && !(0x20 <= text[i] <= 0x7E)
    requires text[i] >= 0x80 ==> SequenceLength(text, i) == 0
    requires |Unit(text, i)| == 6 && FourHex(Unit(text, i), 2)
    ensures CodeUnit(Unit(text, i)) == if text[i] >= 0x80 then 0xFFFD else text[i]
    ensures IsUnicodeEscape(Unit(text, i))
  {
    hide SequenceLength;
  }

  lemma RepairedOnce(s: bytes, n: nat)
    requires Begins(s, n) && forall m | Begins(s, m) :: m == n
    ensures Repaired(s) == s[..n] + Repaired(s[n..])
  {
    hide Begins, Encode;
    if s == [] { NothingBegins(n); }
  }

  lemma NothingBegins(n: int)
    ensures !Begins([], n)
  {
  }

  lemma RepairedBad(s: bytes)
    requires s != [] && forall m :: !Begins(s, m)
    ensures Repaired(s) == Encode(0xFFFD) + Repaired(s[1..])
  {
    hide Begins, Encode;
  }

  /** The characters that begin at an offset have the length that the recogniser finds there. */
  lemma BeginsAt(text: bytes, i: nat, n: int)
    requires i < |text|
    ensures Begins(text[i..], n) <==> n == SequenceLength(text, i) && n > 0
  {
    hide SequenceLength, Utf8Char;
    LengthIsChar(text, i);
    if Begins(text[i..], n) { assert text[i..][..n] <= text[i..]; }
    if SequenceLength(text, i) > 0 { SliceOfSuffix(text, i, SequenceLength(text, i)); }
  }

  lemma RepairedStep(text: bytes, i: nat)
    requires i < |text|
    ensures var next := i + Step(text, i);
            Repaired(text[i..])
            == (if text[i] >= 0x80 && SequenceLength(text, i) == 0 then Encode(0xFFFD) else text[i..next]) + Repaired(text[next..])
  {
    hide SequenceLength, Repaired, Encode, Begins;
    forall n ensures Begins(text[i..], n) <==> n == SequenceLength(text, i) && n > 0 { BeginsAt(text, i, n); }
    if text[i] < 0x80 { AsciiStep(text, i); }
    SliceOfSuffix(text, i, Step(text, i));
    if SequenceLength(text, i) > 0 {
      RepairedOnce(text[i..], SequenceLength(text, i));
    } else {
      RepairedBad(text[i..]);
    }
  }

  lemma {:induction false} DecodedEscaped(text: bytes, i: nat)
    requires i <= |text|
    ensures Decoded(Escaped(text, i)) == Some(Repaired(text[i..]))
    decreases |text| - i
  {
    hide Unit, Step, Decoded, SequenceLength, Repaired, Encode;
    if i == |text| {
      assert text[i..] == [];
      NothingDecoded();
    } else {
      var next := i + Step(text, i);
      DecodedEscaped(text, next);
      DecodedUnit(text, i, Escaped(text, next));
      RepairedStep(text, i);
    }
  }

  lemma NothingDecoded()
    ensures Decoded([]) == Some([]) && Repaired([]) == []
  {
  }

  /** Every byte string, printed anywhere in a document, is read as one string token up to the literal's last quote, and
      by RFC 8259 the bytes of that token stand for the text, with U+FFFD for each byte that begins no UTF-8 character. */
  lemma PrintedStringMeans(before: bytes, text: bytes, after: bytes)
    ensures var document := before + Literal(text) + after;
            var start, end := |before| + 1, |before| + |Literal(text)| - 1;
            && start <= end < |document|
            && ReadString(document, |before|) == Read(Tree(String, start, end, []), end + 1)
            && Decoded(document[start..end]) == Some(Repaired(text))
  {
    hide Escaped, Decoded, Repaired;
    PrintedStringIsRead(before, text, after);
    DecodedEscaped(text, 0);
    assert text[0..] == text;
    var document := before + Literal(text) + after;
    assert document[|before| + 1..|before| + |Literal(text)| - 1] == Escaped(text, 0);
  }

  /** Nothing is replaced in well-formed UTF-8. */
  lemma {:induction false} WellFormedNeedsNoRepair(s: bytes)
    requires WellFormed(s)
    ensures Repaired(s) == s
    decreases |s|
  {
    hide Repaired, Begins, SequenceLength;
    if s == [] {
      NothingDecoded();
    } else {
      var k := FirstChar(s);
      forall n ensures Begins(s, n) <==> n == SequenceLength(s, 0) && n > 0 { assert s[0..] == s; BeginsAt(s, 0, n); }
      RepairedOnce(s, k);
      WellFormedNeedsNoRepair(s[k..]);
      assert s[..k] + s[k..] == s;
    }
  }

  lemma FirstChar(s: bytes) returns (k: nat)
    requires WellFormed(s) && s != []
    ensures Begins(s, k) && 1 <= k <= |s| && WellFormed(s[k..])
  {
    hide Utf8Char;
    k :| 1 <= k <= |s| && Utf8Char(s[..k]) && WellFormed(s[k..]);
  }

  // The unescaper

  /** Contents of a string literal whose only escapes are quotes, backslashes and slashes. */
  ghost predicate PlainBody(s: bytes)
    decreases |s|
  {
    || s == []
    || (s[0] >= 0x20 && s[0] !in {QUOTE, BACKSLASH} && PlainBody(s[1..]))
    || (|s| >= 2 && s[0] == BACKSLASH && s[1] in {QUOTE, BACKSLASH, 0x2F} && PlainBody(s[2..]))
  }

  /** On the contents of every accepted string literal, the unescaper succeeds exactly on plain ones, and then yields
      what they mean. */
  lemma {:induction false} UnescapeIsMeaning(s: bytes)
    requires StringBody(s)
    ensures Unescape(s).Some? <==> PlainBody(s)
    ensures Unescape(s).Some? ==> Unescape(s) == Decoded(s)
    decreases |s|
  {
    hide IsHex, Encode, CodeUnit;
    if s != [] {
      if s[0] != BACKSLASH {
        UnescapeIsMeaning(s[1..]);
      } else if s[1] in {QUOTE, BACKSLASH, 0x2F} {
        UnescapeIsMeaning(s[2..]);
      }
    }
  }

  // The accepted language, byte by byte

  /** Every string that means something by RFC 8259 is accepted. */
  lemma {:induction false} MeaningfulIsAccepted(s: bytes)
    requires Decoded(s).Some?
    ensures StringBody(s)
    decreases |s|
  {
    hide IsHex, Encode, CodeUnit, IsScalar;
    if s != [] {
      if s[0] != BACKSLASH {
        MeaningfulIsAccepted(s[1..]);
      } else if IsUnicodeEscape(s) {
        if Decoded(s[6..]).Some? {
          MeaningfulIsAccepted(s[6..]);
        } else {
          assert s[6..][6..] == s[12..];
          MeaningfulIsAccepted(s[12..]);
          assert StringBody(s[6..]);
        }
      } else {
        MeaningfulIsAccepted(s[2..]);
      }
    }
  }

  /** No escape of a NUL, and none of a code unit from U+D000 on up to U+DFFF, surrogates among them. */
  predicate NoOddEscapes(s: bytes) {
    0 !in s && forall i | 0 <= i < |s| - 2 && s[i] == 0x5C && s[i + 1] == 0x75 :: s[i + 2] !in {0x44, 0x64}
  }

  lemma NoOddSuffix(s: bytes, n: nat)
    requires NoOddEscapes(s) && n <= |s|
    ensures NoOddEscapes(s[n..])
  {
    var rest := s[n..];
    forall i | 0 <= i < |rest| - 2 && rest[i] == 0x5C && rest[i + 1] == 0x75
      ensures rest[i + 2] !in {0x44, 0x64}
    {
      assert s[n + i] == rest[i] && s[n + i + 1] == rest[i + 1] && s[n + i + 2] == rest[i + 2];
    }
  }

  lemma NoSurrogate(s: bytes)
    requires IsUnicodeEscape(s) && s[2] !in {0x44, 0x64}
    ensures IsScalar(CodeUnit(s))
  {
    assert DigitValue(s[2]) != 13;
  }

  /** And nothing else is, but for escapes of NUL and of halves of surrogate pairs. */
  lemma {:induction false} AcceptedIsMeaningful(s: bytes)
    requires StringBody(s) && NoOddEscapes(s)
    ensures Decoded(s).Some?
    decreases |s|
  {
    hide IsHex, Encode, CodeUnit, NoOddEscapes, DigitValue, FourHex, IsScalar;
    if s != [] {
      if s[0] != BACKSLASH {
        NoOddSuffix(s, 1);
        AcceptedIsMeaningful(s[1..]);
      } else if IsUnicodeEscape(s) {
        NoOddSuffix(s, 6);
        NotOddAt(s);
        NoSurrogate(s);
        AcceptedIsMeaningful(s[6..]);
      } else {
        NoOddSuffix(s, 2);
        NotNulAt(s);
        AcceptedIsMeaningful(s[2..]);
      }
    }
  }

  lemma NotOddAt(s: bytes)
    requires NoOddEscapes(s) && |s| > 2 && s[0] == 0x5C && s[1] == 0x75
    ensures s[2] !in {0x44, 0x64}
  {
  }

  lemma NotNulAt(s: bytes)
    requires NoOddEscapes(s) && |s| > 1
    ensures s[1] != 0
  {
  }

  /** An accepted number: an optional minus sign, then a digit, which is no zero before another digit; digits, signs, a
      point and an exponent mark from there on, and a digit at the end. */
  lemma NumbersLookLike(s: bytes)
    requires IsNumber(s)
    ensures s != []
    ensures var digits := if s[0] == 0x2D then s[1..] else s;
            && digits != [] && 0x30 <= digits[0] <= 0x39
            && (digits[0] == 0x30 && |digits| > 1 ==> digits[1] in {0x2E, 0x65, 0x45})
            && (forall i | 0 <= i < |digits| :: 0x30 <= digits[i] <= 0x39 || digits[i] in {0x2B, 0x2D, 0x2E, 0x65, 0x45})
            && 0x30 <= digits[|digits| - 1] <= 0x39
  {
    UnsignedLooksLike(if s[0] == 0x2D then s[1..] else s);
  }

  predicate DigitOrMark(b: byte) {
    0x30 <= b <= 0x39 || b in {0x2B, 0x2D, 0x2E, 0x65, 0x45}
  }

  lemma FractionLooksLike(s: bytes)
    requires Fraction(s)
    ensures s != [] ==> s[0] in {0x2E, 0x65, 0x45} && 0x30 <= s[|s| - 1] <= 0x39
    ensures forall i | 0 <= i < |s| :: DigitOrMark(s[i])
  {
    var k :| 0 <= k <= |s| && FracPart(s[..k]) && ExpPart(s[k..]);
    FracLooksLike(s[..k]);
    ExpLooksLike(s[k..]);
    forall i | 0 <= i < |s|
      ensures DigitOrMark(s[i])
    {
      assert s[i] == if i < k then s[..k][i] else s[k..][i - k];
    }
  }

  lemma FracLooksLike(s: bytes)
    requires FracPart(s)
    ensures s != [] ==> s[0] == 0x2E && 0x30 <= s[|s| - 1] <= 0x39
    ensures forall i | 0 <= i < |s| :: DigitOrMark(s[i])
  {
    if s != [] {
      forall i | 0 < i < |s|
        ensures IsDigit(s[i])
      {
        assert s[1..][i - 1] == s[i];
      }
    }
  }

  lemma ExpLooksLike(s: bytes)
    requires ExpPart(s)
    ensures s != [] ==> s[0] in {0x65, 0x45} && 0x30 <= s[|s| - 1] <= 0x39
    ensures forall i | 0 <= i < |s| :: DigitOrMark(s[i])
  {
    if s != [] {
      var skip := if s[1] in {0x2B, 0x2D} then 2 else 1;
      var digits := s[skip..];
      forall i | skip <= i < |s|
        ensures IsDigit(s[i])
      {
        assert digits[i - skip] == s[i];
      }
    }
  }

  lemma UnsignedLooksLike(s: bytes)
    requires Unsigned(s)
    ensures s != [] && 0x30 <= s[0] <= 0x39 && 0x30 <= s[|s| - 1] <= 0x39
    ensures s[0] == 0x30 && |s| > 1 ==> s[1] in {0x2E, 0x65, 0x45}
    ensures forall i | 0 <= i < |s| :: DigitOrMark(s[i])
  {
    var k :| 0 <= k <= |s| && IntPart(s[..k]) && Fraction(s[k..]);
    FractionLooksLike(s[k..]);
    assert s[..k][0] == s[0] && s[..k][k - 1] == s[k - 1];
    if k < |s| { assert s[k..][0] == s[k] && s[k..][|s| - k - 1] == s[|s| - 1]; }
    forall i | 0 <= i < |s|
      ensures DigitOrMark(s[i])
    {
      assert s[i] == if i < k then s[..k][i] else s[k..][i - k];
    }
  }

  predicate IsWhite(b: byte) {
    b == 0x20 || (0x09 <= b && b <= 0x0D)
  }

  /** Between `lo` and `hi` there is white space and, at `c`, this byte. */
  predicate OnlyAt(text: bytes, lo: int, hi: int, c: int, b: byte) {
    0 <= lo <= c < hi <= |text| && text[c] == b && forall i | lo <= i < hi && i != c :: IsWhite(text[i])
  }

  /** In every accepted document, objects stand between braces and arrays between brackets, strings between quotes; and the
      children of an object are keys, which are strings, and values in turn. */
  lemma DelimitersAre(text: bytes, t: Tree)
    requires Grammar(text, t)
    ensures match t.kind
            case Object =>
              && 0 <= t.start < t.end - 1 < |text| && text[t.start] == 0x7B && text[t.end - 1] == 0x7D
              && |t.kids| % 2 == 0 && forall i | 0 <= i < |t.kids| && i % 2 == 0 :: t.kids[i].kind == String
            case Array => 0 <= t.start < t.end - 1 < |text| && text[t.start] == 0x5B && text[t.end - 1] == 0x5D
            case String => 1 <= t.start <= t.end < |text| && text[t.start - 1] == 0x22 && text[t.end] == 0x22 && t.kids == []
            case Primitive => t.start < t.end <= |text| && t.kids == []
  {
    hide StringBody, IsPrimitive, Gaps, Blank;
  }

  /** A colon follows each key, and a comma separates the members of an object and the elements of an array. */
  lemma SeparatorsAre(text: bytes, t: Tree, i: nat)
    requires Grammar(text, t) && i < |t.kids| - 1
    ensures Separated(text, Close(t.kids[i]), Open(t.kids[i + 1]), if t.kind == Object && i % 2 == 0 then 0x3A else 0x2C)
  {
    hide StringBody, IsPrimitive, Frame, Gap, Separated;
    assert Frame(text, t) by { OnlyContainers(text, t); }
    FrameGap(text, t, i);
    GapIs(text, Close(t.kids[i]), Open(t.kids[i + 1]), Separator(t.kind, i));
  }

  lemma OnlyContainers(text: bytes, t: Tree)
    requires Grammar(text, t) && t.kids != []
    ensures Frame(text, t)
  {
    hide Frame, StringBody, IsPrimitive;
  }

  ghost predicate Separated(text: bytes, lo: int, hi: int, b: byte) {
    exists c :: OnlyAt(text, lo, hi, c, b)
  }

  lemma FrameGap(text: bytes, t: Tree, i: nat)
    requires Frame(text, t) && i < |t.kids| - 1
    ensures Gap(text, Close(t.kids[i]), Open(t.kids[i + 1]), Separator(t.kind, i))
  {
    hide Gap, Blank;
  }

  lemma GapIs(text: bytes, lo: int, hi: int, b: byte)
    requires Gap(text, lo, hi, b)
    ensures Separated(text, lo, hi, b)
  {
    var c :| 0 <= lo <= c < hi <= |text| && text[c] == b && Blank(text, lo, c) && Blank(text, c + 1, hi);
    assert OnlyAt(text, lo, hi, c, b);
  }
}
