/** Wi-Fi passphrases: the native and the Python validator, and the two ways they quote. */
module Passphrase {
  import opened JsonSyntax
  import JsonStrings

  const ARGUMENT_CAPACITY := 132

  type scalar = v: int | JsonStrings.IsScalar(v)

  /** 64 hexadecimal digits, or 8 to 63 printable ASCII characters. */
  predicate Accepted(psk: bytes) {
    if |psk| == 64 then forall i | 0 <= i < |psk| :: IsHex(psk[i])
    else 8 <= |psk| <= 63 && forall i | 0 <= i < |psk| :: 0x20 <= psk[i] <= 0x7E
  }

  function Lower(b: byte): byte {
    if 0x41 <= b <= 0x5A then b + 0x20 else b
  }

  function Lowered(s: bytes): (r: bytes)
    ensures |r| == |s| && forall i | 0 <= i < |s| :: r[i] == Lower(s[i])
  {
    seq(|s|, i requires 0 <= i < |s| => Lower(s[i]))
  }

  function Escape(b: byte): bytes {
    if b == QUOTE || b == BACKSLASH then [BACKSLASH, b] else [b]
  }

  function Escaped(s: bytes): bytes {
    if s == [] then [] else Escape(s[0]) + Escaped(s[1..])
  }

  /** What is sent for an accepted passphrase. */
  function Argument(psk: bytes): bytes {
    if |psk| == 64 then Lowered(psk) else [QUOTE] + Escaped(psk) + [QUOTE]
  }

  lemma {:induction false} EscapedSnoc(s: bytes, i: nat)
    requires i < |s|
    ensures Escaped(s[..i + 1]) == Escaped(s[..i]) + Escape(s[i])
    decreases i
  {
    hide Escape;
    if i == 0 {
      assert s[..1][1..] == [] && s[..1][0] == s[0];
    } else {
      EscapedSnoc(s[1..], i - 1);
      assert s[1..][..i] == s[..i + 1][1..] && s[1..][..i - 1] == s[..i][1..];
    }
  }

  lemma {:induction false} EscapedLength(s: bytes)
    ensures |s| <= |Escaped(s)| <= 2 * |s|
  {
    if s != [] { EscapedLength(s[1..]); }
  }

  lemma EscapedGrows(s: bytes, i: nat)
    requires i <= |s|
    ensures |Escaped(s[..i])| <= |Escaped(s)|
    decreases |s| - i
  {
    if i < |s| {
      EscapedSnoc(s, i);
      EscapedGrows(s, i + 1);
    } else {
      assert s[..i] == s;
    }
  }

  // The native side

  /** `valid_psk` */
  method ValidPsk(psk: bytes) returns (ok: bool)
    ensures ok <==> Accepted(psk)
  {
    var i := 0;
    if |psk| == 64 {
      while i < |psk|
        invariant i <= |psk|
        invariant forall j | 0 <= j < i :: IsHex(psk[j])
      {
        if !IsHex(psk[i]) {
          return false;
        }
        i := i + 1;
      }
      return true;
    }
    if |psk| < 8 || |psk| > 63 {
      return false;
    }
    while i < |psk|
      invariant i <= |psk|
      invariant forall j | 0 <= j < i :: 0x20 <= psk[j] <= 0x7E
    {
      if psk[i] < 0x20 || psk[i] > 0x7E {
        return false;
      }
      i := i + 1;
    }
    return true;
  }

  /** `psk_argument`: it succeeds exactly when the passphrase is accepted and its argument fits with the final NUL. */
  method PskArgument(psk: bytes, output: array<byte>) returns (ok: bool)
    modifies output
    ensures ok <==> Accepted(psk) && |Argument(psk)| + 1 <= output.Length
    ensures ok ==> output[..|Argument(psk)| + 1] == Argument(psk) + [0]
  {
    hide Accepted, Escaped;
    ok := ValidPsk(psk);
    if !ok {
      return;
    }
    if |psk| == 64 {
      ok := LowerInto(psk, output);
    } else {
      AcceptedIsLong(psk);
      ok := QuoteInto(psk, output);
    }
  }

  lemma AcceptedIsLong(psk: bytes)
    requires Accepted(psk)
    ensures |psk| >= 1
  {
  }

  method LowerInto(psk: bytes, output: array<byte>) returns (ok: bool)
    requires |psk| == 64
    modifies output
    ensures ok <==> |psk| + 1 <= output.Length
    ensures ok ==> output[..|psk| + 1] == Lowered(psk) + [0]
  {
    if |psk| + 1 > output.Length {
      return false;
    }
    var i := 0;
    while i < |psk|
      invariant i <= |psk|
      invariant output[..i] == Lowered(psk)[..i]
    {
      output[i] := Lower(psk[i]);
      i := i + 1;
    }
    output[|psk|] := 0;
    return true;
  }

  method QuoteInto(psk: bytes, output: array<byte>) returns (ok: bool)
    requires |psk| >= 1
    modifies output
    ensures ok <==> |Escaped(psk)| + 3 <= output.Length
    ensures ok ==> output[..|Escaped(psk)| + 3] == [QUOTE] + Escaped(psk) + [QUOTE] + [0]
  {
    hide Escaped;
    EscapedLength(psk);
    if output.Length < 3 {
      return false;
    }
    output[0] := QUOTE;
    var written := 1;
    var i := 0;
    EscapedNothing();
    while i < |psk|
      invariant i <= |psk|
      invariant 1 <= written == 1 + |Escaped(psk[..i])|
      invariant written < output.Length
      invariant output[..written] == [QUOTE] + Escaped(psk[..i])
    {
      var value := psk[i];
      EscapedSnoc(psk, i);
      EscapedGrows(psk, i + 1);
      ghost var was := output[..written];
      if value == QUOTE || value == BACKSLASH {
        if written + 2 >= output.Length {
          return false;
        }
        output[written] := BACKSLASH;
        written := written + 1;
      } else if written + 1 >= output.Length {
        return false;
      }
      output[written] := value;
      written := written + 1;
      assert output[..written] == was + Escape(value);
      assert [QUOTE] + Escaped(psk[..i]) + Escape(value) == [QUOTE] + (Escaped(psk[..i]) + Escape(value));
      i := i + 1;
    }
    assert psk[..i] == psk;
    if written + 2 > output.Length {
      return false;
    }
    output[written] := QUOTE;
    output[written + 1] := 0;
    return true;
  }

  lemma EscapedNothing()
    ensures Escaped([]) == []
  {
  }

  /** The 132 bytes that the caller reserves are always enough. */
  lemma ArgumentFits(psk: bytes)
    requires Accepted(psk)
    ensures |Argument(psk)| + 1 <= ARGUMENT_CAPACITY
  {
    EscapedLength(psk);
  }

  // Reading an argument back

  function Prepended(b: byte, rest: Option<bytes>): Option<bytes> {
    if rest.None? then None else Some([b] + rest.value)
  }

  /** Undoes backslash pairs; a quote may only occur in one. */
  function Unescaped(s: bytes): Option<bytes> {
    if s == [] then Some([])
    else if s[0] == QUOTE then None
    else if s[0] != BACKSLASH then Prepended(s[0], Unescaped(s[1..]))
    else if |s| > 1 && (s[1] == QUOTE || s[1] == BACKSLASH) then Prepended(s[1], Unescaped(s[2..]))
    else None
  }

  function Unquoted(argument: bytes): Option<bytes> {
    var n := |argument|;
    if n >= 2 && argument[0] == QUOTE && argument[n - 1] == QUOTE then Unescaped(argument[1..n - 1]) else Some(argument)
  }

  lemma UnescapeOne(b: byte, rest: bytes)
    ensures Unescaped(Escape(b) + rest) == Prepended(b, Unescaped(rest))
  {
    hide Prepended;
    assert (Escape(b) + rest)[|Escape(b)|..] == rest;
  }

  lemma {:induction false} UnescapedEscaped(s: bytes)
    ensures Unescaped(Escaped(s)) == Some(s)
  {
    if s != [] {
      UnescapedEscaped(s[1..]);
      UnescapeOne(s[0], Escaped(s[1..]));
      assert s == [s[0]] + s[1..];
    }
  }

  /** Reading the argument back gives the passphrase, in lower case if it was a key. */
  lemma ArgumentIsReadBack(psk: bytes)
    requires Accepted(psk)
    ensures Unquoted(Argument(psk)) == Some(if |psk| == 64 then Lowered(psk) else psk)
  {
    var argument := Argument(psk);
    if |psk| == 64 {
      assert IsHex(psk[0]) && argument[0] == Lower(psk[0]);
    } else {
      assert argument[1..|argument| - 1] == Escaped(psk);
      UnescapedEscaped(psk);
    }
  }

  predicate LowerHex(b: byte) {
    0x30 <= b <= 0x39 || 0x61 <= b <= 0x66
  }

  /** A key is sent in lower case, digit by digit the same number. */
  lemma KeyIsLowered(psk: bytes)
    requires Accepted(psk) && |psk| == 64
    ensures |Argument(psk)| == 64
    ensures forall i | 0 <= i < 64 ::
              LowerHex(Argument(psk)[i]) && (Argument(psk)[i] == psk[i] || (0x41 <= psk[i] <= 0x46 && Argument(psk)[i] - psk[i] == 0x20))
  {
    var argument := Argument(psk);
    forall i | 0 <= i < 64
      ensures LowerHex(argument[i]) && (argument[i] == psk[i] || (0x41 <= psk[i] <= 0x46 && argument[i] - psk[i] == 0x20))
    {
      assert IsHex(psk[i]) && argument[i] == Lower(psk[i]);
    }
  }

  /** Different passphrases are sent as different arguments, up to the case of a key. */
  lemma OnlyOneArgument(psk: bytes, other: bytes)
    requires Accepted(psk) && Accepted(other) && Argument(psk) == Argument(other)
    ensures if |psk| == 64 then |other| == 64 && Lowered(psk) == Lowered(other) else psk == other
  {
    ArgumentIsReadBack(psk);
    ArgumentIsReadBack(other);
    QuotedOrNot(psk);
    QuotedOrNot(other);
  }

  lemma QuotedOrNot(psk: bytes)
    requires Accepted(psk)
    ensures Argument(psk) != [] && (Argument(psk)[0] == QUOTE <==> |psk| != 64)
  {
    if |psk| == 64 { assert IsHex(psk[0]) && Argument(psk)[0] == Lower(psk[0]); }
  }

  // The Python side

  /** `str.replace` of one character */
  function Replace(text: seq<scalar>, what: scalar, replacement: seq<scalar>): seq<scalar> {
    if text == [] then []
    else (if text[0] == what then replacement else [text[0]]) + Replace(text[1..], what, replacement)
  }

  predicate HexCharacter(c: scalar) {
    0x30 <= c <= 0x39 || 0x41 <= c <= 0x46 || 0x61 <= c <= 0x66
  }

  /** `str.casefold` on ASCII */
  function Casefold(text: seq<scalar>): (r: seq<scalar>)
    ensures |r| == |text|
  {
    seq(|text|, i requires 0 <= i < |text| => if 0x41 <= text[i] <= 0x5A then text[i] + 0x20 else text[i])
  }

  /** `_validate_psk`; `None` is the `ValidationError`. */
  function ValidatePsk(text: seq<scalar>): Option<seq<scalar>> {
    if |text| == 64 && forall i | 0 <= i < |text| :: HexCharacter(text[i]) then Some(Casefold(text))
    else if !(8 <= |text| <= 63) || exists i | 0 <= i < |text| :: text[i] < 32 || text[i] > 126 then None
    else Some(text)
  }

  /** `_psk_argument` */
  function PythonArgument(psk: seq<scalar>): seq<scalar> {
    if |psk| == 64 && forall i | 0 <= i < |psk| :: 0x30 <= psk[i] <= 0x39 || 0x61 <= psk[i] <= 0x66 then psk
    else [QUOTE] + Replace(Replace(psk, BACKSLASH, [BACKSLASH, BACKSLASH]), QUOTE, [BACKSLASH, QUOTE]) + [QUOTE]
  }

  function Encoded(text: seq<scalar>): bytes {
    if text == [] then [] else JsonStrings.Encode(text[0]) + Encoded(text[1..])
  }

  predicate Ascii(text: seq<scalar>) {
    forall i | 0 <= i < |text| :: text[i] < 0x80
  }

  /** The octets of an ASCII text. */
  function Octets(text: seq<scalar>): (r: bytes)
    requires Ascii(text)
    ensures |r| == |text| && forall i | 0 <= i < |r| :: r[i] == text[i]
  {
    seq(|text|, i requires 0 <= i < |text| => text[i])
  }

  lemma {:induction false} AsciiEncoded(text: seq<scalar>)
    requires Ascii(text)
    ensures Encoded(text) == Octets(text)
  {
    if text != [] {
      AsciiEncoded(text[1..]);
      assert Octets(text) == [text[0]] + Octets(text[1..]);
    }
  }

  predicate HasHigh(s: bytes) {
    exists i | 0 <= i < |s| :: s[i] >= 0x80
  }

  /** A text that is not ASCII has an octet that is not. */
  lemma {:induction false} HighEncoded(text: seq<scalar>)
    requires !Ascii(text)
    ensures HasHigh(Encoded(text))
  {
    if text[0] >= 0x80 {
      HighFirst(text[0]);
      assert Encoded(text)[0] == JsonStrings.Encode(text[0])[0];
    } else {
      var i :| 0 <= i < |text| && text[i] >= 0x80;
      assert text[1..][i - 1] >= 0x80;
      HighEncoded(text[1..]);
      var k :| 0 <= k < |Encoded(text[1..])| && Encoded(text[1..])[k] >= 0x80;
      assert Encoded(text)[|JsonStrings.Encode(text[0])| + k] >= 0x80;
    }
  }

  lemma HighFirst(v: scalar)
    requires v >= 0x80
    ensures |JsonStrings.Encode(v)| > 0 && JsonStrings.Encode(v)[0] >= 0x80
  {
  }

  /** Replacing backslashes and then quotes is escaping in one pass. */
  lemma {:induction false} TwoPassesAreOne(text: seq<scalar>)
    requires Ascii(text)
    ensures Replace(Replace(text, BACKSLASH, [BACKSLASH, BACKSLASH]), QUOTE, [BACKSLASH, QUOTE]) == Escaped(Octets(text))
  {
    if text != [] {
      TwoPassesAreOne(text[1..]);
      assert Octets(text)[1..] == Octets(text[1..]);
      var once := Replace(text[1..], BACKSLASH, [BACKSLASH, BACKSLASH]);
      if text[0] == BACKSLASH {
        ReplacePair(once);
      } else {
        assert Replace(text, BACKSLASH, [BACKSLASH, BACKSLASH]) == [text[0]] + once;
        ReplaceOne(text[0], once);
      }
    }
  }

  lemma ReplaceOne(c: scalar, rest: seq<scalar>)
    ensures Replace([c] + rest, QUOTE, [BACKSLASH, QUOTE])
            == (if c == QUOTE then [BACKSLASH, QUOTE] else [c]) + Replace(rest, QUOTE, [BACKSLASH, QUOTE])
  {
    assert ([c] + rest)[1..] == rest;
  }

  lemma ReplacePair(rest: seq<scalar>)
    ensures Replace([BACKSLASH, BACKSLASH] + rest, QUOTE, [BACKSLASH, QUOTE])
            == [BACKSLASH, BACKSLASH] + Replace(rest, QUOTE, [BACKSLASH, QUOTE])
  {
    hide Replace;
    assert [BACKSLASH, BACKSLASH] + rest == [BACKSLASH] + ([BACKSLASH] + rest);
    ReplaceOne(BACKSLASH, [BACKSLASH] + rest);
    ReplaceOne(BACKSLASH, rest);
  }

  lemma SameKey(text: seq<scalar>)
    requires Ascii(text) && |text| == 64
    ensures Accepted(Octets(text)) <==> ValidatePsk(text).Some?
    ensures Accepted(Octets(text)) ==> PythonArgument(ValidatePsk(text).value) == Lowered(Octets(text))
  {
    forall i | 0 <= i < |text|
      ensures IsHex(Octets(text)[i]) <==> HexCharacter(text[i])
    {
    }
    if Accepted(Octets(text)) {
      forall i | 0 <= i < |text|
        ensures HexCharacter(text[i]) && Casefold(text)[i] == Lowered(Octets(text))[i]
      {
        assert IsHex(Octets(text)[i]);
      }
    }
  }

  lemma SamePhrase(text: seq<scalar>)
    requires Ascii(text) && |text| != 64
    ensures Accepted(Octets(text)) <==> ValidatePsk(text) == Some(text)
    ensures ValidatePsk(text) != Some(text) ==> ValidatePsk(text) == None
  {
    var octets := Octets(text);
    assert forall i | 0 <= i < |text| :: octets[i] == text[i];
  }

  /** For every text without NUL, the two programs accept the same passphrases and send the same argument. */
  lemma ProgramsAgree(text: seq<scalar>)
    requires 0 !in text
    ensures Accepted(Encoded(text)) <==> ValidatePsk(text).Some?
    ensures Accepted(Encoded(text)) ==> PythonArgument(ValidatePsk(text).value) == Argument(Encoded(text))
  {
    hide Encoded, Replace, Escaped;
    if !Ascii(text) {
      HighEncoded(text);
    } else {
      AsciiEncoded(text);
      if |text| == 64 {
        SameKey(text);
      } else {
        SamePhrase(text);
        TwoPassesAreOne(text);
      }
    }
  }
}
