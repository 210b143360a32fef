/** The ASCII unescaper beside the UTF-8 one. */
module JsonText {
  import opened JsonSyntax
  import opened JsonStrings

  predicate IsText(s: bytes) {
    forall i | 0 <= i < |s| :: 0x20 <= s[i] <= 0x7E
  }

  /** What a short escape stands for; only three of the eight are not control bytes. */
  function Meaning(escaped: byte): Option<byte> {
    match escaped
    case 0x22 => Some(0x22)
    case 0x5C => Some(0x5C)
    case 0x2F => Some(0x2F)
    case 0x62 => Some(0x08)
    case 0x66 => Some(0x0C)
    case 0x6E => Some(0x0A)
    case 0x72 => Some(0x0D)
    case 0x74 => Some(0x09)
    case _ => None
  }

  /** `copy_string`: it never resolves an escape that `copy_utf8_string` refuses. */
  method CopyString(json: bytes, token: Token, output: array<byte>) returns (ok: bool)
    requires token.kind == String ==> 0 <= token.start <= token.end <= |json|
    modifies output
    ensures ok <==> token.kind == String && output.Length > 0 &&
                    var r := Unescape(json[token.start..token.end]);
                    r.Some? && IsText(r.value) && |r.value| < output.Length
    ensures ok ==> var s := Unescape(json[token.start..token.end]).value;
                   output[..|s|] == s && output[|s|] == 0
  {
    if token.kind != String || output.Length == 0 {
      return false;
    }
    ghost var whole := Unescape(json[token.start..token.end]);
    var read, written := token.start, 0;
    if whole.Some? { assert output[..0] + whole.value == whole.value; }
    while read < token.end
      invariant token.start <= read <= token.end && 0 <= written < output.Length
      invariant IsText(output[..written])
      invariant whole == Joined(output[..written], Unescape(json[read..token.end]))
    {
      ghost var raw := json[read..token.end];
      ghost var done := output[..written];
      var value := json[read];
      read := read + 1;
      assert raw[1..] == json[read..token.end];
      if value == BACKSLASH {
        if read >= token.end {
          return false;
        }
        var meaning := Meaning(json[read]);
        assert raw[1] == json[read];
        read := read + 1;
        assert raw[2..] == json[read..token.end];
        if meaning.None? {
          return false;
        }
        value := meaning.value;
      }
      if value < 0x20 {
        return false;
      }
      assert Unescape(raw) == Cons(value, Unescape(json[read..token.end]));
      JoinedStep(done, value, Unescape(json[read..token.end]));
      JoinedAt(done, value, Unescape(json[read..token.end]));
      if value > 0x7E || written + 1 >= output.Length {
        return false;
      }
      output[written] := value;
      written := written + 1;
      assert output[..written] == done + [value];
    }
    assert json[read..token.end] == [];
    output[written] := 0;
    assert output[..written] + [] == output[..written];
    return true;
  }

  lemma JoinedAt(done: bytes, value: byte, rest: Option<bytes>)
    ensures var r := Joined(done + [value], rest);
            r.Some? ==> |r.value| > |done| && r.value[|done|] == value
  {
  }

  lemma {:induction false} TextIsWellFormed(s: bytes)
    requires IsText(s)
    ensures WellFormed(s)
  {
    if s != [] {
      TextIsWellFormed(s[1..]);
      assert Utf8Char(s[..1]);
    }
  }

  /** On every token, the two unescapers agree on non-empty printable ASCII, and only the UTF-8 one goes beyond it. */
  lemma UnescapersAgree(raw: bytes, maximum: nat)
    ensures var r := Unescape(raw);
            r.Some? && IsText(r.value) && 0 < |r.value| <= maximum
            <==> Copied(raw, maximum).Some? && IsText(Copied(raw, maximum).value)
    ensures Copied(raw, maximum).Some? ==> Copied(raw, maximum) == Unescape(raw)
  {
    hide WellFormed, Unescape;
    var r := Unescape(raw);
    if r.Some? && IsText(r.value) { TextIsWellFormed(r.value); }
  }
}
