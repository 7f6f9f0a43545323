/** Identifiers as the google/uuid package handles them: a 16-byte value,
    `Parse` from text and `String` to the canonical text of section 4 of RFC 9562
    (formerly section 3 of RFC 4122), `xxxxxxxx-xxxx-xxxx-xxxx-xxxxxxxxxxxx` in
    lower-case hexadecimal. */
module Uuid {
  import opened Wrappers
  import Strings

  type Byte = x: int | 0 <= x < 256

  type Uuid = b: seq<Byte> | |b| == 16 witness [0, 0, 0, 0, 0, 0, 0, 0, 0, 0, 0, 0, 0, 0, 0, 0]

  /** `uuid.Nil`, all sixteen bytes zero. */
  const Nil: Uuid := [0, 0, 0, 0, 0, 0, 0, 0, 0, 0, 0, 0, 0, 0, 0, 0]

  /** Length of the canonical text. */
  const CanonicalLength: nat := 36

  predicate IsHex(c: char) {
    ('0' <= c <= '9') || ('a' <= c <= 'f') || ('A' <= c <= 'F')
  }

  function HexValue(c: char): (n: nat)
    requires IsHex(c)
    ensures n < 16
  {
    if '0' <= c <= '9' then c as int - '0' as int
    else if 'a' <= c <= 'f' then c as int - 'a' as int + 10
    else c as int - 'A' as int + 10
  }

  /** The lower-case digit `encoding/hex` writes for a nibble. */
  function HexDigit(n: nat): (c: char)
    requires n < 16
    ensures IsHex(c) && HexValue(c) == n
    ensures !('A' <= c <= 'Z')
  {
    if n < 10 then ('0' as int + n) as char else ('a' as int + n - 10) as char
  }

  /** google/uuid's `xtob`: the byte two hex digits spell. */
  function XToB(hi: char, lo: char): Byte
    requires IsHex(hi) && IsHex(lo)
  {
    HexValue(hi) * 16 + HexValue(lo)
  }

  predicate IsDash(p: nat) {
    p == 8 || p == 13 || p == 18 || p == 23
  }

  /** Where byte `i` starts in the canonical text: 0, 2, 4, 6, 9, 11, 14, 16, 19,
      21, 24, 26, 28, 30, 32, 34, that is two digits per byte with a hyphen after
      bytes 3, 5, 7 and 9. */
  function Offset(i: nat): (p: nat)
    requires i < 16
    ensures p + 1 < CanonicalLength && !IsDash(p) && !IsDash(p + 1)
  {
    2 * i + (if i >= 4 then 1 else 0) + (if i >= 6 then 1 else 0)
          + (if i >= 8 then 1 else 0) + (if i >= 10 then 1 else 0)
  }

  /** The 36-character form: hyphens at 8, 13, 18 and 23, two hex digits at each
      byte offset. */
  function ParseCanonical(s: string): (r: Option<Uuid>)
    requires |s| == CanonicalLength
  {
    if s[8] != '-' || s[13] != '-' || s[18] != '-' || s[23] != '-' then None
    else if forall i :: 0 <= i < 16 ==> IsHex(s[Offset(i)]) && IsHex(s[Offset(i) + 1]) then
      Some(seq(16, i requires 0 <= i < 16 => XToB(s[Offset(i)], s[Offset(i) + 1])))
    else None
  }

  /** The 32-character form: thirty-two hex digits and nothing else. */
  function ParseHex(s: string): (r: Option<Uuid>)
    requires |s| == 32
  {
    if forall i :: 0 <= i < 16 ==> IsHex(s[2 * i]) && IsHex(s[2 * i + 1]) then
      Some(seq(16, i requires 0 <= i < 16 => XToB(s[2 * i], s[2 * i + 1])))
    else None
  }

  /** ASCII case folding, which is all of `strings.EqualFold` that matters once
      the text is known to be ASCII. */
  function LowerAscii(c: char): char {
    if 'A' <= c <= 'Z' then (c as int + 32) as char else c
  }

  predicate EqualFoldAscii(a: string, b: string) {
    |a| == |b| && forall k :: 0 <= k < |a| ==> LowerAscii(a[k]) == LowerAscii(b[k])
  }

  const UrnPrefix: string := "urn:uuid:"

  /** `uuid.Parse`. Go measures the text in bytes; a string with a character
      outside ASCII has more bytes than characters and its multi-byte characters
      never sit where a hex digit or the prefix is read, so Go rejects every such
      string, and the model does so first. Then, by length: 36 is the canonical
      form; 45 is the canonical form behind `urn:uuid:`, matched without regard
      to case (`strings.EqualFold`); 38 is the canonical form with one character
      either side, which is not examined (the braces of `{...}`); 32 is bare hex.
      Any other length fails. */
  function Parse(s: string): (r: Option<Uuid>)
    ensures r.Some? ==> Strings.IsAscii(s) && |s| in {32, 36, 38, 45}
  {
    if !Strings.IsAscii(s) then None
    else if |s| == 32 then ParseHex(s)
    else
      var core: Option<string> :=
        if |s| == CanonicalLength then Some(s)
        else if |s| == 45 && EqualFoldAscii(s[..9], UrnPrefix) then Some(s[9..])
        else if |s| == 38 then Some(s[1..37])
        else None;
      if core.Some? && |core.value| == CanonicalLength then ParseCanonical(core.value) else None
  }

  /** `hex.EncodeToString`. */
  function Hex(bs: seq<Byte>): (r: string)
    ensures |r| == 2 * |bs|
  {
    if bs == [] then [] else [HexDigit(bs[0] / 16), HexDigit(bs[0] % 16)] + Hex(bs[1..])
  }

  /** `UUID.String`: the canonical text, lower case. */
  function String(u: Uuid): (r: string)
    ensures |r| == CanonicalLength
  {
    Hex(u[..4]) + "-" + Hex(u[4..6]) + "-" + Hex(u[6..8]) + "-" + Hex(u[8..10]) + "-" + Hex(u[10..])
  }

  lemma {:induction false} HexAt(bs: seq<Byte>, k: nat)
    requires k < |bs|
    ensures Hex(bs)[2 * k] == HexDigit(bs[k] / 16)
    ensures Hex(bs)[2 * k + 1] == HexDigit(bs[k] % 16)
  {
    if k > 0 {
      HexAt(bs[1..], k - 1);
    }
  }

  /** Where the five groups and the four hyphens sit in `String(u)`. */
  lemma StringGroups(u: Uuid)
    ensures String(u)[..8] == Hex(u[..4]) && String(u)[9..13] == Hex(u[4..6])
    ensures String(u)[14..18] == Hex(u[6..8]) && String(u)[19..23] == Hex(u[8..10])
    ensures String(u)[24..] == Hex(u[10..])
    ensures String(u)[8] == '-' && String(u)[13] == '-' && String(u)[18] == '-' && String(u)[23] == '-'
  {
    var g1, g2, g3, g4, g5 := Hex(u[..4]), Hex(u[4..6]), Hex(u[6..8]), Hex(u[8..10]), Hex(u[10..]);
    var a := g1 + "-";
    var b := a + g2 + "-";
    var c := b + g3 + "-";
    var d := c + g4 + "-";
    assert String(u) == d + g5;
    assert (d + g5)[..23] == c + g4;
    assert (c + g4)[..18] == b + g3;
    assert (b + g3)[..13] == a + g2;
  }

  /** Byte `i` of `u` is spelt, high nibble first, at its offset in `String(u)`. */
  lemma StringAt(u: Uuid, i: nat)
    requires i < 16
    ensures String(u)[Offset(i)] == HexDigit(u[i] / 16)
    ensures String(u)[Offset(i) + 1] == HexDigit(u[i] % 16)
  {
    var s := String(u);
    StringGroups(u);
    if i < 4 {
      HexAt(u[..4], i);
      assert s[Offset(i)] == s[..8][2 * i] && s[Offset(i) + 1] == s[..8][2 * i + 1];
    } else if i < 6 {
      HexAt(u[4..6], i - 4);
      assert s[Offset(i)] == s[9..13][2 * (i - 4)] && s[Offset(i) + 1] == s[9..13][2 * (i - 4) + 1];
    } else if i < 8 {
      HexAt(u[6..8], i - 6);
      assert s[Offset(i)] == s[14..18][2 * (i - 6)] && s[Offset(i) + 1] == s[14..18][2 * (i - 6) + 1];
    } else if i < 10 {
      HexAt(u[8..10], i - 8);
      assert s[Offset(i)] == s[19..23][2 * (i - 8)] && s[Offset(i) + 1] == s[19..23][2 * (i - 8) + 1];
    } else {
      HexAt(u[10..], i - 10);
      assert s[Offset(i)] == s[24..][2 * (i - 10)] && s[Offset(i) + 1] == s[24..][2 * (i - 10) + 1];
    }
  }

  lemma StringShape(u: Uuid)
    ensures forall p :: 0 <= p < CanonicalLength ==> (String(u)[p] == '-' <==> IsDash(p))
    ensures Strings.IsAscii(String(u))
  {
    var s := String(u);
    forall p | 0 <= p < CanonicalLength && !IsDash(p)
      ensures IsHex(s[p]) && s[p] < '\U{80}'
    {
      var i := if p < 8 then p / 2 else if p < 13 then (p - 1) / 2
               else if p < 18 then (p - 2) / 2 else if p < 23 then (p - 3) / 2 else (p - 4) / 2;
      StringAt(u, i);
      assert p == Offset(i) || p == Offset(i) + 1;
    }
  }

  lemma XToBDigits(b: Byte)
    ensures XToB(HexDigit(b / 16), HexDigit(b % 16)) == b
  {
  }

  /** Round trip: the canonical text of an identifier parses back to it. */
  lemma ParseCanonicalString(u: Uuid)
    ensures ParseCanonical(String(u)) == Some(u)
  {
    var s := String(u);
    StringShape(u);
    forall i | 0 <= i < 16
      ensures IsHex(s[Offset(i)]) && IsHex(s[Offset(i) + 1])
      ensures XToB(s[Offset(i)], s[Offset(i) + 1]) == u[i]
    {
      StringAt(u, i);
      XToBDigits(u[i]);
    }
    assert IsDash(8) && IsDash(13) && IsDash(18) && IsDash(23);
    var v := seq(16, i requires 0 <= i < 16 => XToB(s[Offset(i)], s[Offset(i) + 1]));
    assert v == u;
  }

  lemma ParseString(u: Uuid)
    ensures Parse(String(u)) == Some(u)
  {
    StringShape(u);
    ParseCanonicalString(u);
  }

  /** The braced form `{...}` of the canonical text parses to the same identifier. */
  lemma ParseBraced(u: Uuid)
    ensures Parse("{" + String(u) + "}") == Some(u)
  {
    var s := "{" + String(u) + "}";
    StringShape(u);
    assert s[1..37] == String(u);
    ParseCanonicalString(u);
  }

  /** The canonical text behind any spelling of `urn:uuid:` that differs from
      it only in case parses to the same identifier. */
  lemma ParseUrn(p: string, u: Uuid)
    requires Strings.IsAscii(p) && EqualFoldAscii(p, UrnPrefix)
    ensures Parse(p + String(u)) == Some(u)
  {
    StringShape(u);
    ParseCanonicalString(u);
    var s := p + String(u);
    Strings.AsciiConcat(p, String(u));
    assert s[..9] == p && s[9..] == String(u);
  }

  /** The prefix in lower case and in capitals. */
  lemma UrnPrefixes()
    ensures Strings.IsAscii("urn:uuid:") && EqualFoldAscii("urn:uuid:", UrnPrefix)
    ensures Strings.IsAscii("URN:UUID:") && EqualFoldAscii("URN:UUID:", UrnPrefix)
  {
  }

  /** Thirty-two bare hex digits parse to the bytes they spell. */
  lemma ParseHexForm(u: Uuid)
    ensures Parse(Hex(u)) == Some(u)
  {
    var s := Hex(u);
    forall i | 0 <= i < 16
      ensures IsHex(s[2 * i]) && IsHex(s[2 * i + 1]) && s[2 * i] < '\U{80}' && s[2 * i + 1] < '\U{80}'
      ensures XToB(s[2 * i], s[2 * i + 1]) == u[i]
    {
      HexAt(u, i);
      XToBDigits(u[i]);
    }
    var v := seq(16, i requires 0 <= i < 16 => XToB(s[2 * i], s[2 * i + 1]));
    assert v == u;
    assert Strings.IsAscii(s) by {
      forall p | 0 <= p < 32 ensures s[p] < '\U{80}' {
        assert p == 2 * (p / 2) || p == 2 * (p / 2) + 1;
      }
    }
  }

  /** Text that is not an identifier in any of the forms is rejected. */
  lemma ParseRejects()
    ensures Parse("").None?
    ensures Parse("not-a-uuid").None?
    ensures Parse("123e4567-e89b-12d3-a456-42661417400").None?
    ensures Parse("123e4567+e89b-12d3-a456-426614174000").None?
    ensures Parse("123e4567-e89b-12d3-a456-42661417400g").None?
  {
    var bad := "123e4567-e89b-12d3-a456-42661417400g";
    assert Offset(15) == 34 && !IsHex(bad[35]);
  }
}
