/**
 * Text primitives the printers use: indentation (pad) and the fixed-width,
 * `0x`-prefixed, lower-case hexadecimal rendering (to_hex), together with the
 * reading of that rendering, which shows that it loses nothing.
 */
module Text {
  import opened Wrappers

  /** `n` spaces of indentation. */
  function Pad(n: nat): (s: string)
    ensures |s| == n && forall k :: 0 <= k < n ==> s[k] == ' '
  {
    seq(n, _ => ' ')
  }

  function Pow16(n: nat): (p: nat)
    ensures p > 0
  {
    if n == 0 then 1 else 16 * Pow16(n - 1)
  }

  predicate IsHexDigit(c: char)
  {
    '0' <= c <= '9' || 'a' <= c <= 'f'
  }

  predicate AllHexDigits(s: string)
  {
    forall k :: 0 <= k < |s| ==> IsHexDigit(s[k])
  }

  function DigitValue(c: char): (d: nat)
    requires IsHexDigit(c)
    ensures d < 16
  {
    if c <= '9' then c as int - '0' as int else c as int - 'a' as int + 10
  }

  function HexDigit(d: nat): (c: char)
    requires d < 16
    ensures IsHexDigit(c) && DigitValue(c) == d
  {
    if d < 10 then ('0' as int + d) as char else ('a' as int + d - 10) as char
  }

  /** The `width` lowest hexadecimal digits of `v`, most significant first. */
  function HexDigits(v: nat, width: nat): (s: string)
    ensures |s| == width && AllHexDigits(s)
  {
    if width == 0 then "" else HexDigits(v / 16, width - 1) + [HexDigit(v % 16)]
  }

  /** The number a string of hexadecimal digits denotes. */
  function HexValue(s: string): (v: nat)
    requires AllHexDigits(s)
    ensures v < Pow16(|s|)
  {
    if s == [] then 0
    else
      var init := s[..|s| - 1];
      assert AllHexDigits(init);
      var high := HexValue(init);
      assert high * 16 <= (Pow16(|init|) - 1) * 16;
      high * 16 + DigitValue(s[|s| - 1])
  }

  /** Reading the digits back gives the value whenever it fits in `width` digits. */
  lemma {:induction false} HexValueOfDigits(v: nat, width: nat)
    requires v < Pow16(width)
    ensures HexValue(HexDigits(v, width)) == v
  {
    if width > 0 {
      var s := HexDigits(v, width);
      assert s[..|s| - 1] == HexDigits(v / 16, width - 1);
      HexValueOfDigits(v / 16, width - 1);
    }
  }

  /** to_hex: `0x` followed by exactly `width` lower-case digits. */
  function Hex(v: nat, width: nat): (s: string)
    ensures |s| == width + 2
  {
    "0x" + HexDigits(v, width)
  }

  function Hex8(b: bv8): string
  {
    Hex(b as nat, 2)
  }

  function Hex16(w: bv16): string
  {
    Hex(w as nat, 4)
  }

  function Hex32(w: bv32): string
  {
    Hex(w as nat, 8)
  }

  /** The rest of `s` after the prefix `p`, if `s` starts with `p`. */
  function DropPrefix(s: string, p: string): (r: Option<string>)
    ensures r.Some? <==> |p| <= |s| && s[..|p|] == p
    ensures r.Some? ==> s == p + r.value
  {
    if |p| <= |s| && s[..|p|] == p then Some(s[|p|..]) else None
  }

  /** Dropping a prefix from a text that starts with it leaves the rest. */
  lemma DropPrefixOf(p: string, rest: string)
    ensures DropPrefix(p + rest, p) == Some(rest)
  {
    assert (p + rest)[..|p|] == p;
    assert (p + rest)[|p|..] == rest;
  }

  /** Reads a hexadecimal literal of exactly `width` digits. */
  function ReadHex(s: string, width: nat): (r: Option<nat>)
    ensures r.Some? ==> r.value < Pow16(width)
  {
    match DropPrefix(s, "0x")
    case Some(digits) =>
      if |digits| == width && AllHexDigits(digits) then Some(HexValue(digits)) else None
    case None => None
  }

  lemma ReadHexOfHex(v: nat, width: nat)
    requires v < Pow16(width)
    ensures ReadHex(Hex(v, width), width) == Some(v)
  {
    assert DropPrefix(Hex(v, width), "0x") == Some(HexDigits(v, width));
    HexValueOfDigits(v, width);
  }

  lemma Pow16Values()
    ensures Pow16(2) == 0x100 && Pow16(4) == 0x1_0000 && Pow16(8) == 0x1_0000_0000
  {
  }
}
