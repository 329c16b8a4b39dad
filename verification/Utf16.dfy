/**
 * UTF-16LE text to UTF-8 and back.  Units are numbers; `c >> 6` is `c / 64`, `c & 0x3F` is `c % 64`, and
 * setting bits that are clear is addition.
 */
module Utf16 {
  import opened Bytes

  type unit = c: int | 0 <= c < 0x1_0000

  // ---- Specification -------------------------------------------------------------------------------

  /** Two bytes a unit, low byte first. */
  function UnitAt(data: seq<byte>, i: nat): unit
    requires 2 * i + 1 < |data|
  {
    var low: int, high: int := data[2 * i], data[2 * i + 1];
    low + 256 * high
  }

  function UnitsOf(data: seq<byte>, charCount: nat): (w: seq<unit>)
    requires 2 * charCount <= |data|
    ensures |w| == charCount && forall i :: 0 <= i < charCount ==> w[i] == UnitAt(data, i)
  {
    if charCount == 0 then [] else UnitsOf(data, charCount - 1) + [UnitAt(data, charCount - 1)]
  }

  /** The text ends at the first zero unit. */
  function BeforeZero(w: seq<unit>): seq<unit> {
    if w == [] || w[0] == 0 then [] else [w[0]] + BeforeZero(w[1..])
  }

  function Utf8OfUnit(c: unit): seq<byte> {
    if c < 0x80 then [c]
    else if c < 0x800 then [0xC0 + c / 64, 0x80 + c % 64]
    else [0xE0 + c / 4096, 0x80 + c / 64 % 64, 0x80 + c % 64]
  }

  function Utf8Of(w: seq<unit>): seq<byte> {
    if w == [] then [] else Utf8OfUnit(w[0]) + Utf8Of(w[1..])
  }

  /** One step of the decoder: the unit it appends, if any, and how far it moves. */
  function DecodeStep(s: seq<byte>): (Option<unit>, nat)
    requires s != []
  {
    var c: int := s[0];
    if c < 0x80 then (Some(c), 1)
    else if c / 32 == 6 then (Some(64 * (c % 32) + Continuation(s, 1)), 2)
    else if c / 16 == 14 then (Some(4096 * (c % 16) + 64 * Continuation(s, 1) + Continuation(s, 2)), 3)
    else (None, 1)
  }

  /** The six bits of a following byte, whatever its top bits are; a missing byte adds nothing. */
  function Continuation(s: seq<byte>, i: nat): (bits: int)
    ensures 0 <= bits < 64
  {
    if i < |s| then s[i] % 64 else 0
  }

  function Utf16Of(s: seq<byte>): seq<unit>
    decreases |s|
  {
    if s == [] then []
    else
      var (c, n) := DecodeStep(s);
      var rest := if n < |s| then Utf16Of(s[n..]) else [];
      if c.Some? then [c.value] + rest else rest
  }

  /** A text in memory: two bytes a unit, the low one first. */
  function LittleEndian(w: seq<unit>): (data: seq<byte>)
    ensures |data| == 2 * |w|
  {
    if w == [] then [] else LittleEndian(w[..|w| - 1]) + [w[|w| - 1] % 256, w[|w| - 1] / 256]
  }

  lemma {:induction false} UnitIsThere(w: seq<unit>, i: nat)
    requires i < |w|
    ensures LittleEndian(w)[2 * i] == w[i] % 256 && LittleEndian(w)[2 * i + 1] == w[i] / 256
  {
    if i < |w| - 1 {
      UnitIsThere(w[..|w| - 1], i);
    }
  }

  /** Whatever follows it, a text is read unit by unit as it lies in memory. */
  lemma {:induction false} UnitsComeBack(w: seq<unit>, rest: seq<byte>)
    ensures UnitsOf(LittleEndian(w) + rest, |w|) == w
  {
    var data := LittleEndian(w) + rest;
    forall i | 0 <= i < |w|
      ensures UnitAt(data, i) == w[i]
    {
      UnitIsThere(w, i);
      assert data[2 * i] == LittleEndian(w)[2 * i] && data[2 * i + 1] == LittleEndian(w)[2 * i + 1];
    }
  }

  // ---- RFC 3629 --------------------------------------------------------------------------------------

  predicate IsTail(b: byte) {
    0x80 <= b <= 0xBF
  }

  /** The well-formed sequences of one, two and three bytes, section 4 of RFC 3629. */
  predicate Rfc3629(s: seq<byte>) {
    || (|s| == 1 && s[0] <= 0x7F)
    || (|s| == 2 && 0xC2 <= s[0] <= 0xDF && IsTail(s[1]))
    || (|s| == 3 && IsTail(s[2]) &&
         (|| (s[0] == 0xE0 && 0xA0 <= s[1] <= 0xBF)
          || (0xE1 <= s[0] <= 0xEC && IsTail(s[1]))
          || (s[0] == 0xED && 0x80 <= s[1] <= 0x9F)
          || (0xEE <= s[0] <= 0xEF && IsTail(s[1]))))
  }

  /** The character number a well-formed sequence stands for, section 3 of RFC 3629. */
  function CharacterNumber(s: seq<byte>): int
    requires 1 <= |s| <= 3
  {
    var first: int := s[0];
    if |s| == 1 then first
    else
      var second: int := s[1];
      if |s| == 2 then 64 * (first - 0xC0) + (second - 0x80)
      else
        var third: int := s[2];
        64 * (64 * (first - 0xE0) + (second - 0x80)) + (third - 0x80)
  }

  predicate Surrogate(c: unit) {
    0xD800 <= c <= 0xDFFF
  }

  /** Twelve or sixteen bits and their six-bit groups. */
  lemma Groups(c: int, high: int, middle: int, low: int)
    requires 0 <= middle < 64 && 0 <= low < 64 && high >= 0
    requires c == 64 * (64 * high + middle) + low
    ensures c / 4096 == high && c / 64 % 64 == middle && c % 64 == low && c / 64 == 64 * high + middle
  {
    assert c / 64 == 64 * high + middle;
  }

  lemma Ungroup(c: unit)
    ensures c == 64 * (64 * (c / 4096) + c / 64 % 64) + c % 64
    ensures c < 0x800 ==> c / 4096 == 0 && c / 64 < 32 && c == 64 * (c / 64) + c % 64
  {
    assert c / 64 / 64 == c / 4096;
  }

  /** A unit's bytes are the standard's UTF-8 for it exactly when it is not half of a surrogate pair. */
  lemma UnitIsUtf8(c: unit)
    ensures Rfc3629(Utf8OfUnit(c)) <==> !Surrogate(c)
    ensures CharacterNumber(Utf8OfUnit(c)) == c
  {
    Ungroup(c);
  }

  /** And no other sequence of the standard stands for it. */
  lemma Utf8IsUnique(s: seq<byte>)
    requires Rfc3629(s)
    ensures 0 <= CharacterNumber(s) < 0x1_0000 && Utf8OfUnit(CharacterNumber(s)) == s
  {
    var c := CharacterNumber(s);
    if |s| == 2 {
      Groups(c, 0, s[0] - 0xC0, s[1] - 0x80);
    } else if |s| == 3 {
      Groups(c, s[0] - 0xE0, s[1] - 0x80, s[2] - 0x80);
    }
  }

  /** What the decoder makes of any first byte: a character as far as there are bytes for it, or nothing. */
  lemma LeadSays(s: seq<byte>)
    requires s != []
    ensures var lead: int := s[0];
      var second: int, third: int := if |s| > 1 then s[1] % 64 else 0, if |s| > 2 then s[2] % 64 else 0;
      && (lead <= 0x7F ==> DecodeStep(s) == (Some(lead), 1))
      && (0xC0 <= lead <= 0xDF ==> DecodeStep(s) == (Some(64 * (lead - 0xC0) + second), 2))
      && (0xE0 <= lead <= 0xEF ==> DecodeStep(s) == (Some(64 * (64 * (lead - 0xE0) + second) + third), 3))
      && (0x80 <= lead <= 0xBF || lead >= 0xF0 ==> DecodeStep(s) == (None, 1))
  {
  }

  /** A byte that begins nothing of at most three bytes is passed over. */
  lemma {:induction false} StrayByteVanishes(b: byte, rest: seq<byte>)
    requires 0x80 <= b <= 0xBF || b >= 0xF0
    ensures Utf16Of([b] + rest) == Utf16Of(rest)
  {
    LeadSays([b] + rest);
    assert ([b] + rest)[1..] == rest;
  }

  /** So a character beyond the 16-bit units, of four bytes in the sense of section 4 of RFC 3629, is dropped whole. */
  lemma {:induction false} FourBytesVanish(first: byte, second: byte, third: byte, fourth: byte, rest: seq<byte>)
    requires 0xF0 <= first <= 0xF4 && IsTail(second) && IsTail(third) && IsTail(fourth)
    ensures Utf16Of([first, second, third, fourth] + rest) == Utf16Of(rest)
  {
    assert [first, second, third, fourth] + rest == [first] + ([second] + ([third] + ([fourth] + rest)));
    StrayByteVanishes(first, [second] + ([third] + ([fourth] + rest)));
    StrayByteVanishes(second, [third] + ([fourth] + rest));
    StrayByteVanishes(third, [fourth] + rest);
    StrayByteVanishes(fourth, rest);
  }

  lemma DecodeUnit(c: unit, rest: seq<byte>)
    ensures DecodeStep(Utf8OfUnit(c) + rest) == (Some(c), |Utf8OfUnit(c)|)
  {
    var e := Utf8OfUnit(c);
    Ungroup(c);
    assert (e + rest)[0] == e[0];
    if c >= 0x800 {
      assert (e + rest)[1] == e[1] && (e + rest)[2] == e[2];
      assert e[0] / 32 == 7 && e[0] / 16 == 14 && e[0] % 16 == c / 4096;
    } else if c >= 0x80 {
      assert (e + rest)[1] == e[1];
      assert e[0] / 32 == 6 && e[0] % 32 == c / 64;
    }
  }

  /** Text written as UTF-8, surrogates and all, is read back unit by unit. */
  lemma {:induction false} Utf8RoundTrip(w: seq<unit>)
    ensures Utf16Of(Utf8Of(w)) == w
  {
    if w == [] {
    } else {
      var e := Utf8OfUnit(w[0]);
      DecodeUnit(w[0], Utf8Of(w[1..]));
      assert Utf8Of(w)[|e|..] == Utf8Of(w[1..]);
      Utf8RoundTrip(w[1..]);
      assert [w[0]] + w[1..] == w;
    }
  }

  /** The text that goes in comes out, up to its first zero. */
  lemma TextRoundTrip(w: seq<unit>)
    ensures Utf16Of(Utf8Of(BeforeZero(w))) == BeforeZero(w)
    ensures BeforeZero(w) <= w && 0 !in BeforeZero(w)
    ensures BeforeZero(w) == w || w[|BeforeZero(w)|] == 0
  {
    Utf8RoundTrip(BeforeZero(w));
    BeforeZeroIsPrefix(w);
  }

  lemma {:induction false} BeforeZeroIsPrefix(w: seq<unit>)
    ensures BeforeZero(w) <= w && 0 !in BeforeZero(w)
    ensures BeforeZero(w) == w || w[|BeforeZero(w)|] == 0
  {
    if w == [] {
    } else {
      BeforeZeroIsPrefix(w[1..]);
    }
  }

  // ---- The program -----------------------------------------------------------------------------------

  function TextFrom(w: seq<unit>, i: nat): seq<byte>
    requires i <= |w|
  {
    Utf8Of(BeforeZero(w[i..]))
  }

  lemma TextStep(w: seq<unit>, i: nat)
    requires i < |w|
    ensures w[i] == 0 ==> TextFrom(w, i) == []
    ensures w[i] != 0 ==> TextFrom(w, i) == Utf8OfUnit(w[i]) + TextFrom(w, i + 1)
  {
    assert w[i..][1..] == w[i + 1..];
    if w[i] != 0 {
      assert BeforeZero(w[i..])[1..] == BeforeZero(w[i + 1..]);
    }
  }

  lemma TextEnds(w: seq<unit>)
    ensures TextFrom(w, 0) == Utf8Of(BeforeZero(w)) && TextFrom(w, |w|) == []
  {
    assert w[0..] == w;
  }

  method AppendUnit(begun: seq<byte>, c: unit) returns (out: seq<byte>)
    ensures out == begun + Utf8OfUnit(c)
  {
    out := begun;
    if c < 0x80 {
      out := out + [c];
    } else if c < 0x800 {
      out := out + [0xC0 + c / 64];
      out := out + [0x80 + c % 64];
    } else {
      out := out + [0xE0 + c / 4096];
      out := out + [0x80 + c / 64 % 64];
      out := out + [0x80 + c % 64];
    }
  }

  method Utf16LeToUtf8(data: seq<byte>, charCount: nat) returns (out: seq<byte>)
    requires 2 * charCount <= |data|
    ensures out == Utf8Of(BeforeZero(UnitsOf(data, charCount)))
  {
    ghost var w := UnitsOf(data, charCount);
    out := [];
    TextEnds(w);
    for i := 0 to charCount
      invariant out + TextFrom(w, i) == Utf8Of(BeforeZero(w))
    {
      var c := UnitAt(data, i);
      TextStep(w, i);
      if c == 0 {
        return;
      }
      assert out + (Utf8OfUnit(c) + TextFrom(w, i + 1)) == (out + Utf8OfUnit(c)) + TextFrom(w, i + 1);
      out := AppendUnit(out, c);
    }
  }

  function Utf16From(s: seq<byte>, i: nat): seq<unit> {
    if i < |s| then Utf16Of(s[i..]) else []
  }

  /** What one turn of the decoder's loop is worth. */
  lemma StepOf(s: seq<byte>, i: nat)
    requires i < |s|
    ensures var (c, n) := DecodeStep(s[i..]);
      Utf16From(s, i) == if c.Some? then [c.value] + Utf16From(s, i + n) else Utf16From(s, i + n)
  {
    var n := DecodeStep(s[i..]).1;
    if i + n < |s| {
      assert s[i..][n..] == s[i + n..];
    }
  }

  /** The decoder's branches: a code point, or a byte to skip, and the index after it. */
  method NextCodepoint(s: seq<byte>, start: nat) returns (codepoint: Option<nat>, i: nat)
    requires start < |s|
    ensures (codepoint, i) == (DecodeStep(s[start..]).0, start + DecodeStep(s[start..]).1)
  {
    i := start;
    var c: int := s[i];
    if c < 0x80 {
      codepoint := Some(c);
      i := i + 1;
    } else if c / 32 == 6 {
      var point := 64 * (c % 32);
      if i + 1 < |s| {
        point := point + s[i + 1] % 64;
      }
      codepoint := Some(point);
      i := i + 2;
    } else if c / 16 == 14 {
      var point := 4096 * (c % 16);
      if i + 1 < |s| {
        var second: int := s[i + 1] % 64;
        point := point + 64 * second;
      }
      if i + 2 < |s| {
        point := point + s[i + 2] % 64;
      }
      codepoint := Some(point);
      i := i + 3;
    } else {
      codepoint := None;
      i := i + 1;
    }
  }

  method Utf8ToUtf16(s: seq<byte>) returns (out: seq<unit>)
    ensures out == Utf16Of(s)
  {
    out := [];
    var i := 0;
    assert s[0..] == s;
    while i < |s|
      invariant out + Utf16From(s, i) == Utf16Of(s)
    {
      StepOf(s, i);
      var codepoint, after := NextCodepoint(s, i);
      ghost var rest := Utf16From(s, after);
      i := after;
      if codepoint.Some? && codepoint.value <= 0xFFFF {
        assert out + ([codepoint.value] + rest) == (out + [codepoint.value]) + rest;
        out := out + [codepoint.value];
      }
    }
  }

  /** Through both conversions the text comes back. */
  method ThroughUtf8(data: seq<byte>, charCount: nat) returns (back: seq<unit>)
    requires 2 * charCount <= |data|
    ensures back == BeforeZero(UnitsOf(data, charCount))
  {
    var utf8 := Utf16LeToUtf8(data, charCount);
    back := Utf8ToUtf16(utf8);
    TextRoundTrip(UnitsOf(data, charCount));
  }
}
