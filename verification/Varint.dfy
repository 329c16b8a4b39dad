/**
 * The two variable-length integer formats.  Bytes are numbers 0..255, so `& 0x7F` is `% 128`, `>> 7` is
 * `/ 128`, and setting a clear bit 7 is `+ 128`.
 */
module Varint {
  import opened Bytes

  // ---- What the encodings are ------------------------------------------------------------------

  function VaruintBytes(v: nat): seq<byte> {
    if v < 128 then [v] else [128 + v % 128] + VaruintBytes(v / 128)
  }

  function Magnitude(v: int): nat {
    if v < 0 then -v else v
  }

  /** First byte: continuation, sign, six bits; then seven bits a byte. */
  function VarintBytes(v: int): seq<byte> {
    var sign := if v < 0 then 64 else 0;
    var m := Magnitude(v);
    if m < 64 then [sign + m] else [128 + sign + m % 64] + VaruintBytes(m / 64)
  }

  /** The number written seven bits a byte, low bits first, whatever the continuation bits say. */
  function Base128(s: seq<byte>): nat {
    if s == [] then 0 else s[0] % 128 + 128 * Base128(s[1..])
  }

  /** v << n, without a width. */
  function Shl(v: nat, n: nat): nat {
    if n == 0 then v else 2 * Shl(v, n - 1)
  }

  function Pow128(n: nat): nat {
    if n == 0 then 1 else 128 * Pow128(n - 1)
  }

  /** How many bytes a prefix takes: up to and with the first byte that has no continuation bit. */
  function RunLength(s: seq<byte>): (n: nat)
    ensures n <= |s| + 1
    ensures n <= |s| ==> 0 < n && s[n - 1] < 128
    ensures forall i :: 0 <= i < n - 1 && i < |s| ==> s[i] >= 128
  {
    if s == [] then 1
    else if s[0] < 128 then 1
    else 1 + RunLength(s[1..])
  }

  datatype Reading = Read(value: uint64, size: nat) | RanOut | TooLong

  /** What a prefix of at most ten bytes means; a shift past bit 63 loses the bits it pushes out. */
  function ReadVaruint(s: seq<byte>): Reading {
    var n := RunLength(s);
    if n <= |s| && n <= 10 then Read(Base128(s[..n]) % TWO_64, n)
    else if |s| < 10 then RanOut
    else TooLong
  }

  datatype SignedReading = ReadSigned(signed: int, size: nat) | SignedRanOut | SignedOverflow

  /** The signed format, wherever the magnitude fits in 63 bits. */
  function ReadVarint(s: seq<byte>): SignedReading {
    var n := RunLength(s);
    if n > |s| then SignedRanOut
    else
      var m := s[0] % 64 + 64 * Base128(s[1..n]);
      if n <= 10 && m < TWO_64 / 2 then ReadSigned(if s[0] / 64 % 2 == 1 then -m else m, n) else SignedOverflow
  }

  // ---- Powers ----------------------------------------------------------------------------------

  lemma ShlSeven(v: nat, n: nat)
    ensures Shl(v, n + 7) == 128 * Shl(v, n)
  {
    assert Shl(v, n + 7) == 2 * Shl(v, n + 6) == 4 * Shl(v, n + 5) == 8 * Shl(v, n + 4);
    assert 8 * Shl(v, n + 4) == 16 * Shl(v, n + 3) == 32 * Shl(v, n + 2) == 64 * Shl(v, n + 1);
  }

  lemma {:induction false} ShlOne(n: nat)
    ensures Shl(1, 7 * n) == Pow128(n)
  {
    if n == 0 {
    } else {
      ShlOne(n - 1);
      ShlSeven(1, 7 * n - 7);
    }
  }

  /** Seven bits moved up stay below the next group. */
  lemma {:induction false} ShlGroup(group: nat, n: nat)
    requires group < 128
    ensures Shl(group, n) + Shl(1, n) <= 128 * Shl(1, n)
  {
    if n == 0 {
    } else {
      ShlGroup(group, n - 1);
    }
  }

  lemma WidthPowers()
    ensures Pow128(9) == TWO_64 / 2 && Pow128(8) * 64 == TWO_64 / 4 && Pow128(10) == TWO_64 * 64
  {
    assert Pow128(3) == 0x20_0000;
    assert Pow128(6) == 0x400_0000_0000;
    assert Pow128(8) == 0x100_0000_0000_0000;
  }

  lemma {:induction false} Pow128Grows(m: nat, n: nat)
    requires m <= n
    ensures Pow128(m) <= Pow128(n)
    decreases n
  {
    if m == n {
    } else {
      Pow128Grows(m, n - 1);
    }
  }

  lemma {:induction false} Base128Append(s: seq<byte>, b: byte)
    ensures Base128(s + [b]) == Base128(s) + Shl(b % 128, 7 * |s|)
  {
    if s != [] {
      Base128Append(s[1..], b);
      assert (s + [b])[1..] == s[1..] + [b];
      ShlSeven(b % 128, 7 * |s| - 7);
    } else {
      assert [b][1..] == [];
    }
  }

  lemma {:induction false} Base128Bound(s: seq<byte>)
    ensures Base128(s) < Pow128(|s|)
  {
    if s == [] {
    } else {
      Base128Bound(s[1..]);
    }
  }

  // ---- Encoding --------------------------------------------------------------------------------

  lemma {:induction false} VaruintShape(v: nat)
    ensures var e := VaruintBytes(v);
      && RunLength(e) == |e| > 0
      && Base128(e) == v
      && v < Pow128(|e|)
      && (v == 0 || Pow128(|e| - 1) <= v)
  {
    var e := VaruintBytes(v);
    if v >= 128 {
      VaruintShape(v / 128);
      assert e[1..] == VaruintBytes(v / 128);
    } else {
      assert e[1..] == [];
    }
  }

  lemma {:induction false} VaruintLength(v: nat, n: nat)
    requires v < Pow128(n) && n > 0
    ensures |VaruintBytes(v)| <= n
  {
    VaruintShape(v);
    if |VaruintBytes(v)| > n {
      Pow128Grows(n, |VaruintBytes(v)| - 1);
    }
  }

  /** At most ten bytes for any 64-bit value. */
  lemma VaruintFits(v: uint64)
    ensures 1 <= |VaruintBytes(v)| <= 10
  {
    WidthPowers();
    VaruintLength(v, 10);
    VaruintShape(v);
  }

  /** Values with bit 63 take all ten. */
  lemma {:induction false} TopBitTakesTen(v: uint64)
    requires v >= TWO_64 / 2
    ensures |VaruintBytes(v)| == 10
  {
    var e := VaruintBytes(v);
    VaruintFits(v);
    VaruintShape(v);
    Base128Bound(e);
    WidthPowers();
    if |e| < 10 {
      Pow128Grows(|e|, 9);
    }
  }

  lemma {:induction false} RunLengthOfPrefix(e: seq<byte>, rest: seq<byte>)
    requires RunLength(e) == |e| > 0
    ensures RunLength(e + rest) == |e|
  {
    assert (e + rest)[0] == e[0];
    if e[0] < 128 {
    } else {
      assert (e + rest)[1..] == e[1..] + rest;
      RunLengthOfPrefix(e[1..], rest);
    }
  }

  /** Reading an encoding back, with anything at all behind it: the value, and exactly its own bytes. */
  lemma VaruintRoundTrip(v: uint64, rest: seq<byte>)
    ensures ReadVaruint(VaruintBytes(v) + rest) == Read(v, |VaruintBytes(v)|)
  {
    var e := VaruintBytes(v);
    var s := e + rest;
    assert |e| <= 10 by { VaruintFits(v); }
    assert Base128(e) == v by { VaruintShape(v); }
    assert RunLength(s) == |e| by { VaruintShape(v); RunLengthOfPrefix(e, rest); }
    assert s[..|e|] == e;
  }

  /** No byte string that reads as v is shorter than the one the encoder writes. */
  lemma VaruintIsShortest(s: seq<byte>)
    requires ReadVaruint(s).Read?
    ensures |VaruintBytes(ReadVaruint(s).value)| <= ReadVaruint(s).size
  {
    var n := ReadVaruint(s).size;
    VaruintFits(ReadVaruint(s).value);
    if n < 10 {
      Base128Bound(s[..n]);
      Pow128Grows(n, 9);
      WidthPowers();
      VaruintLength(ReadVaruint(s).value, n);
    }
  }

  /** The signed format after its first byte. */
  lemma VarintTail(m: nat, rest: seq<byte>)
    requires 64 <= m < TWO_64 / 2
    ensures var tail := VaruintBytes(m / 64);
      |tail| <= 9 && RunLength(tail + rest) == |tail| && Base128(tail) == m / 64
  {
    VaruintShape(m / 64);
    WidthPowers();
    VaruintLength(m / 64, 9);
    RunLengthOfPrefix(VaruintBytes(m / 64), rest);
  }

  /** The parts the reader of the signed format takes apart. */
  lemma {:induction false} VarintRead(first: byte, tail: seq<byte>, rest: seq<byte>, n: nat)
    requires n == 1 + |tail| <= 10 && RunLength([first] + tail + rest) == n
    requires Base128(tail) * 64 + first % 64 < TWO_64 / 2
    ensures var m := first % 64 + 64 * Base128(tail);
      ReadVarint([first] + tail + rest) == ReadSigned(if first / 64 % 2 == 1 then -m else m, n)
  {
    var s := [first] + tail + rest;
    assert s[1..n] == tail;
  }

  lemma {:induction false} FirstByteParts(low: nat, sign: nat, more: nat)
    requires low < 64 && (sign == 0 || sign == 64) && (more == 0 || more == 128)
    ensures more + sign + low < 256 && (more + sign + low) % 64 == low
    ensures (more + sign + low) / 64 % 2 == sign / 64
  {
  }

  lemma {:induction false} ContinuedRun(first: byte, tail: seq<byte>, rest: seq<byte>)
    requires first >= 128
    ensures RunLength([first] + tail + rest) == 1 + RunLength(tail + rest)
  {
    assert ([first] + tail + rest)[1..] == tail + rest;
  }

  /** The first byte of a number of several bytes. */
  lemma LongFirst(m: nat, sign: nat)
    requires sign == 0 || sign == 64
    ensures var first := 128 + sign + m % 64;
      first < 256 && first % 64 + 64 * (m / 64) == m && (first / 64 % 2 == 1 <==> sign == 64)
  {
    FirstByteParts(m % 64, sign, 128);
  }

  lemma {:induction false} LongVarint(m: int, sign: nat, rest: seq<byte>)
    requires 64 <= m < TWO_64 / 2 && (sign == 0 || sign == 64)
    ensures var tail := VaruintBytes(m / 64);
      && 1 + |tail| <= 10
      && ReadVarint([128 + sign + m % 64] + tail + rest) == ReadSigned(if sign == 64 then -m else m, 1 + |tail|)
  {
    var first, tail := 128 + sign + m % 64, VaruintBytes(m / 64);
    LongFirst(m, sign);
    VarintTail(m, rest);
    ContinuedRun(first, tail, rest);
    VarintRead(first, tail, rest, 1 + |tail|);
  }

  lemma {:induction false} VarintRoundTrip(v: int, rest: seq<byte>)
    requires -(TWO_64 / 2) < v < TWO_64 / 2
    ensures ReadVarint(VarintBytes(v) + rest) == ReadSigned(v, |VarintBytes(v)|)
    ensures |VarintBytes(v)| <= 10
  {
    var m, sign := Magnitude(v), if v < 0 then 64 else 0;
    if m < 64 {
      FirstByteParts(m, sign, 0);
      assert VarintBytes(v) == [sign + m] + [];
      VarintRead(sign + m, [], rest, 1);
    } else {
      LongVarint(m, sign, rest);
      assert VarintBytes(v) == [128 + sign + m % 64] + VaruintBytes(m / 64);
    }
  }

  function EncodeAll(vs: seq<uint64>): seq<byte> {
    if vs == [] then [] else VaruintBytes(vs[0]) + EncodeAll(vs[1..])
  }

  /** Reads values until the bytes are used up. */
  function DecodeAll(s: seq<byte>): Option<seq<uint64>>
    decreases |s|
  {
    if s == [] then Some([])
    else
      var first := ReadVaruint(s);
      if !first.Read? then None
      else
        var others := DecodeAll(s[first.size..]);
        if others.None? then None else Some([first.value] + others.value)
  }

  /** A stream of encodings decodes in one way only: to the values that were written. */
  lemma {:induction false} StreamRoundTrip(vs: seq<uint64>)
    ensures DecodeAll(EncodeAll(vs)) == Some(vs)
  {
    if vs == [] {
    } else {
      var e := VaruintBytes(vs[0]);
      VaruintRoundTrip(vs[0], EncodeAll(vs[1..]));
      VaruintFits(vs[0]);
      assert EncodeAll(vs) == e + EncodeAll(vs[1..]);
      assert EncodeAll(vs)[|e|..] == EncodeAll(vs[1..]);
      StreamRoundTrip(vs[1..]);
      assert [vs[0]] + vs[1..] == vs;
    }
  }

  lemma StreamsAreUnique(vs: seq<uint64>, ws: seq<uint64>)
    requires EncodeAll(vs) == EncodeAll(ws)
    ensures vs == ws
  {
    StreamRoundTrip(vs);
    StreamRoundTrip(ws);
  }

  /** The bytes the header's comment gives for +1 and -1 are not the ones the encoder writes. */
  lemma OneAndMinusOne()
    ensures VarintBytes(0) == [0x00] && VarintBytes(1) == [0x01] && VarintBytes(-1) == [0x41]
    ensures ReadVarint([0x02]) == ReadSigned(2, 1) && ReadVarint([0x03]) == ReadSigned(3, 1)
  {
    assert [0x02][1..1] == [] && [0x03][1..1] == [];
    assert RunLength([0x02]) == 1 && RunLength([0x03]) == 1;
  }

  /** Numbers of two bytes: the low bits come first, all bytes but the last have their top bit, and a sign has the second highest of the first. */
  lemma TwoByteNumbers(high: nat, low: nat, sign: int)
    requires 0 < high < 128 && low < 128 && (sign == 1 || sign == -1)
    ensures VaruintBytes(128 * high + low) == [128 + low, high]
    ensures low < 64 ==> VarintBytes(sign * (64 * high + low)) == [128 + (if sign == -1 then 64 else 0) + low, high]
  {
    assert (128 * high + low) / 128 == high && (128 * high + low) % 128 == low;
    assert low < 64 ==> (64 * high + low) / 64 == high && (64 * high + low) % 64 == low;
  }

  /** The loop both vector encoders run: seven bits a byte until nothing is left. */
  method AppendGroups(begun: seq<byte>, value: uint64) returns (out: seq<byte>)
    ensures out == begun + VaruintBytes(value)
  {
    out := begun;
    var rest := value;
    var more := true;
    while more
      invariant more ==> out + VaruintBytes(rest) == begun + VaruintBytes(value)
      invariant !more ==> out == begun + VaruintBytes(value)
      decreases rest, more
    {
      var b := rest % 128;
      rest := rest / 128;
      if rest != 0 {
        b := b + 128;
      }
      assert out + ([b] + VaruintBytes(rest)) == (out + [b]) + VaruintBytes(rest);
      out := out + [b];
      more := rest != 0;
    }
  }

  method EncodeVaruint(value: uint64) returns (out: seq<byte>)
    ensures out == VaruintBytes(value)
  {
    out := AppendGroups([], value);
  }

  /** A buffer with the bytes w written over it from an offset on. */
  function Overwritten(was: seq<byte>, offset: nat, w: seq<byte>): seq<byte>
    requires offset + |w| <= |was|
  {
    was[..offset] + w + was[offset + |w|..]
  }

  lemma OverwriteOneMore(was: seq<byte>, offset: nat, w: seq<byte>, b: byte)
    requires offset + |w| < |was|
    ensures Overwritten(was, offset, w)[offset + |w| := b] == Overwritten(was, offset, w + [b])
  {
  }

  lemma OverwriteFirst(was: seq<byte>, offset: nat, b: byte, w: seq<byte>)
    requires offset + 1 + |w| <= |was|
    ensures Overwritten(was[offset := b], offset + 1, w) == Overwritten(was, offset, [b] + w)
    ensures was[offset := b] == Overwritten(was, offset, [b])
  {
  }

  /** The groups w are written, and those of the rest still to come make up the whole. */
  predicate GroupsWritten(whole: seq<byte>, w: seq<byte>, rest: nat, more: bool) {
    whole == w + if more then VaruintBytes(rest) else []
  }

  lemma NextGroup(whole: seq<byte>, w: seq<byte>, rest: nat, b: byte)
    requires GroupsWritten(whole, w, rest, true)
    requires b == if rest / 128 == 0 then rest % 128 else rest % 128 + 128
    ensures |w| < |whole| && GroupsWritten(whole, w + [b], rest / 128, rest / 128 != 0)
  {
    if rest / 128 == 0 {
      assert VaruintBytes(rest) == [b];
    } else {
      assert VaruintBytes(rest) == [b] + VaruintBytes(rest / 128);
    }
  }

  /** The loop both buffer encoders run: seven bits a byte until nothing is left. */
  method WriteGroups(dst: array<byte>, offset: nat, value: uint64) returns (n: nat)
    requires offset + |VaruintBytes(value)| <= dst.Length
    modifies dst
    ensures n == |VaruintBytes(value)|
    ensures dst[..] == Overwritten(old(dst[..]), offset, VaruintBytes(value))
  {
    n := 0;
    var rest := value;
    var more := true;
    ghost var whole, w: seq<byte>, was := VaruintBytes(value), [], dst[..];
    while more
      invariant |w| == n <= |whole| && GroupsWritten(whole, w, rest, more)
      invariant dst[..] == Overwritten(was, offset, w)
      decreases rest, more
    {
      ghost var left := rest;
      var b := rest % 128;
      rest := rest / 128;
      if rest != 0 {
        b := b + 128;
      }
      NextGroup(whole, w, left, b);
      ghost var before := dst[..];
      OverwriteOneMore(was, offset, w, b);
      dst[offset + n] := b;
      assert dst[..] == before[offset + n := b];
      n := n + 1;
      w := w + [b];
      more := rest != 0;
    }
  }

  /** Writes into a caller's buffer, which must have room for ten bytes from the offset on. */
  method EncodeVaruintTo(dst: array<byte>, offset: nat, value: uint64) returns (n: nat)
    requires offset + 10 <= dst.Length
    modifies dst
    ensures n == |VaruintBytes(value)| <= 10
    ensures dst[..] == Overwritten(old(dst[..]), offset, VaruintBytes(value))
  {
    VaruintFits(value);
    n := WriteGroups(dst, offset, value);
  }

  method VaruintEncodedLen(value: uint64) returns (n: nat)
    ensures n == |VaruintBytes(value)|
  {
    n := 1;
    var rest := value;
    while rest >= 128
      invariant n - 1 + |VaruintBytes(rest)| == |VaruintBytes(value)|
    {
      rest := rest / 128;
      n := n + 1;
    }
  }

  lemma VarintParts(v: int)
    ensures var m := Magnitude(v);
      var first := m % 64 + if v < 0 then 64 else 0;
      VarintBytes(v) == if m / 64 == 0 then [first] else [first + 128] + VaruintBytes(m / 64)
  {
  }

  method EncodeVarint(value: int) returns (out: seq<byte>)
    requires -(TWO_64 / 2) < value < TWO_64 / 2
    ensures out == VarintBytes(value)
  {
    VarintParts(value);
    var sign := if value < 0 then -1 else 1;
    var rest: nat := if sign < 0 then -value else value;
    var first := rest % 64;
    if sign < 0 {
      first := first + 64;
    }
    rest := rest / 64;
    if rest == 0 {
      return [first];
    }
    first := first + 128;
    out := AppendGroups([first], rest);
  }

  method EncodeVarintTo(dst: array<byte>, offset: nat, value: int) returns (n: nat)
    requires offset + 10 <= dst.Length
    requires -(TWO_64 / 2) < value < TWO_64 / 2
    modifies dst
    ensures n == |VarintBytes(value)| <= 10
    ensures dst[..] == Overwritten(old(dst[..]), offset, VarintBytes(value))
  {
    assert |VarintBytes(value)| <= 10 by { VarintRoundTrip(value, []); }
    VarintParts(value);
    var signBit := if value < 0 then 64 else 0;
    var rest: nat := if value < 0 then -value else value;
    var firstData := rest % 64;
    rest := rest / 64;
    ghost var was := dst[..];
    var first: byte := firstData + signBit;
    if rest == 0 {
      OverwriteFirst(was, offset, first, []);
      dst[offset] := first;
      assert dst[..] == was[offset := first];
      return 1;
    }
    first := first + 128;
    OverwriteFirst(was, offset, first, VaruintBytes(rest));
    dst[offset] := first;
    assert dst[..] == was[offset := first];
    n := WriteGroups(dst, offset + 1, rest);
    n := 1 + n;
  }
}
