/** The bounds-checked little-endian reader, and the pointer decoder that stops after ten bytes. */
module BinaryReader {
  import opened Bytes
  import opened Varint

  /** A read's value, an exception, or a shift or pointer the language leaves undefined. */
  datatype Fetched<+T> = Got(value: T) | Threw | Undefined

  /** pos_ + n <= size_ on 64-bit sizes: the sum wraps. */
  predicate CanReadAt(size: nat, pos: nat, n: uint64) {
    (pos + n) % TWO_64 <= size
  }

  lemma {:induction false} ShlTop(v: nat)
    ensures Shl(v, 63) == TWO_64 / 2 * v
  {
    ShlSeven(v, 0);
    ShlSeven(v, 7);
    ShlSeven(v, 14);
    ShlSeven(v, 21);
    ShlSeven(v, 28);
    ShlSeven(v, 35);
    ShlSeven(v, 42);
    ShlSeven(v, 49);
    ShlSeven(v, 56);
  }

  lemma {:induction false} WrapAway(q: nat, x: nat)
    requires x < TWO_64
    ensures (q * TWO_64 + x) % TWO_64 == x
  {
  }

  lemma {:induction false} HalfWraps(value: nat, group: nat)
    requires value < TWO_64 / 2
    ensures value + TWO_64 / 2 * group % TWO_64 == (value + TWO_64 / 2 * group) % TWO_64
  {
    var lost, top := group / 2, group % 2;
    assert TWO_64 / 2 * group == lost * TWO_64 + TWO_64 / 2 * top;
    WrapAway(lost, TWO_64 / 2 * top);
    WrapAway(lost, value + TWO_64 / 2 * top);
  }

  /** The group at bit 63 keeps one of its seven bits. */
  lemma {:induction false} TopGroup(value: nat, group: nat)
    requires value < TWO_64 / 2
    ensures value + Shl(group, 63) % TWO_64 == (value + Shl(group, 63)) % TWO_64
  {
    ShlTop(group);
    HalfWraps(value, group);
  }

  /** Seven more bits, put on top of the n groups read so far. */
  lemma {:induction false} AddGroup(value: nat, group: nat, n: nat)
    requires n <= 9 && value < Pow128(n) && group < 128
    ensures value < TWO_64
    ensures value + Shl(group, 7 * n) % TWO_64 == (value + Shl(group, 7 * n)) % TWO_64
  {
    WidthPowers();
    if n == 9 {
      TopGroup(value, group);
    } else {
      ShlGroup(group, 7 * n);
      ShlOne(n);
      Pow128Grows(n, 8);
    }
  }

  lemma {:induction false} VaruintStep(s: seq<byte>, b: byte)
    requires |s| <= 9
    ensures var value := Base128(s) % TWO_64;
      var bits := Shl(b % 128, 7 * |s|) % TWO_64;
      && value < Shl(1, 7 * |s|)
      && value + bits == Base128(s + [b]) % TWO_64
  {
    var base, group, all := Base128(s), Shl(b % 128, 7 * |s|), Base128(s + [b]);
    assert all == base + group by { Base128Append(s, b); }
    assert base < Shl(1, 7 * |s|) by { Base128Bound(s); ShlOne(|s|); }
    assert base < TWO_64 && base + group % TWO_64 == (base + group) % TWO_64 by {
      Base128Bound(s);
      AddGroup(base, b % 128, |s|);
    }
    assert base % TWO_64 == base;
  }

  method ReadVaruintChecked(s: seq<byte>, cursor: nat, end: nat) returns (ok: bool, value: uint64, next: nat)
    requires cursor <= end <= |s|
    ensures cursor <= next <= end
    ensures ok <==> ReadVaruint(s[cursor..end]).Read?
    ensures ok ==> ReadVaruint(s[cursor..end]) == Read(value, next - cursor)
  {
    ghost var rest := s[cursor..end];
    value := 0;
    next := cursor;
    var shift := 0;
    while next < end && shift <= 63
      invariant cursor <= next <= end && shift == 7 * (next - cursor) <= 70
      invariant forall i :: 0 <= i < next - cursor ==> rest[i] >= 128
      invariant value == Base128(rest[..next - cursor]) % TWO_64
      decreases end - next
    {
      var b := s[next];
      ghost var i := next - cursor;
      VaruintStep(rest[..i], b);
      assert rest[..i] + [b] == rest[..i + 1];
      next := next + 1;
      value := value + Shl(b % 128, shift) % TWO_64;
      if b < 128 {
        return true, value, next;
      }
      shift := shift + 7;
    }
    ok := false;
  }

  class BinaryReader {
    const data: seq<byte>
    var pos: nat

    predicate Valid()
      reads this
    {
      pos <= |data| < TWO_64
    }

    constructor (data: seq<byte>)
      requires |data| < TWO_64
      ensures this.data == data && pos == 0 && Valid()
    {
      this.data, this.pos := data, 0;
    }

    method NextVaruint() returns (r: Fetched<uint64>)
      requires Valid()
      modifies this
      ensures Valid()
      ensures match ReadVaruint(old(data[pos..]))
        case Read(value, size) => r == Got(value) && pos == old(pos) + size
        case RanOut => r == Threw
        case TooLong => r == if |old(data[pos..])| == 10 then Threw else Undefined
    {
      ghost var start := pos;
      ghost var rest := data[pos..];
      var ret: uint64, shift, more := 0, 0, true;
      while more
        invariant start <= pos <= |data| && shift == 7 * (pos - start) <= 70
        invariant forall i :: 0 <= i < pos - start - (if more then 0 else 1) ==> rest[i] >= 128
        invariant more ==> ret == Base128(rest[..pos - start]) % TWO_64
        invariant !more ==> ReadVaruint(rest) == Read(ret, pos - start)
        decreases |data| - pos, more
      {
        if pos >= |data| {
          return Threw;
        }
        if shift > 63 {
          return Undefined;
        }
        var b := data[pos];
        ghost var i := pos - start;
        VaruintStep(rest[..i], b);
        assert rest[..i] + [b] == rest[..i + 1];
        pos := pos + 1;
        ret := ret + Shl(b % 128, shift) % TWO_64;
        shift := shift + 7;
        more := b >= 128;
      }
      r := Got(ret);
    }

    method CanRead(n: uint64) returns (can: bool)
      requires Valid()
      ensures can <==> CanReadAt(|data|, pos, n)
    {
      can := (pos + n) % TWO_64 <= |data|;
    }

    /** The sum that passed the test is the new position, wrapped or not. */
    method Skip(n: uint64) returns (r: Fetched<()>)
      requires Valid()
      modifies this
      ensures Valid()
      ensures r == if CanReadAt(|data|, old(pos), n) then Got(()) else Threw
      ensures pos == if r.Got? then (old(pos) + n) % TWO_64 else old(pos)
    {
      if (pos + n) % TWO_64 > |data| {
        return Threw;
      }
      pos := (pos + n) % TWO_64;
      r := Got(());
    }

    /** A wrapped end lies before the start, and no block of bytes runs there. */
    method NextBytes(n: uint64) returns (r: Fetched<seq<byte>>)
      requires Valid()
      modifies this
      ensures Valid()
      ensures if !CanReadAt(|data|, old(pos), n) then r == Threw
        else if old(pos) + n > |data| then r == Undefined
        else r == Got(data[old(pos)..old(pos) + n]) && pos == old(pos) + n
    {
      if (pos + n) % TWO_64 > |data| {
        return Threw;
      }
      if pos + n > |data| {
        return Undefined;
      }
      r := Got(data[pos..pos + n]);
      pos := pos + n;
    }

    /** A string of the length, then byte by byte; a wrapped length is beyond the longest string. */
    method NextText(n: uint64) returns (r: Fetched<seq<byte>>)
      requires Valid() && |data| < TWO_32 && CanReadAt(|data|, pos, n)
      modifies this
      ensures Valid()
      ensures if old(pos) + n > |data| then r == Threw
        else r == Got(data[old(pos)..old(pos) + n]) && pos == old(pos) + n
    {
      if n >= TWO_64 / 2 {
        return Threw;
      }
      ghost var start := pos;
      var text: seq<byte> := [];
      while |text| < n
        invariant |text| <= n && pos == start + |text| && start + n <= |data|
        invariant text == data[start..pos]
      {
        text := text + [data[pos]];
        pos := pos + 1;
      }
      r := Got(text);
    }

    method NextVarint() returns (r: Fetched<int>)
      requires Valid()
      modifies this
      ensures Valid() && old(pos) <= pos
      ensures r.Got? <==> ReadVarint(old(data[pos..])).ReadSigned?
      ensures r.Got? ==> ReadVarint(old(data[pos..])) == ReadSigned(r.value, pos - old(pos))
    {
      ghost var start := pos;
      ghost var rest := data[pos..];
      if pos >= |data| {
        return Threw;
      }
      var b := data[pos];
      pos := pos + 1;
      var negative := b / 64 % 2 == 1;
      var ret: nat := b % 64;
      var shift := 6;
      while b >= 128
        invariant start < pos <= |data| && shift == 6 + 7 * (pos - start - 1)
        invariant b == rest[pos - start - 1] && SignedSoFar(rest, pos - start, ret)
        decreases |data| - pos
      {
        SignedGoesOn(rest, pos - start, ret);
        if pos >= |data| {
          return Threw;
        }
        if shift > 62 {
          return Undefined;
        }
        b := data[pos];
        ret := ret + Shl(b % 128, shift);
        if ret >= TWO_64 / 2 {
          return Undefined;
        }
        pos := pos + 1;
        shift := shift + 7;
      }
      SignedEnds(rest, pos - start, ret);
      var signed: int := ret;
      if negative {
        signed := -signed;
      }
      r := Got(signed);
    }
  }

  /** The first n bytes all say that another follows. */
  predicate RunsFor(s: seq<byte>, n: nat)
    requires n <= |s|
  {
    forall i :: 0 <= i < n ==> s[i] >= 128
  }

  /** The magnitude in the first n bytes. */
  function MagnitudeOf(s: seq<byte>, n: nat): nat
    requires 0 < n <= |s|
  {
    s[0] % 64 + 64 * Base128(s[1..n])
  }

  /** The first n bytes are the beginning of a signed number, and m is the magnitude they give. */
  predicate SignedSoFar(s: seq<byte>, n: nat, m: nat) {
    0 < n <= |s| && n <= 10 && RunsFor(s, n - 1) && m == MagnitudeOf(s, n) < TWO_64 / 2
  }

  lemma SignedEnds(s: seq<byte>, n: nat, m: nat)
    requires SignedSoFar(s, n, m) && s[n - 1] < 128
    ensures var signed: int := m;
      ReadVarint(s) == ReadSigned(if s[0] / 64 % 2 == 1 then -signed else signed, n)
  {
  }

  /** A prefix that runs out, runs past ten bytes, or already overflows cannot be mended by what follows. */
  lemma SignedStops(s: seq<byte>, n: nat)
    requires 0 < n <= |s| && RunsFor(s, n)
    ensures n == |s| || n >= 10 ==> !ReadVarint(s).ReadSigned?
    ensures n < |s| && MagnitudeOf(s, n + 1) >= TWO_64 / 2 ==> !ReadVarint(s).ReadSigned?
  {
    var run := RunLength(s);
    if n < run <= |s| {
      Base128Prefix(s[1..run], n);
      assert s[1..run][..n] == s[1..n + 1];
    }
  }

  /** A byte that says another follows: the number ends short, overflows, or has one byte more. */
  lemma SignedGoesOn(s: seq<byte>, n: nat, m: nat)
    requires SignedSoFar(s, n, m) && s[n - 1] >= 128
    ensures n == |s| || n == 10 ==> !ReadVarint(s).ReadSigned?
    ensures n < |s| && n < 10 ==>
      var more := m + Shl(s[n] % 128, 6 + 7 * (n - 1));
      if more < TWO_64 / 2 then SignedSoFar(s, n + 1, more) else !ReadVarint(s).ReadSigned?
  {
    SignedStops(s, n);
    if n < |s| {
      MagnitudeStep(s, n);
    }
  }

  lemma {:induction false} MagnitudeStep(s: seq<byte>, n: nat)
    requires 0 < n < |s|
    ensures MagnitudeOf(s, n + 1) == MagnitudeOf(s, n) + Shl(s[n] % 128, 6 + 7 * (n - 1))
  {
    VarintStep(s[0], s[1..n], s[n]);
    assert s[1..n] + [s[n]] == s[1..n + 1];
  }

  /** Seven more bits of a magnitude, after the six of the first byte. */
  lemma {:induction false} VarintStep(first: byte, s: seq<byte>, b: byte)
    ensures first % 64 + 64 * Base128(s) < Shl(1, 6 + 7 * |s|)
    ensures first % 64 + 64 * Base128(s) + Shl(b % 128, 6 + 7 * |s|) == first % 64 + 64 * Base128(s + [b])
  {
    var base, group, all := Base128(s), Shl(b % 128, 7 * |s|), Base128(s + [b]);
    assert all == base + group by { Base128Append(s, b); }
    assert base < Shl(1, 7 * |s|) by { Base128Bound(s); ShlOne(|s|); }
    assert Shl(1, 6 + 7 * |s|) == 64 * Shl(1, 7 * |s|) by { ShlSix(1, 7 * |s|); }
    assert Shl(b % 128, 6 + 7 * |s|) == 64 * group by { ShlSix(b % 128, 7 * |s|); }
  }

  lemma ShlSix(v: nat, n: nat)
    ensures Shl(v, 6 + n) == 64 * Shl(v, n)
  {
    assert Shl(v, 6 + n) == 2 * Shl(v, 5 + n) == 4 * Shl(v, 4 + n) == 8 * Shl(v, 3 + n);
    assert 8 * Shl(v, 3 + n) == 16 * Shl(v, 2 + n) == 32 * Shl(v, 1 + n);
  }

  /** More bytes only raise a magnitude. */
  lemma {:induction false} Base128Prefix(s: seq<byte>, n: nat)
    requires n <= |s|
    ensures Base128(s[..n]) <= Base128(s)
  {
    if n == 0 {
    } else {
      Base128Prefix(s[1..], n - 1);
      assert s[..n][1..] == s[1..][..n - 1];
    }
  }

  /**
   * Where the reader's varuint is defined it agrees with the pointer decoder; they differ only on
   * prefixes longer than ten bytes, which the pointer decoder refuses.
   */
  lemma DecodersAgree(s: seq<byte>)
    ensures ReadVaruint(s).TooLong? <==> |s| >= 10 && forall i :: 0 <= i < 10 ==> s[i] >= 128
    ensures ReadVaruint(s).Read? ==> 0 < ReadVaruint(s).size <= 10 && s[ReadVaruint(s).size - 1] < 128
  {
  }
}
