/**
 Bit fields in a byte buffer, most significant bit first
 (include/vita/codec/general_samples.hpp, read_bits and write_bits).
 */
module SampleBits {
  import opened Core
  import opened Powers

  type Byte = bv8

  /** Bit `k` of a byte, counted from the most significant. */
  function Mask(k: nat): Byte
    requires k < 8
  {
    match k
    case 0 => 128
    case 1 => 64
    case 2 => 32
    case 3 => 16
    case 4 => 8
    case 5 => 4
    case 6 => 2
    case 7 => 1
  }

  predicate BitOf(b: Byte, k: nat)
    requires k < 8
  {
    b & Mask(k) != 0
  }

  /** Bits count from the most significant: bit `k` is what shifting right by `7 - k` leaves lowest. */
  lemma BitOrder(b: Byte)
    ensures BitOf(b, 0) <==> (b >> 7) & 1 == 1
    ensures BitOf(b, 1) <==> (b >> 6) & 1 == 1
    ensures BitOf(b, 2) <==> (b >> 5) & 1 == 1
    ensures BitOf(b, 3) <==> (b >> 4) & 1 == 1
    ensures BitOf(b, 4) <==> (b >> 3) & 1 == 1
    ensures BitOf(b, 5) <==> (b >> 2) & 1 == 1
    ensures BitOf(b, 6) <==> (b >> 1) & 1 == 1
    ensures BitOf(b, 7) <==> b & 1 == 1
  {
  }

  lemma SetBit(b: Byte, k: nat, j: nat)
    requires k < 8 && j < 8
    ensures BitOf(b | Mask(k), j) <==> j == k || BitOf(b, j)
  {
  }

  lemma SameBits(a: Byte, b: Byte)
    requires forall k: nat :: k < 8 ==> (BitOf(a, k) <==> BitOf(b, k))
    ensures a == b
  {
    assert BitOf(a, 0) <==> BitOf(b, 0);
    assert BitOf(a, 1) <==> BitOf(b, 1);
    assert BitOf(a, 2) <==> BitOf(b, 2);
    assert BitOf(a, 3) <==> BitOf(b, 3);
    assert BitOf(a, 4) <==> BitOf(b, 4);
    assert BitOf(a, 5) <==> BitOf(b, 5);
    assert BitOf(a, 6) <==> BitOf(b, 6);
    assert BitOf(a, 7) <==> BitOf(b, 7);
  }

  lemma NoBits(k: nat)
    requires k < 8
    ensures !BitOf(0, k)
  {
  }

  // ----- Bits of a buffer -----

  predicate Bit(s: seq<Byte>, p: nat)
    requires p < 8 * |s|
  {
    BitOf(s[p / 8], p % 8)
  }

  lemma SetBitOfBuffer(s: seq<Byte>, p: nat, q: nat)
    requires p < 8 * |s| && q < 8 * |s|
    ensures Bit(s[p / 8 := s[p / 8] | Mask(p % 8)], q) <==> q == p || Bit(s, q)
  {
    hide BitOf, Mask;
    if q / 8 == p / 8 {
      SetBit(s[p / 8], p % 8, q % 8);
    }
  }

  /** A buffer is determined by its bits. */
  lemma SameBuffer(s: seq<Byte>, t: seq<Byte>)
    requires |s| == |t| && forall p: nat :: p < 8 * |s| ==> (Bit(s, p) <==> Bit(t, p))
    ensures s == t
  {
    hide BitOf;
    forall i | 0 <= i < |s|
      ensures s[i] == t[i]
    {
      forall k: nat | k < 8
        ensures BitOf(s[i], k) <==> BitOf(t[i], k)
      {
        assert (8 * i + k) / 8 == i && (8 * i + k) % 8 == k;
        assert Bit(s, 8 * i + k) <==> Bit(t, 8 * i + k);
      }
      SameBits(s[i], t[i]);
    }
  }

  // ----- Bits of a value -----

  predicate ValueBit(v: nat, n: nat) {
    Shr(v, n) % 2 == 1
  }

  lemma FitsShr(v: nat, width: nat)
    ensures Shr(v, width) == 0 <==> v < Pow2(width)
  {
    hide Shr, Shl, Low;
    if v < Pow2(width) {
      ShlZero(width);
      SplitUnique(v, width, 0, v);
    }
    if Shr(v, width) == 0 {
      ShlZero(width);
      assert v == Low(v, width);
    }
  }

  // ----- Reading -----

  function ReadBits(s: seq<Byte>, offset: nat, width: nat): (v: nat)
    requires offset + width <= 8 * |s|
    ensures v < Pow2(width)
  {
    if width == 0 then 0 else 2 * ReadBits(s, offset, width - 1) + if Bit(s, offset + width - 1) then 1 else 0
  }

  method Read(s: seq<Byte>, offset: nat, width: nat) returns (value: nat)
    requires offset + width <= 8 * |s| && width <= 64
    ensures value == ReadBits(s, offset, width) && value <= U64_MAX
  {
    hide BitOf, Pow2;
    value := 0;
    for b := 0 to width
      invariant value == ReadBits(s, offset, b)
    {
      var bit := offset + b;
      value := 2 * value + if BitOf(s[bit / 8], bit % 8) then 1 else 0;
    }
    Pow2Word(width);
  }

  /** The field at an offset shows these bits of a value. */
  ghost predicate Shows(s: seq<Byte>, offset: nat, width: nat, value: nat)
    requires offset + width <= 8 * |s|
  {
    forall p: nat :: offset <= p < offset + width ==> (Bit(s, p) <==> ValueBit(value, width - 1 - (p - offset)))
  }

  lemma {:induction false} ReadPrefix(s: seq<Byte>, offset: nat, width: nat, value: nat, w: nat)
    requires offset + width <= 8 * |s| && w <= width && Shows(s, offset, width, value) && value < Pow2(width)
    ensures ReadBits(s, offset, w) == Shr(value, width - w)
  {
    hide Bit;
    if w == 0 {
      FitsShr(value, width);
    } else {
      ReadPrefix(s, offset, width, value, w - 1);
      assert Bit(s, offset + w - 1) <==> ValueBit(value, width - w);
      assert Shr(value, width - (w - 1)) == Shr(value, width - w) / 2;
    }
  }

  /** Reading a field gives back a value that fits it exactly when the field shows its bits. */
  lemma ReadShows(s: seq<Byte>, offset: nat, width: nat, value: nat)
    requires offset + width <= 8 * |s| && value < Pow2(width)
    ensures ReadBits(s, offset, width) == value <==> Shows(s, offset, width, value)
  {
    hide Bit;
    if Shows(s, offset, width, value) {
      ReadPrefix(s, offset, width, value, width);
    }
    if ReadBits(s, offset, width) == value {
      ShowsRead(s, offset, width);
    }
  }

  lemma {:induction false} ShowsRead(s: seq<Byte>, offset: nat, width: nat)
    requires offset + width <= 8 * |s|
    ensures Shows(s, offset, width, ReadBits(s, offset, width))
  {
    hide Bit;
    if width > 0 {
      ShowsRead(s, offset, width - 1);
      var v := ReadBits(s, offset, width);
      assert v / 2 == ReadBits(s, offset, width - 1);
      forall p: nat | offset <= p < offset + width
        ensures Bit(s, p) <==> ValueBit(v, width - 1 - (p - offset))
      {
        ShrStep(v, width - 1 - (p - offset));
      }
    }
  }

  lemma {:induction false} ShrStep(v: nat, n: nat)
    ensures n > 0 ==> Shr(v, n) == Shr(v / 2, n - 1)
  {
    if n > 1 {
      ShrStep(v, n - 1);
    }
  }

  // ----- Writing -----

  /** Bits set so far by writing the first `done` bits of a field. */
  ghost predicate Wrote(was: seq<Byte>, s: seq<Byte>, offset: nat, width: nat, value: nat, done: nat) {
    && |s| == |was| && done <= width
    && forall p: nat :: p < 8 * |s| ==>
         (Bit(s, p) <==> Bit(was, p) || (offset <= p < offset + done && ValueBit(value, width - 1 - (p - offset))))
  }

  lemma WroteNext(was: seq<Byte>, s: seq<Byte>, t: seq<Byte>, offset: nat, width: nat, value: nat, done: nat)
    requires Wrote(was, s, offset, width, value, done) && done < width && offset + width <= 8 * |s|
    requires var p := offset + done; t == if ValueBit(value, width - 1 - done) then s[p / 8 := s[p / 8] | Mask(p % 8)]
                                          else s
    ensures Wrote(was, t, offset, width, value, done + 1)
  {
    hide Mask, ValueBit, Bit;
    forall q: nat | q < 8 * |t|
      ensures Bit(t, q) <==> Bit(was, q)
                             || (offset <= q < offset + done + 1 && ValueBit(value, width - 1 - (q - offset)))
    {
      SetBitOfBuffer(s, offset + done, q);
    }
  }

  /** Sets the bits of a field in place; bits already set stay set. */
  method WriteBits(a: array<Byte>, offset: nat, width: nat, value: nat)
    requires offset + width <= 8 * a.Length
    modifies a
    ensures Wrote(old(a[..]), a[..], offset, width, value, width)
  {
    ghost var was := a[..];
    for b := 0 to width
      invariant Wrote(was, a[..], offset, width, value, b)
    {
      ghost var before := a[..];
      var bit := offset + b;
      if Shr(value, width - 1 - b) % 2 == 1 {
        a[bit / 8] := a[bit / 8] | Mask(bit % 8);
        assert a[..] == before[bit / 8 := before[bit / 8] | Mask(bit % 8)];
      }
      WroteNext(was, before, a[..], offset, width, value, b);
    }
  }
}
