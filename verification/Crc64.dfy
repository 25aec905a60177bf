/// CRC-64/XZ as src/xz.rs computes it, one bit at a time.
///
/// The one module that computes on bit-vectors: the polynomial is exclusive-ored in.
module Crc64 {
  import opened Bytes

  const POLY: bv64 := 0xC96C_5795_D787_0F42
  const ONES: bv64 := 0xFFFF_FFFF_FFFF_FFFF

  /// `u64::from(b)`.
  function Wide(b: byte): bv64 { Narrow(b) as bv64 }

  /// The byte's bits, a hexadecimal digit at a time.
  function Narrow(b: byte): bv8 { Digit(b % 16) | (Digit(b / 16) << 4) }

  function Digit(d: nat): bv8
    requires d < 16
  {
    match d
    case 0 => 0 case 1 => 1 case 2 => 2 case 3 => 3
    case 4 => 4 case 5 => 5 case 6 => 6 case 7 => 7
    case 8 => 8 case 9 => 9 case 10 => 10 case 11 => 11
    case 12 => 12 case 13 => 13 case 14 => 14 case 15 => 15
  }

  function Xor(a: bv64, b: bv64): bv64 { a ^ b }

  predicate Odd(c: bv64) { c & 1 != 0 }

  function Half(c: bv64): bv64 { c >> 1 }

  function BitStep(c: bv64): bv64 { if Odd(c) then Xor(Half(c), POLY) else Half(c) }

  function Iterate(n: nat, c: bv64): bv64 { if n == 0 then c else Iterate(n - 1, BitStep(c)) }

  /// The register after the bytes of s, from register c.
  function Fold(c: bv64, s: seq<byte>): bv64
    decreases |s|
  {
    if |s| == 0 then c else Fold(Iterate(8, Xor(c, Wide(s[0]))), s[1..])
  }

  function Crc(data: seq<byte>): bv64 { Xor(Fold(ONES, data), ONES) }

  /// The two loops of the source.
  method Compute(data: seq<byte>) returns (r: bv64)
    ensures r == Crc(data)
  {
    hide Xor, BitStep, Wide;
    var crc := ONES;
    for i := 0 to |data|
      invariant Fold(crc, data[i..]) == Fold(ONES, data)
    {
      var x := Xor(crc, Wide(data[i]));
      crc := x;
      for k := 0 to 8
        invariant Iterate(8 - k, crc) == Iterate(8, x)
      {
        crc := BitStep(crc);
      }
      assert data[i..][1..] == data[i + 1..];
    }
    r := Xor(crc, ONES);
  }

  // ----- every step is a bijection -----

  /// The polynomial's top bit is set, so the bit shifted out can be read off the result.
  lemma StepInjective(a: bv64, b: bv64)
    requires BitStep(a) == BitStep(b)
    ensures a == b
  {
  }

  lemma {:induction false} IterateInjective(n: nat, a: bv64, b: bv64)
    requires Iterate(n, a) == Iterate(n, b)
    ensures a == b
  {
    hide BitStep;
    if n > 0 {
      IterateInjective(n - 1, BitStep(a), BitStep(b));
      StepInjective(a, b);
    }
  }

  lemma {:induction false} IterateSum(m: nat, n: nat, c: bv64)
    ensures Iterate(n, Iterate(m, c)) == Iterate(m + n, c)
  {
    hide BitStep;
    if m > 0 {
      IterateSum(m - 1, n, BitStep(c));
    }
  }

  lemma XorInjective(a: bv64, b: bv64, x: bv64)
    ensures Xor(a, x) == Xor(b, x) ==> a == b
    ensures Xor(x, a) == Xor(x, b) ==> a == b
  {
  }

  lemma {:induction false} FoldInjective(a: bv64, b: bv64, s: seq<byte>)
    requires Fold(a, s) == Fold(b, s)
    ensures a == b
    decreases |s|
  {
    hide BitStep, Xor, Wide, Iterate;
    if |s| > 0 {
      var x := Wide(s[0]);
      FoldInjective(Iterate(8, Xor(a, x)), Iterate(8, Xor(b, x)), s[1..]);
      IterateInjective(8, Xor(a, x), Xor(b, x));
      XorInjective(a, b, x);
    }
  }

  // ----- bytes the register has not reached -----

  function Double(w: bv64): bv64 { w << 1 }

  predicate TopClear(w: bv64) { w & 0x8000_0000_0000_0000 == 0 }

  predicate TopByteClear(w: bv64) { w & 0xFF00_0000_0000_0000 == 0 }

  /// A bit above the register's end comes down unchanged.
  lemma StepShifted(x: bv64, y: bv64)
    requires TopClear(y)
    ensures BitStep(Xor(x, Double(y))) == Xor(BitStep(x), y)
  {
    hide Odd, Half, Xor, Double, TopClear;
    LowBit(x, y);
    HighBits(x, y);
    SwapXor(Half(x), y);
  }

  lemma LowBit(x: bv64, y: bv64)
    ensures Odd(Xor(x, Double(y))) == Odd(x)
  {
  }

  lemma HighBits(x: bv64, y: bv64)
    requires TopClear(y)
    ensures Half(Xor(x, Double(y))) == Xor(Half(x), y)
  {
  }

  lemma SwapXor(a: bv64, b: bv64)
    ensures Xor(Xor(a, b), POLY) == Xor(Xor(a, POLY), b)
  {
  }

  function ShiftUp(w: bv64, n: nat): bv64 { if n == 0 then w else Double(ShiftUp(w, n - 1)) }

  lemma {:induction false} IterateShifted(n: nat, x: bv64, w: bv64)
    requires forall k: nat | k < n :: TopClear(ShiftUp(w, k))
    ensures Iterate(n, Xor(x, ShiftUp(w, n))) == Xor(Iterate(n, x), w)
  {
    hide Xor, BitStep, TopClear, Double;
    if n > 0 {
      StepShifted(x, ShiftUp(w, n - 1));
      IterateShifted(n - 1, BitStep(x), w);
    }
  }

  function UpByte(w: bv64): bv64 { w << 8 }

  predicate TopNibbleClear(w: bv64) { w & 0xF000_0000_0000_0000 == 0 }

  lemma ShiftUpFour(w: bv64)
    ensures ShiftUp(w, 0) == w && ShiftUp(w, 1) == w << 1 && ShiftUp(w, 2) == w << 2
    ensures ShiftUp(w, 3) == w << 3 && ShiftUp(w, 4) == w << 4
  {
  }

  lemma NibbleBits(w: bv64)
    requires TopNibbleClear(w)
    ensures TopClear(w) && TopClear(w << 1) && TopClear(w << 2) && TopClear(w << 3)
  {
  }

  lemma FourClear(w: bv64, k: nat)
    requires TopNibbleClear(w) && k < 4
    ensures TopClear(ShiftUp(w, k))
  {
    hide TopNibbleClear, TopClear;
    NibbleBits(w);
    ShiftUpFour(w);
    assert k == 0 || k == 1 || k == 2 || k == 3;
  }

  lemma ByteIsTwoNibbles(w: bv64)
    requires TopByteClear(w)
    ensures TopNibbleClear(w) && TopNibbleClear(w << 4)
    ensures (w << 4) << 4 == UpByte(w)
  {
  }

  lemma {:induction false} ShiftUpSum(w: bv64, m: nat, n: nat)
    ensures ShiftUp(ShiftUp(w, m), n) == ShiftUp(w, m + n)
  {
    hide Double;
    if n > 0 {
      ShiftUpSum(w, m, n - 1);
    }
  }

  lemma ShiftUpEight(w: bv64)
    requires TopByteClear(w)
    ensures ShiftUp(w, 8) == UpByte(w)
    ensures forall k: nat | k < 8 :: TopClear(ShiftUp(w, k))
  {
    var v := ShiftUp(w, 4);
    assert TopNibbleClear(w) && TopNibbleClear(v) && ShiftUp(v, 4) == UpByte(w) by {
      hide TopNibbleClear, TopByteClear, UpByte;
      ShiftUpFour(w);
      ByteIsTwoNibbles(w);
      ShiftUpFour(w << 4);
    }
    hide *;
    ShiftUpSum(w, 4, 4);
    forall k: nat | k < 8 ensures TopClear(ShiftUp(w, k)) {
      if k < 4 {
        FourClear(w, k);
      } else {
        ShiftUpSum(w, 4, k - 4);
        FourClear(v, k - 4);
      }
    }
  }

  // ----- up to eight bytes as one word -----

  /// The bytes as the register sees them, first byte lowest.
  function Word(w: seq<byte>): bv64
    decreases |w|
  {
    if |w| == 0 then 0 else Xor(Wide(w[0]), UpByte(Word(w[1..])))
  }

  /// The lowest n bytes of the register.
  function Room(n: nat): bv64 { if n == 0 then 0 else 0xFF | (Room(n - 1) << 8) }

  predicate Within(x: bv64, room: bv64) { x & room == x }

  lemma Stacks(b: byte, t: bv64, room: bv64)
    requires Within(t, room)
    ensures Within(Xor(Wide(b), UpByte(t)), 0xFF | (room << 8))
  {
    var n := Narrow(b);
    StacksBits(n, t, room);
  }

  lemma StacksBits(b: bv8, t: bv64, room: bv64)
    requires t & room == t
    ensures ((b as bv64) ^ (t << 8)) & (0xFF | (room << 8)) == (b as bv64) ^ (t << 8)
  {
  }

  lemma {:induction false} WordFits(w: seq<byte>)
    ensures Within(Word(w), Room(|w|))
    decreases |w|
  {
    hide Xor, UpByte, Wide;
    if |w| > 0 {
      WordFits(w[1..]);
      hide Within;
      Stacks(w[0], Word(w[1..]), Room(|w| - 1));
    }
  }

  lemma RoomBelowTop(n: nat)
    requires n <= 7
    ensures TopByteClear(Room(n))
  {
    assert Room(1) == 0xFF;
    assert Room(2) == 0xFFFF;
    assert Room(3) == 0xFF_FFFF;
    assert Room(4) == 0xFFFF_FFFF;
    assert Room(5) == 0xFF_FFFF_FFFF;
    assert Room(6) == 0xFFFF_FFFF_FFFF;
    assert Room(7) == 0xFF_FFFF_FFFF_FFFF;
    assert n == 0 || n == 1 || n == 2 || n == 3 || n == 4 || n == 5 || n == 6 || n == 7;
  }

  lemma WithinTop(x: bv64, room: bv64)
    requires Within(x, room) && TopByteClear(room)
    ensures TopByteClear(x)
  {
  }

  lemma TailBelowTop(w: seq<byte>)
    requires 0 < |w| <= 8
    ensures TopByteClear(Word(w[1..]))
  {
    hide Within, TopByteClear, Xor, UpByte, Wide, Room;
    WordFits(w[1..]);
    RoomBelowTop(|w| - 1);
    WithinTop(Word(w[1..]), Room(|w| - 1));
  }

  lemma DigitInjective(c: nat, d: nat)
    requires c < 16 && d < 16 && Digit(c) == Digit(d)
    ensures c == d
  {
  }

  lemma DigitSmall(d: nat)
    requires d < 16
    ensures Digit(d) <= 15
  {
  }

  lemma HalvesInjective(a: bv8, b: bv8, c: bv8, d: bv8)
    requires a <= 15 && b <= 15 && c <= 15 && d <= 15
    requires a | (b << 4) == c | (d << 4)
    ensures a == c && b == d
  {
  }

  lemma NarrowInjective(a: byte, b: byte)
    requires Narrow(a) == Narrow(b)
    ensures a == b
  {
    hide Digit;
    DigitSmall(a % 16);
    DigitSmall(a / 16);
    DigitSmall(b % 16);
    DigitSmall(b / 16);
    HalvesInjective(Digit(a % 16), Digit(a / 16), Digit(b % 16), Digit(b / 16));
    DigitInjective(a % 16, b % 16);
    DigitInjective(a / 16, b / 16);
  }

  lemma Unstack(a: byte, t: bv64, b: byte, u: bv64)
    requires TopByteClear(t) && TopByteClear(u)
    requires Xor(Wide(a), UpByte(t)) == Xor(Wide(b), UpByte(u))
    ensures a == b && t == u
  {
    hide Narrow, Xor, UpByte, TopByteClear;
    UnstackBits(Narrow(a), t, Narrow(b), u);
    NarrowInjective(a, b);
  }

  lemma UnstackBits(a: bv8, t: bv64, b: bv8, u: bv64)
    requires TopByteClear(t) && TopByteClear(u)
    requires Xor(a as bv64, UpByte(t)) == Xor(b as bv64, UpByte(u))
    ensures a == b && t == u
  {
  }

  lemma {:induction false} WordInjective(v: seq<byte>, w: seq<byte>)
    requires |v| == |w| <= 8 && Word(v) == Word(w)
    ensures v == w
    decreases |v|
  {
    hide TopByteClear, Xor, UpByte, Wide;
    if |v| > 0 {
      TailBelowTop(v);
      TailBelowTop(w);
      Unstack(v[0], Word(v[1..]), w[0], Word(w[1..]));
      WordInjective(v[1..], w[1..]);
      assert v == [v[0]] + v[1..] && w == [w[0]] + w[1..];
    }
  }

  // ----- folding a window -----

  lemma Regroup(c: bv64, b: bv64, t: bv64)
    ensures Xor(c, Xor(b, t)) == Xor(Xor(c, b), t)
    ensures Xor(c, 0) == c
  {
  }

  /// Folding at most eight bytes is shifting the register with their word added in.
  lemma {:induction false} FoldIsIterate(c: bv64, w: seq<byte>)
    requires |w| <= 8
    ensures Fold(c, w) == Iterate(8 * |w|, Xor(c, Word(w)))
    decreases |w|
  {
    hide BitStep, TopByteClear, Xor, UpByte, Wide, Iterate, ShiftUp;
    if |w| == 0 {
      Regroup(c, 0, 0);
      IterateNone(c);
    } else {
      var x, t := Xor(c, Wide(w[0])), Word(w[1..]);
      TailBelowTop(w);
      ShiftUpEight(t);
      IterateShifted(8, x, t);
      Regroup(c, Wide(w[0]), UpByte(t));
      FoldIsIterate(Iterate(8, x), w[1..]);
      IterateSum(8, 8 * (|w| - 1), Xor(x, UpByte(t)));
    }
  }

  lemma IterateNone(c: bv64)
    ensures Iterate(0, c) == c
  {
  }

  lemma {:induction false} FoldConcat(c: bv64, s: seq<byte>, t: seq<byte>)
    ensures Fold(c, s + t) == Fold(Fold(c, s), t)
    decreases |s|
  {
    hide Xor, Wide, Iterate;
    if |s| == 0 {
      assert s + t == t;
    } else {
      assert (s + t)[1..] == s[1..] + t;
      FoldConcat(Iterate(8, Xor(c, Wide(s[0]))), s[1..], t);
    }
  }

  lemma SameWindow(c: bv64, v: seq<byte>, w: seq<byte>)
    requires |v| == |w| <= 8 && Fold(c, v) == Fold(c, w)
    ensures v == w
  {
    hide Xor, Word, Iterate, Fold;
    FoldIsIterate(c, v);
    FoldIsIterate(c, w);
    IterateInjective(8 * |v|, Xor(c, Word(v)), Xor(c, Word(w)));
    XorInjective(Word(v), Word(w), c);
    WordInjective(v, w);
  }

  /// Damage confined to eight consecutive bytes always changes the check.
  lemma DetectsEightByteDamage(a: seq<byte>, b: seq<byte>, at: nat)
    requires |a| == |b| && a != b
    requires forall i :: 0 <= i < |a| && !(at <= i < at + 8) ==> a[i] == b[i]
    ensures Crc(a) != Crc(b)
  {
    hide Xor, Fold;
    var lo, hi := Min(at, |a|), Min(at + 8, |a|);
    var c := Fold(ONES, a[..lo]);
    assert a[..lo] == b[..lo] && a[hi..] == b[hi..];
    assert a == a[..lo] + (a[lo..hi] + a[hi..]) && b == b[..lo] + (b[lo..hi] + b[hi..]);
    FoldConcat(ONES, a[..lo], a[lo..hi] + a[hi..]);
    FoldConcat(ONES, b[..lo], b[lo..hi] + b[hi..]);
    FoldConcat(c, a[lo..hi], a[hi..]);
    FoldConcat(c, b[lo..hi], b[hi..]);
    if Crc(a) == Crc(b) {
      XorInjective(Fold(ONES, a), Fold(ONES, b), ONES);
      FoldInjective(Fold(c, a[lo..hi]), Fold(c, b[lo..hi]), a[hi..]);
      SameWindow(c, a[lo..hi], b[lo..hi]);
      assert false;
    }
  }

  function ByteOf(c: bv64): byte { ((c & 0xFF) as bv8) as int }

  /// `to_le_bytes`.
  function ToLeBytes(c: bv64): (s: seq<byte>)
    ensures |s| == 8
  {
    [ByteOf(c), ByteOf(c >> 8), ByteOf(c >> 16), ByteOf(c >> 24),
     ByteOf(c >> 32), ByteOf(c >> 40), ByteOf(c >> 48), ByteOf(c >> 56)]
  }

  // ----- the published check value -----

  lemma FourSteps(c: bv64)
    ensures Iterate(4, c) == BitStep(BitStep(BitStep(BitStep(c))))
  {
    hide BitStep;
    assert Iterate(1, BitStep(BitStep(BitStep(c)))) == Iterate(0, BitStep(BitStep(BitStep(BitStep(c)))));
    assert Iterate(2, BitStep(BitStep(c))) == Iterate(1, BitStep(BitStep(BitStep(c))));
    assert Iterate(3, BitStep(c)) == Iterate(2, BitStep(BitStep(c)));
  }

  /// Eight steps in a row.
  lemma EightSteps(c: bv64)
    ensures Iterate(8, c) == BitStep(BitStep(BitStep(BitStep(BitStep(BitStep(BitStep(BitStep(c))))))))
  {
    hide BitStep;
    FourSteps(c);
    FourSteps(Iterate(4, c));
    IterateSum(4, 4, c);
  }

  const DIGITS: seq<byte> := [0x31, 0x32, 0x33, 0x34, 0x35, 0x36, 0x37, 0x38, 0x39]

  /// One digit more, from register c to register d.
  lemma NextDigit(i: nat, c: bv64, x: bv64, d: bv64)
    requires i < 9 && Xor(c, Wide(0x31 + i)) == x
    requires BitStep(BitStep(BitStep(BitStep(BitStep(BitStep(BitStep(BitStep(x)))))))) == d
    ensures Fold(c, DIGITS[i..]) == Fold(d, DIGITS[i + 1..])
  {
    hide Xor, Wide, BitStep;
    EightSteps(x);
    assert DIGITS[i] == 0x31 + i && DIGITS[i..][1..] == DIGITS[i + 1..];
  }

  lemma FirstDigits()
    ensures Fold(0xFFFF_FFFF_FFFF_FFFF, DIGITS[0..]) == Fold(0xCFDC_D7BB_F8E3_3A9E, DIGITS[3..])
  {
    hide Fold;
    NextDigit(0, 0xFFFF_FFFF_FFFF_FFFF, 0xFFFF_FFFF_FFFF_FFCE, 0xD5D0_F17A_6B6A_3512);
    NextDigit(1, 0xD5D0_F17A_6B6A_3512, 0xD5D0_F17A_6B6A_3520, 0xFBE2_9281_D80D_A6A7);
    NextDigit(2, 0xFBE2_9281_D80D_A6A7, 0xFBE2_9281_D80D_A694, 0xCFDC_D7BB_F8E3_3A9E);
  }

  lemma MiddleDigits()
    ensures Fold(0xCFDC_D7BB_F8E3_3A9E, DIGITS[3..]) == Fold(0xFB95_1AC9_A23C_3731, DIGITS[6..])
  {
    hide Fold;
    NextDigit(3, 0xCFDC_D7BB_F8E3_3A9E, 0xCFDC_D7BB_F8E3_3AAA, 0x31B1_786C_9947_3CD7);
    NextDigit(4, 0x31B1_786C_9947_3CD7, 0x31B1_786C_9947_3CE2, 0xA258_B900_5AFB_A316);
    NextDigit(5, 0xA258_B900_5AFB_A316, 0xA258_B900_5AFB_A320, 0xFB95_1AC9_A23C_3731);
  }

  lemma LastDigits()
    ensures Fold(0xFB95_1AC9_A23C_3731, DIGITS[6..]) == Fold(0x66A2_3644_20E6_C605, DIGITS[9..])
  {
    hide Fold;
    NextDigit(6, 0xFB95_1AC9_A23C_3731, 0xFB95_1AC9_A23C_3706, 0x8FAF_60C9_9E6D_C25F);
    NextDigit(7, 0x8FAF_60C9_9E6D_C25F, 0x8FAF_60C9_9E6D_C267, 0xA374_7FB7_D453_87F6);
    NextDigit(8, 0xA374_7FB7_D453_87F6, 0xA374_7FB7_D453_87CF, 0x66A2_3644_20E6_C605);
  }

  /// The check value published for CRC-64/XZ: that of the ASCII digits 1 to 9.
  lemma CheckValue()
    ensures Crc([0x31, 0x32, 0x33, 0x34, 0x35, 0x36, 0x37, 0x38, 0x39]) == 0x995D_C9BB_DF19_39FA
  {
    hide BitStep, Wide;
    FirstDigits();
    MiddleDigits();
    LastDigits();
    assert DIGITS[0..] == DIGITS && Fold(0x66A2_3644_20E6_C605, DIGITS[9..]) == 0x66A2_3644_20E6_C605;
  }

  /// Its bytes are written lowest first.
  lemma CheckValueBytes()
    ensures ToLeBytes(0x995D_C9BB_DF19_39FA) == [0xFA, 0x39, 0x19, 0xDF, 0xBB, 0xC9, 0x5D, 0x99]
  {
  }
}
