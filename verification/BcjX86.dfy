/// The x86 branch converter of src/xz.rs and the mirror converter it undoes.
///
/// The converter looks only forward from the opcode it stands on, so its meaning is a
/// recursive function over the rest of the buffer that carries one thing from the bytes
/// behind: the window, three bits saying which of the last three positions held an opcode
/// that was left alone (bit b for b + 1 bytes back).
module BcjX86 {
  import opened Bytes
  import opened Modular

  /// Which way absolute and relative operands are exchanged: `Decode` subtracts the
  /// position (the source's direction), `Encode` is the mirror and adds it.
  datatype Direction = Decode | Encode {
    function Other(): Direction { if this == Decode then Encode else Decode }
  }

  const WORD := 0x1_0000_0000

  /// `wrapping_sub` on 32-bit words, or its mirror.
  function Shift(dir: Direction, word: u32, position: int): u32 {
    if dir == Decode then (word - position) % WORD else (word + position) % WORD
  }

  predicate IsOpcode(b: byte) { b == 0xE8 || b == 0xE9 }

  predicate IsMsByte(b: int) { b == 0x00 || b == 0xFF }

  type Window = w: int | 0 <= w < 8

  predicate Bit(w: Window, b: nat)
    requires b < 3
  {
    (if b == 0 then w else if b == 1 then w / 2 else w / 4) % 2 == 1
  }

  /// The source's ALLOWED table: at most one opcode pending.
  predicate Allowed(w: Window) { w == 0 || w == 1 || w == 2 || w == 4 }

  /// The source's BIT_NUM table: how far back the farthest pending opcode is.
  function BitNum(w: Window): nat { if w == 0 then 0 else if w == 1 then 1 else if w < 4 then 2 else 3 }

  function Slide(w: Window, pending: bool): Window { (2 * w + if pending then 1 else 0) % 8 }

  /// One past the largest value of the operand's low part, up to and including the
  /// pending opcode's decision byte: 2^(32 - j) for j = 8 * BitNum(w).
  function Span(w: Window): nat { if w == 1 then 0x100_0000 else if w < 4 then 0x1_0000 else 0x100 }

  /// The weight of the decision byte within the operand: 2^(24 - j).
  function Unit(w: Window): nat { if w == 1 then 0x1_0000 else if w < 4 then 0x100 else 1 }

  /// The pending opcode's decision byte: `(x >> (24 - j)) as u8`.
  function Tested(w: Window, x: u32): int { x % Span(w) / Unit(w) }

  /// `x ^ ((1 << (32 - j)) - 1)`: the low part complemented.
  function Flip(w: Window, x: u32): u32 {
    var low := x % Span(w);
    x - low + (Span(w) - 1 - low)
  }

  /// Sign extension of the low 25 bits, the final mask of the conversion.
  function Widen(x: u32): u32 {
    var low := x % 0x200_0000;
    if low >= 0x100_0000 then low + 0xFE00_0000 else low
  }

  /// The converted operand: shifted by the position, and once more with its low part
  /// complemented when the first shift would hide the pending opcode's decision.
  function Operand(dir: Direction, w: Window, src: u32, position: int): u32 {
    var once := Shift(dir, src, position);
    Widen(if w == 0 || !IsMsByte(Tested(w, once)) then once else Shift(dir, Flip(w, once), position))
  }

  predicate Converts(w: Window, s: seq<byte>)
    requires |s| > 4
  {
    && IsOpcode(s[0])
    && (w == 0 || (Allowed(w) && !IsMsByte(s[4 - BitNum(w)])))
    && IsMsByte(s[4])
  }

  /// What the converter makes of the bytes from stream position `at` on.
  function Scan(dir: Direction, at: nat, w: Window, s: seq<byte>): (t: seq<byte>)
    ensures |t| == |s|
    ensures s != [] ==> t[0] == s[0]
    decreases |s|
  {
    if |s| <= 4 then s
    else if Converts(w, s) then
      [s[0]] + LeBytes(Operand(dir, w, LeValue(s[1..5]), at + 5), 4) + Scan(dir, at + 5, 0, s[5..])
    else
      [s[0]] + Scan(dir, at + 1, Slide(w, IsOpcode(s[0])), s[1..])
  }

  /// The whole converter, from a filter whose stream position starts at `start`.
  function X86(dir: Direction, start: u32, s: seq<byte>): (t: seq<byte>)
    ensures |t| == |s|
  {
    Scan(dir, start, 0, s)
  }

  // ----- the operand conversion -----

  lemma ShiftLow(dir: Direction, w: Window, x: u32, p: int)
    ensures Shift(dir, x, p) % Span(w) == (if dir == Decode then x - p else x + p) % Span(w)
  {
    var y := if dir == Decode then x - p else x + p;
    ModMod(y, Span(w), WORD / Span(w));
  }

  lemma FlipLow(w: Window, x: u32)
    ensures Flip(w, x) % Span(w) == Span(w) - 1 - x % Span(w)
  {
    var m := Span(w);
    assert Flip(w, x) == m * (x / m) + (m - 1 - x % m);
    DivUnique(Flip(w, x), m, x / m, m - 1 - x % m);
  }

  lemma ComplementShift(m: int, p: int, src: int, once: int, flipped: int)
    requires m > 0
    requires once % m == (src - p) % m && flipped % m == m - 1 - once % m
    ensures (flipped - p) % m == m - 1 - src % m
  {
    ModSub(flipped, p, m);
    var q := (src - p) / m;
    assert src - p == m * q + once % m;
    assert flipped % m - p == (m - 1 - src) + m * q;
    ModEq(flipped % m - p, m - 1 - src, m, q);
    Distribute(m, 0, src / m);
    assert m - 1 - src == m * (0 - src / m) + (m - 1 - src % m);
    DivUnique(m - 1 - src, m, 0 - src / m, m - 1 - src % m);
  }

  /// Two turns of the inner loop leave the complement of the source's low part.
  lemma TwiceComplements(dir: Direction, w: Window, src: u32, p: int)
    ensures var once := Shift(dir, src, p);
            Shift(dir, Flip(w, once), p) % Span(w) == Span(w) - 1 - src % Span(w)
  {
    var m := Span(w);
    var once := Shift(dir, src, p);
    var flipped := Flip(w, once);
    ShiftLow(dir, w, src, p);
    FlipLow(w, once);
    ShiftLow(dir, w, flipped, p);
    ComplementShift(m, if dir == Decode then p else -p, src, once, flipped);
  }

  const LOW25 := 0x200_0000

  /// Agreement on the 25 bits the conversion keeps.
  predicate Same(a: int, b: int) { a % LOW25 == b % LOW25 }

  lemma SameSpan(w: Window, a: int, b: int)
    requires Same(a, b)
    ensures a % Span(w) == b % Span(w)
  {
    ModMod(a, Span(w), LOW25 / Span(w));
    ModMod(b, Span(w), LOW25 / Span(w));
  }

  lemma ShiftSame(dir: Direction, a: u32, b: u32, p: int)
    requires Same(a, b)
    ensures Same(Shift(dir, a, p), Shift(dir, b, p))
  {
    var q := if dir == Decode then p else -p;
    ModMod(a - q, LOW25, 128);
    ModMod(b - q, LOW25, 128);
    ModSub(a, q, LOW25);
    ModSub(b, q, LOW25);
  }

  lemma ShiftBack(dir: Direction, a: u32, p: int)
    ensures Shift(dir.Other(), Shift(dir, a, p), p) == a
  {
    SubThenAdd(a, p, WORD);
  }

  lemma FlipSame(w: Window, a: u32, b: u32)
    requires Same(a, b)
    ensures Same(Flip(w, a), Flip(w, b))
  {
    SameSpan(w, a, b);
    var t := a / LOW25 - b / LOW25;
    assert a == b + LOW25 * t;
    ModEq(Flip(w, a), Flip(w, b), LOW25, t);
  }

  lemma FlipFlip(w: Window, x: u32)
    ensures Flip(w, Flip(w, x)) == x
  {
    FlipLow(w, x);
  }

  lemma WidenSame(x: u32)
    ensures Same(Widen(x), x)
    ensures IsMsByte(Widen(x) / 0x100_0000)
    ensures IsMsByte(x / 0x100_0000) ==> Widen(x) == x
  {
  }

  lemma TestedComplement(w: Window, a: u32, b: u32)
    requires b % Span(w) == Span(w) - 1 - a % Span(w)
    ensures Tested(w, b) == 255 - Tested(w, a)
  {
    var u := Unit(w);
    var low := a % Span(w);
    assert low == u * (low / u) + low % u;
    Distribute(u, 255, low / u);
    DivUnique(b % Span(w), u, 255 - low / u, u - 1 - low % u);
  }

  /// The source's guard: the operand fills its top byte, and a pending opcode's decision
  /// byte inside it is neither 0x00 nor 0xFF.
  predicate Convertible(w: Window, src: u32) {
    && IsMsByte(src / 0x100_0000)
    && (w == 0 || (Allowed(w) && !IsMsByte(Tested(w, src))))
  }

  /// One complement is enough: the second shift's decision byte is the complement of the
  /// source's, which the guard kept away from 0x00 and 0xFF.
  lemma InnerLoopStops(dir: Direction, w: Window, src: u32, p: int)
    requires Convertible(w, src) && w != 0
    ensures !IsMsByte(Tested(w, Shift(dir, Flip(w, Shift(dir, src, p)), p)))
  {
    TwiceComplements(dir, w, src, p);
    TestedComplement(w, src, Shift(dir, Flip(w, Shift(dir, src, p)), p));
  }

  /// A converted operand passes the guard again, so the reverse scan converts it too.
  lemma OperandConvertible(dir: Direction, w: Window, src: u32, p: int)
    requires Convertible(w, src)
    ensures Convertible(w, Operand(dir, w, src, p))
  {
    var once := Shift(dir, src, p);
    var x := if w == 0 || !IsMsByte(Tested(w, once)) then once else Shift(dir, Flip(w, once), p);
    WidenSame(x);
    SameSpan(w, Widen(x), x);
    if w != 0 {
      InnerLoopStops(dir, w, src, p);
    }
  }

  /// Converting an operand one way and then the other gives it back.
  lemma OperandInverse(dir: Direction, w: Window, src: u32, p: int)
    requires Convertible(w, src)
    ensures Operand(dir.Other(), w, Operand(dir, w, src, p), p) == src
  {
    var back := dir.Other();
    var once := Shift(dir, src, p);
    WidenSame(src);
    if w == 0 || !IsMsByte(Tested(w, once)) {
      WidenSame(once);
      ShiftSame(back, Widen(once), once, p);
      ShiftBack(dir, src, p);
      SameSpan(w, Shift(back, Widen(once), p), src);
    } else {
      FlippedInverse(dir, w, src, p);
    }
  }

  lemma FlippedInverse(dir: Direction, w: Window, src: u32, p: int)
    requires Convertible(w, src) && w != 0 && IsMsByte(Tested(w, Shift(dir, src, p)))
    ensures Operand(dir.Other(), w, Operand(dir, w, src, p), p) == src
  {
    var back := dir.Other();
    var once := Shift(dir, src, p);
    var flipped := Flip(w, once);
    var twice := Shift(dir, flipped, p);
    WidenSame(src);
    WidenSame(twice);
    var again := Shift(back, Widen(twice), p);
    ShiftSame(back, Widen(twice), twice, p);
    ShiftBack(dir, flipped, p);
    SameSpan(w, again, flipped);
    FlipLow(w, once);
    TestedComplement(w, once, again);
    FlipSame(w, again, flipped);
    FlipFlip(w, once);
    ShiftSame(back, Flip(w, again), once, p);
    ShiftBack(dir, src, p);
  }

  // ----- the scan -----

  lemma OperandBytes(s: seq<byte>)
    requires |s| == 4
    ensures LeValue(s) == s[0] + 0x100 * s[1] + 0x1_0000 * s[2] + 0x100_0000 * s[3] < WORD
    ensures LeValue(s) / 0x100_0000 == s[3]
    ensures forall w: Window :: w != 0 ==> Tested(w, LeValue(s)) == s[3 - BitNum(w)]
  {
    var b0: int, b1: int, b2: int, b3: int := s[0], s[1], s[2], s[3];
    assert LeValue(s[3..]) == b3;
    assert LeValue(s[2..]) == b2 + 256 * b3 by { assert s[2..][1..] == s[3..]; }
    assert LeValue(s[1..]) == b1 + 256 * LeValue(s[2..]) by { assert s[1..][1..] == s[2..]; }
    var v: int := LeValue(s);
    DivUnique(v, 0x100_0000, b3, b0 + 0x100 * b1 + 0x1_0000 * b2);
    DivUnique(v, 0x1_0000, b2 + 0x100 * b3, b0 + 0x100 * b1);
    DivUnique(v, 0x100, b1 + 0x100 * b2 + 0x1_0000 * b3, b0);
    DivUnique(v % 0x100_0000, 0x1_0000, b2, b0 + 0x100 * b1);
    DivUnique(v % 0x1_0000, 0x100, b1, b0);
  }

  /// The decision bytes and operand of a converting position, and what replaces them.
  lemma ConvertedBytes(dir: Direction, w: Window, s: seq<byte>, p: int)
    requires |s| > 4 && Converts(w, s)
    ensures Convertible(w, LeValue(s[1..5]))
    ensures var t := LeBytes(Operand(dir, w, LeValue(s[1..5]), p), 4);
            && LeValue(t) == Operand(dir, w, LeValue(s[1..5]), p)
            && IsMsByte(t[3])
            && (w != 0 ==> !IsMsByte(t[3 - BitNum(w)]))
  {
    OperandBytes(s[1..5]);
    var src := LeValue(s[1..5]);
    Pow256Values();
    var t := LeBytes(Operand(dir, w, src, p), 4);
    LeValueOfBytes(Operand(dir, w, src, p), 4);
    OperandConvertible(dir, w, src, p);
    OperandBytes(t);
  }

  lemma ScanSteps(dir: Direction, at: nat, w: Window, s: seq<byte>)
    requires |s| > 4
    ensures var t := Scan(dir, at, w, s);
            if Converts(w, s) then
              && t[1..5] == LeBytes(Operand(dir, w, LeValue(s[1..5]), at + 5), 4)
              && t[5..] == Scan(dir, at + 5, 0, s[5..])
            else
              t[1..] == Scan(dir, at + 1, Slide(w, IsOpcode(s[0])), s[1..])
  {
  }

  lemma ConvertingKeeps(dir: Direction, at: nat, w: Window, s: seq<byte>, b: nat)
    requires |s| > 4 && Converts(w, s)
    requires b < 3 && Bit(w, b)
    ensures IsMsByte(Scan(dir, at, w, s)[3 - b]) == IsMsByte(s[3 - b])
  {
    ConvertedBytes(dir, w, s, at + 5);
    ScanSteps(dir, at, w, s);
    var t := Scan(dir, at, w, s);
    assert BitNum(w) == b + 1;
    assert t[3 - b] == t[1..5][2 - b];
  }

  lemma SlideKeepsBits(w: Window, pending: bool)
    ensures Bit(Slide(w, pending), 0) == pending
    ensures Bit(Slide(w, pending), 1) == Bit(w, 0)
    ensures Bit(Slide(w, pending), 2) == Bit(w, 1)
  {
  }

  /// While an opcode is pending, the scan never moves its decision byte into or out of
  /// {0x00, 0xFF}: this is what the ALLOWED test and the inner loop are for.
  lemma {:induction false} PendingDecisionKept(dir: Direction, at: nat, w: Window, s: seq<byte>, b: nat)
    requires b < 3 && Bit(w, b) && 3 - b < |s|
    ensures IsMsByte(Scan(dir, at, w, s)[3 - b]) == IsMsByte(s[3 - b])
    decreases |s|
  {
    if |s| > 4 {
      if Converts(w, s) {
        ConvertingKeeps(dir, at, w, s, b);
      } else {
        ScanSteps(dir, at, w, s);
        var next := Slide(w, IsOpcode(s[0]));
        assert Scan(dir, at, w, s)[3 - b] == Scan(dir, at + 1, next, s[1..])[2 - b];
        if b < 2 {
          SlideKeepsBits(w, IsOpcode(s[0]));
          PendingDecisionKept(dir, at + 1, next, s[1..], b + 1);
        }
      }
    }
  }

  /// The reverse scan takes the same decision at the first position.
  lemma SameDecision(dir: Direction, at: nat, w: Window, s: seq<byte>)
    requires |s| > 4
    ensures Converts(w, Scan(dir, at, w, s)) == Converts(w, s)
  {
    var t := Scan(dir, at, w, s);
    if Converts(w, s) {
      ConvertedBytes(dir, w, s, at + 5);
    } else if IsOpcode(s[0]) {
      if w != 0 && Allowed(w) {
        PendingDecisionKept(dir, at, w, s, BitNum(w) - 1);
      }
      PendingDecisionKept(dir, at + 1, Slide(w, true), s[1..], 0);
    }
  }

  lemma Reassembled(s: seq<byte>, u: seq<byte>)
    requires |s| == |u| > 4 && u[0] == s[0] && u[1..5] == s[1..5] && u[5..] == s[5..]
    ensures u == s
  {
    assert u[..5] == [u[0]] + u[1..5] && s[..5] == [s[0]] + s[1..5];
    FromParts(s, u, 5);
  }

  /// A scan and its mirror convert the same positions and cancel out.
  lemma {:induction false} ScanInverse(dir: Direction, at: nat, w: Window, s: seq<byte>)
    ensures Scan(dir.Other(), at, w, Scan(dir, at, w, s)) == s
    decreases |s|
  {
    if |s| > 4 {
      var t := Scan(dir, at, w, s);
      var u := Scan(dir.Other(), at, w, t);
      SameDecision(dir, at, w, s);
      ScanSteps(dir, at, w, s);
      ScanSteps(dir.Other(), at, w, t);
      if Converts(w, s) {
        var src := LeValue(s[1..5]);
        ConvertedBytes(dir, w, s, at + 5);
        OperandInverse(dir, w, src, at + 5);
        LeBytesOfValue(s[1..5]);
        assert u[1..5] == s[1..5];
        ScanInverse(dir, at + 5, 0, s[5..]);
        Reassembled(s, u);
      } else {
        ScanInverse(dir, at + 1, Slide(w, IsOpcode(s[0])), s[1..]);
        assert u == [s[0]] + u[1..] && s == [s[0]] + s[1..];
      }
    }
  }

  /// The converter undoes its mirror and the mirror undoes the converter, for every start
  /// offset and every buffer.
  lemma X86Inverse(dir: Direction, start: u32, s: seq<byte>)
    ensures X86(dir.Other(), start, X86(dir, start, s)) == s
  {
    ScanInverse(dir, start, 0, s);
  }

  // ----- the loops as the source runs them -----

  /// A buffer no slice can exceed.
  const MAX_SLICE := 0x8000_0000_0000_0000

  const USIZE_MAX: u64 := 0xFFFF_FFFF_FFFF_FFFF

  function WrappingSub(a: u64, b: u64): u64 { (a - b) % 0x1_0000_0000_0000_0000 }

  function WrappingAdd32(a: u32, b: u32): u32 { (a + b) % WORD }

  /// `prev_mask` aged by the gap since the last opcode: `(prev_mask << (gap - 1)) & 7`
  /// while the gap is at most three, and nothing after that.
  function Aged(mask: nat, gap: nat): Window
    requires gap >= 1
  {
    if gap == 1 then mask % 8 else if gap == 2 then 2 * mask % 8 else if gap == 3 then 4 * mask % 8 else 0
  }

  /// The distance to the last opcode; `usize::MAX` stands for position -1.
  function Gap(i: nat, prevPos: u64): (gap: nat)
    requires i < MAX_SLICE && (prevPos == USIZE_MAX || prevPos < i)
    ensures gap >= 1
  {
    if prevPos == USIZE_MAX then i + 1 else i - prevPos
  }

  /// The gap is the source's `i.wrapping_sub(prev_pos)`, so `gap - 1` never underflows.
  lemma GapWraps(i: nat, prevPos: u64)
    requires i < MAX_SLICE && (prevPos == USIZE_MAX || prevPos < i)
    ensures Gap(i, prevPos) == WrappingSub(i, prevPos) && Gap(i, prevPos) >= 1
  {
  }

  /// The inner loop of the conversion, which turns at most twice.
  method ConvertOperand(position: u32, mask: Window, word: u32) returns (dest: u32)
    requires Convertible(mask, word)
    ensures dest == Operand(Decode, mask, word, position)
  {
    var src := word;
    ghost var turns := 0;
    while true
      invariant turns <= 1
      invariant turns == 0 ==> src == word
      invariant turns == 1 ==> mask != 0 && src == Flip(mask, Shift(Decode, word, position))
                                         && IsMsByte(Tested(mask, Shift(Decode, word, position)))
      decreases 1 - turns
    {
      dest := (src - position) % WORD;
      if mask == 0 {
        break;
      }
      if !IsMsByte(Tested(mask, dest)) {
        break;
      }
      if turns == 1 {
        InnerLoopStops(Decode, mask, word, position);
        assert false;
      }
      src := Flip(mask, dest);
      turns := turns + 1;
    }
    dest := Widen(dest);
  }

  lemma AgedSlides(mask: nat, gap: nat)
    requires gap >= 1
    ensures Aged(mask, gap + 1) == Slide(Aged(mask, gap), false)
  {
    var m := mask / 8;
    assert mask == 8 * m + mask % 8;
    DivUnique(2 * mask, 8, 2 * m + 2 * (mask % 8) / 8, 2 * (mask % 8) % 8);
    DivUnique(4 * mask, 8, 4 * m + 4 * (mask % 8) / 8, 4 * (mask % 8) % 8);
  }

  /// What is left to do at position i of the buffer s, in front of what is done.
  ghost function Outcome(start: u32, i: nat, w: Window, s: seq<byte>): seq<byte>
    requires i <= |s|
  {
    s[..i] + Scan(Decode, start + i, w, s[i..])
  }

  lemma StepOver(start: u32, i: nat, w: Window, s: seq<byte>)
    requires i + 4 < |s| && !Converts(w, s[i..])
    ensures Outcome(start, i, w, s) == Outcome(start, i + 1, Slide(w, IsOpcode(s[i])), s)
  {
    assert s[i..][1..] == s[i + 1..];
    assert s[..i + 1] == s[..i] + [s[i]];
  }

  lemma OpcodeSplice(s: seq<byte>, i: nat, u: seq<byte>, t: seq<byte>)
    requires i + |u| == |s| && |u| >= 5 && u[0] == s[i]
    requires t == s[..i + 1] + u[1..5] + s[i + 5..]
    ensures s[..i] + u == t[..i + 5] + u[5..]
  {
    assert u[..5] == [s[i]] + u[1..5];
    assert s[..i + 1] == s[..i] + [s[i]];
    Splice(s, i, 5, u, t);
  }

  lemma StepConverting(start: u32, i: nat, w: Window, s: seq<byte>, t: seq<byte>)
    requires i + 4 < |s| && Converts(w, s[i..])
    requires t == s[..i + 1] + LeBytes(Operand(Decode, w, LeValue(s[i + 1..i + 5]), start + i + 5), 4) + s[i + 5..]
    ensures Outcome(start, i, w, s) == Outcome(start, i + 5, 0, t)
  {
    hide Converts, Operand, LeBytes, LeValue, Scan;
    assert s[i..][1..5] == s[i + 1..i + 5];
    assert s[i..][5..] == s[i + 5..] == t[i + 5..];
    ScanSteps(Decode, start + i, w, s[i..]);
    OpcodeSplice(s, i, Scan(Decode, start + i, w, s[i..]), t);
  }

  lemma ScanStart(start: u32, s: seq<byte>)
    ensures Outcome(start, 0, 0, s) == X86(Decode, start, s)
  {
    assert s[0..] == s;
  }

  lemma ScanShort(start: u32, i: nat, w: Window, s: seq<byte>)
    requires i <= |s| <= i + 4
    ensures Outcome(start, i, w, s) == s
  {
  }

  /// The decision, in terms of the buffer the loop indexes.
  lemma DecisionAt(w: Window, s: seq<byte>, i: nat)
    requires i + 4 < |s|
    ensures Converts(w, s[i..]) <==>
            IsOpcode(s[i]) && (w == 0 || (Allowed(w) && !IsMsByte(s[i + 4 - BitNum(w)]))) && IsMsByte(s[i + 4])
  {
  }

  /// Reducing the position first changes no operand.
  lemma WrappedPosition(start: u32, i: nat, w: Window, src: u32)
    ensures Operand(Decode, w, src, WrappingAdd32(WrappingAdd32(start, i % WORD), 5))
            == Operand(Decode, w, src, start + i + 5)
  {
    var p := WrappingAdd32(WrappingAdd32(start, i % WORD), 5);
    var t := (start + i + 5) / WORD;
    ModSub(start + i, -5, WORD);
    ModSub(i, -(start as int), WORD);
    assert p == start + i + 5 - WORD * t;
    var once := Shift(Decode, src, p);
    ModEq(src - p, src - (start + i + 5), WORD, t);
    ModEq(Flip(w, once) - p, Flip(w, once) - (start + i + 5), WORD, t);
  }

  lemma StepByte(start: u32, i: nat, mask: nat, gap: nat, s: seq<byte>)
    requires i + 4 < |s| && gap >= 1 && !IsOpcode(s[i])
    ensures Outcome(start, i, Aged(mask, gap), s) == Outcome(start, i + 1, Aged(mask, gap + 1), s)
  {
    StepOver(start, i, Aged(mask, gap), s);
    AgedSlides(mask, gap);
  }

  lemma StepPending(start: u32, i: nat, w: Window, s: seq<byte>)
    requires i + 4 < |s| && IsOpcode(s[i])
    requires (w != 0 && (!Allowed(w) || IsMsByte(s[i + 4 - BitNum(w)]))) || !IsMsByte(s[i + 4])
    ensures Outcome(start, i, w, s) == Outcome(start, i + 1, Aged(2 * w + 1, 1), s)
  {
    DecisionAt(w, s, i);
    StepOver(start, i, w, s);
  }

  /// Rewrites the operand of the opcode at i.
  method ConvertAt(start: u32, buf: array<byte>, i: nat, mask: Window)
    requires i + 4 < buf.Length && IsOpcode(buf[i]) && IsMsByte(buf[i + 4])
    requires mask == 0 || (Allowed(mask) && !IsMsByte(buf[i + 4 - BitNum(mask)]))
    modifies buf
    ensures Outcome(start, i, mask, old(buf[..])) == Outcome(start, i + 5, Aged(mask, 5), buf[..])
  {
    DecisionAt(mask, buf[..], i);
    assert buf[..][i..] == buf[i..];
    ghost var before := buf[..];
    var src := LeValue(buf[i + 1..i + 5]);
    assert buf[i..][1..5] == before[i + 1..i + 5];
    ConvertedBytes(Decode, mask, buf[i..], 0);
    var dest := ConvertOperand(WrappingAdd32(WrappingAdd32(start, i % WORD), 5), mask, src);
    WrappedPosition(start, i, mask, src);
    var bytes := LeBytes(dest, 4);
    forall k | i < k < i + 5 {
      buf[k] := bytes[k - i - 1];
    }
    assert buf[..] == before[..i + 1] + bytes + before[i + 5..];
    StepConverting(start, i, mask, before, buf[..]);
  }

  /// What the loop still owes, from its three variables.
  ghost function Owed(start: u32, i: nat, prevPos: u64, prevMask: nat, s: seq<byte>): seq<byte>
    requires i <= |s| < MAX_SLICE && (prevPos == USIZE_MAX || prevPos < i)
  {
    Outcome(start, i, Aged(prevMask, Gap(i, prevPos)), s)
  }

  /// The loop body on an opcode: leave it pending, or convert its operand.
  method HandleOpcode(start: u32, buf: array<byte>, i: nat, mask: Window) returns (next: nat, nextMask: nat)
    requires buf.Length < MAX_SLICE && i + 4 < buf.Length && IsOpcode(buf[i])
    modifies buf
    ensures i < next <= buf.Length
    ensures Outcome(start, i, mask, old(buf[..])) == Owed(start, next, i, nextMask, buf[..])
  {
    if mask != 0 {
      var b := buf[i + 4 - BitNum(mask)];
      if !Allowed(mask) || IsMsByte(b) {
        StepPending(start, i, mask, buf[..]);
        return i + 1, 2 * mask + 1;
      }
    }
    if IsMsByte(buf[i + 4]) {
      ConvertAt(start, buf, i, mask);
      return i + 5, mask;
    }
    StepPending(start, i, mask, buf[..]);
    return i + 1, 2 * mask + 1;
  }

  /// The loop body.
  method Step(start: u32, buf: array<byte>, i: nat, prevPos: u64, prevMask: nat)
    returns (next: nat, nextPos: u64, nextMask: nat)
    requires buf.Length < MAX_SLICE && i + 4 < buf.Length
    requires prevPos == USIZE_MAX || prevPos < i
    modifies buf
    ensures i < next <= buf.Length && (nextPos == USIZE_MAX || nextPos < next)
    ensures Owed(start, i, prevPos, prevMask, old(buf[..])) == Owed(start, next, nextPos, nextMask, buf[..])
  {
    var gap := Gap(i, prevPos);
    if !IsOpcode(buf[i]) {
      StepByte(start, i, prevMask, gap, buf[..]);
      return i + 1, prevPos, prevMask;
    }
    nextPos := i;
    next, nextMask := HandleOpcode(start, buf, i, Aged(prevMask, gap));
  }

  /// The converter in place: one pass over the buffer that keeps the last opcode's
  /// position and the mask of unconverted ones.
  method X86InPlace(start: u32, buf: array<byte>)
    requires buf.Length < MAX_SLICE
    modifies buf
    ensures buf[..] == X86(Decode, start, old(buf[..]))
  {
    if buf.Length <= 4 {
      return;
    }
    var size := buf.Length - 4;
    var prevPos: u64 := USIZE_MAX;
    var prevMask: nat := 0;
    var i := 0;
    ghost var owed := Owed(start, 0, prevPos, prevMask, buf[..]);
    ScanStart(start, buf[..]);
    while i < size
      invariant 0 <= i <= buf.Length
      invariant prevPos == USIZE_MAX || prevPos < i
      invariant Owed(start, i, prevPos, prevMask, buf[..]) == owed
    {
      i, prevPos, prevMask := Step(start, buf, i, prevPos, prevMask);
    }
    ScanShort(start, i, Aged(prevMask, Gap(i, prevPos)), buf[..]);
  }
}
