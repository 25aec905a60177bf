/// The IA-64 branch converter of src/xz.rs and the mirror it undoes.
///
/// A bundle is sixteen bytes: five template bits and three 41-bit slots. The source reads
/// each slot through a window of six bytes, and neighbouring windows share a byte, so that
/// the slots do not disturb each other is something to prove.
module BcjIa64 {
  import opened Bytes
  import opened Modular
  import opened BcjX86
  import opened BcjFields

  type Slot = k: int | 0 <= k < 3

  /// The source's BRANCH_TABLE: which slots of a bundle hold branches, by template.
  function BranchMask(template: nat): nat
    requires template < 32
  {
    match template
    case 16 | 17 | 24 | 25 | 28 | 29 => 4
    case 18 | 19 => 6
    case 22 | 23 => 7
    case _ => 0
  }

  predicate HasBranch(b0: byte, k: Slot) {
    BranchMask(b0 % 32) / (if k == 0 then 1 else if k == 1 then 2 else 4) % 2 == 1
  }

  /// Where the slot's window starts, in bytes: `bit_pos >> 3`.
  function BytePos(k: Slot): nat { 5 * k }

  /// One past the window bits below the slot: 2 to `bit_pos & 7`.
  function Below(k: Slot): (c: nat)
    ensures c > 0
  {
    if k == 0 then 32 else if k == 1 then 64 else 128
  }

  /// How much of the window's first byte belongs to the slot: 256 / Below.
  function Within(k: Slot): (c: nat)
    ensures c > 0 && Below(k) * c == 256
  {
    if k == 0 then 8 else if k == 1 then 4 else 2
  }

  /// The slot's opcode names an IP-relative branch.
  predicate IsBranch(norm: nat) { norm / 0x20_0000_0000 % 16 == 5 && norm / 0x200 % 8 == 0 }

  /// Bits 13 to 32 of the slot, and bit 36 above them.
  function Address(norm: nat): (a: nat)
    ensures a < 0x20_0000
  {
    norm / 0x2000 % 0x10_0000 + 0x10_0000 * (norm / 0x10_0000_0000 % 2)
  }

  /// How much the slot grows when its address becomes a.
  function Growth(norm: nat, a: nat): int {
    0x2000 * (a % 0x10_0000 - norm / 0x2000 % 0x10_0000) + 0x10_0000_0000 * (a / 0x10_0000 - norm / 0x10_0000_0000 % 2)
  }

  /// The moved address of a branch at bundle position `at`.
  function Moved(dir: Direction, at: nat, a: nat): (r: nat)
    ensures r < 0x20_0000
  {
    Displace(dir, a, 16, at) % 0x20_0000
  }

  // ----- one slot, as a number -----

  /// A slot number from its five fields, lowest first.
  function Join(n0: int, n1: int, n2: int, n3: int, n4: int): int {
    n0 + 0x2000 * n1 + 0x2_0000_0000 * n2 + 0x10_0000_0000 * n3 + 0x20_0000_0000 * n4
  }

  lemma Fields(n0: nat, n1: nat, n2: nat, n3: nat, n4: nat)
    requires n0 < 0x2000 && n1 < 0x10_0000 && n2 < 8 && n3 < 2
    ensures var n := Join(n0, n1, n2, n3, n4);
            && n % 0x2000 == n0 && n / 0x2000 % 0x10_0000 == n1
            && n / 0x2_0000_0000 % 8 == n2 && n / 0x10_0000_0000 % 2 == n3 && n / 0x20_0000_0000 == n4
            && n / 0x200 % 8 == n0 / 0x200 % 8
  {
    var n := Join(n0, n1, n2, n3, n4);
    var t3 := n3 + 2 * n4;
    var t2 := n2 + 8 * t3;
    var t1 := n1 + 0x10_0000 * t2;
    DivUnique(n, 0x2000, t1, n0);
    DivUnique(t1, 0x10_0000, t2, n1);
    DivUnique(n, 0x2_0000_0000, t2, n0 + 0x2000 * n1);
    DivUnique(t2, 8, t3, n2);
    DivUnique(n, 0x10_0000_0000, t3, n0 + 0x2000 * n1 + 0x2_0000_0000 * n2);
    DivUnique(t3, 2, n4, n3);
    DivUnique(n, 0x20_0000_0000, n4, n0 + 0x2000 * n1 + 0x2_0000_0000 * n2 + 0x10_0000_0000 * n3);
    DivUnique(n, 0x200, n0 / 0x200 + 16 * t1, n0 % 0x200);
    ModEq(n0 / 0x200 + 16 * t1, n0 / 0x200, 8, 2 * t1);
  }

  lemma Split(n: nat) returns (n0: nat, n1: nat, n2: nat, n3: nat, n4: nat)
    ensures n0 < 0x2000 && n1 < 0x10_0000 && n2 < 8 && n3 < 2 && n == Join(n0, n1, n2, n3, n4)
  {
    n0 := n % 0x2000;
    var t1 := n / 0x2000;
    n1 := t1 % 0x10_0000;
    var t2 := t1 / 0x10_0000;
    n2 := t2 % 8;
    var t3 := t2 / 8;
    n3, n4 := t3 % 2, t3 / 2;
  }

  lemma Grown(n0: nat, n1: nat, n2: nat, n3: nat, n4: nat, a: nat)
    requires n0 < 0x2000 && n1 < 0x10_0000 && n2 < 8 && n3 < 2 && a < 0x20_0000
    ensures var n := Join(n0, n1, n2, n3, n4);
            && Address(n) == n1 + 0x10_0000 * n3
            && IsBranch(n) == (n4 % 16 == 5 && n0 / 0x200 % 8 == 0)
            && n + Growth(n, a) == Join(n0, a % 0x10_0000, n2, a / 0x10_0000, n4)
  {
    Fields(n0, n1, n2, n3, n4);
  }

  /// Writing an address changes neither the opcode nor anything from bit 37 up or below
  /// bit 13, and the address can be read back and restored.
  lemma Rewritten(n: nat, a: nat)
    requires a < 0x20_0000
    ensures var m := n + Growth(n, a);
            && m >= 0 && IsBranch(m) == IsBranch(n) && Address(m) == a
            && m % 0x2000 == n % 0x2000 && m / 0x20_0000_0000 == n / 0x20_0000_0000
            && m + Growth(m, Address(n)) == n
  {
    var n0, n1, n2, n3, n4 := Split(n);
    var a1, a3 := a % 0x10_0000, a / 0x10_0000;
    var was := n1 + 0x10_0000 * n3;
    DivUnique(was, 0x10_0000, n3, n1);
    Grown(n0, n1, n2, n3, n4, a);
    Grown(n0, a1, n2, a3, n4, was);
    Fields(n0, n1, n2, n3, n4);
    Fields(n0, a1, n2, a3, n4);
  }

  /// Moving an address there and back.
  lemma AddressBack(dir: Direction, at: nat, a: nat)
    requires a < 0x20_0000
    ensures Moved(dir.Other(), at, Moved(dir, at, a)) == if at % 16 == 0 then a else if a == 0 then 0x1F_FFFF else a - 1
  {
    MovedBack(dir, a, 16, 0x20_0000, 128, at);
  }

  /// The slot after conversion: a branch has its address moved.
  function Converted(dir: Direction, at: nat, norm: nat): (m: nat)
    ensures m % 0x2000 == norm % 0x2000 && m / 0x20_0000_0000 == norm / 0x20_0000_0000
    ensures IsBranch(m) == IsBranch(norm)
  {
    if IsBranch(norm) then
      var a := Moved(dir, at, Address(norm));
      Rewritten(norm, a);
      norm + Growth(norm, a)
    else norm
  }

  lemma ConvertedBack(dir: Direction, at: nat, n: nat)
    ensures at % 16 == 0 ==> Converted(dir.Other(), at, Converted(dir, at, n)) == n
    ensures at % 16 != 0 && IsBranch(n) ==> Converted(dir.Other(), at, Converted(dir, at, n)) != n
  {
    hide IsBranch, Growth, Address, Moved;
    if IsBranch(n) {
      var a := Moved(dir, at, Address(n));
      var m := Converted(dir, at, n);
      Rewritten(n, a);
      AddressBack(dir, at, Address(n));
      Rewritten(m, Moved(dir.Other(), at, a));
    }
  }

  // ----- one slot, as its window -----

  const WINDOW := 0x1_0000_0000_0000

  function WindowValue(k: Slot, low: nat, norm: nat): nat { low + Below(k) * norm }

  /// The window after its slot is converted.
  function Window(dir: Direction, at: nat, k: Slot, w: seq<byte>): (t: seq<byte>)
    requires |w| == 6
    ensures |t| == 6
  {
    LeBytes(WindowValue(k, LeValue(w) % Below(k), Converted(dir, at, LeValue(w) / Below(k))), 6)
  }

  /// Conversion keeps the window's lowest byte, everything above the slot, and the six
  /// bytes it was read from.
  lemma WindowKeeps(k: Slot, low: nat, norm: nat, m: nat)
    requires low < Below(k) && WindowValue(k, low, norm) < WINDOW
    requires m % 0x2000 == norm % 0x2000 && m / 0x20_0000_0000 == norm / 0x20_0000_0000
    ensures WindowValue(k, low, m) < WINDOW
    ensures WindowValue(k, low, m) % 256 == WindowValue(k, low, norm) % 256
    ensures WindowValue(k, low, m) / 0x100_0000_0000 / (2 * Below(k))
            == WindowValue(k, low, norm) / 0x100_0000_0000 / (2 * Below(k))
  {
    var t := m / 0x2000 - norm / 0x2000;
    assert m == norm + 0x2000 * t;
    ModEq(WindowValue(k, low, m), WindowValue(k, low, norm), 256, Below(k) * 32 * t);
    AboveSlot(k, low, norm);
    AboveSlot(k, low, m);
  }

  lemma AboveSlot(k: Slot, low: nat, norm: nat)
    requires low < Below(k)
    ensures WindowValue(k, low, norm) / 0x100_0000_0000 / (2 * Below(k)) == norm / 0x20_0000_0000 / 16
    ensures WindowValue(k, low, norm) < WINDOW <==> norm / 0x20_0000_0000 < 2048 / Below(k)
  {
    var c := Below(k);
    var v := WindowValue(k, low, norm);
    DivUnique(v, c, norm, low);
    DivDiv(v, 0x100_0000_0000, 2 * c);
    DivDiv(v, c, 0x200_0000_0000);
    DivDiv(norm, 0x20_0000_0000, 16);
    DivBound(v, c, WINDOW / c);
    DivBound(norm, 0x20_0000_0000, 2048 / c);
  }

  // ----- windows in a bundle -----

  /// The slot a window shows, with the two bits of the next one above it.
  function NormOf(k: Slot, w: seq<byte>): nat { LeValue(w) / Below(k) }

  lemma WindowFacts(dir: Direction, at: nat, k: Slot, w: seq<byte>)
    requires |w| == 6
    ensures LeValue(Window(dir, at, k, w)) % Below(k) == LeValue(w) % Below(k)
    ensures NormOf(k, Window(dir, at, k, w)) == Converted(dir, at, NormOf(k, w))
    ensures Window(dir, at, k, w)[0] == w[0]
    ensures Window(dir, at, k, w)[5] / (2 * Below(k)) == w[5] / (2 * Below(k))
  {
    hide Converted;
    var v, c := LeValue(w), Below(k);
    var low, norm := v % c, v / c;
    var m := Converted(dir, at, norm);
    var x := WindowValue(k, low, m);
    var t := LeBytes(x, 6);
    Pow256Values();
    assert v == WindowValue(k, low, norm);
    WindowKeeps(k, low, norm, m);
    LeValueOfBytes(x, 6);
    DivUnique(x, c, m, low);
    assert Pow256(5) == 0x100_0000_0000;
    LastByte(t);
    LastByte(w);
    DivUnique(x, 256, LeValue(t[1..]), t[0]);
    DivUnique(v, 256, LeValue(w[1..]), w[0]);
  }

  lemma WindowBack(dir: Direction, at: nat, k: Slot, w: seq<byte>)
    requires |w| == 6
    ensures at % 16 == 0 ==> Window(dir.Other(), at, k, Window(dir, at, k, w)) == w
    ensures at % 16 != 0 && IsBranch(NormOf(k, w)) ==> Window(dir.Other(), at, k, Window(dir, at, k, w)) != w
  {
    hide Converted, IsBranch;
    var t := Window(dir, at, k, w);
    WindowFacts(dir, at, k, w);
    WindowFacts(dir.Other(), at, k, t);
    ConvertedBack(dir, at, NormOf(k, w));
    LeBytesOfValue(w);
    assert LeValue(w) == WindowValue(k, LeValue(w) % Below(k), NormOf(k, w));
  }

  /// A slot does not depend on the low bits of its window's first byte, which is all a
  /// neighbour below may change.
  lemma WindowSharedByte(dir: Direction, at: nat, k: Slot, w: seq<byte>, u: seq<byte>)
    requires |w| == |u| == 6 && w[1..] == u[1..]
    requires w[0] / Below(k) == u[0] / Below(k)
    ensures Window(dir, at, k, u)[1..] == Window(dir, at, k, w)[1..]
  {
    hide Converted;
    NormSharedByte(k, w);
    NormSharedByte(k, u);
    WindowTail(dir, at, k, w);
    WindowTail(dir, at, k, u);
  }

  lemma NormSharedByte(k: Slot, w: seq<byte>)
    requires |w| == 6
    ensures NormOf(k, w) == w[0] / Below(k) + Within(k) * LeValue(w[1..])
  {
    var c := Below(k);
    DivUnique(LeValue(w), c, w[0] / c + Within(k) * LeValue(w[1..]), w[0] % c);
  }

  lemma WindowTail(dir: Direction, at: nat, k: Slot, w: seq<byte>)
    requires |w| == 6
    ensures Window(dir, at, k, w)[1..] == LeBytes(Converted(dir, at, NormOf(k, w)) / Within(k), 5)
  {
    hide Converted;
    var c := Below(k);
    var m := Converted(dir, at, NormOf(k, w));
    var x := WindowValue(k, LeValue(w) % c, m);
    DivDiv(x, c, Within(k));
    DivUnique(x, c, m, LeValue(w) % c);
  }

  // ----- bundles -----

  type Bundle = b: seq<byte> | |b| == 16 witness Zeros(16)

  function SlotConverted(dir: Direction, at: nat, k: Slot, b: Bundle): (t: Bundle) {
    b[..5 * k] + Window(dir, at, k, b[5 * k..5 * k + 6]) + b[5 * k + 6..]
  }

  /// A slot's conversion, if the template says it holds a branch.
  function SlotIf(has: bool, dir: Direction, at: nat, k: Slot, b: Bundle): (t: Bundle) {
    if has then SlotConverted(dir, at, k, b) else b
  }

  function BundleConverted(dir: Direction, at: nat, b: Bundle): (t: Bundle) {
    var h := b[0];
    SlotIf(HasBranch(h, 2), dir, at, 2, SlotIf(HasBranch(h, 1), dir, at, 1, SlotIf(HasBranch(h, 0), dir, at, 0, b)))
  }

  /// What the converter makes of the bytes from stream position `at` on.
  function Scan(dir: Direction, at: nat, s: seq<byte>): (t: seq<byte>)
    ensures |t| == |s|
    decreases |s|
  {
    if |s| < 16 then s else BundleConverted(dir, at, s[..16]) + Scan(dir, at + 16, s[16..])
  }

  lemma SlotParts(dir: Direction, at: nat, k: Slot, b: Bundle)
    ensures var t := SlotConverted(dir, at, k, b);
            && t[..5 * k] == b[..5 * k] && t[5 * k + 6..] == b[5 * k + 6..]
            && t[5 * k..5 * k + 6] == Window(dir, at, k, b[5 * k..5 * k + 6])
            && t[5 * k] == b[5 * k] && t[0] == b[0]
  {
    hide Window;
    WindowFacts(dir, at, k, b[5 * k..5 * k + 6]);
  }

  lemma SlotBack(dir: Direction, at: nat, k: Slot, b: Bundle)
    ensures at % 16 == 0 ==> SlotConverted(dir.Other(), at, k, SlotConverted(dir, at, k, b)) == b
  {
    hide Window;
    SlotParts(dir, at, k, b);
    WindowBack(dir, at, k, b[5 * k..5 * k + 6]);
    assert b == b[..5 * k] + b[5 * k..5 * k + 6] + b[5 * k + 6..];
  }

  /// Splicing two windows that share a byte, in either order.
  lemma AdjacentWindows(b: seq<byte>, p: nat, low: seq<byte>, high: seq<byte>, high': seq<byte>)
    requires p + 11 <= |b| && |low| == |high| == |high'| == 6
    requires high[0] == b[p + 5] && high'[0] == low[5] && high'[1..] == high[1..]
    ensures var x := b[..p + 5] + high + b[p + 11..];
            var y := b[..p] + low + b[p + 6..];
            x[..p] + low + x[p + 6..] == y[..p + 5] + high' + y[p + 11..]
  {
    assert high == [high[0]] + high[1..] && high' == [high'[0]] + high'[1..];
    assert low == low[..5] + [low[5]];
  }

  /// What x, which differs from b only past a shared byte, and y, which differs only up
  /// to it, show in each other's windows.
  lemma SharedWindows(b: Bundle, x: Bundle, y: Bundle, p: nat, low: seq<byte>)
    requires p + 11 <= 16 && |low| == 6
    requires x[..p + 5] == b[..p + 5] && x[p + 5] == b[p + 5]
    requires y[p..p + 6] == low && y[p + 6..] == b[p + 6..]
    ensures x[p..p + 6] == b[p..p + 6]
    ensures y[p + 5..p + 11][1..] == b[p + 5..p + 11][1..] && y[p + 5] == low[5]
  {
    assert x[p..p + 6] == x[..p + 5][p..] + [x[p + 5]];
    assert y[p + 5..p + 11][1..] == y[p + 6..][..5];
    assert y[p + 5] == y[p..p + 6][5];
  }

  lemma NeighboursCommute(d: Direction, j: Slot, e: Direction, at: nat, b: Bundle)
    requires j < 2
    ensures SlotConverted(d, at, j, SlotConverted(e, at, j + 1, b))
            == SlotConverted(e, at, j + 1, SlotConverted(d, at, j, b))
  {
    hide Window;
    var p, k := 5 * j, j + 1;
    var x, y := SlotConverted(e, at, k, b), SlotConverted(d, at, j, b);
    SlotParts(e, at, k, b);
    SlotParts(d, at, j, b);
    var wj, wk := b[p..p + 6], b[p + 5..p + 11];
    var w' := y[p + 5..p + 11];
    SharedWindows(b, x, y, p, Window(d, at, j, wj));
    WindowFacts(d, at, j, wj);
    WindowSharedByte(e, at, k, wk, w');
    WindowFacts(e, at, k, w');
    WindowFacts(e, at, k, wk);
    AdjacentWindows(b, p, Window(d, at, j, wj), Window(e, at, k, wk), Window(e, at, k, w'));
  }

  lemma OuterSlotsCommute(d: Direction, e: Direction, at: nat, b: Bundle)
    ensures SlotConverted(d, at, 0, SlotConverted(e, at, 2, b)) == SlotConverted(e, at, 2, SlotConverted(d, at, 0, b))
  {
    hide Window;
    var x, y := SlotConverted(e, at, 2, b), SlotConverted(d, at, 0, b);
    assert x[0..6] == b[0..6] && y[10..16] == b[10..16];
    assert x[6..] == b[6..10] + Window(e, at, 2, b[10..16]);
    assert y[..10] == Window(d, at, 0, b[0..6]) + b[6..10];
  }

  /// Two different slots may be converted in either order.
  lemma SlotsCommute(has: bool, d: Direction, j: Slot, has': bool, e: Direction, k: Slot, at: nat, b: Bundle)
    requires j < k
    ensures SlotIf(has, d, at, j, SlotIf(has', e, at, k, b)) == SlotIf(has', e, at, k, SlotIf(has, d, at, j, b))
  {
    hide SlotConverted;
    if k == j + 1 {
      NeighboursCommute(d, j, e, at, b);
    } else {
      OuterSlotsCommute(d, e, at, b);
    }
  }

  lemma SlotIfBack(has: bool, dir: Direction, at: nat, k: Slot, b: Bundle)
    requires at % 16 == 0
    ensures SlotIf(has, dir.Other(), at, k, SlotIf(has, dir, at, k, b)) == b
    ensures SlotIf(has, dir, at, k, b)[0] == b[0]
  {
    hide SlotConverted;
    SlotBack(dir, at, k, b);
    SlotParts(dir, at, k, b);
  }

  lemma BundleBack(dir: Direction, at: nat, b: Bundle)
    requires at % 16 == 0
    ensures BundleConverted(dir.Other(), at, BundleConverted(dir, at, b)) == b
  {
    hide SlotConverted, HasBranch, SlotIf;
    var o, h := dir.Other(), b[0];
    var h0, h1, h2 := HasBranch(h, 0), HasBranch(h, 1), HasBranch(h, 2);
    var b0 := SlotIf(h0, dir, at, 0, b);
    var b1 := SlotIf(h1, dir, at, 1, b0);
    SlotIfBack(h0, dir, at, 0, b);
    SlotIfBack(h1, dir, at, 1, b0);
    SlotIfBack(h2, dir, at, 2, b1);
    SlotsCommute(h0, o, 0, h2, dir, 2, at, b1);
    SlotsCommute(h0, o, 0, h1, dir, 1, at, b0);
    SlotsCommute(h1, o, 1, h2, dir, 2, at, SlotIf(h1, dir, at, 1, b));
    SlotIfBack(h1, dir, at, 1, b);
    SlotIfBack(h2, dir, at, 2, b);
  }

  lemma {:induction false} ScanInverse(dir: Direction, at: nat, s: seq<byte>)
    requires at % 16 == 0
    ensures Scan(dir.Other(), at, Scan(dir, at, s)) == s
    decreases |s|
  {
    hide BundleConverted;
    if |s| >= 16 {
      var t := Scan(dir, at, s);
      assert t[..16] == BundleConverted(dir, at, s[..16]) && t[16..] == Scan(dir, at + 16, s[16..]);
      BundleBack(dir, at, s[..16]);
      ScanInverse(dir, at + 16, s[16..]);
      FromParts(s, Scan(dir.Other(), at, t), 16);
    }
  }

  /// A bundle whose last slot alone holds a branch, with address zero.
  const ONE_BRANCH: Bundle := [16, 0, 0, 0, 0, 0, 0, 0, 0, 0, 0, 0, 0, 0, 0, 0x50]

  lemma OneBranchNorm()
    ensures NormOf(2, ONE_BRANCH[10..16]) == 0xA0_0000_0000
    ensures IsBranch(0xA0_0000_0000)
  {
    var w := ONE_BRANCH[10..16];
    assert w == [0, 0, 0, 0, 0, 0x50];
    assert LeValue(w[5..]) == 0x50 by { assert w[5..][1..] == []; }
    assert LeValue(w[4..]) == 0x50 * 0x100 by { assert w[4..][1..] == w[5..]; }
    assert LeValue(w[3..]) == 0x50 * 0x1_0000 by { assert w[3..][1..] == w[4..]; }
    assert LeValue(w[2..]) == 0x50 * 0x100_0000 by { assert w[2..][1..] == w[3..]; }
    assert LeValue(w[1..]) == 0x50 * 0x1_0000_0000 by { assert w[1..][1..] == w[2..]; }
  }

  /// On a misaligned start the mirror misses that branch.
  lemma MisalignedBreaks(dir: Direction, start: u32)
    requires start % 16 != 0
    ensures Scan(dir.Other(), start, Scan(dir, start, ONE_BRANCH)) != ONE_BRANCH
  {
    hide Window, SlotConverted;
    var b := ONE_BRANCH;
    var o := dir.Other();
    OneBranchNorm();
    WindowBack(dir, start, 2, b[10..16]);
    SlotParts(dir, start, 2, b);
    var t := SlotConverted(dir, start, 2, b);
    SlotParts(o, start, 2, t);
    assert BundleConverted(dir, start, b) == t && BundleConverted(o, start, t) == SlotConverted(o, start, 2, t);
    OneBundle(dir, start, b);
    OneBundle(o, start, t);
  }

  lemma OneBundle(dir: Direction, at: nat, b: Bundle)
    ensures Scan(dir, at, b) == BundleConverted(dir, at, b)
  {
    hide BundleConverted;
    assert b[..16] == b;
  }

  // ----- the loops as the source runs them -----

  ghost function Outcome(start: u32, i: nat, s: seq<byte>): seq<byte>
    requires i <= |s|
  {
    s[..i] + Scan(Decode, start + i, s[i..])
  }

  /// A window whose slot holds no branch is left as it is.
  lemma WindowUnchanged(dir: Direction, at: nat, k: Slot, w: seq<byte>)
    requires |w| == 6 && !IsBranch(NormOf(k, w))
    ensures Window(dir, at, k, w) == w
  {
    hide IsBranch;
    assert Converted(dir, at, NormOf(k, w)) == NormOf(k, w);
    assert WindowValue(k, LeValue(w) % Below(k), NormOf(k, w)) == LeValue(w);
    LeBytesOfValue(w);
  }

  /// Reducing the position first changes no address.
  lemma WrappedMove(start: u32, i: nat, a: nat)
    ensures Moved(Decode, (start + i % WORD) % WORD, a) == Moved(Decode, start + i, a)
  {
    ModSub(i, -(start as int), WORD);
    BcjFields.WrappedPosition(a, 16, start + i);
  }

  /// The arithmetic on one window, with the position wrapped as the source wraps it.
  method ConvertWindow(start: u32, i: nat, k: Slot, w: seq<byte>) returns (bytes: seq<byte>)
    requires |w| == 6
    ensures bytes == Window(Decode, start + i, k, w)
  {
    hide IsBranch, Address, Growth, Moved, LeBytes;
    var instr := LeValue(w);
    var norm := instr / Below(k);
    if !IsBranch(norm) {
      WindowUnchanged(Decode, start + i, k, w);
      return w;
    }
    var addr := Moved(Decode, (start + i % WORD) % WORD, Address(norm));
    WrappedMove(start, i, Address(norm));
    Rewritten(norm, addr);
    bytes := LeBytes(WindowValue(k, instr % Below(k), norm + Growth(norm, addr)), 6);
  }

  /// Converts one slot of the bundle at i through its window.
  method ConvertSlot(start: u32, buf: array<byte>, i: nat, k: Slot)
    requires i + 16 <= buf.Length
    modifies buf
    ensures buf[..] == old(buf[..i]) + SlotConverted(Decode, start + i, k, old(buf[i..i + 16])) + old(buf[i + 16..])
  {
    hide Window;
    ghost var before, bundle := buf[..], buf[i..i + 16];
    var p := i + BytePos(k);
    assert buf[p..p + 6] == bundle[5 * k..5 * k + 6];
    var bytes := ConvertWindow(start, i, k, buf[p..p + 6]);
    forall j | p <= j < p + 6 {
      buf[j] := bytes[j - p];
    }
    SlotSplice(before, buf[..], i, k, bytes);
  }

  lemma SlotSplice(s: seq<byte>, t: seq<byte>, i: nat, k: Slot, w: seq<byte>)
    requires i + 16 <= |s| == |t| && |w| == 6
    requires forall j :: 0 <= j < |s| ==> t[j] == if i + 5 * k <= j < i + 5 * k + 6 then w[j - i - 5 * k] else s[j]
    ensures var b := s[i..i + 16];
            t == s[..i] + (b[..5 * k] + w + b[5 * k + 6..]) + s[i + 16..]
  {
  }

  /// The slots below n converted, in order.
  function SlotsBelow(dir: Direction, at: nat, h: byte, n: nat, b: Bundle): (t: Bundle)
    requires n <= 3
  {
    if n == 0 then b else SlotIf(HasBranch(h, n - 1), dir, at, n - 1, SlotsBelow(dir, at, h, n - 1, b))
  }

  lemma SlotsBelowThree(dir: Direction, at: nat, b: Bundle)
    ensures SlotsBelow(dir, at, b[0], 3, b) == BundleConverted(dir, at, b)
  {
    hide SlotIf, HasBranch;
    var h := b[0];
    assert SlotsBelow(dir, at, h, 1, b) == SlotIf(HasBranch(h, 0), dir, at, 0, b);
    assert SlotsBelow(dir, at, h, 2, b) == SlotIf(HasBranch(h, 1), dir, at, 1, SlotsBelow(dir, at, h, 1, b));
  }

  method ConvertBundle(start: u32, buf: array<byte>, i: nat)
    requires i + 16 <= buf.Length
    modifies buf
    ensures buf[..] == old(buf[..i]) + BundleConverted(Decode, start + i, old(buf[i..i + 16])) + old(buf[i + 16..])
  {
    hide SlotConverted, HasBranch;
    ghost var before := buf[..];
    ghost var b: Bundle := buf[i..i + 16];
    var template := buf[i];
    for k := 0 to 3
      invariant buf[..] == before[..i] + SlotsBelow(Decode, start + i, b[0], k, b) + before[i + 16..]
    {
      if HasBranch(template, k) {
        ConvertSlot(start, buf, i, k);
      }
    }
    SlotsBelowThree(Decode, start + i, b);
  }

  lemma StepBundle(start: u32, i: nat, s: seq<byte>, t: seq<byte>)
    requires i + 16 <= |s|
    requires t == s[..i] + BundleConverted(Decode, start + i, s[i..i + 16]) + s[i + 16..]
    ensures Outcome(start, i, s) == Outcome(start, i + 16, t)
  {
    hide BundleConverted;
    var u := Scan(Decode, start + i, s[i..]);
    Cut(s, i, 16);
    assert t[i + 16..] == s[i + 16..];
    assert u[..16] == BundleConverted(Decode, start + i, s[i..i + 16]);
    Splice(s, i, 16, u, t);
  }

  lemma ScanEnds(start: u32, s: seq<byte>, i: nat)
    requires i <= |s| < i + 16
    ensures Outcome(start, i, s) == s
  {
  }

  lemma ScanBegins(start: u32, s: seq<byte>)
    ensures Outcome(start, 0, s) == Scan(Decode, start, s)
  {
    assert s[0..] == s;
  }

  /// The converter in place, a bundle at a time.
  method Ia64InPlace(start: u32, buf: array<byte>)
    modifies buf
    ensures buf[..] == Scan(Decode, start, old(buf[..]))
  {
    hide BundleConverted, Scan, Outcome;
    var size := buf.Length - buf.Length % 16;
    var i := 0;
    ghost var owed := Outcome(start, 0, buf[..]);
    ScanBegins(start, buf[..]);
    while i < size
      invariant 0 <= i <= size && i % 16 == 0
      invariant Outcome(start, i, buf[..]) == owed
    {
      ghost var before := buf[..];
      ConvertBundle(start, buf, i);
      StepBundle(start, i, before, buf[..]);
      i := i + 16;
    }
    ScanEnds(start, buf[..], i);
  }
}
