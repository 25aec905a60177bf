/// What the IA-64 converter does to a bundle, said of the number its sixteen bytes spell:
/// five template bits, then three slots of 41 bits. The encodings are those of
/// src/xz.rs:466-503.
module BundleReference {
  import opened Bytes
  import BcjX86
  import opened BcjIa64
  import BcjFields
  import Modular

  const SLOT := 0x200_0000_0000

  /// Where a slot starts: bits 5, 46 and 87.
  function Weight(k: Slot): (w: nat)
    ensures w > 0
  {
    if k == 0 then 0x20 else if k == 1 then 0x4000_0000_0000 else 0x80_0000_0000_0000_0000_0000
  }

  function SlotAt(v: nat, k: Slot): (s: nat)
    ensures s < SLOT
  {
    v / Weight(k) % SLOT
  }

  /// The slots the template makes branch slots: the last in MIB, MMB and MFB bundles, the
  /// last two in MBB, all three in BBB.
  predicate HoldsBranch(template: nat, k: Slot) {
    var mib, mbb, bbb := {0x10, 0x11}, {0x12, 0x13}, {0x16, 0x17};
    var mmb, mfb := {0x18, 0x19}, {0x1C, 0x1D};
    if k == 2 then template in mib + mbb + bbb + mmb + mfb
    else if k == 1 then template in mbb + bbb
    else template in bbb
  }

  /// An IP-relative call or branch: opcode 5 in bits 37 to 40, bits 9 to 11 zero.
  predicate IsRelative(s: nat) { s / 0x20_0000_0000 == 5 && s / 0x200 % 8 == 0 }

  function Immediate(s: nat): nat { s / 0x2000 % 0x10_0000 }

  function Sign(s: nat): nat { s / 0x10_0000_0000 % 2 }

  /// The branch's address counts bundles; it moves by the bundle's own position.
  function MovedAddress(dir: BcjX86.Direction, at: nat, a: nat): (m: nat)
    ensures m < 0x20_0000
  {
    (if dir == BcjX86.Decode then 16 * a - at else 16 * a + at) % 0x1_0000_0000 / 16 % 0x20_0000
  }

  function NewSlot(dir: BcjX86.Direction, at: nat, s: nat): int {
    if !IsRelative(s) then s
    else
      var a := MovedAddress(dir, at, Immediate(s) + 0x10_0000 * Sign(s));
      s + 0x2000 * (a % 0x10_0000 - Immediate(s)) + 0x10_0000_0000 * (a / 0x10_0000 - Sign(s))
  }

  // ----- bundles as numbers -----

  lemma {:induction false} LeValueConcat(a: seq<byte>, b: seq<byte>)
    ensures LeValue(a + b) == LeValue(a) + Pow256(|a|) * LeValue(b)
  {
    if a == [] {
      assert a + b == b;
    } else {
      assert (a + b)[1..] == a[1..] + b && (a + b)[0] == a[0];
      LeValueConcat(a[1..], b);
      Regroup(LeValue(a[1..]), Pow256(|a| - 1), LeValue(b));
    }
  }

  lemma Regroup(x: int, p: int, v: int)
    ensures 256 * (x + p * v) == 256 * x + (256 * p) * v
  {
  }

  /// A number below 2^128, in its template and slots.
  function Bundled(template: int, s0: int, s1: int, s2: int): int {
    template + 0x20 * s0 + 0x4000_0000_0000 * s1 + 0x80_0000_0000_0000_0000_0000 * s2
  }

  lemma InSlots(v: nat)
    requires v < Pow256(16)
    ensures v == Bundled(v % 0x20, SlotAt(v, 0), SlotAt(v, 1), SlotAt(v, 2))
  {
    Pow256Values();
    assert Pow256(12) == 0x1_0000_0000 * Pow256(8) by { Pow256Twelve(); }
    Pow256Sixteen();
    var a := v / 0x20;
    var b := a / SLOT;
    var c := b / SLOT;
    Modular.DivDiv(v, 0x20, SLOT);
    Modular.DivDiv(v, 0x20 * SLOT, SLOT);
    Modular.DivBound(v, 0x80_0000_0000_0000_0000_0000, SLOT);
    assert c % SLOT == c;
  }

  lemma Pow256Twelve()
    ensures Pow256(12) == 0x1_0000_0000 * Pow256(8)
  {
    assert Pow256(9) == 256 * Pow256(8) && Pow256(10) == 256 * Pow256(9);
    assert Pow256(11) == 256 * Pow256(10) && Pow256(12) == 256 * Pow256(11);
  }

  lemma Pow256Sixteen()
    ensures Pow256(16) == 0x80_0000_0000_0000_0000_0000 * SLOT
  {
    Pow256Values();
    Pow256Twelve();
    assert Pow256(13) == 256 * Pow256(12) && Pow256(14) == 256 * Pow256(13);
    assert Pow256(15) == 256 * Pow256(14) && Pow256(16) == 256 * Pow256(15);
  }

  lemma SlotsOf(template: nat, s0: nat, s1: nat, s2: nat)
    requires template < 0x20 && s0 < SLOT && s1 < SLOT && s2 < SLOT
    ensures var v := Bundled(template, s0, s1, s2);
            v >= 0 && v % 0x20 == template && SlotAt(v, 0) == s0 && SlotAt(v, 1) == s1 && SlotAt(v, 2) == s2
  {
    var c := s2;
    var b := s1 + SLOT * c;
    var a := s0 + SLOT * b;
    var v := template + 0x20 * a;
    assert v == Bundled(template, s0, s1, s2);
    Modular.DivUnique(v, 0x20, a, template);
    Modular.DivUnique(a, SLOT, b, s0);
    Modular.DivUnique(b, SLOT, c, s1);
    Modular.DivDiv(v, 0x20, SLOT);
    Modular.DivDiv(v, 0x20 * SLOT, SLOT);
    Modular.DivUnique(s2, SLOT, 0, s2);
  }

  // ----- one slot -----

  lemma SlotIsBranch(n: nat, s: nat, h: nat)
    requires s < SLOT && n == s + SLOT * h
    ensures Alike(n, s)
  {
    hide Alike, Join;
    var n0, n1, n2, n3, n4 := InFields(s);
    Stacked(n0, n1, n2, n3, n4, h);
    FieldsAlike(n0, n1, n2, n3, n4, h);
  }

  lemma InFields(s: nat) returns (n0: nat, n1: nat, n2: nat, n3: nat, n4: nat)
    requires s < SLOT
    ensures n0 < 0x2000 && n1 < 0x10_0000 && n2 < 8 && n3 < 2 && n4 < 16 && s == Join(n0, n1, n2, n3, n4)
  {
    hide Join;
    n0, n1, n2, n3, n4 := Split(s);
    Fields(n0, n1, n2, n3, n4);
    Modular.DivBound(s, 0x20_0000_0000, 16);
  }

  lemma Stacked(n0: nat, n1: nat, n2: nat, n3: nat, n4: nat, h: nat)
    ensures Join(n0, n1, n2, n3, n4 + 16 * h) == Join(n0, n1, n2, n3, n4) + SLOT * h
  {
  }

  lemma FieldsAlike(n0: nat, n1: nat, n2: nat, n3: nat, n4: nat, h: nat)
    requires n0 < 0x2000 && n1 < 0x10_0000 && n2 < 8 && n3 < 2 && n4 < 16
    ensures Join(n0, n1, n2, n3, n4) >= 0 && Join(n0, n1, n2, n3, n4 + 16 * h) >= 0
    ensures Alike(Join(n0, n1, n2, n3, n4 + 16 * h), Join(n0, n1, n2, n3, n4))
  {
    Fields(n0, n1, n2, n3, n4);
    Fields(n0, n1, n2, n3, n4 + 16 * h);
    hide Join;
    Modular.DivUnique(n4 + 16 * h, 16, h, n4);
  }

  /// The bits above a slot, which its window may show, decide nothing.
  predicate Alike(n: nat, s: nat) {
    IsBranch(n) == IsRelative(s) && Address(n) == Immediate(s) + 0x10_0000 * Sign(s)
    && n / 0x2000 % 0x10_0000 == Immediate(s) && n / 0x10_0000_0000 % 2 == Sign(s)
  }

  lemma SlotConverts(dir: BcjX86.Direction, at: nat, n: nat, s: nat, h: nat)
    requires s < SLOT && n == s + SLOT * h
    ensures Converted(dir, at, n) - n == NewSlot(dir, at, s) - s
    ensures 0 <= NewSlot(dir, at, s) < SLOT
  {
    hide IsBranch, Address, IsRelative, Immediate, Sign, Converted, Moved, MovedAddress;
    SlotIsBranch(n, s, h);
    NewSlotFits(dir, at, s);
    ConvertedGrows(dir, at, n);
    SameMove(dir, at, Address(n));
  }

  lemma ConvertedGrows(dir: BcjX86.Direction, at: nat, n: nat)
    ensures Converted(dir, at, n) - n == if IsBranch(n) then Growth(n, Moved(dir, at, Address(n))) else 0
  {
    hide IsBranch, Address, Growth, Moved;
  }

  lemma SameMove(dir: BcjX86.Direction, at: nat, a: nat)
    ensures Moved(dir, at, a) == MovedAddress(dir, at, a)
  {
  }

  lemma NewSlotFits(dir: BcjX86.Direction, at: nat, s: nat)
    requires s < SLOT
    ensures 0 <= NewSlot(dir, at, s) < SLOT
  {
    hide MovedAddress, IsRelative, Join;
    if IsRelative(s) {
      var n0, n1, n2, n3, n4 := InFields(s);
      Fields(n0, n1, n2, n3, n4);
      var a := MovedAddress(dir, at, n1 + 0x10_0000 * n3);
      AddressWritten(n0, n1, n2, n3, n4, a);
    }
  }

  lemma AddressWritten(n0: nat, n1: nat, n2: nat, n3: nat, n4: nat, a: nat)
    requires n0 < 0x2000 && n1 < 0x10_0000 && n2 < 8 && n3 < 2 && n4 < 16 && a < 0x20_0000
    ensures 0 <= Join(n0, n1, n2, n3, n4) + 0x2000 * (a % 0x10_0000 - n1) + 0x10_0000_0000 * (a / 0x10_0000 - n3) < SLOT
  {
    var m := a % 0x10_0000;
    var g := a / 0x10_0000;
    assert Join(n0, m, n2, g, n4) == Join(n0, n1, n2, n3, n4) + 0x2000 * (m - n1) + 0x10_0000_0000 * (g - n3);
  }

  /// The window of slot k, seen from the whole bundle.
  lemma SlotInWindow(k: Slot, b: Bundle) returns (h: nat)
    ensures NormOf(k, b[5 * k..5 * k + 6]) == SlotAt(LeValue(b), k) + SLOT * h
  {
    hide LeValue, Pow256, Below;
    var w, rest := b[5 * k..5 * k + 6], b[5 * k + 6..];
    assert b == b[..5 * k] + (w + rest);
    LeValueConcat(b[..5 * k], w + rest);
    LeValueConcat(w, rest);
    var p, c := Pow256(5 * k), Below(k);
    WeightIs(k);
    WindowSpan(k);
    var x := LeValue(w) + Pow256(6) * LeValue(rest);
    Modular.DivUnique(LeValue(b), p, x, LeValue(b[..5 * k]));
    Modular.DivDiv(LeValue(b), p, c);
    var e := if k == 0 then 4 else if k == 1 then 2 else 1;
    WindowHigh(LeValue(w), LeValue(rest), c, e);
    var n := NormOf(k, w);
    h := n / SLOT;
    Modular.ModEq(n + SLOT * (e * LeValue(rest)), n, SLOT, e * LeValue(rest));
  }

  lemma WeightIs(k: Slot)
    ensures Pow256(5 * k) * Below(k) == Weight(k)
  {
    Pow256Values();
    assert Pow256(0) == 1;
    assert Pow256(5) == 0x100_0000_0000;
    assert Pow256(9) == 256 * Pow256(8) && Pow256(10) == 256 * Pow256(9);
  }

  lemma WindowSpan(k: Slot)
    ensures Pow256(6) == Below(k) * (SLOT * if k == 0 then 4 else if k == 1 then 2 else 1)
  {
    Pow256Values();
  }

  lemma WindowHigh(low: nat, rest: nat, c: nat, e: nat)
    requires c > 0 && Pow256(6) == c * (SLOT * e)
    ensures (low + Pow256(6) * rest) / c == low / c + SLOT * (e * rest)
  {
    var m := SLOT * (e * rest);
    assert Pow256(6) * rest == c * m by { Factor(c, SLOT * e, rest, SLOT, e); }
    Modular.Distribute(c, low / c, m);
    Modular.DivUnique(low + c * m, c, low / c + m, low % c);
  }

  lemma Factor(c: int, se: int, rest: int, s: int, e: int)
    requires se == s * e
    ensures (c * se) * rest == c * (s * (e * rest))
  {
    assert (c * se) * rest == c * (se * rest);
    assert (s * e) * rest == s * (e * rest);
  }

  /// Converting a slot changes the bundle's number in that slot alone.
  lemma SlotMoves(dir: BcjX86.Direction, at: nat, k: Slot, b: Bundle)
    ensures var v, s := LeValue(b), SlotAt(LeValue(b), k);
            LeValue(SlotConverted(dir, at, k, b)) == v + Weight(k) * (NewSlot(dir, at, s) - s)
  {
    hide LeValue, Pow256, Below, NewSlot, Converted, Window, SlotAt;
    var w, rest := b[5 * k..5 * k + 6], b[5 * k + 6..];
    var t := Window(dir, at, k, w);
    var h := SlotInWindow(k, b);
    WindowFacts(dir, at, k, w);
    var n := NormOf(k, w);
    var s := SlotAt(LeValue(b), k);
    SlotBound(LeValue(b), k);
    SlotConverts(dir, at, n, s, h);
    assert b == b[..5 * k] + (w + rest) && SlotConverted(dir, at, k, b) == b[..5 * k] + (t + rest);
    LeValueConcat(b[..5 * k], w + rest);
    LeValueConcat(w, rest);
    LeValueConcat(b[..5 * k], t + rest);
    LeValueConcat(t, rest);
    WeightIs(k);
    var c, m := Below(k), Converted(dir, at, n);
    Modular.Quotient(LeValue(t), c);
    Modular.Quotient(LeValue(w), c);
    Modular.Distribute(c, m, n);
    Difference(LeValue(b[..5 * k]), Pow256(5 * k), LeValue(t + rest), LeValue(w + rest), c, m, n);
  }

  lemma Difference(low: int, p: int, x: int, y: int, c: int, m: int, n: int)
    requires x - y == c * (m - n)
    ensures (low + p * x) - (low + p * y) == (p * c) * (m - n)
  {
    Modular.Distribute(p, x, y);
    assert p * (c * (m - n)) == (p * c) * (m - n);
  }

  lemma SlotBound(v: nat, k: Slot)
    ensures SlotAt(v, k) < SLOT
  {
  }

  // ----- the bundle -----

  function SlotAfter(dir: BcjX86.Direction, at: nat, template: nat, k: Slot, s: nat): int {
    if HoldsBranch(template, k) then NewSlot(dir, at, s) else s
  }

  lemma SlotsByTemplate(b0: byte, k: Slot)
    ensures HasBranch(b0, k) <==> HoldsBranch(b0 % 32, k)
  {
  }

  lemma TemplateIs(b: Bundle)
    ensures LeValue(b) % 0x20 == b[0] % 32
  {
    Modular.ModEq(LeValue(b), b[0], 0x20, 8 * LeValue(b[1..]));
  }

  lemma OneSlot(has: bool, dir: BcjX86.Direction, at: nat, k: Slot, b: Bundle, s0: nat, s1: nat, s2: nat)
    requires s0 < SLOT && s1 < SLOT && s2 < SLOT && LeValue(b) == Bundled(b[0] % 32, s0, s1, s2)
    ensures var t := SlotIf(has, dir, at, k, b);
            var s := if k == 0 then s0 else if k == 1 then s1 else s2;
            var m := if has then NewSlot(dir, at, s) else s;
            && 0 <= m < SLOT && t[0] == b[0]
            && LeValue(t)
               == Bundled(b[0] % 32, if k == 0 then m else s0, if k == 1 then m else s1, if k == 2 then m else s2)
  {
    hide NewSlot, LeValue, SlotConverted, SlotAt;
    SlotsOf(b[0] % 32, s0, s1, s2);
    SlotParts(dir, at, k, b);
    SlotMoves(dir, at, k, b);
    NewSlotFits(dir, at, if k == 0 then s0 else if k == 1 then s1 else s2);
  }

  lemma ThreeSlots(dir: BcjX86.Direction, at: nat, b: Bundle, s0: nat, s1: nat, s2: nat)
    requires s0 < SLOT && s1 < SLOT && s2 < SLOT && LeValue(b) == Bundled(b[0] % 32, s0, s1, s2)
    ensures var h, t := b[0] % 32, LeValue(BundleConverted(dir, at, b));
            && t % 0x20 == h && SlotAt(t, 0) == SlotAfter(dir, at, h, 0, s0)
            && SlotAt(t, 1) == SlotAfter(dir, at, h, 1, s1) && SlotAt(t, 2) == SlotAfter(dir, at, h, 2, s2)
  {
    hide NewSlot, LeValue, SlotIf, SlotAt, HasBranch, HoldsBranch, Bundled;
    var h := b[0];
    SlotsByTemplate(h, 0);
    SlotsByTemplate(h, 1);
    SlotsByTemplate(h, 2);
    var x := SlotIf(HasBranch(h, 0), dir, at, 0, b);
    OneSlot(HasBranch(h, 0), dir, at, 0, b, s0, s1, s2);
    var t0 := SlotAfter(dir, at, h % 32, 0, s0);
    var y := SlotIf(HasBranch(h, 1), dir, at, 1, x);
    OneSlot(HasBranch(h, 1), dir, at, 1, x, t0, s1, s2);
    var t1 := SlotAfter(dir, at, h % 32, 1, s1);
    OneSlot(HasBranch(h, 2), dir, at, 2, y, t0, t1, s2);
    SlotsOf(h % 32, t0, t1, SlotAfter(dir, at, h % 32, 2, s2));
  }

  /// A converted bundle keeps its template; the slots its template makes branch slots have
  /// their relative branches moved, and nothing else of it changes.
  lemma ConvertsAsDescribed(dir: BcjX86.Direction, at: nat, b: Bundle)
    ensures var v, t := LeValue(b), LeValue(BundleConverted(dir, at, b));
            && t % 0x20 == v % 0x20
            && forall k: Slot :: SlotAt(t, k) == SlotAfter(dir, at, v % 0x20, k, SlotAt(v, k))
  {
    hide LeValue, SlotAt, SlotAfter, BundleConverted, Bundled;
    var v := LeValue(b);
    TemplateIs(b);
    InSlots(v);
    SlotBound(v, 0);
    SlotBound(v, 1);
    SlotBound(v, 2);
    ThreeSlots(dir, at, b, SlotAt(v, 0), SlotAt(v, 1), SlotAt(v, 2));
    forall k: Slot
      ensures SlotAt(LeValue(BundleConverted(dir, at, b)), k) == SlotAfter(dir, at, v % 0x20, k, SlotAt(v, k))
    {
      assert k == 0 || k == 1 || k == 2;
    }
  }

  /// On an aligned bundle the address of a target becomes the distance to it, in bundles.
  lemma TargetBecomesDistance(at: nat, target: nat)
    requires at % 16 == 0 && target % 16 == 0
    ensures MovedAddress(BcjX86.Decode, at, target / 16 % 0x20_0000) == ((target - at) / 16) % 0x20_0000
  {
    var t: int, h: int := target / 16, at / 16;
    BcjFields.DisplaceMoves(BcjX86.Decode, t % 0x20_0000, 16, 0x20_0000, 128, at);
    Modular.DivUnique(target - at, 16, t - h, 0);
    var p: int := at;
    Modular.DivUnique(-p, 16, -h, 0);
    Modular.ModSub(t, h, 0x20_0000);
  }
}
