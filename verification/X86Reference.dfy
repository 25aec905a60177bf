/// What the x86 converter does, said of the original bytes alone: which opcodes it takes and
/// what becomes of their operands. Section 5.3.2 of The .xz File Format gives the filter; the
/// rules are those of src/xz.rs:394-450, with positions where the source keeps a mask.
module X86Reference {
  import opened Bytes
  import opened BcjX86
  import Modular

  /// CALL and JMP with a 32-bit operand.
  predicate CallOrJump(b: byte) { b == 0xE8 || b == 0xE9 }

  predicate Extreme(b: int) { b == 0x00 || b == 0xFF }

  /// The opcodes left alone that still count at i: those at most three bytes back.
  function Near(pending: set<nat>, i: nat): set<nat> { set p | p in pending && p < i <= p + 3 }

  /// An opcode is taken when its operand's top byte is a sign extension and at most one
  /// opcode near it was left alone, whose own top byte is not.
  ghost predicate Taken(s: seq<byte>, i: nat, pending: set<nat>)
    requires i + 4 < |s|
  {
    && CallOrJump(s[i]) && Extreme(s[i + 4])
    && (Near(pending, i) == {} || exists p :: Near(pending, i) == {p} && !Extreme(s[p + 4]))
  }

  /// The distance to the one opcode left alone, 0 when there is none.
  ghost function Gap(s: seq<byte>, i: nat, pending: set<nat>): (g: nat)
    requires i + 4 < |s| && Taken(s, i, pending)
    ensures g <= 3 && (g == 0 <==> Near(pending, i) == {})
  {
    if Near(pending, i) == {} then 0
    else
      var p :| Near(pending, i) == {p};
      assert p in Near(pending, i);
      i - p
  }

  function Moved(dir: Direction, word: int, position: int): u32 {
    (if dir == Decode then word - position else word + position) % 0x1_0000_0000
  }

  /// The weight of the byte of an operand that lies over the pending opcode's top byte.
  function TopUnit(gap: nat): nat { if gap == 1 then 0x1_0000 else if gap == 2 then 0x100 else 1 }

  /// A word with everything up to that byte complemented.
  function LowComplemented(word: u32, gap: nat): int {
    var span := 0x100 * TopUnit(gap);
    word / span * span + (span - 1 - word % span)
  }

  /// The low 25 bits, sign-extended.
  function Extended(word: u32): u32 {
    var low := word % 0x200_0000;
    if low < 0x100_0000 then low else low + 0xFE00_0000
  }

  /// The operand moved by its position; and when that would make the pending opcode's top
  /// byte look like a sign extension, complemented below and moved once more.
  function NewOperand(dir: Direction, word: u32, position: int, gap: nat): u32 {
    var once := Moved(dir, word, position);
    if gap == 0 || !Extreme(once / TopUnit(gap) % 0x100) then Extended(once)
    else Extended(Moved(dir, LowComplemented(once, gap), position))
  }

  /// The converted bytes from position i on, with the opcodes left alone since the last one
  /// that was taken.
  ghost function From(dir: Direction, start: nat, s: seq<byte>, i: nat, pending: set<nat>): (t: seq<byte>)
    decreases |s| - i
  {
    if i >= |s| then []
    else if i + 4 >= |s| then s[i..]
    else if Taken(s, i, pending) then
      Pow256Values();
      [s[i]]
      + LeBytes(NewOperand(dir, LeValue(s[i + 1..i + 5]), start + i + 5, Gap(s, i, pending)), 4)
      + From(dir, start, s, i + 5, {})
    else [s[i]] + From(dir, start, s, i + 1, if CallOrJump(s[i]) then pending + {i} else pending)
  }

  // ----- the converter is that -----

  /// The mask's bits are the near opcodes left alone.
  predicate Masks(w: Window, pending: set<nat>, i: nat) {
    && (w % 2 == 1 <==> i >= 1 && i - 1 in pending)
    && (w / 2 % 2 == 1 <==> i >= 2 && i - 2 in pending)
    && (w / 4 == 1 <==> i >= 3 && i - 3 in pending)
  }

  /// How many bytes back the one bit of a mask stands for.
  function Back(w: Window): nat { if w == 1 then 1 else if w == 2 then 2 else 3 }

  lemma NearOfMask(w: Window, pending: set<nat>, i: nat)
    requires Masks(w, pending, i)
    ensures w == 0 ==> Near(pending, i) == {}
    ensures w == 1 || w == 2 || w == 4 ==> i >= Back(w) && Near(pending, i) == {i - Back(w)}
    ensures w == 3 || w > 4 ==> exists p, q :: p != q && p in Near(pending, i) && q in Near(pending, i)
  {
    forall p | p in Near(pending, i) ensures p == i - 1 || p == i - 2 || p == i - 3 {
    }
    if w == 3 || w == 7 {
      assert i - 1 in Near(pending, i) && i - 2 in Near(pending, i);
    } else if w == 5 {
      assert i - 1 in Near(pending, i) && i - 3 in Near(pending, i);
    } else if w == 6 {
      assert i - 2 in Near(pending, i) && i - 3 in Near(pending, i);
    }
  }

  lemma SameGuard(w: Window, pending: set<nat>, s: seq<byte>, i: nat)
    requires Masks(w, pending, i) && i + 4 < |s|
    ensures Taken(s, i, pending) <==> Converts(w, s[i..])
    ensures Taken(s, i, pending) ==> Gap(s, i, pending) == if w == 0 then 0 else Back(w)
  {
    NearOfMask(w, pending, i);
    if w == 3 || w > 4 {
      forall p ensures Near(pending, i) != {p} {
      }
    } else if w != 0 {
      var p := i - Back(w);
      assert s[i..][4 - BitNum(w)] == s[p + 4];
      forall q | Near(pending, i) == {q} ensures q == p {
        assert p in Near(pending, i);
      }
    }
  }

  lemma SameOperand(dir: Direction, w: Window, word: u32, position: int)
    requires w == 0 || w == 1 || w == 2 || w == 4
    ensures NewOperand(dir, word, position, if w == 0 then 0 else Back(w)) == Operand(dir, w, word, position)
  {
    if w != 0 {
      var once := Shift(dir, word, position);
      SameTop(w, once);
      SameComplement(w, once);
    }
  }

  lemma SameTop(w: Window, x: u32)
    requires w == 1 || w == 2 || w == 4
    ensures x / TopUnit(Back(w)) % 0x100 == Tested(w, x)
  {
    var unit := TopUnit(Back(w));
    var q := x / unit;
    Modular.DivUnique(x, 0x100 * unit, q / 0x100, q % 0x100 * unit + x % unit);
    Modular.DivUnique(x % (0x100 * unit), unit, q % 0x100, x % unit);
  }

  lemma SameComplement(w: Window, x: u32)
    requires w == 1 || w == 2 || w == 4
    ensures LowComplemented(x, Back(w)) == Flip(w, x)
  {
  }

  lemma SlidMask(w: Window, pending: set<nat>, i: nat, left: bool)
    requires Masks(w, pending, i) && i !in pending
    ensures Masks(Slide(w, left), if left then pending + {i} else pending, i + 1)
  {
  }

  lemma {:induction false} ScanFrom(dir: Direction, start: nat, s: seq<byte>, i: nat, pending: set<nat>, w: Window)
    requires i <= |s| && Masks(w, pending, i) && forall p :: p in pending ==> p < i
    ensures Scan(dir, start + i, w, s[i..]) == From(dir, start, s, i, pending)
    decreases |s| - i
  {
    hide Masks, Taken, Converts, NewOperand, Operand, Gap, LeBytes, LeValue, Slide, From, Scan, Back;
    var u := s[i..];
    FromSteps(dir, start, s, i, pending);
    ScanOnce(dir, start + i, w, u);
    if i + 4 < |s| {
      SameGuard(w, pending, s, i);
      if Converts(w, u) {
        assert u[1..5] == s[i + 1..i + 5] && u[5..] == s[i + 5..];
        SimpleWindow(w, u);
        SameOperand(dir, w, LeValue(u[1..5]), start + i + 5);
        NoMask(i + 5);
        ScanFrom(dir, start, s, i + 5, {}, 0);
      } else {
        var left := IsOpcode(s[i]);
        assert u[1..] == s[i + 1..];
        SlidMask(w, pending, i, left);
        ScanFrom(dir, start, s, i + 1, if left then pending + {i} else pending, Slide(w, left));
      }
    }
  }

  lemma FromSteps(dir: Direction, start: nat, s: seq<byte>, i: nat, pending: set<nat>)
    requires i <= |s|
    ensures i + 4 >= |s| ==> From(dir, start, s, i, pending) == s[i..]
    ensures i + 4 < |s| && Taken(s, i, pending) ==>
              var word := LeValue(s[i + 1..i + 5]);
              word < 0x1_0000_0000
              && From(dir, start, s, i, pending)
                 == [s[i]] + LeBytes(NewOperand(dir, word, start + i + 5, Gap(s, i, pending)), 4)
                    + From(dir, start, s, i + 5, {})
    ensures i + 4 < |s| && !Taken(s, i, pending) ==>
              From(dir, start, s, i, pending)
              == [s[i]] + From(dir, start, s, i + 1, if CallOrJump(s[i]) then pending + {i} else pending)
  {
    hide Taken, NewOperand, Gap, LeBytes, LeValue;
    Pow256Values();
  }

  lemma ScanOnce(dir: Direction, at: nat, w: Window, u: seq<byte>)
    ensures |u| <= 4 ==> Scan(dir, at, w, u) == u
    ensures |u| > 4 && Converts(w, u) ==>
              LeValue(u[1..5]) < 0x1_0000_0000
              && Scan(dir, at, w, u)
                 == [u[0]] + LeBytes(Operand(dir, w, LeValue(u[1..5]), at + 5), 4) + Scan(dir, at + 5, 0, u[5..])
    ensures |u| > 4 && !Converts(w, u) ==>
              Scan(dir, at, w, u) == [u[0]] + Scan(dir, at + 1, Slide(w, IsOpcode(u[0])), u[1..])
  {
    hide Converts, Operand, LeBytes, LeValue, Slide;
    Pow256Values();
  }

  lemma NoMask(i: nat)
    ensures Masks(0, {}, i)
  {
  }

  lemma SimpleWindow(w: Window, s: seq<byte>)
    requires |s| > 4 && Converts(w, s)
    ensures w == 0 || w == 1 || w == 2 || w == 4
  {
  }

  /// The converter of src/xz.rs and its mirror take exactly those opcodes, and make exactly
  /// those operands of theirs.
  lemma ConvertsAsDescribed(dir: Direction, start: u32, s: seq<byte>)
    ensures X86(dir, start, s) == From(dir, start, s, 0, {})
  {
    NoMask(0);
    assert s[0..] == s;
    ScanFrom(dir, start, s, 0, {}, 0);
  }

  // ----- what that comes to -----

  /// One CALL or JMP: its operand becomes relative, when its top byte is a sign extension.
  lemma OneInstruction(start: u32, op: byte, word: u32)
    requires CallOrJump(op)
    ensures var s := [op] + LeBytes(word, 4);
            X86(Decode, start, s)
            == if Extreme(word / 0x100_0000) then [op] + LeBytes(Extended((word - start - 5) % 0x1_0000_0000), 4) else s
  {
    hide LeBytes, LeValue, Extended;
    var s := [op] + LeBytes(word, 4);
    Pow256Values();
    LeValueOfBytes(word, 4);
    TopByte(word);
    assert s[1..5] == LeBytes(word, 4) && s[4] == LeBytes(word, 4)[3];
    assert Near({}, 0) == {};
    ConvertsAsDescribed(Decode, start, s);
    if Extreme(word / 0x100_0000) {
      assert From(Decode, start, s, 5, {}) == [];
    } else {
      var left := From(Decode, start, s, 1, {0});
      assert left == s[1..] && [op] + s[1..] == s;
    }
  }

  lemma TopByte(word: u32)
    ensures LeBytes(word, 4)[3] == word / 0x100_0000
  {
    Pow256Values();
    LeValueOfBytes(word, 4);
    LastByte(LeBytes(word, 4));
  }

  /// Bytes without either opcode stay as they are.
  lemma {:induction false} NoInstructions(dir: Direction, start: u32, s: seq<byte>)
    requires forall k :: 0 <= k && k + 4 < |s| ==> !CallOrJump(s[k])
    ensures X86(dir, start, s) == s
  {
    ConvertsAsDescribed(dir, start, s);
    Untouched(dir, start, s, 0);
    assert s[0..] == s;
  }

  lemma {:induction false} Untouched(dir: Direction, start: nat, s: seq<byte>, i: nat)
    requires i <= |s| && forall k :: 0 <= k && k + 4 < |s| ==> !CallOrJump(s[k])
    ensures From(dir, start, s, i, {}) == s[i..]
    decreases |s| - i
  {
    if i + 4 < |s| {
      Untouched(dir, start, s, i + 1);
      assert s[i..] == [s[i]] + s[i + 1..];
    }
  }
}
