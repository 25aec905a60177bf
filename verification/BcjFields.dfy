/// The branch converters of src/xz.rs that rewrite one displacement field per
/// instruction (PowerPC, ARM, ARM-Thumb, SPARC), and the mirrors they undo.
///
/// Each recognises an instruction in four bytes, reads an address field out of it, moves
/// the field by the instruction's position and writes it back. The four differ in where
/// the field sits, in its scale, and in the step over bytes that hold no branch.
module BcjFields {
  import opened Bytes
  import opened Modular
  import opened BcjX86

  datatype Kind = PowerPc | Arm | ArmThumb | Sparc

  /// The source's shift of the field before the position is subtracted, as a factor.
  function Scale(kind: Kind): nat { if kind == ArmThumb then 2 else 4 }

  /// How far past the instruction the processor's own position counts.
  function Bias(kind: Kind): nat {
    match kind
    case PowerPc => 0
    case Arm => 8
    case ArmThumb => 4
    case Sparc => 0
  }

  /// One past the largest field.
  function Modulus(kind: Kind): nat {
    match kind
    case PowerPc => 0x100_0000
    case Arm => 0x100_0000
    case ArmThumb => 0x40_0000
    case Sparc => 0x80_0000
  }

  /// The step over four bytes that hold no branch.
  function Stride(kind: Kind): nat { if kind == ArmThumb then 2 else 4 }

  /// The stream positions the format lets an instruction start at.
  predicate Aligned(kind: Kind, at: nat) { if kind == ArmThumb then at % 2 == 0 else at % 4 == 0 }

  function BigEndian(b: seq<byte>): u32
    requires |b| == 4
  {
    0x100_0000 * b[0] as int + 0x1_0000 * b[1] as int + 0x100 * b[2] as int + b[3] as int
  }

  function BigEndianBytes(v: u32): seq<byte> {
    [v / 0x100_0000, v / 0x1_0000 % 0x100, v / 0x100 % 0x100, v % 0x100]
  }

  predicate Matches(kind: Kind, b: seq<byte>)
    requires |b| == 4
  {
    match kind
    case PowerPc => BigEndian(b) / 0x400_0000 == 0x12 && BigEndian(b) % 4 == 1
    case Arm => b[3] == 0xEB
    case ArmThumb => b[1] / 8 == 0x1E && b[3] / 8 == 0x1F
    case Sparc => BigEndian(b) / 0x40_0000 == 0x100 || BigEndian(b) / 0x40_0000 == 0x1FF
  }

  /// The field of a matching instruction.
  function Field(kind: Kind, b: seq<byte>): (a: nat)
    requires |b| == 4
    ensures a < Modulus(kind)
  {
    match kind
    case PowerPc => BigEndian(b) % 0x400_0000 / 4
    case Arm => b[0] as int + 0x100 * b[1] as int + 0x1_0000 * b[2] as int
    case ArmThumb => 0x8_0000 * (b[1] % 8) as int + 0x800 * b[0] as int + 0x100 * (b[3] % 8) as int + b[2] as int
    case Sparc => BigEndian(b) % 0x80_0000
  }

  /// A matching instruction with the given field.
  function WithField(kind: Kind, a: nat): (b: seq<byte>)
    requires a < Modulus(kind)
    ensures |b| == 4
  {
    match kind
    case PowerPc => BigEndianBytes(0x4800_0001 + 4 * a)
    case Arm => [a % 0x100, a / 0x100 % 0x100, a / 0x1_0000, 0xEB]
    case ArmThumb => [a / 0x800 % 0x100, 0xF0 + a / 0x8_0000, a % 0x100, 0xF8 + a / 0x100 % 8]
    case Sparc => BigEndianBytes(if a < 0x40_0000 then 0x4000_0000 + a else 0x7F80_0000 + a)
  }

  /// The wrapping arithmetic of the conversion: scale up, move, scale down.
  function Displace(dir: Direction, a: int, scale: nat, position: int): int
    requires scale > 0
  {
    (if dir == Decode then scale * a - position else scale * a + position) % WORD / scale
  }

  function ConvertWord(kind: Kind, dir: Direction, at: nat, b: seq<byte>): (t: seq<byte>)
    requires |b| == 4 && Matches(kind, b)
    ensures |t| == 4 && Matches(kind, t)
  {
    var moved := Displace(dir, Field(kind, b), Scale(kind), at + Bias(kind)) % Modulus(kind);
    FieldOfWithField(kind, moved);
    WithField(kind, moved)
  }

  /// What the converter makes of the bytes from stream position `at` on.
  function Scan(kind: Kind, dir: Direction, at: nat, s: seq<byte>): (t: seq<byte>)
    ensures |t| == |s|
    decreases |s|
  {
    if |s| < 4 then s
    else if Matches(kind, s[..4]) then ConvertWord(kind, dir, at, s[..4]) + Scan(kind, dir, at + 4, s[4..])
    else s[..Stride(kind)] + Scan(kind, dir, at + Stride(kind), s[Stride(kind)..])
  }

  // ----- fields -----

  lemma BigEndianInverse(v: u32)
    ensures BigEndian(BigEndianBytes(v)) == v
  {
    var q := v / 0x100;
    DivUnique(v, 0x1_0000, q / 0x100, q % 0x100 * 0x100 + v % 0x100);
    DivUnique(v, 0x100_0000, q / 0x100 / 0x100, q / 0x100 % 0x100 * 0x1_0000 + q % 0x100 * 0x100 + v % 0x100);
  }

  lemma BigEndianBytesInverse(b: seq<byte>)
    requires |b| == 4
    ensures BigEndianBytes(BigEndian(b)) == b
  {
    var b0: int, b1: int, b2: int, b3: int := b[0], b[1], b[2], b[3];
    var v: int := BigEndian(b);
    DivUnique(v, 0x100_0000, b0, 0x1_0000 * b1 + 0x100 * b2 + b3);
    DivUnique(v, 0x1_0000, 0x100 * b0 + b1, 0x100 * b2 + b3);
    DivUnique(v, 0x100, 0x1_0000 * b0 + 0x100 * b1 + b2, b3);
    DivUnique(0x100 * b0 + b1, 0x100, b0, b1);
    DivUnique(0x1_0000 * b0 + 0x100 * b1 + b2, 0x100, 0x100 * b0 + b1, b2);
  }

  lemma ArmFields(a: nat, b: seq<byte>)
    requires |b| == 4
    ensures a < Modulus(Arm) ==> Field(Arm, WithField(Arm, a)) == a
    ensures Matches(Arm, b) ==> WithField(Arm, Field(Arm, b)) == b
  {
    var b0: int, b1: int, b2: int := b[0], b[1], b[2];
    var v := Field(Arm, b);
    DivUnique(v, 0x1_0000, b2, 0x100 * b1 + b0);
    DivUnique(v, 0x100, 0x100 * b2 + b1, b0);
    DivUnique(0x100 * b2 + b1, 0x100, b2, b1);
    var q := a / 0x100;
    DivUnique(a, 0x1_0000, q / 0x100, q % 0x100 * 0x100 + a % 0x100);
  }

  lemma ThumbWrites(a: nat)
    requires a < Modulus(ArmThumb)
    ensures Matches(ArmThumb, WithField(ArmThumb, a)) && Field(ArmThumb, WithField(ArmThumb, a)) == a
  {
    var q, r := a / 0x100, a / 0x100 / 8;
    DivUnique(a, 0x800, r, q % 8 * 0x100 + a % 0x100);
    DivUnique(a, 0x8_0000, r / 0x100, r % 0x100 * 0x800 + q % 8 * 0x100 + a % 0x100);
  }

  lemma ThumbReads(b: seq<byte>)
    requires |b| == 4 && Matches(ArmThumb, b)
    ensures WithField(ArmThumb, Field(ArmThumb, b)) == b
  {
    var b0: int, b1: int, b2: int, b3: int := b[0], b[1] % 8, b[2], b[3] % 8;
    var v := Field(ArmThumb, b);
    DivUnique(v, 0x8_0000, b1, 0x800 * b0 + 0x100 * b3 + b2);
    DivUnique(v, 0x800, 0x100 * b1 + b0, 0x100 * b3 + b2);
    DivUnique(v, 0x100, 0x800 * b1 + 8 * b0 + b3, b2);
    DivUnique(0x100 * b1 + b0, 0x100, b1, b0);
    DivUnique(0x800 * b1 + 8 * b0 + b3, 8, 0x100 * b1 + b0, b3);
  }

  lemma PowerPcReads(b: seq<byte>)
    requires |b| == 4 && Matches(PowerPc, b)
    ensures WithField(PowerPc, Field(PowerPc, b)) == b
  {
    var v: int := BigEndian(b);
    assert v == 0x4800_0001 + 4 * (v % 0x400_0000 / 4) by {
      DivUnique(v % 0x400_0000, 4, v % 0x400_0000 / 4, 1);
    }
    BigEndianBytesInverse(b);
  }

  lemma SparcReads(b: seq<byte>)
    requires |b| == 4 && Matches(Sparc, b)
    ensures WithField(Sparc, Field(Sparc, b)) == b
  {
    var v: int := BigEndian(b);
    var low := v % 0x40_0000;
    if v / 0x40_0000 == 0x100 {
      DivUnique(v, 0x80_0000, 0x80, low);
    } else {
      DivUnique(v, 0x80_0000, 0xFF, 0x40_0000 + low);
    }
    BigEndianBytesInverse(b);
  }

  lemma PowerPcWrites(a: nat)
    requires a < Modulus(PowerPc)
    ensures Matches(PowerPc, WithField(PowerPc, a)) && Field(PowerPc, WithField(PowerPc, a)) == a
  {
    var v := 0x4800_0001 + 4 * a;
    BigEndianInverse(v);
    DivUnique(v, 0x400_0000, 0x12, 4 * a + 1);
    DivUnique(v, 4, 0x1200_0000 + a, 1);
    DivUnique(4 * a + 1, 4, a, 1);
  }

  lemma SparcWrites(a: nat)
    requires a < Modulus(Sparc)
    ensures Matches(Sparc, WithField(Sparc, a)) && Field(Sparc, WithField(Sparc, a)) == a
  {
    if a < 0x40_0000 {
      BigEndianInverse(0x4000_0000 + a);
      DivUnique(0x4000_0000 + a, 0x40_0000, 0x100, a);
      DivUnique(0x4000_0000 + a, 0x80_0000, 0x80, a);
    } else {
      BigEndianInverse(0x7F80_0000 + a);
      DivUnique(0x7F80_0000 + a, 0x40_0000, 0x1FF, a - 0x40_0000);
      DivUnique(0x7F80_0000 + a, 0x80_0000, 0xFF, a);
    }
  }

  /// Writing a field keeps the instruction recognisable and can be read back.
  lemma FieldOfWithField(kind: Kind, a: nat)
    requires a < Modulus(kind)
    ensures Matches(kind, WithField(kind, a)) && Field(kind, WithField(kind, a)) == a
  {
    match kind
    case PowerPc => PowerPcWrites(a);
    case Arm => ArmFields(a, WithField(Arm, a));
    case ArmThumb => ThumbWrites(a);
    case Sparc => SparcWrites(a);
  }

  /// A matching instruction is its field written back: nothing else varies.
  lemma WithFieldOfField(kind: Kind, b: seq<byte>)
    requires |b| == 4 && Matches(kind, b)
    ensures WithField(kind, Field(kind, b)) == b
  {
    match kind
    case PowerPc => PowerPcReads(b);
    case Arm => ArmFields(0, b);
    case ArmThumb => ThumbReads(b);
    case Sparc => SparcReads(b);
  }

  // ----- moving a field -----

  /// By how many field units a position moves a field; the shift back down rounds it
  /// towards minus infinity.
  function Steps(dir: Direction, position: int, scale: nat): int
    requires scale > 0
  {
    if dir == Decode then (-position) / scale else position / scale
  }

  lemma DisplaceMoves(dir: Direction, a: int, c: nat, m: nat, e: nat, position: int)
    requires c > 0 && m > 0 && e > 0 && c * (m * e) == WORD
    ensures Displace(dir, a, c, position) % m == (a + Steps(dir, position, c)) % m
  {
    var p := if dir == Decode then -position else position;
    ScaledMove(a, p, c, m * e);
    ModMod(a + p / c, m, e);
  }

  lemma StepsCancel(position: nat, scale: nat)
    requires scale > 0
    ensures Steps(Decode, position, scale) + Steps(Encode, position, scale) == if position % scale == 0 then 0 else -1
  {
    var k: int, r: int := position / scale, position % scale;
    var p: int := position;
    if r == 0 {
      Distribute(scale, 0, k);
      DivUnique(-p, scale, -k, 0);
    } else {
      assert scale * (-k - 1) == -(scale * k) - scale;
      DivUnique(-p, scale, -k - 1, scale - r);
    }
  }

  /// Moving a field one way and then the other gives it back on aligned positions, and
  /// one unit short of it on any other.
  lemma MovedBack(dir: Direction, a: nat, c: nat, m: nat, e: nat, position: nat)
    requires c > 0 && a < m && e > 0 && c * (m * e) == WORD
    ensures Displace(dir.Other(), Displace(dir, a, c, position) % m, c, position) % m
            == if position % c == 0 then a else if a == 0 then m - 1 else a - 1
  {
    var there := a + Steps(dir, position, c);
    DisplaceMoves(dir, a, c, m, e, position);
    DisplaceMoves(dir.Other(), there % m, c, m, e, position);
    ModSub(there, -Steps(dir.Other(), position, c), m);
    StepsCancel(position, c);
    DivUnique(a, m, 0, a);
    DivUnique(a - 1, m, if a == 0 then -1 else 0, if a == 0 then m - 1 else a - 1);
  }

  lemma BiasAligned(kind: Kind, at: nat)
    ensures (at + Bias(kind)) % Scale(kind) == 0 <==> Aligned(kind, at)
  {
    match kind
    case Arm => ModEq(at + 8, at, 4, 2);
    case ArmThumb => ModEq(at + 4, at, 2, 2);
    case _ =>
  }

  /// A field of one converted instruction is there for the mirror to move back.
  lemma WordThereAndBack(kind: Kind, dir: Direction, at: nat, b: seq<byte>)
    requires |b| == 4 && Matches(kind, b)
    ensures ConvertWord(kind, dir.Other(), at, ConvertWord(kind, dir, at, b))
            == if Aligned(kind, at) then b
               else WithField(kind, if Field(kind, b) == 0 then Modulus(kind) - 1 else Field(kind, b) - 1)
  {
    hide Matches, WithField, Field, Displace;
    var p := at + Bias(kind);
    BiasAligned(kind, at);
    FieldOfWithField(kind, Displace(dir, Field(kind, b), Scale(kind), p) % Modulus(kind));
    var m, c := Modulus(kind), Scale(kind);
    var e := if kind == Sparc then 128 else if kind == ArmThumb then 512 else 64;
    assert c * (m * e) == WORD;
    MovedBack(dir, Field(kind, b), c, m, e, p);
    WithFieldOfField(kind, b);
  }

  // ----- the scan -----

  lemma ScanSteps(kind: Kind, dir: Direction, at: nat, s: seq<byte>)
    requires |s| >= 4
    ensures var t := Scan(kind, dir, at, s);
            if Matches(kind, s[..4]) then
              t[..4] == ConvertWord(kind, dir, at, s[..4]) && t[4..] == Scan(kind, dir, at + 4, s[4..])
            else
              && t[..Stride(kind)] == s[..Stride(kind)]
              && t[Stride(kind)..] == Scan(kind, dir, at + Stride(kind), s[Stride(kind)..])
  {
  }

  /// Thumb steps two bytes at a time, so an instruction's second half may be the first
  /// half of another; the opcode bits that decide are never rewritten.
  lemma ThumbOpcodeKept(dir: Direction, at: nat, s: seq<byte>)
    requires |s| >= 2
    ensures Scan(ArmThumb, dir, at, s)[1] / 8 == s[1] / 8
  {
    if |s| >= 4 {
      ScanSteps(ArmThumb, dir, at, s);
      var t := Scan(ArmThumb, dir, at, s);
      if Matches(ArmThumb, s[..4]) {
        WordThereAndBack(ArmThumb, dir, at, s[..4]);
        assert t[1] == t[..4][1];
      } else {
        assert t[1] == t[..2][1];
      }
    }
  }

  lemma SameDecision(kind: Kind, dir: Direction, at: nat, s: seq<byte>)
    requires |s| >= 4
    ensures Matches(kind, Scan(kind, dir, at, s)[..4]) == Matches(kind, s[..4])
  {
    ScanSteps(kind, dir, at, s);
    var t := Scan(kind, dir, at, s);
    if Matches(kind, s[..4]) {
      WordThereAndBack(kind, dir, at, s[..4]);
    } else if kind == ArmThumb {
      ThumbOpcodeKept(dir, at + 2, s[2..]);
      assert t[1] == t[..2][1] == s[1] && t[3] == t[2..][1] && s[3] == s[2..][1];
    }
  }

  lemma StaysAligned(kind: Kind, at: nat, n: nat)
    requires Aligned(kind, at) && (n == 4 || n == Stride(kind))
    ensures Aligned(kind, at + n)
  {
    if kind == ArmThumb {
      ModEq(at + n, at, 2, n / 2);
    } else {
      ModEq(at + n, at, 4, n / 4);
    }
  }

  lemma {:induction false} ScanInverse(kind: Kind, dir: Direction, at: nat, s: seq<byte>)
    requires Aligned(kind, at)
    ensures Scan(kind, dir.Other(), at, Scan(kind, dir, at, s)) == s
    decreases |s|
  {
    if |s| >= 4 {
      var t := Scan(kind, dir, at, s);
      var u := Scan(kind, dir.Other(), at, t);
      SameDecision(kind, dir, at, s);
      ScanSteps(kind, dir, at, s);
      ScanSteps(kind, dir.Other(), at, t);
      var n := if Matches(kind, s[..4]) then 4 else Stride(kind);
      if Matches(kind, s[..4]) {
        WordThereAndBack(kind, dir, at, s[..4]);
      }
      StaysAligned(kind, at, n);
      ScanInverse(kind, dir, at + n, s[n..]);
      FromParts(s, u, n);
    }
  }

  lemma OneWord(kind: Kind, dir: Direction, at: nat, b: seq<byte>)
    requires |b| == 4 && Matches(kind, b)
    ensures Scan(kind, dir, at, b) == ConvertWord(kind, dir, at, b)
  {
    assert b[..4] == b;
  }

  lemma WordMissed(kind: Kind, dir: Direction, at: nat, b: seq<byte>)
    requires |b| == 4 && Matches(kind, b) && !Aligned(kind, at)
    ensures ConvertWord(kind, dir.Other(), at, ConvertWord(kind, dir, at, b)) != b
  {
    var a := Field(kind, b);
    WordThereAndBack(kind, dir, at, b);
    FieldOfWithField(kind, if a == 0 then Modulus(kind) - 1 else a - 1);
  }

  /// On a misaligned start the mirror misses every single instruction.
  lemma MisalignedBreaks(kind: Kind, dir: Direction, start: u32, b: seq<byte>)
    requires |b| == 4 && Matches(kind, b) && !Aligned(kind, start)
    ensures Scan(kind, dir.Other(), start, Scan(kind, dir, start, b)) != b
  {
    WordThereAndBack(kind, dir, start, b);
    OneWord(kind, dir, start, b);
    OneWord(kind, dir.Other(), start, ConvertWord(kind, dir, start, b));
    WordMissed(kind, dir, start, b);
  }

  // ----- the loops as the source runs them -----

  ghost function Outcome(kind: Kind, start: u32, i: nat, s: seq<byte>): seq<byte>
    requires i <= |s|
  {
    s[..i] + Scan(kind, Decode, start + i, s[i..])
  }

  /// Reducing the position first changes no field.
  lemma WrappedPosition(a: int, scale: nat, position: nat)
    requires scale > 0
    ensures Displace(Decode, a, scale, position % WORD) == Displace(Decode, a, scale, position)
  {
    ModEq(scale * a - position % WORD, scale * a - position, WORD, position / WORD);
  }

  lemma StepOver(kind: Kind, start: u32, i: nat, s: seq<byte>)
    requires i + 4 <= |s| && !Matches(kind, s[i..i + 4])
    ensures Outcome(kind, start, i, s) == Outcome(kind, start, i + Stride(kind), s)
  {
    hide Matches, ConvertWord;
    var n := Stride(kind);
    Cut(s, i, n);
    Cut(s, i, 4);
    ScanSteps(kind, Decode, start + i, s[i..]);
    Splice(s, i, n, Scan(kind, Decode, start + i, s[i..]), s);
  }

  lemma StepConverting(kind: Kind, start: u32, i: nat, s: seq<byte>, t: seq<byte>)
    requires i + 4 <= |s| && Matches(kind, s[i..i + 4])
    requires t == s[..i] + ConvertWord(kind, Decode, start + i, s[i..i + 4]) + s[i + 4..]
    ensures Outcome(kind, start, i, s) == Outcome(kind, start, i + 4, t)
  {
    var u := Scan(kind, Decode, start + i, s[i..]);
    assert s[i..][..4] == s[i..i + 4] && s[i..][4..] == s[i + 4..] == t[i + 4..];
    ScanSteps(kind, Decode, start + i, s[i..]);
    Splice(s, i, 4, u, t);
  }

  /// Rewrites the instruction at i.
  method ConvertAt(kind: Kind, start: u32, buf: array<byte>, i: nat)
    requires i + 4 <= buf.Length && Matches(kind, buf[i..i + 4])
    modifies buf
    ensures Outcome(kind, start, i, old(buf[..])) == Outcome(kind, start, i + 4, buf[..])
  {
    ghost var before := buf[..];
    var word := buf[i..i + 4];
    assert word == before[i..i + 4];
    var position := ((start + i % WORD) % WORD + Bias(kind)) % WORD;
    assert position == (start + i + Bias(kind)) % WORD by {
      ModSub(start + i, -(Bias(kind) as int), WORD);
      ModSub(i, -(start as int), WORD);
    }
    WrappedPosition(Field(kind, word), Scale(kind), start + i + Bias(kind));
    var moved := Displace(Decode, Field(kind, word), Scale(kind), position) % Modulus(kind);
    var bytes := WithField(kind, moved);
    forall k | i <= k < i + 4 {
      buf[k] := bytes[k - i];
    }
    assert buf[..] == before[..i] + bytes + before[i + 4..];
    StepConverting(kind, start, i, before, buf[..]);
  }

  lemma ScanEnds(kind: Kind, start: u32, s: seq<byte>, i: nat)
    requires i <= |s| < i + 4
    ensures Outcome(kind, start, i, s) == s
  {
  }

  lemma ScanBegins(kind: Kind, start: u32, s: seq<byte>)
    ensures Outcome(kind, start, 0, s) == Scan(kind, Decode, start, s)
  {
    assert s[0..] == s;
  }

  /// The four loops of the source, here one loop over the kind: from the front, in place, a
  /// converted instruction is stepped over whole. They differ in which instructions match,
  /// in the field and in the stride; those three that walk whole words stop at the last word
  /// that fits, as `len & !3` does. SPARC shifts the whole instruction left by two and back
  /// and then keeps 23 bits of it; taking those 23 bits first gives the same, since neither
  /// the subtraction nor the shift carries anything down into them.
  method FieldsInPlace(kind: Kind, start: u32, buf: array<byte>)
    modifies buf
    ensures buf[..] == Scan(kind, Decode, start, old(buf[..]))
  {
    var i := 0;
    ghost var owed := Outcome(kind, start, 0, buf[..]);
    ScanBegins(kind, start, buf[..]);
    while i + 4 <= buf.Length
      invariant 0 <= i <= buf.Length
      invariant Outcome(kind, start, i, buf[..]) == owed
    {
      if Matches(kind, buf[i..i + 4]) {
        ConvertAt(kind, start, buf, i);
        i := i + 4;
      } else {
        assert buf[..][i..i + 4] == buf[i..i + 4];
        StepOver(kind, start, i, buf[..]);
        i := i + Stride(kind);
      }
    }
    ScanEnds(kind, start, buf[..], i);
  }
}
