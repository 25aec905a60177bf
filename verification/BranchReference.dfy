/// What the ARM, ARM-Thumb, PowerPC, SPARC and IA-64 converters do: which bytes are a branch
/// with a given field, where that field points, and what it becomes. Section 5.3.2 of The
/// .xz File Format gives the filters; the encodings are those of src/xz.rs:452-559.
module BranchReference {
  import opened Bytes
  import opened BcjX86
  import opened BcjFields
  import I = BcjIa64
  import Modular

  // ----- one instruction -----

  /// How many values a branch's field has.
  function Fields(kind: Kind): (n: nat)
    ensures n > 0
  {
    match kind
    case PowerPc => 0x100_0000
    case Arm => 0x100_0000
    case ArmThumb => 0x40_0000
    case Sparc => 0x80_0000
  }

  /// The bytes of the branch with field f: `bl` for PowerPC, ARM and Thumb (a pair of half
  /// words), `call` for SPARC with its 30-bit displacement sign-extended from 23.
  function Branch(kind: Kind, f: nat): (b: seq<byte>)
    requires f < Fields(kind)
    ensures |b| == 4
  {
    match kind
    case PowerPc => [0x48 + f / 0x40_0000, f / 0x4000 % 0x100, f / 0x40 % 0x100, f % 0x40 * 4 + 1]
    case Arm => [f % 0x100, f / 0x100 % 0x100, f / 0x1_0000, 0xEB]
    case ArmThumb => [f / 0x800 % 0x100, 0xF0 + f / 0x8_0000, f % 0x100, 0xF8 + f / 0x100 % 8]
    case Sparc =>
      if f < 0x40_0000 then [0x40, f / 0x1_0000, f / 0x100 % 0x100, f % 0x100]
      else [0x7F, 0x80 + f / 0x1_0000, f / 0x100 % 0x100, f % 0x100]
  }

  /// The bytes a field counts in.
  function Unit(kind: Kind): nat { if kind == ArmThumb then 2 else 4 }

  /// How far behind the instruction the processor's position is.
  function Ahead(kind: Kind): nat { if kind == Arm then 8 else if kind == ArmThumb then 4 else 0 }

  /// The field moved by the instruction's position, in 32-bit arithmetic on bytes.
  function MovedField(kind: Kind, dir: Direction, f: nat, at: nat): (g: nat)
    ensures g < Fields(kind)
  {
    var here := at + Ahead(kind);
    var there := if dir == Decode then Unit(kind) * f - here else Unit(kind) * f + here;
    there % 0x1_0000_0000 / Unit(kind) % Fields(kind)
  }

  ghost predicate IsBranch(kind: Kind, s: seq<byte>, f: nat) {
    |s| >= 4 && f < Fields(kind) && s[..4] == Branch(kind, f)
  }

  /// The converted bytes: branches have their field moved and are stepped over, anything
  /// else is stepped over by an instruction, or by half of one in Thumb code.
  ghost function From(kind: Kind, dir: Direction, at: nat, s: seq<byte>): (t: seq<byte>)
    decreases |s|
  {
    if |s| < 4 then s
    else if f :| IsBranch(kind, s, f) then Branch(kind, MovedField(kind, dir, f, at)) + From(kind, dir, at + 4, s[4..])
    else if kind == ArmThumb then s[..2] + From(kind, dir, at + 2, s[2..])
    else s[..4] + From(kind, dir, at + 4, s[4..])
  }

  lemma BranchIsWithField(kind: Kind, f: nat)
    requires f < Fields(kind)
    ensures Branch(kind, f) == WithField(kind, f)
  {
    match kind
    case PowerPc => PowerPcBytes(f);
    case Arm =>
    case ArmThumb =>
    case Sparc => SparcBytes(f);
  }

  lemma PowerPcBytes(f: nat)
    requires f < 0x100_0000
    ensures BigEndianBytes(0x4800_0001 + 4 * f)
            == [0x48 + f / 0x40_0000, f / 0x4000 % 0x100, f / 0x40 % 0x100, f % 0x40 * 4 + 1]
  {
    var v := 0x4800_0001 + 4 * f;
    var a, b, c := f / 0x40, f / 0x40 / 0x100, f / 0x40 / 0x100 / 0x100;
    Modular.DivDiv(f, 0x40, 0x100);
    Modular.DivDiv(f, 0x4000, 0x100);
    Modular.DivUnique(v, 0x100, 0x48_0000 + a, f % 0x40 * 4 + 1);
    Modular.DivUnique(v, 0x1_0000, 0x4800 + b, a % 0x100 * 0x100 + f % 0x40 * 4 + 1);
    Modular.DivUnique(v, 0x100_0000, 0x48 + c, b % 0x100 * 0x1_0000 + a % 0x100 * 0x100 + f % 0x40 * 4 + 1);
    Modular.DivUnique(0x48_0000 + a, 0x100, 0x4800 + b, a % 0x100);
    Modular.DivUnique(0x4800 + b, 0x100, 0x48 + c, b % 0x100);
  }

  /// The four bytes of a word given as two halves.
  lemma HalvesBytes(high: u16, low: u16)
    ensures BigEndianBytes(0x1_0000 * high + low) == [high / 0x100, high % 0x100, low / 0x100, low % 0x100]
  {
    var v := 0x1_0000 * high + low;
    Modular.DivUnique(v, 0x1_0000, high, low);
    Modular.DivUnique(v, 0x100, 0x100 * high + low / 0x100, low % 0x100);
    Modular.DivUnique(v, 0x100_0000, high / 0x100, 0x1_0000 * (high % 0x100) + low);
    Modular.DivUnique(0x100 * high + low / 0x100, 0x100, high, low / 0x100);
  }

  lemma SparcBytes(f: nat)
    requires f < 0x80_0000
    ensures Branch(Sparc, f) == WithField(Sparc, f)
  {
    hide BigEndianBytes;
    var top, low := f / 0x1_0000, f % 0x1_0000;
    assert f == 0x1_0000 * top + low;
    Modular.DivDiv(f, 0x100, 0x100);
    Modular.DivUnique(f, 0x100, 0x100 * top + low / 0x100, low % 0x100);
    HalvesBytes(if f < 0x40_0000 then 0x4000 + top else 0x7F80 + top, low);
  }

  /// The source's masks accept exactly those bytes, and read that field off them.
  lemma MatchesExactly(kind: Kind, s: seq<byte>)
    requires |s| >= 4
    ensures Matches(kind, s[..4]) <==> exists f :: IsBranch(kind, s, f)
    ensures forall f :: IsBranch(kind, s, f) ==> f == Field(kind, s[..4])
  {
    hide Matches, WithField, Field, Branch;
    forall f | IsBranch(kind, s, f) ensures Matches(kind, s[..4]) && f == Field(kind, s[..4]) {
      BranchIsWithField(kind, f);
      FieldOfWithField(kind, f);
    }
    if Matches(kind, s[..4]) {
      var f := Field(kind, s[..4]);
      WithFieldOfField(kind, s[..4]);
      BranchIsWithField(kind, f);
      assert IsBranch(kind, s, f);
    }
  }

  lemma SameMove(kind: Kind, dir: Direction, f: nat, at: nat)
    requires f < Fields(kind)
    ensures MovedField(kind, dir, f, at) == Displace(dir, f, Scale(kind), at + Bias(kind)) % Modulus(kind)
  {
  }

  /// The converters of src/xz.rs and their mirrors do exactly that.
  lemma {:induction false} ConvertsAsDescribed(kind: Kind, dir: Direction, at: nat, s: seq<byte>)
    ensures BcjFields.Scan(kind, dir, at, s) == From(kind, dir, at, s)
    decreases |s|
  {
    hide Matches, WithField, Field, Branch, MovedField, Displace, IsBranch;
    if |s| >= 4 {
      MatchesExactly(kind, s);
      if Matches(kind, s[..4]) {
        var f := Field(kind, s[..4]);
        SameMove(kind, dir, f, at);
        BranchIsWithField(kind, MovedField(kind, dir, f, at));
        ConvertsAsDescribed(kind, dir, at + 4, s[4..]);
      } else {
        ConvertsAsDescribed(kind, dir, at + Stride(kind), s[Stride(kind)..]);
      }
    }
  }

  /// On whole units: a field t moved by h units, u bytes each, is that of t - h.
  lemma UnitsMove(t: int, h: int, u: nat, m: nat, e: nat)
    requires u > 0 && m > 0 && e > 0 && u * (m * e) == 0x1_0000_0000
    ensures Displace(Decode, t % m, u, u * h) % m == (t - h) % m
  {
    hide Displace, Steps;
    DisplaceMoves(Decode, t % m, u, m, e, u * h);
    StepsBack(h, u);
    Modular.ModSub(t, h, m);
  }

  lemma StepsBack(h: int, u: nat)
    requires u > 0
    ensures Steps(Decode, u * h, u) == -h
  {
    Modular.Distribute(u, 0, h);
    Modular.DivUnique(-(u * h), u, -h, 0);
  }

  lemma WholeUnits(kind: Kind, at: nat, target: nat)
    requires at % Unit(kind) == 0 && target % Unit(kind) == 0
    ensures var u, h := Unit(kind), (at + Ahead(kind)) / Unit(kind);
            at + Ahead(kind) == u * h && (target - at - Ahead(kind)) / u == target / u - h
  {
  }

  lemma FieldsPerWord(kind: Kind) returns (e: nat)
    ensures e > 0 && Unit(kind) * (Fields(kind) * e) == 0x1_0000_0000
  {
    e := if kind == Sparc then 0x80 else if kind == ArmThumb then 0x200 else 0x40;
  }

  /// A branch that held its target holds the way there: on aligned code, the field of an
  /// absolute target becomes that of the distance from the processor's position.
  lemma TargetBecomesDistance(kind: Kind, at: nat, target: nat)
    requires at % Unit(kind) == 0 && target % Unit(kind) == 0
    ensures MovedField(kind, Decode, target / Unit(kind) % Fields(kind), at)
            == ((target - at - Ahead(kind)) / Unit(kind)) % Fields(kind)
  {
    WholeUnits(kind, at, target);
    var e := FieldsPerWord(kind);
    SameTerms(kind);
    hide Displace, MovedField, Unit, Fields, Ahead, Scale, Modulus, Bias;
    var u, h, t := Unit(kind), (at + Ahead(kind)) / Unit(kind), target / Unit(kind);
    SameMove(kind, Decode, t % Fields(kind), at);
    UnitsMove(t, h, u, Fields(kind), e);
  }

  lemma SameTerms(kind: Kind)
    ensures Unit(kind) > 0 && Scale(kind) == Unit(kind) && Modulus(kind) == Fields(kind) && Bias(kind) == Ahead(kind)
  {
  }
}
