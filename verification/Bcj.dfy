/// The branch converters an xz filter id can name, and the theorem they share.
module Bcj {
  import opened Bytes
  import opened BcjX86
  import F = BcjFields
  import I = BcjIa64

  datatype Bcj = X86 | PowerPc | Ia64 | Arm | ArmThumb | Sparc

  /// The converter a filter id names; ids of filters the reader refuses give none.
  function FromId(id: nat): Option<Bcj> {
    match id
    case 0x04 => Some(X86)
    case 0x05 => Some(PowerPc)
    case 0x06 => Some(Ia64)
    case 0x07 => Some(Arm)
    case 0x08 => Some(ArmThumb)
    case 0x09 => Some(Sparc)
    case _ => None
  }

  function ToId(kind: Bcj): (id: nat)
    ensures FromId(id) == Some(kind)
  {
    match kind
    case X86 => 0x04
    case PowerPc => 0x05
    case Ia64 => 0x06
    case Arm => 0x07
    case ArmThumb => 0x08
    case Sparc => 0x09
  }

  /// A whole buffer converted, from stream position `start`.
  function Convert(kind: Bcj, dir: Direction, start: u32, s: seq<byte>): (t: seq<byte>)
    ensures |t| == |s|
  {
    match kind
    case X86 => BcjX86.X86(dir, start, s)
    case PowerPc => F.Scan(F.PowerPc, dir, start, s)
    case Ia64 => I.Scan(dir, start, s)
    case Arm => F.Scan(F.Arm, dir, start, s)
    case ArmThumb => F.Scan(F.ArmThumb, dir, start, s)
    case Sparc => F.Scan(F.Sparc, dir, start, s)
  }

  /// The alignment section 5.3.2 of The .xz File Format gives the filter.
  predicate Aligned(kind: Bcj, start: u32) {
    match kind
    case X86 => true
    case Ia64 => start % 16 == 0
    case ArmThumb => start % 2 == 0
    case _ => start % 4 == 0
  }

  /// The reader's converter undoes its mirror, and the mirror undoes it, on every buffer
  /// exactly when the start offset is a multiple of the filter's alignment. The reader
  /// accepts any start offset; on the others both directions fail.
  lemma InverseExactlyWhenAligned(kind: Bcj, dir: Direction, start: u32)
    ensures Aligned(kind, start) <==> forall s :: Convert(kind, dir.Other(), start, Convert(kind, dir, start, s)) == s
  {
    if Aligned(kind, start) {
      forall s: seq<byte> ensures Convert(kind, dir.Other(), start, Convert(kind, dir, start, s)) == s {
        ConvertBack(kind, dir, start, s);
      }
    } else {
      var s := MissedBuffer(kind, dir, start);
    }
  }

  lemma ConvertBack(kind: Bcj, dir: Direction, start: u32, s: seq<byte>)
    requires Aligned(kind, start)
    ensures Convert(kind, dir.Other(), start, Convert(kind, dir, start, s)) == s
  {
    match kind
    case X86 => BcjX86.X86Inverse(dir, start, s);
    case PowerPc => F.ScanInverse(F.PowerPc, dir, start, s);
    case Ia64 => I.ScanInverse(dir, start, s);
    case Arm => F.ScanInverse(F.Arm, dir, start, s);
    case ArmThumb => F.ScanInverse(F.ArmThumb, dir, start, s);
    case Sparc => F.ScanInverse(F.Sparc, dir, start, s);
  }

  lemma MissedBuffer(kind: Bcj, dir: Direction, start: u32) returns (s: seq<byte>)
    requires !Aligned(kind, start)
    ensures Convert(kind, dir.Other(), start, Convert(kind, dir, start, s)) != s
  {
    if kind == Ia64 {
      s := I.ONE_BRANCH;
      I.MisalignedBreaks(dir, start);
    } else {
      var k :=
        if kind == PowerPc then F.PowerPc
        else if kind == Arm then F.Arm
        else if kind == Sparc then F.Sparc
        else F.ArmThumb;
      s := F.WithField(k, 0);
      F.FieldOfWithField(k, 0);
      F.MisalignedBreaks(k, dir, start, s);
    }
  }

  /// Undoes the conversion of a whole block in place.
  method DecodeInPlace(kind: Bcj, start: u32, buf: array<byte>)
    requires buf.Length < MAX_SLICE
    modifies buf
    ensures buf[..] == Convert(kind, Decode, start, old(buf[..]))
  {
    match kind {
      case X86 => BcjX86.X86InPlace(start, buf);
      case PowerPc => F.FieldsInPlace(F.PowerPc, start, buf);
      case Ia64 => I.Ia64InPlace(start, buf);
      case Arm => F.FieldsInPlace(F.Arm, start, buf);
      case ArmThumb => F.FieldsInPlace(F.ArmThumb, start, buf);
      case Sparc => F.FieldsInPlace(F.Sparc, start, buf);
    }
  }
}
