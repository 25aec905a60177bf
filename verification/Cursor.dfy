/// The metadata cursor of src/metablock.rs: one flat byte stream over a run of blocks.
module Cursor {
  import opened Bytes
  import opened Image
  import opened Metadata

  // ----- the stream a cursor stands for -----

  /// The bytes ahead, and the error that a read past them gives.
  datatype Tail = Tail(bytes: seq<byte>, stop: Error)

  /// No block at or past `end` belongs to the table; `why` is what asking for one gives.
  datatype Limit = Limit(end: nat, why: Error)

  /// Every block from `abs` on, concatenated, up to the first that cannot be pulled.
  function Ahead(img: Image, limit: Option<Limit>, abs: nat): (t: Tail)
    decreases if abs <= |img.dev| then |img.dev| - abs + 1 else 0
  {
    if limit.Some? && abs >= limit.value.end then Tail([], limit.value.why)
    else
      match Pull(img, abs)
      case Err(e) => Tail([], e)
      case Ok(p) =>
        if p.bytes == [] then Tail([], BadMetadata(EmptyBlock))
        else
          var t := Ahead(img, limit, p.next);
          Tail(p.bytes + t.bytes, t.stop)
  }

  function Prepend(bytes: seq<byte>, t: Tail): Tail { Tail(bytes + t.bytes, t.stop) }

  /// The stream of a cursor opened `inBlock` bytes into the block at `start`. The first
  /// block is not held to the limit and may be empty.
  function StreamAt(img: Image, limit: Option<Limit>, start: nat, inBlock: nat): (r: Result<Tail, Error>) {
    match Pull(img, start)
    case Err(e) => Err(e)
    case Ok(p) =>
      if inBlock > |p.bytes| then Err(BadMetadata(ReferencePastBlock))
      else Ok(Prepend(p.bytes[inBlock..], Ahead(img, limit, p.next)))
  }

  /// Reading n bytes of a stream: they come off its front, or nothing does.
  datatype Taken<+T> = Taken(r: Result<T, Error>, rest: Tail)

  function Take(t: Tail, n: nat): (k: Taken<seq<byte>>)
    ensures k.r.Ok? ==> |k.r.value| == n && t == Prepend(k.r.value, k.rest)
    ensures k.r.Err? ==> k.rest == t && |t.bytes| < n
  {
    if n <= |t.bytes| then Taken(Ok(t.bytes[..n]), Tail(t.bytes[n..], t.stop)) else Taken(Err(t.stop), t)
  }

  /// A little-endian word off the front.
  function TakeWord(t: Tail, n: nat): (k: Taken<nat>)
    ensures k.r.Ok? ==> k.r.value < Pow256(n)
  {
    var k := Take(t, n);
    Taken(match k.r case Ok(b) => Ok(LeValue(b)) case Err(e) => Err(e), k.rest)
  }

  /// Bytes in front of a stream come off as they are.
  lemma TakeFront(bytes: seq<byte>, t: Tail)
    ensures Take(Prepend(bytes, t), |bytes|) == Taken(Ok(bytes), t)
  {
    assert (bytes + t.bytes)[..|bytes|] == bytes && (bytes + t.bytes)[|bytes|..] == t.bytes;
  }

  lemma WordFront(v: nat, n: nat, t: Tail)
    requires v < Pow256(n)
    ensures TakeWord(Prepend(LeBytes(v, n), t), n) == Taken(Ok(v), t)
  {
    TakeFront(LeBytes(v, n), t);
    LeValueOfBytes(v, n);
  }

  lemma PrependAssociates(a: seq<byte>, b: seq<byte>, t: Tail)
    ensures Prepend(a + b, t) == Prepend(a, Prepend(b, t))
  {
    assert (a + b) + t.bytes == a + (b + t.bytes);
  }

  /// What comes off a stream was its front.
  lemma TakenWasFront(t: Tail, n: nat)
    requires TakeWord(t, n).r.Ok?
    ensures t == Prepend(LeBytes(TakeWord(t, n).r.value, n), TakeWord(t, n).rest)
  {
    LeBytesOfValue(Take(t, n).r.value);
  }

  function Sum(ns: seq<nat>): nat { if ns == [] then 0 else ns[0] + Sum(ns[1..]) }

  /// Reads of the given sizes, one after the other, until one fails.
  function TakeEach(t: Tail, ns: seq<nat>): (k: Taken<seq<byte>>)
    decreases |ns|
  {
    if ns == [] then Taken(Ok([]), t)
    else
      var first := Take(t, ns[0]);
      match first.r
      case Err(e) => Taken(Err(e), first.rest)
      case Ok(b) =>
        var more := TakeEach(first.rest, ns[1..]);
        Taken(match more.r case Ok(c) => Ok(b + c) case Err(e) => Err(e), more.rest)
  }

  /// However a read is cut up, the pieces are one read of the total; and when they fail it
  /// is with the error that the one read would give.
  lemma {:induction false} ReadsCompose(t: Tail, ns: seq<nat>)
    ensures TakeEach(t, ns).r == Take(t, Sum(ns)).r
    ensures TakeEach(t, ns).r.Ok? ==> TakeEach(t, ns).rest == Take(t, Sum(ns)).rest
    decreases |ns|
  {
    if ns == [] {
      assert t.bytes[..0] == [] && t.bytes[0..] == t.bytes;
    } else {
      var first := Take(t, ns[0]);
      if first.r.Ok? {
        ReadsCompose(first.rest, ns[1..]);
        var n, m := ns[0], Sum(ns[1..]);
        if n + m <= |t.bytes| {
          assert t.bytes[n..][..m] == t.bytes[n..n + m] && t.bytes[n..][m..] == t.bytes[n + m..];
          assert t.bytes[..n + m] == t.bytes[..n] + t.bytes[n..n + m];
        }
      }
    }
  }

  // ----- the cursor -----

  /// One block shared with the cache, or the tail of one followed by whole blocks.
  datatype Window = Whole(shared: seq<byte>) | Spliced(own: seq<byte>) {
    function Bytes(): seq<byte> { match this case Whole(b) => b case Spliced(b) => b }
  }

  class MetaCursor {
    const img: Image
    const cache: MetaCache?
    var nextAbs: nat
    var window: Window
    var pos: nat
    var limit: Option<Limit>
    /// Where the block after the first one starts.
    ghost const firstNext: nat
    /// The offsets of the blocks pulled after the first.
    ghost var pulled: seq<nat>

    ghost predicate Valid()
      reads this, cache
    {
      && CacheValid(img, cache) && SoundCodec(img)
      && pos <= |window.Bytes()|
      && |window.Bytes()| <= METADATA_SIZE * (|pulled| + 1)
      && nextAbs <= |img.dev|
      && Spaced(pulled, firstNext, nextAbs, limit)
    }

    /// What is left to read.
    ghost function Contents(): Tail
      reads this
      requires pos <= |window.Bytes()|
    {
      Prepend(window.Bytes()[pos..], Ahead(img, limit, nextAbs))
    }

    constructor (img: Image, cache: MetaCache?, block: Pulled, inBlock: nat, ghost start: nat)
      requires CacheValid(img, cache) && SoundCodec(img)
      requires Pull(img, start) == Ok(block) && inBlock <= |block.bytes|
      ensures Valid() && this.img == img && this.cache == cache && limit == None
      ensures nextAbs == firstNext == block.next && pulled == []
      ensures Unread() == block.bytes[inBlock..]
      ensures Ok(Contents()) == StreamAt(img, None, start, inBlock)
    {
      PulledBounded(img, start);
      this.img, this.cache := img, cache;
      nextAbs, window, pos, limit := block.next, Whole(block.bytes), inBlock, None;
      firstNext, pulled := block.next, [];
    }

    /// `with_limit`, straight after opening.
    method SetLimit(end: nat, why: Error)
      requires Valid() && pulled == []
      modifies this
      ensures Valid() && pulled == [] && limit == Some(Limit(end, why))
      ensures window == old(window) && pos == old(pos) && nextAbs == old(nextAbs)
    {
      limit := Some(Limit(end, why));
    }

    /// Pulls one more block onto the window, keeping what has not been read.
    method Refill() returns (error: Option<Error>)
      requires Valid()
      modifies this, cache
      ensures Valid() && limit == old(limit)
      ensures Contents() == old(Contents())
      ensures error.Some? ==>
                && Ahead(img, limit, nextAbs) == Tail([], error.value)
                && Unread() == old(Unread()) && nextAbs == old(nextAbs)
      ensures error.None? ==> |Unread()| > |old(Unread())| && nextAbs > old(nextAbs)
    {
      hide Pull, SoundCodec;
      if limit.Some? && nextAbs >= limit.value.end {
        return Some(limit.value.why);
      }
      var r := ReadBlock(img, nextAbs, cache);
      if r.Err? {
        return Some(r.error);
      }
      var block := r.value;
      if block.bytes == [] {
        return Some(BadMetadata(EmptyBlock));
      }
      ghost var unread, ahead := Unread(), Ahead(img, limit, block.next).bytes;
      assert unread + (block.bytes + ahead) == (unread + block.bytes) + ahead;
      PulledBounded(img, nextAbs);
      var spliced := match window case Whole(b) => b[pos..] case Spliced(b) => b[pos..];
      pos := 0;
      window := Spliced(spliced + block.bytes);
      pulled := pulled + [nextAbs];
      nextAbs := block.next;
      assert window.Bytes()[0..] == unread + block.bytes;
      return None;
    }

    ghost function Unread(): seq<byte>
      reads this
      requires pos <= |window.Bytes()|
    {
      window.Bytes()[pos..]
    }

    /// Pulls blocks until n bytes are unread, or until one cannot be pulled.
    method Ensure(n: nat) returns (error: Option<Error>)
      requires Valid()
      modifies this, cache
      ensures Valid() && limit == old(limit)
      ensures Contents() == old(Contents())
      ensures error.None? <==> n <= |Contents().bytes|
      ensures error.None? ==> n <= |Unread()|
      ensures error.Some? ==> error.value == Contents().stop
    {
      while |window.Bytes()| - pos < n
        invariant Valid() && limit == old(limit)
        invariant Contents() == old(Contents())
        decreases |img.dev| - nextAbs
      {
        error := Refill();
        if error.Some? {
          assert Contents().bytes == Unread();
          return;
        }
      }
      assert |Contents().bytes| >= |Unread()| >= n;
      return None;
    }

    /// Exactly the next n bytes, or nothing.
    method ReadExact(n: nat) returns (r: Result<seq<byte>, Error>)
      requires Valid()
      modifies this, cache
      ensures Valid() && limit == old(limit)
      ensures Taken(r, Contents()) == Take(old(Contents()), n)
    {
      var error := Ensure(n);
      if error.Some? {
        return Err(error.value);
      }
      ghost var before, unread := Contents(), Unread();
      FrontOf(unread, Ahead(img, limit, nextAbs).bytes, n);
      r := Ok(window.Bytes()[pos..pos + n]);
      assert r.value == unread[..n];
      pos := pos + n;
      assert Unread() == unread[n..];
      assert Contents() == Tail(before.bytes[n..], before.stop);
    }

    /// `read_u16`, `read_u32` and `read_u64`: n bytes as a little-endian word.
    method ReadWord(n: nat) returns (r: Result<nat, Error>)
      requires Valid()
      modifies this, cache
      ensures Valid() && limit == old(limit)
      ensures Taken(r, Contents()) == TakeWord(old(Contents()), n)
    {
      var b := ReadExact(n);
      r := match b case Ok(bytes) => Ok(LeValue(bytes)) case Err(e) => Err(e);
    }

    /// A limited cursor pulls at most one block per three bytes between the first block's
    /// successor and the limit, whatever it is asked for; an unlimited one at most one per
    /// three bytes of the device. It holds at most 8192 bytes for each.
    lemma RefillsBounded()
      requires Valid()
      ensures limit.Some?
          ==> 3 * |pulled| <= (if limit.value.end > firstNext then limit.value.end - firstNext + 2 else 0)
      ensures firstNext + 3 * |pulled| <= |img.dev| && |window.Bytes()| <= METADATA_SIZE * (|pulled| + 1)
      ensures limit.Some? ==> forall i :: 0 <= i < |pulled| ==> pulled[i] < limit.value.end
    {
      SpacedLast(pulled, firstNext, nextAbs, limit);
    }
  }

  lemma FrontOf(a: seq<byte>, b: seq<byte>, n: nat)
    requires n <= |a|
    ensures (a + b)[..n] == a[..n] && (a + b)[n..] == a[n..] + b
  {
  }

  /// Offsets at least three apart from `from` on, before `upTo` and before any limit.
  ghost predicate Spaced(pulled: seq<nat>, from: nat, upTo: nat, limit: Option<Limit>) {
    if pulled == [] then from == upTo
    else
      var last := pulled[|pulled| - 1];
      && last + 3 <= upTo && (limit.Some? ==> last < limit.value.end)
      && Spaced(pulled[..|pulled| - 1], from, last, limit)
  }

  lemma {:induction false} SpacedLast(pulled: seq<nat>, from: nat, upTo: nat, limit: Option<Limit>)
    requires Spaced(pulled, from, upTo, limit)
    ensures from + 3 * |pulled| <= upTo
    ensures limit.Some? && pulled != [] ==> from + 3 * |pulled| < limit.value.end + 3
    ensures limit.Some? ==> forall i :: 0 <= i < |pulled| ==> pulled[i] < limit.value.end
  {
    if pulled != [] {
      var n := |pulled| - 1;
      SpacedLast(pulled[..n], from, pulled[n], limit);
      assert forall i :: 0 <= i < n ==> pulled[i] == pulled[..n][i];
    }
  }

  /// `MetaCursor::new`.
  method Open(img: Image, start: nat, inBlock: nat, cache: MetaCache?) returns (r: Result<MetaCursor, Error>)
    requires CacheValid(img, cache) && SoundCodec(img)
    modifies cache
    ensures CacheValid(img, cache)
    ensures r.Ok? ==> fresh(r.value) && r.value.Valid() && r.value.img == img && r.value.cache == cache
                      && r.value.limit == None && r.value.pulled == []
                      && StreamAt(img, None, start, inBlock) == Ok(r.value.Contents())
                      && Pull(img, start).Ok? && r.value.nextAbs == r.value.firstNext == Pull(img, start).value.next
                      && inBlock <= |Pull(img, start).value.bytes|
                          && r.value.Unread() == Pull(img, start).value.bytes[inBlock..]
    ensures r.Err? ==> StreamAt(img, None, start, inBlock) == Err(r.error)
  {
    var block := ReadBlock(img, start, cache);
    if block.Err? {
      return Err(block.error);
    }
    if inBlock > |block.value.bytes| {
      return Err(BadMetadata(ReferencePastBlock));
    }
    var cursor := new MetaCursor(img, cache, block.value, inBlock, start);
    return Ok(cursor);
  }

  /// A cursor opened with `with_limit`.
  method OpenLimited(img: Image, start: nat, inBlock: nat, cache: MetaCache?, end: nat, why: Error)
      returns (r: Result<MetaCursor, Error>)
    requires CacheValid(img, cache) && SoundCodec(img)
    modifies cache
    ensures CacheValid(img, cache)
    ensures r.Ok? ==> fresh(r.value) && r.value.Valid() && r.value.img == img && r.value.cache == cache
                      && StreamAt(img, Some(Limit(end, why)), start, inBlock) == Ok(r.value.Contents())
                      && r.value.limit == Some(Limit(end, why)) && Pull(img, start).Ok?
                          && r.value.firstNext == Pull(img, start).value.next
    ensures r.Err? ==> StreamAt(img, Some(Limit(end, why)), start, inBlock) == Err(r.error)
  {
    r := Open(img, start, inBlock, cache);
    if r.Ok? {
      ghost var unread := r.value.Unread();
      r.value.SetLimit(end, why);
      assert r.value.Unread() == unread;
    }
  }

  // ----- metadata references -----

  /// A packed reference: the block's offset from its table and the offset inside it.
  datatype MetadataRef = MetadataRef(blockOffset: nat, inBlock: nat) {
    /// Saturating, so that a sum past a u64 names an offset no device reaches.
    function StartAbs(tableStart: u64): u64 { Min(tableStart + blockOffset, U64_MAX) }
  }

  function FromPacked(packed: nat): MetadataRef { MetadataRef(packed / 0x1_0000, packed % 0x1_0000) }
}
