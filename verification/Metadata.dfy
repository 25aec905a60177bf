/// Metadata blocks, their cache and the cursor over a run of them: src/metablock.rs.
module Metadata {
  import opened Bytes
  import opened Image
  import opened Cache

  const METADATA_SIZE := 8192

  /// One decompressed metadata block and where the next one starts.
  datatype Pulled = Pulled(bytes: seq<byte>, next: nat)

  /// `read_block_uncached`: a two-byte header whose top bit says the payload is stored as
  /// it is, then the payload.
  function Pull(img: Image, abs: nat): (r: Result<Pulled, Error>)
    ensures r.Ok? ==> abs + 3 <= r.value.next <= |img.dev|
    ensures r.Ok? ==> r.value.next <= abs + 2 + METADATA_SIZE
  {
    var hdr := ReadAt(img.dev, abs, 2);
    if hdr.Err? then Err(hdr.error)
    else
      var raw := LeValue(hdr.value);
      var onDisk, compressed := raw % 0x8000, raw / 0x8000 == 0;
      if onDisk == 0 || onDisk > METADATA_SIZE then Err(BadMetadata(BlockSize))
      else
        var payload := ReadAt(img.dev, abs + 2, onDisk);
        if payload.Err? then Err(payload.error)
        else if compressed then
          var out := img.decode(payload.value, METADATA_SIZE);
          if out.Err? then Err(out.error) else Ok(Pulled(out.value, abs + 2 + onDisk))
        else if |payload.value| > METADATA_SIZE then Err(BadMetadata(BlockTooLarge))
        else Ok(Pulled(payload.value, abs + 2 + onDisk))
  }

  lemma PulledBounded(img: Image, abs: nat)
    requires SoundCodec(img)
    ensures Pull(img, abs).Ok? ==> |Pull(img, abs).value.bytes| <= METADATA_SIZE
  {
  }

  /// A block as it is stored: a header of the payload's length, with its top bit set when
  /// the payload is the bytes themselves, then the payload.
  predicate StoredAt(img: Image, abs: nat, raw: seq<byte>, compressed: bool) {
    && 0 < |raw| <= 8192 && abs + 2 + |raw| <= |img.dev|
    && img.dev[abs..abs + 2] == LeBytes(if compressed then |raw| else 0x8000 + |raw|, 2)
    && img.dev[abs + 2..abs + 2 + |raw|] == raw
  }

  /// A block is pulled exactly where one is stored, and is what its payload stands for;
  /// the next block starts right behind it.
  lemma PullExact(img: Image, abs: nat, p: Pulled)
    ensures Pull(img, abs) == Ok(p) <==>
            exists raw, compressed ::
              && StoredAt(img, abs, raw, compressed) && p.next == abs + 2 + |raw|
              && if compressed then img.decode(raw, 8192) == Ok(p.bytes) else p.bytes == raw
  {
    hide LeValue, LeBytes;
    Pow256Values();
    if Pull(img, abs) == Ok(p) {
      var header := img.dev[abs..abs + 2];
      LeBytesOfValue(header);
      var n, compressed := LeValue(header) % 0x8000, LeValue(header) / 0x8000 == 0;
      assert StoredAt(img, abs, img.dev[abs + 2..abs + 2 + n], compressed);
    }
    forall raw, compressed | StoredAt(img, abs, raw, compressed)
      ensures if !compressed then Pull(img, abs) == Ok(Pulled(raw, abs + 2 + |raw|))
              else
                match img.decode(raw, METADATA_SIZE)
                case Ok(out) => Pull(img, abs) == Ok(Pulled(out, abs + 2 + |raw|))
                case Err(e) => Pull(img, abs) == Err(e)
    {
      LeValueOfBytes(if compressed then |raw| else 0x8000 + |raw|, 2);
    }
  }

  // ----- the cache -----

  /// Decompressed blocks by offset. Which entries a full cache drops is left open: what is
  /// proved holds for every eviction policy.
  class MetaCache {
    var capacity: nat
    var entries: map<nat, Pulled>
    var hits: nat
    var misses: nat
    /// The lookups made while the cache was on, since the last resize.
    ghost var lookups: nat

    ghost predicate Valid(img: Image)
      reads this
    {
      && |entries| <= capacity
      && hits + misses == lookups
      && forall abs :: abs in entries ==> Pull(img, abs) == Ok(entries[abs])
    }

    ghost function State(): CacheState<nat, Pulled>
      reads this
    {
      CacheState(capacity, entries, hits, misses, lookups)
    }

    constructor (capacity: nat)
      ensures forall img :: Valid(img)
      ensures State() == Emptied(capacity)
    {
      this.capacity, entries, hits, misses, lookups := capacity, map[], 0, 0, 0;
    }

    method SetCapacity(capacity: nat)
      modifies this
      ensures forall img :: Valid(img)
      ensures State() == Emptied(capacity)
    {
      this.capacity, entries, hits, misses, lookups := capacity, map[], 0, 0, 0;
    }

    method Get(ghost img: Image, abs: nat) returns (hit: Option<Pulled>)
      requires Valid(img)
      modifies this
      ensures Valid(img)
      ensures hit == Found(old(State()), abs) && State() == LookedUp(old(State()), abs)
    {
      if capacity == 0 {
        return None;
      }
      lookups := lookups + 1;
      if abs in entries {
        hits := hits + 1;
        return Some(entries[abs]);
      }
      misses := misses + 1;
      return None;
    }

    method Insert(ghost img: Image, abs: nat, block: Pulled)
      requires Valid(img) && Pull(img, abs) == Ok(block)
      modifies this`entries
      ensures Valid(img)
      ensures Inserted(old(State()), State(), abs, block)
    {
      if capacity == 0 {
        return;
      }
      var none: set<nat> := {};
      assert none <= entries.Keys - {abs} && |none| < capacity;
      var kept: set<nat> :| kept <= entries.Keys - {abs} && |kept| < capacity;
      var rest := map k | k in kept :: entries[k];
      assert rest.Keys == kept;
      entries := rest[abs := block];
      assert entries.Keys == kept + {abs};
    }
  }

  ghost predicate CacheValid(img: Image, cache: MetaCache?)
    reads cache
  {
    cache != null ==> cache.Valid(img)
  }

  /// `read_block`: a cached block if there is one; either way, what an uncached read gives.
  method ReadBlock(img: Image, abs: nat, cache: MetaCache?) returns (r: Result<Pulled, Error>)
    requires CacheValid(img, cache)
    modifies cache
    ensures CacheValid(img, cache)
    ensures r == Pull(img, abs)
    ensures cache != null ==>
              && cache.capacity == old(cache.capacity)
              && cache.lookups == old(cache.lookups) + if cache.capacity > 0 then 1 else 0
  {
    if cache != null {
      var hit := cache.Get(img, abs);
      if hit.Some? {
        return Ok(hit.value);
      }
    }
    r := Pull(img, abs);
    if cache != null && r.Ok? {
      cache.Insert(img, abs, r.value);
    }
  }
}
