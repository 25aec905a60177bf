/// Readers racing through a block cache. A read takes the lock for its lookup and again for
/// its insert, and does the work in between without it (src/fs.rs:757-770,
/// src/metablock.rs:146-165), so the steps of any number of readers may fall in any order.
module CacheRace {
  import opened Bytes
  import opened Image
  import opened Metadata
  import opened FileData
  import opened Cache

  /// How far a reader has come with what it wants.
  datatype Phase<K, V> =
    | Idle
    | Looking(key: K)
    | Decoding(key: K)
    | Inserting(key: K, value: V)

  /// What a reader was given for a key.
  datatype Answer<K, V> = Answer(reader: nat, key: K, result: Result<V, Error>)

  /// The cache, the readers and every answer given so far.
  datatype State<!K(==), V> = State(cache: CacheState<K, V>, readers: seq<Phase<K, V>>, answers: seq<Answer<K, V>>)

  datatype Step<K> =
    | Start(reader: nat, key: K)
    | Lookup(reader: nat)
    | Decode(reader: nat)
    | Insert(reader: nat)
    | Resize(capacity: nat)

  ghost predicate Init<K, V>(s: State<K, V>) {
    && s.cache == Emptied(s.cache.capacity) && s.answers == []
    && forall r :: 0 <= r < |s.readers| ==> s.readers[r].Idle?
  }

  function Moved<K(==), V>(s: State<K, V>, r: nat, phase: Phase<K, V>): State<K, V>
    requires r < |s.readers|
  {
    s.(readers := s.readers[r := phase])
  }

  function Answered<K(==), V>(s: State<K, V>, r: nat, key: K, result: Result<V, Error>): State<K, V>
    requires r < |s.readers|
  {
    Moved(s, r, Idle).(answers := s.answers + [Answer(r, key, result)])
  }

  function AfterLookup<K(==), V>(s: State<K, V>, r: nat, key: K): State<K, V>
    requires r < |s.readers|
  {
    var found := Found(s.cache, key);
    var t := if found.Some? then Answered(s, r, key, Ok(found.value)) else Moved(s, r, Decoding(key));
    t.(cache := LookedUp(s.cache, key))
  }

  /// A failed decode is an answer; a value has still to be inserted.
  function AfterDecode<K(==), V>(s: State<K, V>, r: nat, key: K, decoded: Result<V, Error>): State<K, V>
    requires r < |s.readers|
  {
    match decoded
    case Ok(value) => Moved(s, r, Inserting(key, value))
    case Err(e) => Answered(s, r, key, Err(e))
  }

  ghost predicate Next<K, V>(uncached: K -> Result<V, Error>, s: State<K, V>, step: Step<K>, t: State<K, V>) {
    match step
    case Resize(capacity) => t == s.(cache := Emptied(capacity))
    case Start(r, key) => r < |s.readers| && s.readers[r].Idle? && t == Moved(s, r, Looking(key))
    case Lookup(r) => r < |s.readers| && s.readers[r].Looking? && t == AfterLookup(s, r, s.readers[r].key)
    case Decode(r) =>
      r < |s.readers| && s.readers[r].Decoding? && t == AfterDecode(s, r, s.readers[r].key, uncached(s.readers[r].key))
    case Insert(r) =>
      && r < |s.readers| && s.readers[r].Inserting?
      && var key, value := s.readers[r].key, s.readers[r].value;
         t == Answered(s, r, key, Ok(value)).(cache := t.cache) && Inserted(s.cache, t.cache, key, value)
  }

  /// A run: the steps taken and the states between them.
  ghost predicate Run<K, V>(uncached: K -> Result<V, Error>, states: seq<State<K, V>>, steps: seq<Step<K>>) {
    && |states| == |steps| + 1 && Init(states[0])
    && forall i :: 0 <= i < |steps| ==> Next(uncached, states[i], steps[i], states[i + 1])
  }

  // ----- what every step keeps -----

  ghost predicate Good<K, V>(uncached: K -> Result<V, Error>, s: State<K, V>) {
    && |s.cache.entries| <= s.cache.capacity && s.cache.hits + s.cache.misses == s.cache.lookups
    && (forall key :: key in s.cache.entries ==> uncached(key) == Ok(s.cache.entries[key]))
    && (forall r :: 0 <= r < |s.readers| && s.readers[r].Inserting? ==>
          uncached(s.readers[r].key) == Ok(s.readers[r].value))
    && (forall i :: 0 <= i < |s.answers| ==> s.answers[i].result == uncached(s.answers[i].key))
  }

  lemma StepKeepsGood<K, V>(uncached: K -> Result<V, Error>, s: State<K, V>, step: Step<K>, t: State<K, V>)
    requires Good(uncached, s) && Next(uncached, s, step, t)
    ensures Good(uncached, t)
  {
  }

  lemma {:induction false} RunsAreGood<K, V>(uncached: K -> Result<V, Error>, states: seq<State<K, V>>,
      steps: seq<Step<K>>)
    requires Run(uncached, states, steps)
    ensures Good(uncached, states[|steps|])
    decreases |steps|
  {
    hide Next;
    if steps != [] {
      var n := |steps| - 1;
      RunsAreGood(uncached, states[..n + 1], steps[..n]);
      StepKeepsGood(uncached, states[n], steps[n], states[n + 1]);
    }
  }

  // ----- what that is worth to a reader -----

  /// However readers race, resize and evict, every value handed out and every error is
  /// exactly what an uncached read gives; and when two readers insert one block, the second
  /// insert changes no byte of what the first left.
  lemma RacingReadsAreUncached<K, V>(uncached: K -> Result<V, Error>, states: seq<State<K, V>>, steps: seq<Step<K>>)
    requires Run(uncached, states, steps)
    ensures var s := states[|steps|];
            && (forall i :: 0 <= i < |s.answers| ==> s.answers[i].result == uncached(s.answers[i].key))
            && (forall r :: 0 <= r < |s.readers| && s.readers[r].Inserting? && s.readers[r].key in s.cache.entries ==>
                  s.cache.entries[s.readers[r].key] == s.readers[r].value)
            && s.cache.hits + s.cache.misses == s.cache.lookups && |s.cache.entries| <= s.cache.capacity
  {
    hide Next;
    RunsAreGood(uncached, states, steps);
  }

  /// So it is for data blocks, whose key is the whole request.
  lemma DataReadsRace(fs: Filesystem, states: seq<State<DataKey, seq<byte>>>, steps: seq<Step<DataKey>>, i: nat)
    requires Run(key => Decoded(fs, key), states, steps) && i < |states[|steps|].answers|
    ensures states[|steps|].answers[i].result == Decoded(fs, states[|steps|].answers[i].key)
  {
    hide Decoded, Run;
    RacingReadsAreUncached(key => Decoded(fs, key), states, steps);
  }

  /// And for metadata blocks, whose key is their offset.
  lemma BlockReadsRace(img: Image, states: seq<State<nat, Pulled>>, steps: seq<Step<nat>>, i: nat)
    requires Run(abs => Pull(img, abs), states, steps) && i < |states[|steps|].answers|
    ensures states[|steps|].answers[i].result == Pull(img, states[|steps|].answers[i].key)
  {
    hide Pull, Run;
    RacingReadsAreUncached(abs => Pull(img, abs), states, steps);
  }

  /// How many steps of its own a reader is from an answer, at most.
  function Distance<K, V>(phase: Phase<K, V>): nat {
    match phase
    case Idle => 0
    case Looking(_) => 3
    case Decoding(_) => 2
    case Inserting(_, _) => 1
  }

  /// No reader waits for another: one that is busy always has a step of its own to take,
  /// which brings it nearer to its answer and moves nobody else.
  lemma BusyReadersMove<K, V>(uncached: K -> Result<V, Error>, s: State<K, V>, r: nat)
    returns (step: Step<K>, t: State<K, V>)
    requires Good(uncached, s) && r < |s.readers| && !s.readers[r].Idle?
    ensures Next(uncached, s, step, t) && |t.readers| == |s.readers| && Distance(t.readers[r]) < Distance(s.readers[r])
    ensures forall q :: 0 <= q < |s.readers| && q != r ==> t.readers[q] == s.readers[q]
    ensures t.readers[r].Idle? ==> t.answers == s.answers + [Answer(r, s.readers[r].key, uncached(s.readers[r].key))]
  {
    match s.readers[r]
    case Looking(key) =>
      step, t := Lookup(r), AfterLookup(s, r, key);
    case Decoding(key) =>
      step, t := Decode(r), AfterDecode(s, r, key, uncached(key));
    case Inserting(key, value) =>
      step := Insert(r);
      var only := map[key := value];
      assert only.Keys == {key};
      var kept := if s.cache.capacity == 0 then s.cache.entries else only;
      t := Answered(s, r, key, Ok(value)).(cache := s.cache.(entries := kept));
  }
}
