/** Any run of reads and writes through the cache is the same run on a disk without one. */
module CacheRuns {
  import opened Bits
  import opened Options
  import opened DiskLayout
  import opened BufferCache

  /** One use of the cache: a reference is taken, read or written, and dropped. */
  datatype Use = ReadAt(sector: nat) | WriteAt(sector: nat, data: Sector)

  predicate InRange(uses: seq<Use>, n: nat) {
    forall i :: 0 <= i < |uses| ==> uses[i].sector < n
  }

  /** Without a cache: the contents after one use, and after many, of which those without an answer
      did not happen. */
  function After(d: Image, u: Use): Image
    requires u.sector < |d|
  {
    if u.WriteAt? then d[u.sector := u.data] else d
  }

  function AfterAll(d: Image, uses: seq<Use>, answers: seq<Option<Sector>>): (r: Image)
    requires InRange(uses, |d|) && |answers| == |uses|
    ensures |r| == |d|
    decreases |uses|
  {
    if uses == [] then d else
      var n := |uses| - 1;
      var before := AfterAll(d, uses[..n], answers[..n]);
      if answers[n].None? then before else After(before, uses[n])
  }

  /** Every answer is what the uncached disk would hold at that point. */
  ghost predicate Truthful(d: Image, uses: seq<Use>, answers: seq<Option<Sector>>)
    requires InRange(uses, |d|) && |answers| == |uses|
  {
    forall i {:trigger answers[i]} :: 0 <= i < |uses| && answers[i].Some? ==>
      answers[i].value == AfterAll(d, uses[..i], answers[..i])[uses[i].sector]
  }

  ghost predicate SomeFree(cache: BufCache)
    reads cache`freeMask
  {
    exists b: nat :: b < NUM_BUFS && !cache.Held(b)
  }

  /** No buffer that is held has a sector of `uses`. */
  ghost predicate Usable(cache: BufCache, uses: seq<Use>)
    requires cache.bufSectors.Length == NUM_BUFS
    reads cache`freeMask, cache.bufSectors
  {
    forall b: nat, i {:trigger cache.bufSectors[b], uses[i]} :: b < NUM_BUFS && cache.Held(b) && 0 <= i < |uses| ==>
      cache.bufSectors[b] != uses[i].sector
  }

  /** One use, while other buffers may be held and dirty: it reads what an uncached disk would hold and
      leaves what an uncached disk would, or does not happen. It does happen when the disk refuses
      nothing and a buffer is free. */
  method UseOnce(cache: BufCache, u: Use) returns (answer: Option<Sector>)
    requires cache.Valid() && u.sector < |cache.disk.sectors| && Usable(cache, [u])
    modifies cache`freeMask, cache`dirtyMask, cache`seen, cache.bufSectors, cache.buffer, cache.disk
    ensures cache.Valid() && (old(cache.disk.lost) ==> cache.disk.lost)
    ensures !cache.disk.lost && answer.Some? ==>
              cache.seen == After(old(cache.seen), u) && answer.value == old(cache.seen)[u.sector]
    ensures !cache.disk.lost && answer.Some? ==>
              && |cache.seen| == |old(cache.seen)|
              && (u.WriteAt? ==> cache.seen[u.sector] == u.data)
              && forall s :: 0 <= s < |cache.seen| && !(u.WriteAt? && s == u.sector) ==>
                   cache.seen[s] == old(cache.seen)[s]
    ensures !cache.disk.lost && answer.None? ==> cache.seen == old(cache.seen)
    ensures |cache.disk.sectors| == |old(cache.disk.sectors)| && (old(SomeFree(cache)) ==> SomeFree(cache))
    ensures old(cache.disk.faults) == [] ==>
              && cache.disk.faults == [] && cache.disk.lost == old(cache.disk.lost)
              && (old(SomeFree(cache)) ==> answer.Some?)
    ensures forall b: nat {:trigger cache.Held(b)} :: b < NUM_BUFS ==> cache.Held(b) == old(cache.Held(b))
    ensures forall b: nat {:trigger cache.bufSectors[b]} :: b < NUM_BUFS && cache.Held(b) ==>
              cache.bufSectors[b] == old(cache.bufSectors[b])
  {
    assert [u][0] == u;
    ghost var free :| SomeFree(cache) ==> 0 <= free < NUM_BUFS && !cache.Held(free);
    var ok, b := cache.ReadBufSector(u.sector);
    if !ok {
      return None;
    }
    assert !old(cache.Held(b));
    assert cache.BufOk(b);
    answer := Some(cache.buffer[b]);
    if u.WriteAt? {
      cache.MarkDirty(b);
      cache.Store(b, u.data);
    }
    cache.ReleaseBuffer(b);
    assert old(SomeFree(cache)) ==> !cache.Held(free);
  }

  /** The cache is transparent: any run of uses, with whatever evictions they cause, whatever other
      buffers are held meanwhile and whatever reads the disk refuses, answers and leaves what the same
      run without a cache would. Only a refused write ends that. */
  method Replay(cache: BufCache, uses: seq<Use>) returns (answers: seq<Option<Sector>>)
    requires cache.Valid() && InRange(uses, |cache.disk.sectors|) && Usable(cache, uses)
    modifies cache`freeMask, cache`dirtyMask, cache`seen, cache.bufSectors, cache.buffer, cache.disk
    ensures cache.Valid() && |answers| == |uses| && InRange(uses, |old(cache.seen)|)
    ensures !cache.disk.lost ==>
              cache.seen == AfterAll(old(cache.seen), uses, answers) && Truthful(old(cache.seen), uses, answers)
    ensures !cache.disk.lost && old(cache.HeldExactly({})) ==>
              cache.HeldExactly({}) && cache.disk.sectors == AfterAll(old(cache.disk.sectors), uses, answers)
    ensures old(cache.disk.faults) == [] && old(SomeFree(cache)) ==>
              cache.disk.lost == old(cache.disk.lost) && forall i :: 0 <= i < |uses| ==> answers[i].Some?
  {
    ghost var d0 := cache.seen;
    if cache.HeldExactly({}) && !cache.disk.lost { cache.SeenIsDisk(); }
    answers := [];
    var i := 0;
    while i < |uses|
      invariant 0 <= i <= |uses| && |answers| == i
      invariant cache.Valid() && |cache.disk.sectors| == |d0| && (old(cache.disk.lost) ==> cache.disk.lost)
      invariant forall b: nat {:trigger cache.Held(b)} :: b < NUM_BUFS ==> cache.Held(b) == old(cache.Held(b))
      invariant Usable(cache, uses)
      invariant !cache.disk.lost ==>
                  cache.seen == AfterAll(d0, uses[..i], answers) && Truthful(d0, uses[..i], answers)
      invariant old(cache.disk.faults) == [] && old(SomeFree(cache)) ==>
                  && SomeFree(cache) && cache.disk.faults == [] && cache.disk.lost == old(cache.disk.lost)
                  && forall k :: 0 <= k < i ==> answers[k].Some?
    {
      assert Usable(cache, [uses[i]]);
      var answer := UseOnce(cache, uses[i]);
      if !cache.disk.lost { OneMore(d0, uses[..i], answers, uses[i], answer); }
      assert uses[..i + 1] == uses[..i] + [uses[i]];
      answers := answers + [answer];
      i := i + 1;
    }
    assert uses[..i] == uses;
    if old(cache.HeldExactly({})) && !cache.disk.lost {
      assert cache.HeldExactly({});
      cache.SeenIsDisk();
    }
  }

  lemma OneMore(d: Image, uses: seq<Use>, answers: seq<Option<Sector>>, u: Use, answer: Option<Sector>)
    requires InRange(uses, |d|) && |answers| == |uses| && u.sector < |d| && Truthful(d, uses, answers)
    requires answer.Some? ==> answer.value == AfterAll(d, uses, answers)[u.sector]
    ensures Truthful(d, uses + [u], answers + [answer])
    ensures var before := AfterAll(d, uses, answers);
            AfterAll(d, uses + [u], answers + [answer]) == if answer.None? then before else After(before, u)
  {
    var us, all := uses + [u], answers + [answer];
    assert us[..|uses|] == uses && all[..|uses|] == answers;
    forall i | 0 <= i < |us| && all[i].Some? ensures all[i].value == AfterAll(d, us[..i], all[..i])[us[i].sector] {
      if i < |uses| { assert us[..i] == uses[..i] && all[..i] == answers[..i] && answers[i].Some?; }
    }
  }
}
