/** The hot-reload certificate cache.  The disk is a timeline: what the certificate file, the
    key file and the system calls would show at each moment.  A call of `Current` looks at it
    at four moments in order, so writers may act between any two of its observations. */
module CertCache {
  import opened Prelude

  datatype Fingerprint = Fingerprint(modTime: int, size: int)

  /** A certificate file: its fingerprint, and the leaf it parses to, if it parses. */
  datatype CertFile = CertFile(fp: Fingerprint, leaf: Option<int>)

  datatype Disk = Disk(certFile: Option<CertFile>, key: Option<int>, statWorks: bool, readWorks: bool)

  type Timeline = nat -> Disk

  /** A certificate ready to serve. */
  datatype Pair = Pair(leaf: int, key: int)

  function Stat(d: Disk): Option<Fingerprint> {
    if d.statWorks && d.certFile.Some? then Some(d.certFile.value.fp) else None
  }

  function ReadLeaf(d: Disk): Option<int> {
    if d.readWorks && d.certFile.Some? then d.certFile.value.leaf else None
  }

  function ReadKey(d: Disk): Option<int> {
    if d.readWorks then d.key else None
  }

  /** The leaf in the file, whether or not a read would succeed. */
  function LeafOnDisk(d: Disk): Option<int> {
    if d.certFile.Some? then d.certFile.value.leaf else None
  }

  /** The moments at which one call looks at the disk. */
  datatype Moments = Moments(stat: nat, restat: nat, readCert: nat, readKey: nat)

  predicate Ordered(at: Moments) {
    at.stat <= at.restat <= at.readCert <= at.readKey
  }

  /** Whether a leaf and a key belong together. */
  type Matching = (int, int) -> bool

  /** Stat first, then read the certificate, then the key; a pair that does not match is an
      error. */
  function Load(world: Timeline, matches: Matching, at: Moments): Option<(Pair, Fingerprint)> {
    var fp, leaf, key := Stat(world(at.restat)), ReadLeaf(world(at.readCert)), ReadKey(world(at.readKey));
    if fp.None? || leaf.None? || key.None? || !matches(leaf.value, key.value) then None
    else Some((Pair(leaf.value, key.value), fp.value))
  }

  datatype Cache = Cache(cert: Option<Pair>, fp: Fingerprint)

  datatype Served = Unchanged(cert: Pair) | Reloaded(cert: Pair) | Fallback(cert: Pair) | Error

  function CurrentOutcome(c: Cache, world: Timeline, matches: Matching, at: Moments): (Cache, Served) {
    var fp, loaded := Stat(world(at.stat)), Load(world, matches, at);
    if c.cert.Some? && fp == Some(c.fp) then (c, Unchanged(c.cert.value))
    else if c.cert.Some? && fp.None? then (c, Fallback(c.cert.value))
    else if loaded.Some? then (Cache(Some(loaded.value.0), loaded.value.1), Reloaded(loaded.value.0))
    else if c.cert.Some? then (c, Fallback(c.cert.value))
    else (c, Error)
  }

  class CertCache {
    var cert: Option<Pair>
    var fp: Fingerprint

    ghost function View(): Cache
      reads this
    {
      Cache(cert, fp)
    }

    constructor Empty()
      ensures cert == None
    {
      cert, fp := None, Fingerprint(0, 0);
    }

    method Current(world: Timeline, matches: Matching, at: Moments) returns (served: Served)
      modifies this
      ensures old(cert).Some? && Stat(world(at.stat)).None? ==>
                served == Fallback(old(cert).value) && cert == old(cert) && fp == old(fp)
      ensures (View(), served) == CurrentOutcome(old(View()), world, matches, at)
    {
      var info := Stat(world(at.stat));
      if info.Some? {
        if info.value == fp && cert.Some? {
          return Unchanged(cert.value);
        }
      } else if cert.Some? {
        return Fallback(cert.value);
      }
      var loaded := Load(world, matches, at);
      if loaded.None? {
        if cert.Some? {
          return Fallback(cert.value);
        }
        return Error;
      }
      cert, fp := Some(loaded.value.0), loaded.value.1;
      return Reloaded(loaded.value.0);
    }
  }

  /** Construction fails loudly: a cache exists only after a successful load. */
  method NewCertCache(world: Timeline, matches: Matching, at: Moments) returns (c: CertCache?)
    ensures c == null <==> Load(world, matches, at).None?
    ensures c != null ==> fresh(c) && c.View() == Cache(Some(Load(world, matches, at).value.0), Load(world, matches, at).value.1)
  {
    var loaded := Load(world, matches, at);
    if loaded.None? {
      return null;
    }
    c := new CertCache.Empty();
    c.cert, c.fp := Some(loaded.value.0), loaded.value.1;
  }

  // ----- What every call keeps -----

  /** The cache was filled by a load in the past: the fingerprint was seen at `s`, the leaf
      was read at a later moment `r` and the key at `k`, and the two belong together. */
  ghost predicate FilledAt(world: Timeline, matches: Matching, c: Cache, s: nat, r: nat, k: nat) {
    && s <= r <= k
    && c.cert.Some?
    && Stat(world(s)) == Some(c.fp)
    && ReadLeaf(world(r)) == Some(c.cert.value.leaf)
    && ReadKey(world(k)) == Some(c.cert.value.key)
    && matches(c.cert.value.leaf, c.cert.value.key)
  }

  ghost predicate Filled(world: Timeline, matches: Matching, c: Cache, now: nat) {
    exists s: nat, r: nat, k: nat :: k <= now && FilledAt(world, matches, c, s, r, k)
  }

  /** A fingerprint seen at `s` and again at `t` stands at `t` for the leaf readable at `r`. */
  predicate TellsAt(world: Timeline, s: nat, r: nat, k: nat, t: nat) {
    Stat(world(s)).Some? && Stat(world(s)) == Stat(world(t)) && ReadLeaf(world(r)).Some? && ReadKey(world(k)).Some? ==>
      LeafOnDisk(world(t)) == ReadLeaf(world(r))
  }

  /** On this disk a fingerprint that comes back comes back with the leaf that was readable
      under it. */
  ghost predicate DiskTells(world: Timeline) {
    forall s: nat, r: nat, k: nat, t: nat :: s <= r <= k <= t ==> TellsAt(world, s, r, k, t)
  }

  /** If the fingerprint is the same at both ends, the file is the same in the middle. */
  predicate OnePeriod(world: Timeline, s: nat, r: nat, t: nat) {
    world(s).certFile.Some? && world(t).certFile.Some? && world(s).certFile.value.fp == world(t).certFile.value.fp ==>
      world(r).certFile == world(s).certFile == world(t).certFile
  }

  /** Fingerprints are never reused. */
  ghost predicate NeverReused(world: Timeline) {
    forall s: nat, r: nat, t: nat :: s <= r <= t ==> OnePeriod(world, s, r, t)
  }

  /** A disk that never reuses a fingerprint tells. */
  lemma NeverReusedTells(world: Timeline)
    requires NeverReused(world)
    ensures DiskTells(world)
  {
    forall s: nat, r: nat, k: nat, t: nat | s <= r <= k <= t
      ensures TellsAt(world, s, r, k, t)
    {
      assert OnePeriod(world, s, r, t);
    }
  }

  /** Cached fingerprint equal to the disk's implies cached leaf equal to the disk's. */
  ghost predicate Fresh(world: Timeline, c: Cache, t: nat) {
    c.cert.Some? && Stat(world(t)) == Some(c.fp) ==> LeafOnDisk(world(t)) == Some(c.cert.value.leaf)
  }

  /** Freshness holds at every later moment, whatever writers do in between. */
  lemma FilledIsFresh(world: Timeline, matches: Matching, c: Cache, now: nat, t: nat)
    requires DiskTells(world) && Filled(world, matches, c, now) && now <= t
    ensures Fresh(world, c, t)
  {
    var s: nat, r: nat, k: nat :| k <= now && FilledAt(world, matches, c, s, r, k);
    assert TellsAt(world, s, r, k, t);
  }

  lemma LoadFills(world: Timeline, matches: Matching, at: Moments)
    requires Ordered(at) && Load(world, matches, at).Some?
    ensures var l := Load(world, matches, at).value;
            Filled(world, matches, Cache(Some(l.0), l.1), at.readKey)
  {
    var l := Load(world, matches, at).value;
    assert FilledAt(world, matches, Cache(Some(l.0), l.1), at.restat, at.readCert, at.readKey);
  }

  /** This leaf was on disk at some moment of the call. */
  ghost predicate OnDiskDuring(world: Timeline, at: Moments, leaf: int) {
    exists t :: at.stat <= t <= at.readKey && LeafOnDisk(world(t)) == Some(leaf)
  }

  /** A call on a filled cache never errors and leaves it filled.  What it serves always
      belongs to its key.  Unless it falls back, what it serves was on disk at some moment of
      the call; if it falls back, it serves exactly what it held. */
  lemma CurrentServes(world: Timeline, matches: Matching, c: Cache, now: nat, at: Moments)
    requires DiskTells(world) && Filled(world, matches, c, now) && now <= at.stat && Ordered(at)
    ensures var (c', served) := CurrentOutcome(c, world, matches, at);
            && !served.Error?
            && Filled(world, matches, c', at.readKey)
            && c'.cert == Some(served.cert)
            && matches(served.cert.leaf, served.cert.key)
            && (served.Fallback? ==> c' == c)
            && (!served.Fallback? ==> OnDiskDuring(world, at, served.cert.leaf))
  {
    var (c', served) := CurrentOutcome(c, world, matches, at);
    match served
    case Unchanged(_) =>
      FilledIsFresh(world, matches, c, now, at.stat);
      assert LeafOnDisk(world(at.stat)) == Some(served.cert.leaf);
    case Reloaded(_) =>
      LoadFills(world, matches, at);
      assert LeafOnDisk(world(at.readCert)) == Some(served.cert.leaf);
    case Fallback(_) =>
  }

  /** What a cache that holds a certificate serves, in terms of the disk.  A stat that fails, or
      one that shows the fingerprint held, serves what is held and loads nothing, whatever a
      load would give; another fingerprint loads, and serves the pair read if it is a pair,
      keeping its new fingerprint, and otherwise what is held. */
  lemma WhatIsServed(world: Timeline, matches: Matching, c: Cache, at: Moments)
    requires c.cert.Some?
    ensures var (c', served) := CurrentOutcome(c, world, matches, at);
            var d := world(at.stat);
            if !d.statWorks || d.certFile.None? then c' == c && served == Fallback(c.cert.value)
            else if d.certFile.value.fp == c.fp then c' == c && served == Unchanged(c.cert.value)
            else
              var restat, leaf, key := world(at.restat), world(at.readCert), world(at.readKey);
              if && restat.statWorks && restat.certFile.Some?
                 && leaf.readWorks && leaf.certFile.Some? && leaf.certFile.value.leaf.Some?
                 && key.readWorks && key.key.Some? && matches(leaf.certFile.value.leaf.value, key.key.value)
              then
                && served == Reloaded(Pair(leaf.certFile.value.leaf.value, key.key.value))
                && c' == Cache(Some(served.cert), restat.certFile.value.fp)
              else c' == c && served == Fallback(c.cert.value)
  {
  }

  /** The disk shows one good certificate throughout the call. */
  ghost predicate SteadyDuring(world: Timeline, matches: Matching, from: nat, to: nat) {
    && (forall t :: from <= t <= to ==> world(t) == world(from))
    && Stat(world(from)).Some? && ReadLeaf(world(from)).Some? && ReadKey(world(from)).Some?
    && matches(ReadLeaf(world(from)).value, ReadKey(world(from)).value)
  }

  /** A rotation is picked up by the next call that sees a steady disk, and the call after
      that is answered from the cache. */
  lemma RotationIsPickedUp(world: Timeline, matches: Matching, c: Cache, now: nat, at: Moments, at': Moments)
    requires DiskTells(world) && Filled(world, matches, c, now) && now <= at.stat
    requires Ordered(at) && Ordered(at') && at.readKey <= at'.stat
    requires SteadyDuring(world, matches, at.stat, at'.readKey)
    ensures var (c', served) := CurrentOutcome(c, world, matches, at);
            && !served.Error? && !served.Fallback?
            && LeafOnDisk(world(at.stat)) == Some(served.cert.leaf)
            && CurrentOutcome(c', world, matches, at') == (c', Unchanged(served.cert))
  {
    var d := world(at.stat);
    assert world(at.restat) == d && world(at.readCert) == d && world(at.readKey) == d && world(at'.stat) == d;
    FilledIsFresh(world, matches, c, now, at.stat);
  }

  // ----- Whole runs -----

  function Serve(c: Cache, world: Timeline, matches: Matching, calls: seq<Moments>): (Cache, seq<Served>)
    decreases calls
  {
    if calls == [] then (c, [])
    else
      var (c', served) := CurrentOutcome(c, world, matches, calls[0]);
      var (c'', rest) := Serve(c', world, matches, calls[1..]);
      (c'', [served] + rest)
  }

  /** The mutex serialises the calls: each one starts after the previous one ended. */
  predicate Serialised(now: nat, calls: seq<Moments>)
    decreases calls
  {
    calls == [] || (Ordered(calls[0]) && now <= calls[0].stat && Serialised(calls[0].readKey, calls[1..]))
  }

  /** No answer is an error, and an answer that is not a reload repeats what was held. */
  predicate Chain(held: Pair, served: seq<Served>)
    decreases served
  {
    served == [] ||
    (&& !served[0].Error?
     && (!served[0].Reloaded? ==> served[0].cert == held)
     && Chain(served[0].cert, served[1..]))
  }

  /** Over any sequence of calls after construction there is no error, and every fallback is
      to the certificate served just before, hence to the last good one.  Nothing is asked of
      the disk. */
  lemma {:induction false} RunNeverErrors(world: Timeline, matches: Matching, c: Cache, calls: seq<Moments>)
    requires c.cert.Some?
    ensures var (c', served) := Serve(c, world, matches, calls);
            |served| == |calls| && Chain(c.cert.value, served)
    decreases calls
  {
    if calls != [] {
      var (c', first) := CurrentOutcome(c, world, matches, calls[0]);
      RunNeverErrors(world, matches, c', calls[1..]);
      var rest := Serve(c', world, matches, calls[1..]).1;
      assert ([first] + rest)[1..] == rest;
    }
  }

  /** Every answer that is not a fallback was on disk during its own call. */
  ghost predicate AllOnDisk(world: Timeline, calls: seq<Moments>, served: seq<Served>) {
    && |served| == |calls|
    && forall i :: 0 <= i < |calls| ==>
         !served[i].Error? && (!served[i].Fallback? ==> OnDiskDuring(world, calls[i], served[i].cert.leaf))
  }

  /** On a disk that tells, no run serves a certificate that was not there. */
  lemma {:induction false} RunServesWhatWasOnDisk(world: Timeline, matches: Matching, c: Cache, now: nat, calls: seq<Moments>)
    requires DiskTells(world) && Filled(world, matches, c, now) && Serialised(now, calls)
    ensures AllOnDisk(world, calls, Serve(c, world, matches, calls).1)
    decreases calls
  {
    if calls != [] {
      CurrentServes(world, matches, c, now, calls[0]);
      var (c', first) := CurrentOutcome(c, world, matches, calls[0]);
      RunServesWhatWasOnDisk(world, matches, c', calls[0].readKey, calls[1..]);
      var rest := Serve(c', world, matches, calls[1..]).1;
      forall i | 0 <= i < |calls|
        ensures var a := ([first] + rest)[i];
                !a.Error? && (!a.Fallback? ==> OnDiskDuring(world, calls[i], a.cert.leaf))
      {
        if i > 0 {
          assert calls[i] == calls[1..][i - 1] && ([first] + rest)[i] == rest[i - 1];
        }
      }
    }
  }

  // ----- Exactly when runs can be trusted -----

  /** Whatever pairs leaves with keys, every run after a successful load is served from disk. */
  ghost predicate RunsAreFresh(world: Timeline) {
    forall matches: Matching, at: Moments, calls: seq<Moments> ::
      Ordered(at) && Serialised(at.readKey, calls) && Load(world, matches, at).Some? ==>
        AllOnDisk(world, calls, Serve(Loaded(world, matches, at), world, matches, calls).1)
  }

  function Loaded(world: Timeline, matches: Matching, at: Moments): Cache
    requires Load(world, matches, at).Some?
  {
    Cache(Some(Load(world, matches, at).value.0), Load(world, matches, at).value.1)
  }

  /** Every run can be trusted exactly when the disk tells: a condition on stat and read
      alone, whatever is cached and whenever calls come. */
  lemma RunsAreFreshExactlyWhenDiskTells(world: Timeline)
    ensures RunsAreFresh(world) <==> DiskTells(world)
  {
    if DiskTells(world) {
      forall matches: Matching, at: Moments, calls: seq<Moments> |
        Ordered(at) && Serialised(at.readKey, calls) && Load(world, matches, at).Some?
        ensures AllOnDisk(world, calls, Serve(Loaded(world, matches, at), world, matches, calls).1)
      {
        LoadFills(world, matches, at);
        RunServesWhatWasOnDisk(world, matches, Loaded(world, matches, at), at.readKey, calls);
      }
    }
    if RunsAreFresh(world) {
      forall s: nat, r: nat, k: nat, t: nat | s <= r <= k <= t
        ensures TellsAt(world, s, r, k, t)
      {
        FreshRunTells(world, s, r, k, t);
      }
    }
  }

  /** One load at `s`, `r` and `k` and one call at `t` put the disk to the question. */
  lemma FreshRunTells(world: Timeline, s: nat, r: nat, k: nat, t: nat)
    requires RunsAreFresh(world) && s <= r <= k <= t
    ensures TellsAt(world, s, r, k, t)
  {
    if Stat(world(s)).Some? && Stat(world(s)) == Stat(world(t)) && ReadLeaf(world(r)).Some? && ReadKey(world(k)).Some? {
      var matches: Matching := (l, q) => true;
      var at, call := Moments(s, s, r, k), Moments(t, t, t, t);
      var c := Loaded(world, matches, at);
      var served := Serve(c, world, matches, [call]).1;
      assert Serialised(t, [call][1..]) && Serialised(k, [call]);
      assert AllOnDisk(world, [call], served);
      assert served[0] == CurrentOutcome(c, world, matches, call).1 == Unchanged(c.cert.value);
      assert OnDiskDuring(world, [call][0], served[0].cert.leaf);
    }
  }

  /** A certificate replaced once, under the same fingerprint. */
  function ReplacedUnnoticed(): Timeline {
    var fp := Fingerprint(5, 700);
    (t: nat) => if t == 0 then Disk(Some(CertFile(fp, Some(1))), Some(1), true, true)
                else Disk(Some(CertFile(fp, Some(2))), Some(2), true, true)
  }

  /** Such a replacement is never noticed: the old certificate is served for ever. */
  lemma ReusedFingerprintServesStale(matches: Matching, at: Moments)
    requires matches(1, 1) && matches(2, 2) && Ordered(at) && at.stat > 0
    ensures var world := ReplacedUnnoticed();
            var l := Load(world, matches, Moments(0, 0, 0, 0));
            && !DiskTells(world)
            && l.Some?
            && CurrentOutcome(Cache(Some(l.value.0), l.value.1), world, matches, at).1 == Unchanged(Pair(1, 1))
            && LeafOnDisk(world(at.stat)) == Some(2)
  {
    assert !TellsAt(ReplacedUnnoticed(), 0, 0, 0, 1);
  }
}
