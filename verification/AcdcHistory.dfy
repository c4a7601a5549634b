/**
 What AC-DC's indexes and metadata hold, told by the requests made: the LBA index is an LRU list of each bucket's
 requests, a chunk's metadata lists the last sixty addresses, and a read is a hit just when both lead to its address.
 */
module AcdcHistory {
  import opened Common
  import opened AcdcModel
  import LbaTable
  import LbaReferences
  import LbaHistory
  import FpTable

  // ----- The LBA index

  /** Over any run of reads and writes, hits included, each bucket is the LRU list of what was recorded in it. */
  lemma RunRefinesLru(cfg: Config, s: State, steps: seq<Step>, b: nat)
    requires LbaReferences.BucketsOk(s.lba, cfg.separator) && b < |s.lba|
    requires forall i :: 0 <= i < |steps| ==> cfg.lbaBucket(steps[i].op.addr) < |s.lba|
    ensures var r := Run(cfg, s, steps);
            && |r.lba| == |s.lba|
            && LbaTable.Entries(r.lba[b])
               == LbaHistory.LruRun(LbaTable.Entries(s.lba[b]), |s.lba[b]|, Requests(cfg, s, steps), b)
  {
    RunTouches(cfg, s, steps);
    LbaHistory.RunRefinesLru(s.lba, Requests(cfg, s, steps), cfg.separator, b);
  }

  /**
   After any request the most recent entry of its address's bucket is the address's, with the hash of what was written,
   of what a miss read, or on a hit of what was hit; the other buckets are as they were.
   */
  lemma StepIsMostRecent(cfg: Config, s: State, op: Request, c: Choice)
    requires LbaReferences.BucketsOk(s.lba, cfg.separator) && cfg.lbaBucket(op.addr) < |s.lba|
    ensures var r, b := Next(cfg, s, op, c), cfg.lbaBucket(op.addr);
            var h := if op.Write? then cfg.fpHash(cfg.fpOf(op.data))
                     else if Hit(cfg, s, op.addr).Some? then HashFor(cfg, s.lba, op.addr).value
                     else cfg.fpHash(cfg.fpOf(ChunkAt(s.primary, op.addr, cfg.chunk)));
            && |r.lba| == |s.lba| && (forall d :: 0 <= d < |s.lba| && d != b ==> r.lba[d] == s.lba[d])
            && LbaTable.Entries(r.lba[b])
               == LbaTable.LruUpdate(LbaTable.Entries(s.lba[b]), |s.lba[b]|, cfg.lbaKey(op.addr), h)
  {
    NextTouches(cfg, s, op, c);
    LbaHistory.TouchRefinesLru(s.lba, cfg.lbaBucket(op.addr), cfg.lbaKey(op.addr), TouchedHash(cfg, s, op),
                               cfg.separator);
    hide Next, LbaReferences.Touch, LbaTable.LruUpdate, LbaTable.Entries;
  }

  /**
   From empty indexes an address is known, with the hash last recorded for its LBA hash, exactly when fewer other
   signatures than its bucket has slots were requested there since.
   */
  lemma KnownIff(cfg: Config, s: State, steps: seq<Step>, a: Addr, v: nat)
    requires Unused(cfg, s) && cfg.lbaBucket(a) < |s.lba|
    requires forall i :: 0 <= i < |steps| ==> cfg.lbaBucket(steps[i].op.addr) < |s.lba|
    ensures var rs, b, key := Requests(cfg, s, steps), cfg.lbaBucket(a), cfg.lbaKey(a);
            HashFor(cfg, Run(cfg, s, steps).lba, a) == Some(v)
            <==> LbaHistory.LastHash(rs, b, key) == Some(v) && |LbaHistory.Since(rs, b, key)| < |s.lba[b]|
  {
    UnusedInv(cfg, s, {});
    RunTouches(cfg, s, steps);
    LbaHistory.FoundIff(s.lba, Requests(cfg, s, steps), cfg.separator, cfg.lbaBucket(a), cfg.lbaKey(a), v);
  }

  // ----- Hits

  /** A slot in use that holds the key. */
  predicate Slotted(t: Table, i: nat, key: nat) {
    i < |t| && t[i].valid && t[i].key == key
  }

  /** The address's slot `i` names a chunk whose first slot is `j` and whose metadata `m` lists the address. */
  ghost predicate LeadsTo(cfg: Config, s: State, a: Addr, i: nat, j: nat, m: Meta) {
    && cfg.lbaBucket(a) < |s.lba| && Slotted(s.lba[cfg.lbaBucket(a)], i, cfg.lbaKey(a))
    && var h := s.lba[cfg.lbaBucket(a)][i].value;
    var b := cfg.fpBucket(h);
    && b < |s.fp| && Slotted(s.fp[b], j, cfg.fpKey(h))
    && (forall k: nat :: k < j ==> !Slotted(s.fp[b], k, cfg.fpKey(h)))
    && (b, j) in s.meta && s.meta[(b, j)] == m && a in m.lbas
  }

  /** A read is a hit exactly when the slots of the two indexes lead to metadata that lists its address. */
  lemma HitIff(cfg: Config, s: State, a: Addr, m: Meta)
    requires Inv(cfg, s)
    ensures Hit(cfg, s, a) == Some(m) <==> exists i: nat, j: nat :: LeadsTo(cfg, s, a, i, j, m)
  {
    if Hit(cfg, s, a) == Some(m) {
      var t, h := s.lba[cfg.lbaBucket(a)], HashFor(cfg, s.lba, a).value;
      var i, j := Find(t, cfg.lbaKey(a)), EntryAt(cfg, s.fp, h).value;
      assert LeadsTo(cfg, s, a, i, j, m);
    }
    if i: nat, j: nat :| LeadsTo(cfg, s, a, i, j, m) {
      var t := s.lba[cfg.lbaBucket(a)];
      OneSlot(t, i, cfg.lbaKey(a));
      FirstSlot(s.fp[cfg.fpBucket(t[i].value)], j, cfg.fpKey(t[i].value));
    }
  }

  lemma OneSlot(t: Table, i: nat, key: nat)
    requires LbaTable.Wf(t) && Slotted(t, i, key)
    ensures Find(t, key) == i
  {
  }

  lemma FirstSlot(t: Table, j: nat, key: nat)
    requires Slotted(t, j, key) && forall k: nat :: k < j ==> !Slotted(t, k, key)
    ensures Find(t, key) == j && FpTable.Lookup(t, key).Some? && FpTable.Lookup(t, key).value.0 == j
  {
    var i := Find(t, key);
    assert i < |t| ==> Slotted(t, i, key);
  }

  // ----- The addresses that a chunk's metadata lists

  /** The metadata lists the last sixty of the addresses `hist`, the next one over the oldest of them. */
  ghost predicate Ring(m: Meta, hist: seq<Addr>) {
    && |m.lbas| == (if |hist| < MAX_LBAS then |hist| else MAX_LBAS)
    && m.next == (if |hist| < MAX_LBAS then 0 else |hist| % MAX_LBAS)
    && forall k :: 0 <= k < |hist| && |hist| - MAX_LBAS <= k ==> m.lbas[k % MAX_LBAS] == hist[k]
  }

  lemma AddKeepsRing(m: Meta, hist: seq<Addr>, a: Addr)
    requires Ring(m, hist)
    ensures Ring(AddLba(m, a), hist + [a])
  {
    var r, n := AddLba(m, a), |hist|;
    forall k | 0 <= k < n + 1 && n + 1 - MAX_LBAS <= k ensures r.lbas[k % MAX_LBAS] == (hist + [a])[k] {
      if n >= MAX_LBAS && k < n { assert k % MAX_LBAS != n % MAX_LBAS; }
    }
  }

  lemma RingLists(m: Meta, hist: seq<Addr>, a: Addr)
    requires Ring(m, hist)
    ensures a in m.lbas <==> exists k :: 0 <= k < |hist| && |hist| - MAX_LBAS <= k && hist[k] == a
  {
    if k :| 0 <= k < |hist| && |hist| - MAX_LBAS <= k && hist[k] == a { assert m.lbas[k % MAX_LBAS] == a; }
    if a in m.lbas {
      var i :| 0 <= i < |m.lbas| && m.lbas[i] == a;
      var n := |hist|;
      var k := if n <= MAX_LBAS then i
               else if i < n % MAX_LBAS then n - n % MAX_LBAS + i
               else n - n % MAX_LBAS - MAX_LBAS + i;
      assert k % MAX_LBAS == i && 0 <= k < n && n - MAX_LBAS <= k;
    }
  }

  /** Deduplicating content lists the address with it, once, as the last; a new chunk starts a list of its own. */
  lemma CacheKeepsRing(cfg: Config, s: State, a: Addr, f: Fp, c: Choice, hist: seq<Addr>)
    requires Inv(cfg, s) && Allowed(cfg, s, f, c)
    requires Duplicate(cfg, s, f) ==> Ring(MetaAt(cfg, s.fp, s.meta, cfg.fpHash(f)).value, hist)
    ensures var r := Cache(cfg, s, a, f, c);
            var m := MetaAt(cfg, r.fp, r.meta, cfg.fpHash(f));
            && m.Some? && m.value.fp == f
            && Ring(m.value, if !Duplicate(cfg, s, f) then [a]
                             else if a in MetaAt(cfg, s.fp, s.meta, cfg.fpHash(f)).value.lbas then hist
                             else hist + [a])
  {
    if Duplicate(cfg, s, f) {
      AddKeepsRing(MetaAt(cfg, s.fp, s.meta, cfg.fpHash(f)).value, hist, a);
      hide AddLba, TouchLba, Ring;
    } else {
      NewMeta(cfg, s, a, f, c);
      hide Cache;
    }
  }

  lemma NewMeta(cfg: Config, s: State, a: Addr, f: Fp, c: Choice)
    requires Inv(cfg, s) && Allowed(cfg, s, f, c) && !Duplicate(cfg, s, f)
    ensures var r := Cache(cfg, s, a, f, c);
            MetaAt(cfg, r.fp, r.meta, cfg.fpHash(f)) == Some(Meta(f, [a], 0, c.compressedLen))
  {
    var h := cfg.fpHash(f);
    FpTable.UpdateMeaning(s.fp[cfg.fpBucket(h)], cfg.fpKey(h), c.n, c.count, c.gone, c.slot, c.table);
    hide TouchLba, FpTable.Updates;
  }
}
