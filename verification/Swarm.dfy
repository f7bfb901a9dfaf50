/**
 Chunked blob transfer of merkle-tox-core: the bitmask of received chunks
 (`ChunkTracker`) and the assignment of chunks to seeders (`SwarmSync`).  Peers and
 times are numbers; the Bao verification of a chunk is a parameter.
 */
module Swarm {
  import opened Wrappers

  type Pk = nat

  const CHUNK_SIZE: nat := 64 * 1024
  const FETCH_TIMEOUT: int := 15_000
  const MAX_PER_PEER: nat := 4

  function NumChunks(size: nat): nat { (size + CHUNK_SIZE - 1) / CHUNK_SIZE }

  // ------------------------------------------------------- received chunks

  class ChunkTracker {
    const totalSize: nat
    /** The bits of the mask, lowest bit of each byte first: always whole bytes. */
    var mask: seq<bool>

    ghost predicate Valid()
      reads this
    {
      NumChunks(totalSize) <= |mask|
    }

    ghost predicate Missing(chunk: nat)
      reads this
    {
      chunk < NumChunks(totalSize) && (chunk < |mask| ==> !mask[chunk])
    }

    constructor (totalSize: nat)
      ensures Valid() && this.totalSize == totalSize
      ensures forall c: nat | c < NumChunks(totalSize) :: Missing(c)
    {
      this.totalSize := totalSize;
      mask := seq((NumChunks(totalSize) + 7) / 8 * 8, _ => false);
    }

    method MarkReceived(chunk: nat)
      requires Valid()
      modifies this
      ensures Valid()
      ensures forall c: nat :: Missing(c) <==> old(Missing(c)) && c != chunk
    {
      if chunk < |mask| { mask := mask[chunk := true]; }
    }

    predicate IsReceived(chunk: nat)
      reads this
    {
      chunk < |mask| && mask[chunk]
    }

    method IsComplete() returns (complete: bool)
      requires Valid()
      ensures complete <==> forall c: nat :: !Missing(c)
    {
      for i := 0 to NumChunks(totalSize)
        invariant forall c: nat | c < i :: !Missing(c)
      {
        if !IsReceived(i) {
          assert Missing(i);
          return false;
        }
      }
      return true;
    }

    /** The first missing chunk at or after the hint, else the first below it. */
    method NextMissing(hint: nat) returns (next: Option<nat>)
      requires Valid() && hint <= NumChunks(totalSize)
      ensures next.Some? ==> Missing(next.value) && next.value < NumChunks(totalSize)
      ensures next.Some? && next.value >= hint ==> forall c: nat | hint <= c < next.value :: !Missing(c)
      ensures next.Some? && next.value < hint ==> forall c: nat | Missing(c) :: next.value <= c < hint
      ensures next.None? ==> forall c: nat :: !Missing(c)
    {
      for i := hint to NumChunks(totalSize)
        invariant forall c: nat | hint <= c < i :: !Missing(c)
      {
        if !IsReceived(i) { return Some(i); }
      }
      for i := 0 to hint
        invariant forall c: nat | c < i || c >= hint :: !Missing(c)
      {
        if !IsReceived(i) { return Some(i); }
      }
      return None;
    }
  }

  // ------------------------------------------------------- fetches

  /** The map of active fetches, in insertion order. */
  datatype Fetch = Fetch(chunk: nat, peer: Pk, start: int)

  datatype Request = Request(peer: Pk, offset: nat, length: nat)

  predicate Active(fetches: seq<Fetch>, chunk: nat) {
    exists i | 0 <= i < |fetches| :: fetches[i].chunk == chunk
  }

  /** Fetches assigned to a peer. */
  function Load(fetches: seq<Fetch>, peer: Pk): nat {
    if fetches == [] then 0
    else Load(fetches[..|fetches| - 1], peer) + if fetches[|fetches| - 1].peer == peer then 1 else 0
  }

  ghost predicate DistinctChunks(fetches: seq<Fetch>) {
    forall i, j | 0 <= i < j < |fetches| :: fetches[i].chunk != fetches[j].chunk
  }

  /** `retain` */
  function Retain(fetches: seq<Fetch>, keep: Fetch -> bool): seq<Fetch> {
    if fetches == [] then []
    else
      var last := fetches[|fetches| - 1];
      Retain(fetches[..|fetches| - 1], keep) + if keep(last) then [last] else []
  }

  lemma {:induction false} RetainMembers(fetches: seq<Fetch>, keep: Fetch -> bool)
    ensures forall f :: f in Retain(fetches, keep) <==> f in fetches && keep(f)
    ensures DistinctChunks(fetches) ==> DistinctChunks(Retain(fetches, keep))
  {
    if fetches != [] {
      var init, last := fetches[..|fetches| - 1], fetches[|fetches| - 1];
      RetainMembers(init, keep);
      assert fetches == init + [last];
      var r := Retain(init, keep);
      if DistinctChunks(fetches) {
        assert DistinctChunks(init);
        forall i | 0 <= i < |r| ensures r[i].chunk != last.chunk { assert r[i] in init; }
      }
    }
  }

  lemma {:induction false} RetainLoad(fetches: seq<Fetch>, keep: Fetch -> bool, peer: Pk)
    ensures Load(Retain(fetches, keep), peer) <= Load(fetches, peer)
  {
    if fetches != [] {
      var init, last := fetches[..|fetches| - 1], fetches[|fetches| - 1];
      RetainLoad(init, keep, peer);
      var r := Retain(fetches, keep);
      if keep(last) { assert r[..|r| - 1] == Retain(init, keep); } else { assert r == Retain(init, keep); }
    }
  }

  lemma AppendLoads(fetches: seq<Fetch>, f: Fetch)
    ensures forall p: Pk :: Load(fetches + [f], p) == Load(fetches, p) + if p == f.peer then 1 else 0
  {
    assert (fetches + [f])[..|fetches|] == fetches;
  }

  lemma AppendDistinct(fetches: seq<Fetch>, f: Fetch)
    requires DistinctChunks(fetches) && !Active(fetches, f.chunk)
    ensures DistinctChunks(fetches + [f]) && Active(fetches + [f], f.chunk)
  {
    assert (fetches + [f])[|fetches|] == f;
  }

  function ChunkRequest(peer: Pk, chunk: nat): Request { Request(peer, chunk * CHUNK_SIZE, CHUNK_SIZE) }

  /** Every byte of the blob lies in exactly one chunk, which is asked for, and the answer is booked to that chunk. */
  lemma ChunksCover(size: nat, offset: nat, peer: Pk)
    ensures offset < size ==>
              var c := offset / CHUNK_SIZE;
              var r := ChunkRequest(peer, c);
              && c < NumChunks(size) && r.offset <= offset < r.offset + r.length && r.offset / CHUNK_SIZE == c
              && forall d: nat ::
                   ChunkRequest(peer, d).offset <= offset < ChunkRequest(peer, d).offset + CHUNK_SIZE ==> d == c
  {
  }

  /** Every chunk has bytes of the blob, and its request is booked to it when it is answered. */
  lemma RequestsReturn(size: nat, chunk: nat, peer: Pk)
    ensures ChunkRequest(peer, chunk).offset / CHUNK_SIZE == chunk
    ensures chunk < NumChunks(size) <==> ChunkRequest(peer, chunk).offset < size
  {
  }

  /** The request that starts each fetch. */
  function RequestsFor(fetches: seq<Fetch>): seq<Request> {
    if fetches == [] then []
    else
      var f := fetches[|fetches| - 1];
      RequestsFor(fetches[..|fetches| - 1]) + [ChunkRequest(f.peer, f.chunk)]
  }

  function InFlight(inFlight: map<Pk, nat>, peer: Pk): nat { if peer in inFlight then inFlight[peer] else 0 }

  /** The counts kept while requests are selected. */
  ghost predicate Tally(inFlight: map<Pk, nat>, fetches: seq<Fetch>) {
    forall p: Pk :: InFlight(inFlight, p) == Load(fetches, p)
  }

  lemma AppendTally(inFlight: map<Pk, nat>, fetches: seq<Fetch>, f: Fetch)
    requires Tally(inFlight, fetches)
    ensures Tally(inFlight[f.peer := InFlight(inFlight, f.peer) + 1], fetches + [f])
  {
    AppendLoads(fetches, f);
  }

  lemma AppendSaturated(seeders: set<Pk>, fetches: seq<Fetch>, f: Fetch)
    requires Saturated(seeders, fetches)
    ensures Saturated(seeders, fetches + [f])
  {
    AppendLoads(fetches, f);
  }

  /** Fewer fetches first, then the smaller key. */
  predicate Preferred(load: nat, p: Pk, load': nat, p': Pk) {
    load < load' || (load == load' && p <= p')
  }

  ghost predicate Saturated(seeders: set<Pk>, fetches: seq<Fetch>) {
    forall p | p in seeders :: Load(fetches, p) >= MAX_PER_PEER
  }

  class SwarmSync {
    const tracker: ChunkTracker
    var seeders: set<Pk>
    var fetches: seq<Fetch>

    /** What every operation keeps. */
    ghost predicate Valid()
      reads this, tracker
    {
      && tracker.Valid() && DistinctChunks(fetches)
      && (forall p: Pk :: Load(fetches, p) <= MAX_PER_PEER)
      && (forall i | 0 <= i < |fetches| :: fetches[i].peer in seeders && tracker.Missing(fetches[i].chunk))
    }

    constructor (size: nat)
      ensures Valid() && fresh(tracker) && tracker.totalSize == size && seeders == {} && fetches == []
      ensures forall c: nat | c < NumChunks(size) :: tracker.Missing(c)
    {
      tracker := new ChunkTracker(size);
      seeders, fetches := {}, [];
    }

    method AddSeeder(peer: Pk)
      requires Valid()
      modifies `seeders
      ensures Valid() && seeders == old(seeders) + {peer}
    {
      seeders := seeders + {peer};
    }

    method RemoveSeeder(peer: Pk)
      requires Valid()
      modifies `seeders, `fetches
      ensures Valid() && seeders == old(seeders) - {peer}
      ensures forall f :: f in fetches <==> f in old(fetches) && f.peer != peer
    {
      Keep((f: Fetch) => f.peer != peer);
      forall i | 0 <= i < |fetches| ensures fetches[i].peer != peer { assert fetches[i] in fetches; }
      seeders := seeders - {peer};
    }

    method ClearStalledFetches(now: int)
      requires Valid()
      modifies `fetches
      ensures Valid()
      ensures forall f :: f in fetches <==> f in old(fetches) && now - f.start < FETCH_TIMEOUT
    {
      Keep((f: Fetch) => now - f.start < FETCH_TIMEOUT);
    }

    method Keep(keep: Fetch -> bool)
      requires Valid()
      modifies `fetches
      ensures Valid()
      ensures forall f :: f in fetches <==> f in old(fetches) && keep(f)
    {
      RetainMembers(fetches, keep);
      ghost var before := fetches;
      fetches := Retain(fetches, keep);
      forall p: Pk ensures Load(fetches, p) <= MAX_PER_PEER { RetainLoad(before, keep, p); }
      forall i | 0 <= i < |fetches| ensures fetches[i].peer in seeders && tracker.Missing(fetches[i].chunk) {
        assert fetches[i] in before;
      }
    }

    /** A verified chunk is no longer missing or fetched; a bad one is only no longer fetched. */
    method OnChunkReceived(offset: nat, verified: bool) returns (ok: bool)
      requires Valid()
      modifies `fetches, tracker
      ensures Valid() && ok == verified
      ensures forall f :: f in fetches <==> f in old(fetches) && f.chunk != offset / CHUNK_SIZE
      ensures forall c: nat :: tracker.Missing(c) <==>
        old(tracker.Missing(c)) && !(verified && c == offset / CHUNK_SIZE)
    {
      var chunk := offset / CHUNK_SIZE;
      Keep((f: Fetch) => f.chunk != chunk);
      if !verified { return false; }
      forall i | 0 <= i < |fetches| ensures fetches[i].chunk != chunk { assert fetches[i] in fetches; }
      tracker.MarkReceived(chunk);
      return true;
    }

    /** How many fetches each peer has. */
    method CountInFlight() returns (inFlight: map<Pk, nat>)
      ensures Tally(inFlight, fetches)
    {
      inFlight := map[];
      for i := 0 to |fetches|
        invariant Tally(inFlight, fetches[..i])
      {
        assert fetches[..i + 1][..i] == fetches[..i];
        var peer := fetches[i].peer;
        inFlight := inFlight[peer := InFlight(inFlight, peer) + 1];
      }
      assert fetches[..|fetches|] == fetches;
    }

    /** The seeder below the limit with the least fetches, the smallest key among equals. */
    method PickSeeder(inFlight: map<Pk, nat>) returns (best: Option<Pk>)
      requires Tally(inFlight, fetches)
      ensures best.None? ==> Saturated(seeders, fetches)
      ensures best.Some? ==> best.value in seeders && Load(fetches, best.value) < MAX_PER_PEER
      ensures best.Some? ==> forall p | p in seeders ::
        Preferred(Load(fetches, best.value), best.value, Load(fetches, p), p)
    {
      best := None;
      var least := 0;
      var rest := seeders;
      while rest != {}
        invariant rest <= seeders
        invariant best.None? ==> forall p | p in seeders - rest :: Load(fetches, p) >= MAX_PER_PEER
        invariant best.Some? ==> best.value in seeders && least == Load(fetches, best.value) < MAX_PER_PEER
        invariant best.Some? ==> forall p | p in seeders - rest :: Preferred(least, best.value, Load(fetches, p), p)
        decreases rest
      {
        var p :| p in rest;
        rest := rest - {p};
        var load := InFlight(inFlight, p);
        if load < MAX_PER_PEER && (best.None? || Preferred(load, p, least, best.value)) {
          best, least := Some(p), load;
        }
      }
    }

    /** Assigns a chunk to a seeder with room. */
    method Start(chunk: nat, peer: Pk, now: int)
      requires Valid() && tracker.Missing(chunk) && !Active(fetches, chunk)
      requires peer in seeders && Load(fetches, peer) < MAX_PER_PEER
      modifies `fetches
      ensures Valid() && fetches == old(fetches) + [Fetch(chunk, peer, now)] && Active(fetches, chunk)
    {
      AppendLoads(fetches, Fetch(chunk, peer, now));
      AppendDistinct(fetches, Fetch(chunk, peer, now));
      fetches := fetches + [Fetch(chunk, peer, now)];
    }

    /** Assigns one chunk, unless it is being fetched or no seeder has room. */
    method Assign(chunk: nat, inFlight: map<Pk, nat>, now: int) returns (peer: Option<Pk>, after: map<Pk, nat>)
      requires Valid() && tracker.Missing(chunk) && Tally(inFlight, fetches)
      modifies `fetches
      ensures Valid() && Tally(after, fetches)
      ensures Active(fetches, chunk) || Saturated(seeders, fetches)
      ensures fetches == old(fetches) + if peer.Some? then [Fetch(chunk, peer.value, now)] else []
    {
      peer, after := None, inFlight;
      if Active(fetches, chunk) { return; }
      peer := PickSeeder(inFlight);
      if peer.None? { return; }
      AppendTally(inFlight, fetches, Fetch(chunk, peer.value, now));
      Start(chunk, peer.value, now);
      after := inFlight[peer.value := InFlight(inFlight, peer.value) + 1];
    }

    /** The missing chunks below `upTo` are being fetched, or nobody has room for them. */
    ghost predicate Covered(upTo: nat)
      reads this, tracker
    {
      Saturated(seeders, fetches) || forall c: nat | c < upTo && tracker.Missing(c) :: Active(fetches, c)
    }

    /** One round: offers the next missing chunk to the seeders. */
    method Offer(hint: nat, inFlight: map<Pk, nat>, now: int, ghost upTo: nat)
      returns (chunk: Option<nat>, peer: Option<Pk>, after: map<Pk, nat>, ghost upTo': nat)
      requires Valid() && Tally(inFlight, fetches) && Covered(upTo)
      requires hint <= NumChunks(tracker.totalSize) && (upTo == hint || upTo == NumChunks(tracker.totalSize))
      modifies `fetches
      ensures Valid() && Tally(after, fetches)
      ensures Covered(upTo') && (upTo == NumChunks(tracker.totalSize) ==> upTo' == upTo)
      ensures chunk.None? ==> peer.None? && upTo' == NumChunks(tracker.totalSize)
      ensures chunk.Some? ==> && chunk.value < NumChunks(tracker.totalSize)
                              && (upTo' == NumChunks(tracker.totalSize) || upTo' == chunk.value + 1 > hint)
      ensures fetches == old(fetches) + if peer.Some? then [Fetch(chunk.value, peer.value, now)] else []
    {
      peer, after, upTo' := None, inFlight, NumChunks(tracker.totalSize);
      chunk := tracker.NextMissing(hint);
      if chunk.None? { return; }
      ghost var before := fetches;
      peer, after := Assign(chunk.value, inFlight, now);
      assert peer.None? ==> fetches == before;
      StaysActive(before, fetches);
      if peer.Some? && Saturated(seeders, before) {
        AppendSaturated(seeders, before, Fetch(chunk.value, peer.value, now));
      }
      if chunk.value >= hint && upTo == hint { upTo' := chunk.value + 1; }
    }

    /**
     Selects requests until the limit is met.  It is work-conserving: it stops short only
     when every seeder is saturated or every missing chunk is being fetched.
     */
    method NextRequests(limit: nat, now: int) returns (reqs: seq<Request>, ghost added: seq<Fetch>)
      requires Valid()
      modifies `fetches
      ensures Valid()
      ensures fetches == old(fetches) + added && reqs == RequestsFor(added) && |reqs| == |added| <= limit
      ensures forall f | f in added :: f.start == now
      ensures || |reqs| == limit
              || Saturated(seeders, fetches)
              || forall c: nat | tracker.Missing(c) :: Active(fetches, c)
    {
      reqs, added := [], [];
      var hint: nat := 0;
      var inFlight: map<Pk, nat> := CountInFlight();
      var n := NumChunks(tracker.totalSize);
      ghost var upTo: nat := 0;
      for k := 0 to n
        invariant Valid() && Tally(inFlight, fetches) && Covered(upTo)
        invariant hint <= n && k <= upTo && (upTo == hint || upTo == n)
        invariant fetches == old(fetches) + added && reqs == RequestsFor(added) && |reqs| == |added| <= limit
        invariant forall f | f in added :: f.start == now
      {
        if |reqs| >= limit { break; }
        var chunk, peer;
        chunk, peer, inFlight, upTo := Offer(hint, inFlight, now, upTo);
        if chunk.None? { break; }
        if peer.Some? {
          reqs := reqs + [ChunkRequest(peer.value, chunk.value)];
          ghost var f := Fetch(chunk.value, peer.value, now);
          assert (added + [f])[..|added|] == added;
          added := added + [f];
        }
        hint := chunk.value + 1;
      }
    }
  }

  lemma StaysActive(before: seq<Fetch>, after: seq<Fetch>)
    requires before <= after
    ensures forall c: nat | Active(before, c) :: Active(after, c)
  {
    forall c: nat | Active(before, c) ensures Active(after, c) {
      var i :| 0 <= i < |before| && before[i].chunk == c;
      assert after[i].chunk == c;
    }
  }
}
