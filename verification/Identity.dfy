/**
 Device delegation and revocation of merkle-tox-core (`IdentityManager`), within one
 conversation: authorization records form a possibly cyclic graph from devices to
 their issuers, and a device is authorized when a live chain leads to the master key.

 Keys, hashes and permission bits are numbers; a master key and the device key of the
 same bytes are the same number.  Signatures are a parameter.
 */
module Identity {
  import opened Wrappers

  type Pk = nat
  type Hash = nat

  const MAX_AUTH_DEPTH: nat := 16
  const MAX_DEVICES_PER_IDENTITY: nat := 32
  const MAX_GROUP_DEVICES: nat := 4096
  const I64_MAX: int := 0x7fff_ffff_ffff_ffff
  const U64_MAX: nat := 0xffff_ffff_ffff_ffff

  const ADMIN: nat := 0
  const ALL: set<nat> := {0, 1, 2}

  datatype AuthRecord = AuthRecord(logical: Pk, issuer: Pk, perms: set<nat>, expires: int, rank: nat, hash: Hash)

  datatype Seniority = Seniority(rank: nat, hash: Hash)

  datatype Revocation = Revocation(rank: nat, revoker: Seniority, hash: Hash)

  /** `ancestors` matters only when the evaluating hash is not zero. */
  datatype Context = Context(evaluating: Hash, ancestors: set<Hash>)

  /** `order` is the order in which the hash map of devices is iterated. */
  datatype State = State(records: map<Pk, seq<AuthRecord>>, order: seq<Pk>, revocations: map<Pk, seq<Revocation>>)

  /** What is being asked: for whom, when and in which history. */
  datatype Query = Query(ctx: Context, logical: Pk, now: int, rank: nat)

  predicate SeniorOrEqual(a: Seniority, b: Seniority) {
    a.rank < b.rank || (a.rank == b.rank && a.hash <= b.hash)
  }

  function RecordsOf(s: State, device: Pk): seq<AuthRecord> {
    if device in s.records then s.records[device] else []
  }

  function RevocationsOf(s: State, device: Pk): seq<Revocation> {
    if device in s.revocations then s.revocations[device] else []
  }

  predicate Owns(s: State, device: Pk, hash: Hash) {
    exists r | r in RecordsOf(s, device) :: r.hash == hash
  }

  /** The first device, in iteration order, with a record under `hash`. */
  function OwnerOf(s: State, order: seq<Pk>, hash: Hash): Option<Pk> {
    if order == [] then None
    else if Owns(s, order[0], hash) then Some(order[0])
    else OwnerOf(s, order[1..], hash)
  }

  predicate RevokedBy(s: State, device: Pk, hash: Hash) {
    exists r | r in RevocationsOf(s, device) :: r.revoker.hash == hash
  }

  /** `is_mutual_revocation` */
  predicate Mutual(s: State, revokerHash: Hash, targetHash: Hash) {
    && revokerHash != 0 && targetHash != 0
    && var owner := OwnerOf(s, s.order, revokerHash);
       owner.Some? && RevokedBy(s, owner.value, targetHash)
  }

  predicate InHistory(ctx: Context, hash: Hash) {
    hash == 0 || ctx.evaluating == 0 || hash in ctx.ancestors
  }

  /** One revocation, seen from one record of the revoked device. */
  predicate Strikes(s: State, q: Query, rev: Revocation, record: AuthRecord) {
    && InHistory(q.ctx, rev.hash) && rev.rank <= q.rank
    && if Mutual(s, rev.revoker.hash, record.hash)
       then SeniorOrEqual(rev.revoker, Seniority(record.rank, record.hash))
       else rev.revoker.rank <= record.rank
  }

  predicate Live(s: State, q: Query, device: Pk, record: AuthRecord) {
    && record.logical == q.logical && record.expires > q.now && record.rank <= q.rank
    && InHistory(q.ctx, record.hash)
    && !exists rev | rev in RevocationsOf(s, device) :: Strikes(s, q, rev, record)
  }

  // ------------------------------------------------------- the recursions

  function MaxOpt(a: Option<int>, b: Option<int>): Option<int> {
    if a.None? then b else if b.None? then a else if a.value >= b.value then a else b
  }

  function Min(a: int, b: int): int { if a <= b then a else b }

  /** `is_authorized_recursive`: the latest time up to which some path holds. */
  function Authorized(s: State, q: Query, device: Pk, depth: nat): Option<int>
    decreases MAX_AUTH_DEPTH + 1 - depth, 1, 0
  {
    if depth > MAX_AUTH_DEPTH then None
    else if device == q.logical then Some(I64_MAX)
    else AuthorizedBy(s, q, device, RecordsOf(s, device), depth)
  }

  /** The loop over the first records of the device. */
  function AuthorizedBy(s: State, q: Query, device: Pk, records: seq<AuthRecord>, depth: nat): Option<int>
    requires depth <= MAX_AUTH_DEPTH
    decreases MAX_AUTH_DEPTH + 1 - depth, 0, |records|
  {
    if records == [] then None
    else
      var r := records[|records| - 1];
      MaxOpt(AuthorizedBy(s, q, device, records[..|records| - 1], depth),
             if !Live(s, q, device, r) then None
             else if r.issuer == q.logical then Some(r.expires)
             else match Authorized(s, q, r.issuer, depth + 1)
                  case None => None
                  case Some(e) => Some(Min(r.expires, e)))
  }

  function UnionOpt(a: Option<set<nat>>, b: Option<set<nat>>): Option<set<nat>> {
    if a.None? then b else if b.None? then a else Some(a.value + b.value)
  }

  /** `get_permissions_recursive` */
  function Permissions(s: State, q: Query, device: Pk, depth: nat): Option<set<nat>>
    decreases MAX_AUTH_DEPTH + 1 - depth, 1, 0
  {
    if depth > MAX_AUTH_DEPTH then None
    else if device == q.logical then Some(ALL)
    else PermissionsBy(s, q, device, RecordsOf(s, device), depth)
  }

  function PermissionsBy(s: State, q: Query, device: Pk, records: seq<AuthRecord>, depth: nat): Option<set<nat>>
    requires depth <= MAX_AUTH_DEPTH
    decreases MAX_AUTH_DEPTH + 1 - depth, 0, |records|
  {
    if records == [] then None
    else
      var r := records[|records| - 1];
      UnionOpt(PermissionsBy(s, q, device, records[..|records| - 1], depth),
               if !Live(s, q, device, r) then None
               else if r.issuer == q.logical then Some(r.perms)
               else match Permissions(s, q, r.issuer, depth + 1)
                    case None => None
                    case Some(p) => Some(r.perms * p))
  }

  // ------------------------------------------------------- live chains

  /** A chain of live records from the device to the master key, meeting it only at the end. */
  ghost predicate LiveChain(s: State, q: Query, device: Pk, chain: seq<AuthRecord>)
    decreases |chain|
  {
    && chain != [] && chain[0] in RecordsOf(s, device) && Live(s, q, device, chain[0])
    && if |chain| == 1 then chain[0].issuer == q.logical
       else chain[0].issuer != q.logical && LiveChain(s, q, chain[0].issuer, chain[1..])
  }

  /** Chains short enough for the recursion to follow from `depth`. */
  ghost predicate Chain(s: State, q: Query, device: Pk, depth: nat, chain: seq<AuthRecord>) {
    LiveChain(s, q, device, chain) && depth + |chain| <= MAX_AUTH_DEPTH + 1
  }

  function Expiry(chain: seq<AuthRecord>): int
    requires chain != []
  {
    if |chain| == 1 then chain[0].expires else Min(chain[0].expires, Expiry(chain[1..]))
  }

  ghost predicate Grants(chain: seq<AuthRecord>, flag: nat) {
    forall i | 0 <= i < |chain| :: flag in chain[i].perms
  }

  /** Every chain through the first records is reflected in the results. */
  lemma {:induction false} ChainCounts(s: State, q: Query, device: Pk, records: seq<AuthRecord>, depth: nat,
                                       chain: seq<AuthRecord>)
    requires device != q.logical && Chain(s, q, device, depth, chain) && chain[0] in records
    ensures depth <= MAX_AUTH_DEPTH
    ensures var e := AuthorizedBy(s, q, device, records, depth); e.Some? && e.value >= Expiry(chain)
    ensures var p := PermissionsBy(s, q, device, records, depth);
            p.Some? && forall flag | Grants(chain, flag) :: flag in p.value
    decreases |chain|, |records|
  {
    var init, r := records[..|records| - 1], records[|records| - 1];
    if r == chain[0] {
      if |chain| > 1 {
        ChainCounts(s, q, r.issuer, RecordsOf(s, r.issuer), depth + 1, chain[1..]);
        forall flag | Grants(chain, flag) ensures Grants(chain[1..], flag) {
        }
      }
      forall flag | Grants(chain, flag) ensures flag in r.perms {
        assert flag in chain[0].perms;
      }
    } else {
      assert records == init + [r];
      ChainCounts(s, q, device, init, depth, chain);
    }
  }

  /** The time returned is the expiry of some chain. */
  lemma {:induction false} AuthorizedWitness(s: State, q: Query, device: Pk, records: seq<AuthRecord>, depth: nat)
    returns (chain: seq<AuthRecord>)
    requires device != q.logical && depth <= MAX_AUTH_DEPTH && AuthorizedBy(s, q, device, records, depth).Some?
    requires forall r | r in records :: r in RecordsOf(s, device)
    ensures Chain(s, q, device, depth, chain)
    ensures AuthorizedBy(s, q, device, records, depth) == Some(Expiry(chain))
    decreases MAX_AUTH_DEPTH + 1 - depth, |records|
  {
    var init, r := records[..|records| - 1], records[|records| - 1];
    assert records == init + [r];
    var earlier := AuthorizedBy(s, q, device, init, depth);
    if earlier == AuthorizedBy(s, q, device, records, depth) {
      chain := AuthorizedWitness(s, q, device, init, depth);
    } else if r.issuer == q.logical {
      chain := [r];
    } else {
      var rest := AuthorizedWitness(s, q, r.issuer, RecordsOf(s, r.issuer), depth + 1);
      chain := [r] + rest;
      assert chain[1..] == rest;
    }
  }

  /** Permissions come only from chains, and each flag from a chain that grants it throughout. */
  lemma {:induction false} PermissionsWitness(s: State, q: Query, device: Pk, records: seq<AuthRecord>, depth: nat,
                                              flag: Option<nat>)
    returns (chain: seq<AuthRecord>)
    requires device != q.logical && depth <= MAX_AUTH_DEPTH && PermissionsBy(s, q, device, records, depth).Some?
    requires flag.Some? ==> flag.value in PermissionsBy(s, q, device, records, depth).value
    requires forall r | r in records :: r in RecordsOf(s, device)
    ensures Chain(s, q, device, depth, chain)
    ensures flag.Some? ==> Grants(chain, flag.value)
    decreases MAX_AUTH_DEPTH + 1 - depth, |records|
  {
    var init, r := records[..|records| - 1], records[|records| - 1];
    assert records == init + [r];
    var earlier := PermissionsBy(s, q, device, init, depth);
    if earlier.Some? && (flag.Some? ==> flag.value in earlier.value) {
      chain := PermissionsWitness(s, q, device, init, depth, flag);
    } else if r.issuer == q.logical {
      chain := [r];
    } else {
      var rest := PermissionsWitness(s, q, r.issuer, RecordsOf(s, r.issuer), depth + 1, flag);
      chain := [r] + rest;
      assert chain[1..] == rest;
    }
  }

  /**
   The recursion answers exactly when a live chain of at most 17 records exists, with the latest
   expiry among them.
   */
  lemma AuthorizedMeans(s: State, q: Query, device: Pk)
    requires device != q.logical
    ensures var e := Authorized(s, q, device, 0);
            && (e.Some? <==> exists chain :: Chain(s, q, device, 0, chain))
            && (e.Some? ==> exists chain :: Chain(s, q, device, 0, chain) && Expiry(chain) == e.value)
            && (e.Some? ==> forall chain | Chain(s, q, device, 0, chain) :: Expiry(chain) <= e.value)
  {
    var e := Authorized(s, q, device, 0);
    forall chain | Chain(s, q, device, 0, chain) ensures e.Some? && Expiry(chain) <= e.value {
      ChainCounts(s, q, device, RecordsOf(s, device), 0, chain);
    }
    if e.Some? { var chain := AuthorizedWitness(s, q, device, RecordsOf(s, device), 0); }
  }

  /**
   Permissions are the union over live chains of the intersection along the chain, given exactly to
   authorized devices.
   */
  lemma PermissionsMean(s: State, q: Query, device: Pk)
    requires device != q.logical
    ensures var p := Permissions(s, q, device, 0);
            && (p.Some? <==> Authorized(s, q, device, 0).Some?)
            && (p.Some? ==> forall flag: nat ::
                              flag in p.value <==> exists chain :: Chain(s, q, device, 0, chain) && Grants(chain, flag))
  {
    var p := Permissions(s, q, device, 0);
    AuthorizedMeans(s, q, device);
    forall chain | Chain(s, q, device, 0, chain)
      ensures p.Some? && forall flag | Grants(chain, flag) :: flag in p.value
    {
      ChainCounts(s, q, device, RecordsOf(s, device), 0, chain);
    }
    if p.Some? {
      var some := PermissionsWitness(s, q, device, RecordsOf(s, device), 0, None);
      forall flag: nat | flag in p.value ensures exists chain :: Chain(s, q, device, 0, chain) && Grants(chain, flag) {
        var chain := PermissionsWitness(s, q, device, RecordsOf(s, device), 0, Some(flag));
      }
    }
  }

  // ------------------------------------------------------- other questions

  /** Questions about one identity, rank and history, at any two times; hash zero is in every history. */
  predicate Interchangeable(q: Query, q': Query) {
    && q.logical == q'.logical && q.ctx.evaluating == q'.ctx.evaluating && q.rank == q'.rank
    && (q.ctx.evaluating == 0 || q.ctx.ancestors - {0} == q'.ctx.ancestors - {0})
  }

  lemma HistorySame(q: Query, q': Query, hash: Hash)
    requires Interchangeable(q, q')
    ensures InHistory(q.ctx, hash) == InHistory(q'.ctx, hash)
  {
    if q.ctx.evaluating != 0 && hash != 0 { assert hash in q.ctx.ancestors - {0} <==> hash in q'.ctx.ancestors - {0}; }
  }

  /** A live chain is live for every interchangeable question about a time before its expiry. */
  lemma {:induction false} ChainElsewhere(s: State, q: Query, q': Query, device: Pk, chain: seq<AuthRecord>)
    requires Interchangeable(q, q') && LiveChain(s, q, device, chain) && Expiry(chain) > q'.now
    ensures LiveChain(s, q', device, chain) && Expiry(chain) > q.now
    decreases |chain|
  {
    HistorySame(q, q', chain[0].hash);
    forall rev ensures Strikes(s, q, rev, chain[0]) == Strikes(s, q', rev, chain[0]) { HistorySame(q, q', rev.hash); }
    if |chain| > 1 { ChainElsewhere(s, q, q', chain[0].issuer, chain[1..]); }
  }

  /** An answer is the answer to every interchangeable question about a time before it runs out. */
  lemma AnswerKeeps(s: State, q: Query, q': Query, device: Pk)
    requires device != q.logical && Interchangeable(q, q')
    requires Authorized(s, q, device, 0).Some? && Authorized(s, q, device, 0).value > q'.now
    ensures Authorized(s, q', device, 0) == Authorized(s, q, device, 0) && Authorized(s, q, device, 0).value > q.now
  {
    var e := Authorized(s, q, device, 0).value;
    AuthorizedMeans(s, q, device);
    AuthorizedMeans(s, q', device);
    var chain :| Chain(s, q, device, 0, chain) && Expiry(chain) == e;
    ChainElsewhere(s, q, q', device, chain);
    assert Chain(s, q', device, 0, chain);
    forall other | Chain(s, q', device, 0, other) ensures Expiry(other) <= e {
      if Expiry(other) > q.now {
        ChainElsewhere(s, q', q, device, other);
        assert Chain(s, q, device, 0, other);
      }
    }
  }

  // ------------------------------------------------------- order of the lists

  /** Same records and revocations for every device, in any order and multiplicity. */
  ghost predicate Reordered(s: State, t: State) {
    && (forall device: Pk, r :: r in RecordsOf(s, device) <==> r in RecordsOf(t, device))
    && (forall device: Pk, r :: r in RevocationsOf(s, device) <==> r in RevocationsOf(t, device))
  }

  /** Every device is iterated, and a non-zero hash belongs to one device. */
  ghost predicate Orderly(s: State) {
    && (forall device: Pk | RecordsOf(s, device) != [] :: device in s.order)
    && (forall d: Pk, e: Pk, hash: Hash | hash != 0 && Owns(s, d, hash) && Owns(s, e, hash) :: d == e)
  }

  lemma {:induction false} OwnerFound(s: State, order: seq<Pk>, hash: Hash)
    ensures var o := OwnerOf(s, order, hash);
            && (o.Some? ==> o.value in order && Owns(s, o.value, hash))
            && (o.None? ==> forall d | d in order :: !Owns(s, d, hash))
  {
    if order != [] { OwnerFound(s, order[1..], hash); }
  }

  /** The lists are reordered; if the device map is too, hashes must be owned by one device each. */
  ghost predicate Alike(s: State, t: State) {
    Reordered(s, t) && (s.order == t.order || (Orderly(s) && Orderly(t)))
  }

  lemma {:induction false} OwnerSame(s: State, t: State, order: seq<Pk>, hash: Hash)
    requires forall d: Pk :: Owns(s, d, hash) <==> Owns(t, d, hash)
    ensures OwnerOf(s, order, hash) == OwnerOf(t, order, hash)
  {
    if order != [] { OwnerSame(s, t, order[1..], hash); }
  }

  lemma MutualSame(s: State, t: State, a: Hash, b: Hash)
    requires Alike(s, t)
    ensures Mutual(s, a, b) == Mutual(t, a, b)
  {
    if a != 0 {
      OwnsSame(s, t, a);
      OwnsSame(s, t, b);
      OwnerSame(s, t, s.order, a);
      OwnerFound(s, s.order, a);
      OwnerFound(t, t.order, a);
    }
  }

  lemma OwnsSame(s: State, t: State, hash: Hash)
    requires Reordered(s, t)
    ensures forall d: Pk :: Owns(s, d, hash) <==> Owns(t, d, hash)
    ensures forall d: Pk :: RevokedBy(s, d, hash) <==> RevokedBy(t, d, hash)
  {
  }

  lemma LiveSame(s: State, t: State, q: Query, device: Pk, r: AuthRecord)
    requires Alike(s, t)
    ensures Live(s, q, device, r) == Live(t, q, device, r)
  {
    forall rev | rev in RevocationsOf(s, device) || rev in RevocationsOf(t, device)
      ensures Strikes(s, q, rev, r) == Strikes(t, q, rev, r)
    {
      MutualSame(s, t, rev.revoker.hash, r.hash);
    }
  }

  lemma {:induction false} ChainSame(s: State, t: State, q: Query, device: Pk, chain: seq<AuthRecord>)
    requires Alike(s, t)
    ensures LiveChain(s, q, device, chain) == LiveChain(t, q, device, chain)
    decreases |chain|
  {
    if chain != [] {
      LiveSame(s, t, q, device, chain[0]);
      ChainSame(s, t, q, chain[0].issuer, chain[1..]);
    }
  }

  /** Reordering the record or revocation lists, or the device map, changes no answer. */
  lemma OrderDoesNotMatter(s: State, t: State, q: Query, device: Pk)
    requires Alike(s, t)
    ensures Authorized(s, q, device, 0) == Authorized(t, q, device, 0)
    ensures Permissions(s, q, device, 0) == Permissions(t, q, device, 0)
  {
    if device != q.logical {
      forall chain ensures Chain(s, q, device, 0, chain) == Chain(t, q, device, 0, chain) {
        ChainSame(s, t, q, device, chain);
      }
      AuthorizedMeans(s, q, device);
      AuthorizedMeans(t, q, device);
      PermissionsMean(s, q, device);
      PermissionsMean(t, q, device);
      var p, p' := Permissions(s, q, device, 0), Permissions(t, q, device, 0);
      if p.Some? { assert p.value == p'.value; }
    }
  }

  // ------------------------------------------------------- depth of delegation

  function MinOpt(a: Option<nat>, b: Option<nat>): Option<nat> {
    if a.None? then b else if b.None? then a else if a.value <= b.value then a else b
  }

  predicate Usable(r: AuthRecord, logical: Pk, rank: nat) {
    r.logical == logical && r.rank <= rank
  }

  /** `get_auth_depth_recursive` */
  function AuthDepth(s: State, logical: Pk, rank: nat, device: Pk, depth: nat): Option<nat>
    decreases MAX_AUTH_DEPTH + 1 - depth, 1, 0
  {
    if depth > MAX_AUTH_DEPTH then None
    else if device == logical then Some(0)
    else AuthDepthBy(s, logical, rank, RecordsOf(s, device), depth)
  }

  function AuthDepthBy(s: State, logical: Pk, rank: nat, records: seq<AuthRecord>, depth: nat): Option<nat>
    requires depth <= MAX_AUTH_DEPTH
    decreases MAX_AUTH_DEPTH + 1 - depth, 0, |records|
  {
    if records == [] then None
    else
      var r := records[|records| - 1];
      MinOpt(AuthDepthBy(s, logical, rank, records[..|records| - 1], depth),
             if !Usable(r, logical, rank) then None
             else match AuthDepth(s, logical, rank, r.issuer, depth + 1)
                  case None => None
                  case Some(d) => Some(d + 1))
  }

  /** A path of usable records from the device to the master key. */
  ghost predicate Path(s: State, logical: Pk, rank: nat, device: Pk, path: seq<AuthRecord>)
    decreases |path|
  {
    if path == [] then device == logical
    else && device != logical && path[0] in RecordsOf(s, device) && Usable(path[0], logical, rank)
         && Path(s, logical, rank, path[0].issuer, path[1..])
  }

  lemma {:induction false} DepthCounts(s: State, logical: Pk, rank: nat, device: Pk, records: seq<AuthRecord>,
                                       depth: nat, path: seq<AuthRecord>)
    requires Path(s, logical, rank, device, path) && depth + |path| <= MAX_AUTH_DEPTH
    requires path != [] && path[0] in records
    ensures var d := AuthDepthBy(s, logical, rank, records, depth); d.Some? && d.value <= |path|
    decreases |path|, |records|
  {
    var init, r := records[..|records| - 1], records[|records| - 1];
    if r == path[0] {
      if |path| > 1 { DepthCounts(s, logical, rank, r.issuer, RecordsOf(s, r.issuer), depth + 1, path[1..]); }
    } else {
      assert records == init + [r];
      DepthCounts(s, logical, rank, device, init, depth, path);
    }
  }

  lemma {:induction false} DepthWitness(s: State, logical: Pk, rank: nat, device: Pk, records: seq<AuthRecord>,
                                        depth: nat)
    returns (path: seq<AuthRecord>)
    requires device != logical && depth <= MAX_AUTH_DEPTH && AuthDepthBy(s, logical, rank, records, depth).Some?
    requires forall r | r in records :: r in RecordsOf(s, device)
    ensures Path(s, logical, rank, device, path) && depth + |path| <= MAX_AUTH_DEPTH
    ensures AuthDepthBy(s, logical, rank, records, depth) == Some(|path|)
    decreases MAX_AUTH_DEPTH + 1 - depth, |records|
  {
    var init, r := records[..|records| - 1], records[|records| - 1];
    assert records == init + [r];
    if AuthDepthBy(s, logical, rank, init, depth) == AuthDepthBy(s, logical, rank, records, depth) {
      path := DepthWitness(s, logical, rank, device, init, depth);
    } else if r.issuer == logical {
      path := [r];
    } else {
      var rest := DepthWitness(s, logical, rank, r.issuer, RecordsOf(s, r.issuer), depth + 1);
      path := [r] + rest;
      assert path[1..] == rest;
    }
  }

  /** The depth is the length of a shortest path, found whenever one of at most 16 records exists. */
  lemma DepthMeans(s: State, logical: Pk, rank: nat, device: Pk)
    ensures var d := AuthDepth(s, logical, rank, device, 0);
            && (d.Some? <==> exists path :: Path(s, logical, rank, device, path) && |path| <= MAX_AUTH_DEPTH)
            && (d.Some? ==> exists path :: Path(s, logical, rank, device, path) && |path| == d.value <= MAX_AUTH_DEPTH)
            && (d.Some? ==> forall path | Path(s, logical, rank, device, path) :: d.value <= |path|)
  {
    var d := AuthDepth(s, logical, rank, device, 0);
    if device == logical {
      assert Path(s, logical, rank, device, []);
    } else {
      forall path | Path(s, logical, rank, device, path) && |path| <= MAX_AUTH_DEPTH
        ensures d.Some? && d.value <= |path|
      {
        DepthCounts(s, logical, rank, device, RecordsOf(s, device), 0, path);
      }
      if d.Some? { var path := DepthWitness(s, logical, rank, device, RecordsOf(s, device), 0); }
    }
  }

  lemma {:induction false} PathSame(s: State, t: State, logical: Pk, rank: nat, device: Pk, path: seq<AuthRecord>)
    requires Reordered(s, t)
    ensures Path(s, logical, rank, device, path) == Path(t, logical, rank, device, path)
    decreases |path|
  {
    if path != [] { PathSame(s, t, logical, rank, path[0].issuer, path[1..]); }
  }

  lemma DepthSame(s: State, t: State, logical: Pk, rank: nat, device: Pk)
    requires Reordered(s, t)
    ensures AuthDepth(s, logical, rank, device, 0) == AuthDepth(t, logical, rank, device, 0)
  {
    forall path ensures Path(s, logical, rank, device, path) == Path(t, logical, rank, device, path) {
      PathSame(s, t, logical, rank, device, path);
    }
    DepthMeans(s, logical, rank, device);
    DepthMeans(t, logical, rank, device);
  }

  /** Every record has, at every rank not below its own, a path of at most 16 records. */
  ghost predicate Anchored(s: State) {
    forall device: Pk, r, rank: nat | r in RecordsOf(s, device) && rank >= r.rank :: Reaches(s, r.logical, rank, device)
  }

  ghost predicate Reaches(s: State, logical: Pk, rank: nat, device: Pk) {
    exists path :: Path(s, logical, rank, device, path) && |path| <= MAX_AUTH_DEPTH
  }

  lemma {:induction false} PathGrows(s: State, t: State, logical: Pk, rank: nat, rank': nat, device: Pk,
                                     path: seq<AuthRecord>)
    requires forall d: Pk, r | r in RecordsOf(s, d) :: r in RecordsOf(t, d)
    requires rank <= rank' && Path(s, logical, rank, device, path)
    ensures Path(t, logical, rank', device, path)
    decreases |path|
  {
    if path != [] { PathGrows(s, t, logical, rank, rank', path[0].issuer, path[1..]); }
  }

  /**
   Adding a record whose issuer is the master, or reaches it in fewer than 16 records, keeps every
   record anchored.
   */
  lemma AddKeepsAnchored(s: State, t: State, device: Pk, r: AuthRecord, issuerPath: seq<AuthRecord>)
    requires Anchored(s)
    requires forall d: Pk, x :: x in RecordsOf(t, d) <==> x in RecordsOf(s, d) || (d == device && x == r)
    requires Path(s, r.logical, r.rank, r.issuer, issuerPath) && |issuerPath| < MAX_AUTH_DEPTH
    ensures Anchored(t)
  {
    forall d: Pk, x, rank: nat | x in RecordsOf(t, d) && rank >= x.rank ensures Reaches(t, x.logical, rank, d) {
      if x in RecordsOf(s, d) {
        assert Reaches(s, x.logical, rank, d);
        var path :| Path(s, x.logical, rank, d, path) && |path| <= MAX_AUTH_DEPTH;
        PathGrows(s, t, x.logical, rank, rank, d, path);
      } else if device == r.logical {
        assert Path(t, x.logical, rank, d, []);
      } else {
        PathGrows(s, t, r.logical, r.rank, rank, r.issuer, issuerPath);
        var path := [r] + issuerPath;
        assert path[1..] == issuerPath;
        assert Path(t, r.logical, rank, device, path);
      }
    }
  }
}
