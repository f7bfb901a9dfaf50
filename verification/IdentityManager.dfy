/**
 The operations of `IdentityManager` that change the delegation graph: authorizing a
 device by certificate and revoking a device, within one conversation.
 */
module IdentityManager {
  import opened Wrappers
  import opened Sequences
  import opened Identity

  const HASH_MAX: nat := 0xffff_ffff_ffff_ffff_ffff_ffff_ffff_ffff_ffff_ffff_ffff_ffff_ffff_ffff_ffff_ffff

  datatype Cert = Cert(device: Pk, perms: set<nat>, expires: int, conversation: nat, body: nat)

  datatype Outcome =
    | Accepted
    | ConversationMismatch
    | NoTrustPath
    | PermissionEscalation
    | ChainTooDeep
    | TooManyDevices
    | TooManyGroupDevices

  /** Adds a record to a device unless it is there already. */
  function AddRecord(s: State, device: Pk, r: AuthRecord): State {
    var had := RecordsOf(s, device);
    State(s.records[device := if r in had then had else had + [r]],
          if device in s.records then s.order else s.order + [device], s.revocations)
  }

  lemma AddRecordMembers(s: State, device: Pk, r: AuthRecord)
    ensures forall d: Pk, x :: x in RecordsOf(AddRecord(s, device, r), d) <==>
                               x in RecordsOf(s, d) || (d == device && x == r)
  {
  }

  function CountDevices(s: State, order: seq<Pk>, logical: Pk): nat {
    if order == [] then 0
    else
      CountDevices(s, order[1..], logical) +
      if exists r | r in RecordsOf(s, order[0]) :: r.logical == logical then 1 else 0
  }

  const LEAST_SENIOR: Seniority := Seniority(U64_MAX, HASH_MAX)

  predicate Senior(a: Seniority, b: Seniority) { SeniorOrEqual(a, b) && a != b }

  predicate MayRevoke(r: AuthRecord, logical: Pk, now: int, rank: nat) {
    r.logical == logical && r.expires > now && r.rank <= rank && ADMIN in r.perms
  }

  /** The oldest ADMIN record that the revoker can act on. */
  function OldestAdmin(records: seq<AuthRecord>, logical: Pk, now: int, rank: nat): Seniority {
    if records == [] then LEAST_SENIOR
    else
      var r := records[|records| - 1];
      var best := OldestAdmin(records[..|records| - 1], logical, now, rank);
      if MayRevoke(r, logical, now, rank) && Senior(Seniority(r.rank, r.hash), best) then Seniority(r.rank, r.hash)
      else best
  }

  /** The least seniority of the usable ADMIN records, or the largest there is. */
  ghost predicate IsOldest(records: seq<AuthRecord>, logical: Pk, now: int, rank: nat, best: Seniority) {
    && (forall r | r in records && MayRevoke(r, logical, now, rank) &&
                   SeniorOrEqual(Seniority(r.rank, r.hash), LEAST_SENIOR) ::
          SeniorOrEqual(best, Seniority(r.rank, r.hash)))
    && (best == LEAST_SENIOR ||
        exists r | r in records :: MayRevoke(r, logical, now, rank) && best == Seniority(r.rank, r.hash))
  }

  lemma {:induction false} OldestIsLeast(records: seq<AuthRecord>, logical: Pk, now: int, rank: nat)
    ensures IsOldest(records, logical, now, rank, OldestAdmin(records, logical, now, rank))
  {
    if records != [] {
      var init, r := records[..|records| - 1], records[|records| - 1];
      OldestIsLeast(init, logical, now, rank);
      assert records == init + [r];
      assert forall x | x in init :: x in records;
    }
  }

  function RevokerSeniority(s: State, revoker: Pk, logical: Pk, now: int, rank: nat): Seniority {
    if revoker == logical then Seniority(0, 0) else OldestAdmin(RecordsOf(s, revoker), logical, now, rank)
  }

  /** `revoke_device` */
  function Revoke(s: State, revoker: Pk, logical: Pk, target: Pk, rank: nat, now: int, hash: Hash): State {
    var revocation := Revocation(rank, RevokerSeniority(s, revoker, logical, now, rank), hash);
    s.(revocations := s.revocations[target := RevocationsOf(s, target) + [revocation]])
  }

  function Key(q: Query, device: Pk): (Pk, Pk, Hash) { (device, q.logical, q.ctx.evaluating) }

  /** Some question with the context and rank of the hash was answered so. */
  ghost predicate Backed(s: State, history: Hash -> (Context, nat), key: (Pk, Pk, Hash), expires: int) {
    key.0 != key.1 && exists now :: Authorized(s, Asked(history, key, now), key.0, 0) == Some(expires)
  }

  ghost function Asked(history: Hash -> (Context, nat), key: (Pk, Pk, Hash), now: int): Query {
    Query(history(key.2).0, key.1, now, history(key.2).1)
  }

  /** A cached expiry in the future is the answer that the recursion would give. */
  lemma CacheAnswers(s: State, history: Hash -> (Context, nat), q: Query, device: Pk, expires: int)
    requires expires > q.now
    ensures Interchangeable(Asked(history, Key(q, device), q.now), q) && Backed(s, history, Key(q, device), expires) ==>
              Authorized(s, q, device, 0) == Some(expires)
  {
    var key := Key(q, device);
    if Interchangeable(Asked(history, key, q.now), q) && Backed(s, history, key, expires) {
      var now :| Authorized(s, Asked(history, key, now), device, 0) == Some(expires);
      AnswerKeeps(s, Asked(history, key, now), q, device);
    }
  }

  /** An answer found backs its entry. */
  lemma AnswerBacks(s: State, history: Hash -> (Context, nat), q: Query, device: Pk)
    requires device != q.logical && Authorized(s, q, device, 0).Some?
    ensures Interchangeable(Asked(history, Key(q, device), q.now), q) ==>
              Backed(s, history, Key(q, device), Authorized(s, q, device, 0).value)
  {
    var asked := Asked(history, Key(q, device), q.now);
    if Interchangeable(asked, q) {
      AuthorizedMeans(s, q, device);
      var chain :| Chain(s, q, device, 0, chain) && Expiry(chain) == Authorized(s, q, device, 0).value;
      ExpiryAhead(s, q, device, chain);
      AnswerKeeps(s, q, asked, device);
    }
  }

  lemma {:induction false} ExpiryAhead(s: State, q: Query, device: Pk, chain: seq<AuthRecord>)
    requires LiveChain(s, q, device, chain)
    ensures Expiry(chain) > q.now
    decreases |chain|
  {
    if |chain| > 1 { ExpiryAhead(s, q, chain[0].issuer, chain[1..]); }
  }

  // ------------------------------------------------------- who may delegate

  /** `verify_delegation` with the signature check as a parameter. */
  predicate Signs(verify: (Cert, Pk) -> bool, cert: Cert, pk: Pk, now: int) { cert.expires >= now && verify(cert, pk) }

  /** A record that makes its device a candidate issuer of the certificate. */
  predicate Candidate(s: State, verify: (Cert, Pk) -> bool, device: Pk, r: AuthRecord, q: Query, cert: Cert) {
    && r.logical == q.logical && r.expires > q.now && r.rank <= q.rank && ADMIN in r.perms
    && Signs(verify, cert, device, q.now)
    && var p := Permissions(s, q, device, 0);
       p.Some? && ADMIN in p.value
  }

  /** What is refused, in the order of the tests, when `issuer` signed the certificate. */
  function Verdict(s: State, q: Query, cert: Cert, issuer: Pk): Outcome {
    var effective, depth := Permissions(s, q, issuer, 0), AuthDepth(s, q.logical, q.rank, issuer, 0);
    if effective.None? || !(cert.perms <= effective.value) then PermissionEscalation
    else if (if depth.Some? then depth.value else 0) + 1 > MAX_AUTH_DEPTH then ChainTooDeep
    else if CountDevices(s, s.order, q.logical) >= MAX_DEVICES_PER_IDENTITY then TooManyDevices
    else if |s.order| >= MAX_GROUP_DEVICES then TooManyGroupDevices
    else Accepted
  }

  /** No device is a candidate, or the issuer is one and the verdict on it is given. */
  ghost predicate Decided(s: State, verify: (Cert, Pk) -> bool, q: Query, cert: Cert, outcome: Outcome, issuer: Pk) {
    if outcome == NoTrustPath then
      forall d, r | d in s.order && r in RecordsOf(s, d) :: !Candidate(s, verify, d, r, q, cert)
    else
      && outcome == Verdict(s, q, cert, issuer) && issuer in s.order
      && exists r | r in RecordsOf(s, issuer) :: Candidate(s, verify, issuer, r, q, cert)
  }

  /** The verdict in numbers: 16 records deep, 32 devices of an identity, 4096 devices in all. */
  lemma VerdictMeans(s: State, q: Query, cert: Cert, issuer: Pk)
    requires Permissions(s, q, issuer, 0).Some? && AuthDepth(s, q.logical, q.rank, issuer, 0).Some?
    ensures var held, depth := Permissions(s, q, issuer, 0).value, AuthDepth(s, q.logical, q.rank, issuer, 0).value;
            var own, all := CountDevices(s, s.order, q.logical), |s.order|;
            && (Verdict(s, q, cert, issuer) == Accepted <==> cert.perms <= held && depth < 16 && own < 32 && all < 4096)
            && (Verdict(s, q, cert, issuer) == PermissionEscalation <==> !(cert.perms <= held))
            && (Verdict(s, q, cert, issuer) == ChainTooDeep <==> cert.perms <= held && depth >= 16)
            && (Verdict(s, q, cert, issuer) == TooManyDevices <==> cert.perms <= held && depth < 16 && own >= 32)
  {
  }

  predicate Holds(s: State, device: Pk, logical: Pk) { exists r | r in RecordsOf(s, device) :: r.logical == logical }

  /** Devices are counted once each, if they hold a record for the identity. */
  lemma {:induction false} CountIsSize(s: State, order: seq<Pk>, logical: Pk, devices: set<Pk>)
    requires Distinct(order) && forall d :: d in devices <==> d in order && Holds(s, d, logical)
    ensures CountDevices(s, order, logical) == |devices|
  {
    if order != [] {
      var first, rest := order[0], order[1..];
      assert order == [first] + rest && first !in rest;
      CountIsSize(s, rest, logical, devices - {first});
      if first in devices {
        assert devices == (devices - {first}) + {first};
      } else {
        assert devices == devices - {first};
      }
    }
  }

  lemma {:induction false} CountWithout(s: State, order: seq<Pk>, logical: Pk, k: nat)
    requires k < |order|
    ensures CountDevices(s, order, logical)
      == CountDevices(s, Without(order, k), logical) + CountDevices(s, [order[k]], logical)
  {
    assert [order[k]][1..] == [];
    if k == 0 {
      assert Without(order, 0) == order[1..];
    } else {
      CountWithout(s, order[1..], logical, k - 1);
      assert Without(order, k)[1..] == Without(order[1..], k - 1);
    }
  }

  lemma MultisetWithout(a: seq<Pk>, k: nat)
    requires k < |a|
    ensures multiset(Without(a, k)) == multiset(a) - multiset{a[k]}
  {
    assert a == a[..k] + [a[k]] + a[k + 1..];
  }

  lemma {:induction false} CountSame(s: State, t: State, a: seq<Pk>, b: seq<Pk>, logical: Pk)
    requires Reordered(s, t) && multiset(a) == multiset(b)
    ensures CountDevices(s, a, logical) == CountDevices(t, b, logical) && |a| == |b|
  {
    assert |multiset(a)| == |multiset(b)|;
    if a != [] {
      assert a[0] in multiset(b);
      var k :| 0 <= k < |b| && b[k] == a[0];
      MultisetWithout(a, 0);
      MultisetWithout(b, k);
      CountSame(s, t, Without(a, 0), Without(b, k), logical);
      CountWithout(s, a, logical, 0);
      CountWithout(t, b, logical, k);
      assert [b[k]][1..] == [] == [a[0]][1..];
    }
  }

  lemma VerdictSame(s: State, t: State, q: Query, cert: Cert, issuer: Pk)
    requires Alike(s, t) && multiset(s.order) == multiset(t.order)
    ensures Verdict(s, q, cert, issuer) == Verdict(t, q, cert, issuer)
  {
    OrderDoesNotMatter(s, t, q, issuer);
    DepthSame(s, t, q.logical, q.rank, issuer);
    CountSame(s, t, s.order, t.order, q.logical);
  }

  lemma CandidateSame(s: State, t: State, verify: (Cert, Pk) -> bool, q: Query, cert: Cert)
    requires Alike(s, t)
    ensures forall d, r :: (r in RecordsOf(s, d) && Candidate(s, verify, d, r, q, cert)) <==>
                           (r in RecordsOf(t, d) && Candidate(t, verify, d, r, q, cert))
  {
    forall d ensures Permissions(s, q, d, 0) == Permissions(t, q, d, 0) { OrderDoesNotMatter(s, t, q, d); }
  }

  /** If at most one key verifies the certificate, the order of the devices decides nothing. */
  lemma OutcomeIgnoresOrder(s: State, t: State, verify: (Cert, Pk) -> bool, q: Query, cert: Cert,
                            outcome: Outcome, issuer: Pk, outcome': Outcome, issuer': Pk)
    requires Alike(s, t) && multiset(s.order) == multiset(t.order)
    requires forall a, b | Signs(verify, cert, a, q.now) && Signs(verify, cert, b, q.now) :: a == b
    requires Decided(s, verify, q, cert, outcome, issuer) && Decided(t, verify, q, cert, outcome', issuer')
    ensures outcome == outcome' && (outcome != NoTrustPath ==> issuer == issuer')
  {
    forall d ensures d in s.order <==> d in t.order { assert d in multiset(s.order) <==> d in multiset(t.order); }
    CandidateSame(s, t, verify, q, cert);
    VerdictSame(s, t, q, cert, issuer);
  }

  class Manager {
    const conversation: nat
    const verify: (Cert, Pk) -> bool
    var records: map<Pk, seq<AuthRecord>>
    var order: seq<Pk>
    var revocations: map<Pk, seq<Revocation>>
    /** Expiry of the paths found, by device, identity and evaluating hash. */
    var pathCache: map<(Pk, Pk, Hash), int>

    ghost function View(): State
      reads this
    {
      State(records, order, revocations)
    }

    /** The device order lists each key once, and every record is anchored at the master key. */
    ghost predicate Valid()
      reads this
    {
      (forall d: Pk :: d in records <==> d in order) && Distinct(order) && Anchored(View())
    }

    constructor (conversation: nat, verify: (Cert, Pk) -> bool)
      ensures Valid() && View() == State(map[], [], map[]) && this.conversation == conversation && this.verify == verify
      ensures pathCache == map[]
    {
      this.conversation, this.verify := conversation, verify;
      records, order, revocations, pathCache := map[], [], map[], map[];
    }

    /** Every cached expiry is the answer to a question about the context and rank that go with its hash. */
    ghost predicate Cached(history: Hash -> (Context, nat))
      reads this
    {
      forall key | key in pathCache :: Backed(View(), history, key, pathCache[key])
    }

    /**
     `is_authorized`: a cached path that has not expired answers at once; an answer found is
     cached, which may push out another entry.  The key omits context and rank: the answer
     is the uncached one when the evaluating hash stands for them, and `CacheExact` shows
     that no less will do.
     */
    method IsAuthorized(q: Query, device: Pk, evicted: set<(Pk, Pk, Hash)>, ghost history: Hash -> (Context, nat))
      returns (yes: bool)
      modifies `pathCache
      ensures yes <==> || device == q.logical
                       || (Key(q, device) in old(pathCache) && old(pathCache)[Key(q, device)] > q.now)
                       || Authorized(View(), q, device, 0).Some?
      ensures old(Cached(history)) && Interchangeable(Asked(history, Key(q, device), q.now), q) ==>
                Cached(history) && (yes <==> Authorized(View(), q, device, 0).Some?)
      ensures forall key | key in pathCache && key != Key(q, device) ::
                key in old(pathCache) && pathCache[key] == old(pathCache)[key]
      ensures Authorized(View(), q, device, 0).Some? && device != q.logical && Key(q, device) !in old(pathCache) ==>
                Key(q, device) in pathCache && pathCache[Key(q, device)] == Authorized(View(), q, device, 0).value
    {
      if device == q.logical { return true; }
      var key := Key(q, device);
      if key in pathCache && pathCache[key] > q.now {
        CacheAnswers(View(), history, q, device, pathCache[key]);
        return true;
      }
      var res := Authorized(State(records, order, revocations), q, device, 0);
      if res.Some? {
        AnswerBacks(View(), history, q, device);
        pathCache := (pathCache - evicted)[key := res.value];
      }
      return res.Some?;
    }

    /** `verify_delegation` */
    predicate Signed(cert: Cert, pk: Pk, now: int) { Signs(verify, cert, pk, now) }

    method FindIssuer(q: Query, cert: Cert) returns (issuer: Option<Pk>)
      requires Valid()
      ensures issuer.Some? ==> exists r | r in RecordsOf(View(), issuer.value) ::
        Candidate(View(), verify, issuer.value, r, q, cert)
      ensures issuer.None? ==> forall d, r | d in order && r in RecordsOf(View(), d) ::
        !Candidate(View(), verify, d, r, q, cert)
    {
      for i := 0 to |order|
        invariant forall d, r | d in order[..i] && r in RecordsOf(View(), d) ::
          !Candidate(View(), verify, d, r, q, cert)
      {
        var device := order[i];
        assert device in order;
        var list := records[device];
        for j := 0 to |list|
          invariant forall r | r in list[..j] :: !Candidate(View(), verify, device, r, q, cert)
        {
          if Candidate(State(records, order, revocations), verify, device, list[j], q, cert) {
            assert list[j] in RecordsOf(View(), device);
            return Some(device);
          }
        }
        assert list[..|list|] == list;
      }
      assert order[..|order|] == order;
      return None;
    }

    /**
     Authorizes a device.  Every accepted record is issued by the master key, or by a
     device whose effective permissions include ADMIN and everything delegated; it
     leaves every record anchored, so the depth of the issuer is always found.
     */
    method AuthorizeDevice(ctx: Context, logical: Pk, cert: Cert, now: int, rank: nat, hash: Hash)
      returns (outcome: Outcome, ghost issuer: Pk)
      requires Valid()
      modifies `records, `order, `pathCache
      ensures Valid() && pathCache == map[]
      ensures outcome != Accepted ==> View() == old(View())
      ensures outcome == ConversationMismatch <==> cert.conversation != conversation
      ensures outcome == NoTrustPath <==>
        && cert.conversation == conversation && !Signed(cert, logical, now)
        && forall d, r | d in old(order) && r in RecordsOf(old(View()), d) ::
             !Candidate(old(View()), verify, d, r, Query(ctx, logical, now, rank), cert)
      ensures cert.conversation == conversation && !Signed(cert, logical, now) ==>
        Decided(old(View()), verify, Query(ctx, logical, now, rank), cert, outcome, issuer)
      ensures cert.conversation == conversation && !Signed(cert, logical, now) && outcome != NoTrustPath ==>
        var q, s := Query(ctx, logical, now, rank), old(View());
        && Signed(cert, issuer, now) && Permissions(s, q, issuer, 0).Some?
        && AuthDepth(s, logical, rank, issuer, 0).Some?
      ensures outcome == Accepted ==>
        && cert.conversation == conversation
        && View() == AddRecord(old(View()), cert.device,
                               AuthRecord(logical, issuer, cert.perms, cert.expires, rank, hash))
        && Signed(cert, issuer, now)
        && (issuer == logical ||
            var p := Permissions(old(View()), Query(ctx, logical, now, rank), issuer, 0);
            p.Some? && ADMIN in p.value && cert.perms <= p.value)
      ensures cert.conversation == conversation && Signed(cert, logical, now) ==>
        outcome == Accepted && issuer == logical
    {
      issuer := logical;
      pathCache := map[];
      if cert.conversation != conversation { return ConversationMismatch, issuer; }
      if Signed(cert, logical, now) {
        Store(cert.device, AuthRecord(logical, logical, cert.perms, cert.expires, rank, hash), []);
        return Accepted, issuer;
      }
      outcome, issuer := Delegate(Query(ctx, logical, now, rank), cert, hash);
    }

    /** The certificate of a device that is not the master key. */
    method Delegate(q: Query, cert: Cert, hash: Hash) returns (outcome: Outcome, ghost issuer: Pk)
      requires Valid()
      modifies `records, `order
      ensures Valid()
      ensures outcome != Accepted ==> View() == old(View())
      ensures Decided(old(View()), verify, q, cert, outcome, issuer)
      ensures outcome != NoTrustPath ==>
        && Signed(cert, issuer, q.now) && AuthDepth(old(View()), q.logical, q.rank, issuer, 0).Some?
        && var p := Permissions(old(View()), q, issuer, 0); p.Some? && ADMIN in p.value
      ensures outcome == Accepted ==>
        View() == AddRecord(old(View()), cert.device,
                            AuthRecord(q.logical, issuer, cert.perms, cert.expires, q.rank, hash))
    {
      issuer := q.logical;
      var found := FindIssuer(q, cert);
      if found.None? { return NoTrustPath, issuer; }
      var device := found.value;
      issuer := device;
      ghost var path := IssuerPath(q, cert, device);
      assert device in records && device in order;
      outcome := Verdict(State(records, order, revocations), q, cert, device);
      if outcome == Accepted {
        Store(cert.device, AuthRecord(q.logical, device, cert.perms, cert.expires, q.rank, hash), path);
      }
    }

    /** The issuer's depth is always found, as the length of a path to the master key. */
    lemma IssuerPath(q: Query, cert: Cert, device: Pk) returns (path: seq<AuthRecord>)
      requires Valid() && exists r | r in RecordsOf(View(), device) :: Candidate(View(), verify, device, r, q, cert)
      ensures AuthDepth(View(), q.logical, q.rank, device, 0) == Some(|path|)
        && Path(View(), q.logical, q.rank, device, path)
    {
      var r :| r in RecordsOf(View(), device) && Candidate(View(), verify, device, r, q, cert);
      assert Reaches(View(), r.logical, q.rank, device);
      DepthMeans(View(), q.logical, q.rank, device);
      path :| Path(View(), q.logical, q.rank, device, path)
        && |path| == AuthDepth(View(), q.logical, q.rank, device, 0).value;
    }

    method Store(device: Pk, r: AuthRecord, ghost issuerPath: seq<AuthRecord>)
      requires Valid() && Path(View(), r.logical, r.rank, r.issuer, issuerPath) && |issuerPath| < MAX_AUTH_DEPTH
      modifies `records, `order
      ensures Valid() && View() == AddRecord(old(View()), device, r)
    {
      AddRecordMembers(View(), device, r);
      AddKeepsAnchored(View(), AddRecord(View(), device, r), device, r, issuerPath);
      var list := if device in records then records[device] else [];
      if device !in records { order := order + [device]; }
      records := records[device := if r in list then list else list + [r]];
    }

    method RevokeDevice(revoker: Pk, logical: Pk, target: Pk, rank: nat, now: int, hash: Hash)
      requires Valid()
      modifies `revocations, `pathCache
      ensures Valid() && View() == Revoke(old(View()), revoker, logical, target, rank, now, hash)
      ensures pathCache == map[]
      ensures revoker != logical ==>
        IsOldest(RecordsOf(View(), revoker), logical, now, rank,
                 RevokerSeniority(old(View()), revoker, logical, now, rank))
    {
      var seniority := LEAST_SENIOR;
      OldestIsLeast(RecordsOf(View(), revoker), logical, now, rank);
      pathCache := map[];
      if revoker == logical {
        seniority := Seniority(0, 0);
      } else if revoker in records {
        var list := records[revoker];
        for k := 0 to |list|
          invariant seniority == OldestAdmin(list[..k], logical, now, rank)
        {
          var r := list[k];
          assert list[..k + 1][..k] == list[..k];
          if MayRevoke(r, logical, now, rank) && Senior(Seniority(r.rank, r.hash), seniority) {
            seniority := Seniority(r.rank, r.hash);
          }
        }
        assert list[..|list|] == list;
      }
      var had := if target in revocations then revocations[target] else [];
      RevokeKeepsAnchored(View(), revoker, logical, target, rank, now, hash);
      revocations := revocations[target := had + [Revocation(rank, seniority, hash)]];
    }
  }

  /** Revocations do not touch the delegation graph. */
  lemma RevokeKeepsAnchored(s: State, revoker: Pk, logical: Pk, target: Pk, rank: nat, now: int, hash: Hash)
    requires Anchored(s)
    ensures Anchored(Revoke(s, revoker, logical, target, rank, now, hash))
  {
    var t := Revoke(s, revoker, logical, target, rank, now, hash);
    forall d: Pk, x, k: nat | x in RecordsOf(t, d) && k >= x.rank ensures Reaches(t, x.logical, k, d) {
      assert x in RecordsOf(s, d) && Reaches(s, x.logical, k, d);
      var path :| Path(s, x.logical, k, d, path) && |path| <= MAX_AUTH_DEPTH;
      PathGrows(s, t, x.logical, k, k, d, path);
    }
  }

  // ------------------------------------------------------- what the cache mistakes

  /** The cached answer to one question is right for the other in every state that can arise, while it lasts. */
  ghost predicate Covers(q: Query, q': Query) {
    forall s: State, device: Pk | Anchored(s) && device != q.logical && Outlives(s, q, device, q'.now) ::
      Authorized(s, q', device, 0).Some?
  }

  ghost predicate Outlives(s: State, q: Query, device: Pk, now: int) {
    var e := Authorized(s, q, device, 0); e.Some? && e.value > now
  }

  /** A device with one record, issued by the master key, is authorized exactly while it is live. */
  lemma OneRecord(s: State, q: Query, device: Pk, r: AuthRecord)
    requires device != q.logical && RecordsOf(s, device) == [r] && r.issuer == q.logical
    ensures Authorized(s, q, device, 0) == if Live(s, q, device, r) then Some(r.expires) else None
  {
    assert [r][..0] == [];
    assert AuthorizedBy(s, q, device, [], 0) == None;
  }

  /** A record of the master key, and perhaps its revocation by the master key. */
  datatype Trap = Trap(rank: nat, hash: Hash, revocation: Option<(nat, Hash)>)

  function After(q: Query, q': Query): int { (if q.now >= q'.now then q.now else q'.now) + 1 }

  /** Later rank, later revocation, record outside the history, revocation outside the history. */
  predicate IsTrap(t: Trap, q: Query, q': Query) {
    || (t == Trap(q.rank, 0, None) && q.rank > q'.rank)
    || (t == Trap(0, 0, Some((q'.rank, 0))) && q.rank < q'.rank)
    || (q.rank == q'.rank && q.ctx.evaluating != 0 &&
        ((t == Trap(0, t.hash, None) && t.hash in q.ctx.ancestors - q'.ctx.ancestors - {0}) ||
         (t.rank == 0 == t.hash && t.revocation.Some? && t.revocation.value.0 == 0 &&
          t.revocation.value.1 in q'.ctx.ancestors - q.ctx.ancestors - {0})))
  }

  lemma TrapExists(q: Query, q': Query) returns (t: Trap)
    requires q.logical == q'.logical && q.ctx.evaluating == q'.ctx.evaluating && !Interchangeable(q, q')
    ensures IsTrap(t, q, q')
  {
    if q.rank > q'.rank { return Trap(q.rank, 0, None); }
    if q.rank < q'.rank { return Trap(0, 0, Some((q'.rank, 0))); }
    var a, b := q.ctx.ancestors - {0}, q'.ctx.ancestors - {0};
    var h :| h in (a - b) + (b - a);
    t := if h in a then Trap(0, h, None) else Trap(0, 0, Some((0, h)));
  }

  function TrapRecord(t: Trap, logical: Pk, expires: int): AuthRecord {
    AuthRecord(logical, logical, ALL, expires, t.rank, t.hash)
  }

  function TrapRevocations(t: Trap): seq<Revocation> {
    if t.revocation.None? then []
    else [Revocation(t.revocation.value.0, Seniority(0, 0), t.revocation.value.1)]
  }

  /** The trapped device is authorized for the one question and not for the other. */
  lemma TrapCatches(q: Query, q': Query, t: Trap, s: State, device: Pk)
    requires q.logical == q'.logical && q.ctx.evaluating == q'.ctx.evaluating && IsTrap(t, q, q')
    requires device != q.logical && RecordsOf(s, device) == [TrapRecord(t, q.logical, After(q, q'))]
    requires RevocationsOf(s, device) == TrapRevocations(t)
    ensures Authorized(s, q, device, 0) == Some(After(q, q')) && Authorized(s, q', device, 0) == None
  {
    var r := TrapRecord(t, q.logical, After(q, q'));
    OneRecord(s, q, device, r);
    OneRecord(s, q', device, r);
    if t.revocation.Some? {
      var rev := TrapRevocations(t)[0];
      assert rev in RevocationsOf(s, device) && Strikes(s, q', rev, r) && !Strikes(s, q, rev, r);
    }
  }

  function TrapState(t: Trap, logical: Pk, expires: int): State {
    State(map[logical + 1 := [TrapRecord(t, logical, expires)]], [logical + 1], map[logical + 1 := TrapRevocations(t)])
  }

  lemma TrapAnchored(t: Trap, logical: Pk, expires: int)
    ensures Anchored(TrapState(t, logical, expires))
  {
    var s, r := TrapState(t, logical, expires), TrapRecord(t, logical, expires);
    forall d: Pk, x, rank: nat | x in RecordsOf(s, d) && rank >= x.rank ensures Reaches(s, x.logical, rank, d) {
      assert d == logical + 1 && x == r;
      assert [r][1..] == [];
      assert Path(s, logical, rank, d, [r]);
    }
  }

  /** The key of the cache tells questions apart exactly as far as they agree on rank and history. */
  lemma CacheExact(q: Query, q': Query)
    requires q.logical == q'.logical && q.ctx.evaluating == q'.ctx.evaluating
    ensures Covers(q, q') <==> Interchangeable(q, q')
  {
    if Interchangeable(q, q') {
      forall s, device: Pk | Anchored(s) && device != q.logical && Outlives(s, q, device, q'.now)
        ensures Authorized(s, q', device, 0).Some?
      {
        AnswerKeeps(s, q, q', device);
      }
    } else {
      var t := TrapExists(q, q');
      var s := TrapState(t, q.logical, After(q, q'));
      TrapAnchored(t, q.logical, After(q, q'));
      TrapCatches(q, q', t, s, q.logical + 1);
      assert Outlives(s, q, q.logical + 1, q'.now);
    }
  }

  /** Set by the manager's own operations: after the one question, the other is answered wrongly from the cache. */
  method CacheMisleads(q: Query, q': Query, t: Trap) returns (m: Manager, yes: bool)
    requires q.logical == q'.logical && q.ctx.evaluating == q'.ctx.evaluating && IsTrap(t, q, q')
    ensures yes && Authorized(m.View(), q', q.logical + 1, 0).None?
  {
    var device, cert := q.logical + 1, Cert(q.logical + 1, ALL, After(q, q'), 0, 0);
    m := new Manager(0, (_, _) => true);
    var outcome, _ := m.AuthorizeDevice(q.ctx, q.logical, cert, q.now, t.rank, t.hash);
    assert RecordsOf(m.View(), device) == [TrapRecord(t, q.logical, After(q, q'))];
    if t.revocation.Some? {
      m.RevokeDevice(q.logical, q.logical, device, t.revocation.value.0, q.now, t.revocation.value.1);
    }
    assert RevocationsOf(m.View(), device) == TrapRevocations(t);
    TrapCatches(q, q', t, m.View(), device);
    yes := m.IsAuthorized(q, device, {}, _ => (q.ctx, q.rank));
    yes := m.IsAuthorized(q', device, {}, _ => (q.ctx, q.rank));
  }

  /** A path found at rank 10 answers a question about rank 5, where the device has no record yet. */
  method CacheIgnoresRank() returns (m: Manager, yes: bool, ghost q: Query)
    ensures yes && q.rank == 5 && Authorized(m.View(), q, 1, 0).None?
  {
    var ctx := Context(0, {});
    q := Query(ctx, 0, 0, 5);
    m, yes := CacheMisleads(Query(ctx, 0, 0, 10), Query(ctx, 0, 0, 5), Trap(10, 0, None));
  }

  // ------------------------------------------------------- one-sided revocation

  /** A device with one record of the master key and no revocation: what it may do, field by field. */
  lemma SoleRecord(s: State, q: Query, device: Pk, r: AuthRecord)
    requires device != q.logical && r.issuer == q.logical
    requires RecordsOf(s, device) == [r] && RevocationsOf(s, device) == []
    ensures var usable := && r.logical == q.logical && r.expires > q.now && r.rank <= q.rank
                          && Known(r.hash, q.ctx);
            && Authorized(s, q, device, 0) == (if usable then Some(r.expires) else None)
            && Permissions(s, q, device, 0) == (if usable then Some(r.perms) else None)
  {
    OneRecord(s, q, device, r);
    assert [r][..0] == [];
    assert PermissionsBy(s, q, device, [], 0) == None;
  }

  /** No record of the target made a revocation, and the revoker's record is not the target's own. */
  ghost predicate OneSided(s: State, target: Pk, revoker: Seniority) {
    && (revoker.hash == 0 || !Owns(s, target, revoker.hash))
    && forall d: Pk, rev, x | rev in RevocationsOf(s, d) && x in RecordsOf(s, target) && x.hash != 0 ::
         rev.revoker.hash != x.hash
  }

  /** On the chain, the target holds only records older than `rank`. */
  ghost predicate Junior(chain: seq<AuthRecord>, device: Pk, target: Pk, rank: nat)
    decreases |chain|
  {
    chain == [] || ((device == target ==> chain[0].rank < rank) && Junior(chain[1..], chain[0].issuer, target, rank))
  }

  lemma MutualUnchanged(s: State, t: State, target: Pk, revoker: Seniority, rev: Revocation, a: Hash, b: Hash)
    requires OneSided(s, target, revoker) && rev.revoker == revoker
    requires t == s.(revocations := s.revocations[target := RevocationsOf(s, target) + [rev]])
    requires !Owns(s, target, a) || a == 0
    ensures Mutual(t, a, b) == Mutual(s, a, b)
  {
    forall d: Pk ensures RecordsOf(t, d) == RecordsOf(s, d) {
    }
    forall d: Pk ensures Owns(s, d, a) <==> Owns(t, d, a) {
    }
    OwnerSame(s, t, s.order, a);
    OwnerFound(s, s.order, a);
    var owner := OwnerOf(s, s.order, a);
    if a != 0 && owner.Some? { assert RevocationsOf(t, owner.value) == RevocationsOf(s, owner.value); }
  }

  /** The new revocation strikes the records of the target from its rank on, and no other record. */
  lemma LiveAfter(s: State, t: State, q: Query, target: Pk, rev: Revocation, device: Pk, r: AuthRecord)
    requires OneSided(s, target, rev.revoker) && r in RecordsOf(s, device)
    requires t == s.(revocations := s.revocations[target := RevocationsOf(s, target) + [rev]])
    requires rev.rank <= q.rank && InHistory(q.ctx, rev.hash)
    ensures Live(t, q, device, r) <==> Live(s, q, device, r) && (device == target ==> r.rank < rev.revoker.rank)
  {
    forall x | x in RevocationsOf(s, device) ensures Strikes(t, q, x, r) == Strikes(s, q, x, r) {
      MutualUnchanged(s, t, target, rev.revoker, rev, x.revoker.hash, r.hash);
    }
    if device == target {
      MutualUnchanged(s, t, target, rev.revoker, rev, rev.revoker.hash, r.hash);
      NotMutual(s, target, rev.revoker, r);
      assert Strikes(t, q, rev, r) <==> rev.revoker.rank <= r.rank;
      assert RevocationsOf(t, target) == RevocationsOf(s, target) + [rev];
      assert rev in RevocationsOf(t, target);
    } else {
      assert RevocationsOf(t, device) == RevocationsOf(s, device);
    }
  }

  lemma NotMutual(s: State, target: Pk, revoker: Seniority, r: AuthRecord)
    requires OneSided(s, target, revoker) && r in RecordsOf(s, target)
    ensures !Mutual(s, revoker.hash, r.hash)
  {
    OwnerFound(s, s.order, revoker.hash);
  }

  /** A one-sided revocation leaves exactly the chains on which the target is older than the revoker. */
  lemma {:induction false} ChainsAfter(s: State, t: State, q: Query, target: Pk, rev: Revocation, device: Pk,
                                       chain: seq<AuthRecord>)
    requires OneSided(s, target, rev.revoker)
    requires t == s.(revocations := s.revocations[target := RevocationsOf(s, target) + [rev]])
    requires rev.rank <= q.rank && InHistory(q.ctx, rev.hash)
    ensures LiveChain(t, q, device, chain) <==>
            LiveChain(s, q, device, chain) && Junior(chain, device, target, rev.revoker.rank)
    decreases |chain|
  {
    assert RecordsOf(t, device) == RecordsOf(s, device);
    if chain != [] {
      if chain[0] in RecordsOf(s, device) { LiveAfter(s, t, q, target, rev, device, chain[0]); }
      ChainsAfter(s, t, q, target, rev, chain[0].issuer, chain[1..]);
    }
  }

  /** The hash is zero, or no history is given, or it is in the history. */
  predicate Known(hash: Hash, ctx: Context) { hash == 0 || ctx.evaluating == 0 || hash in ctx.ancestors }

  /** What a one-sided revocation leaves to every device. */
  lemma RevocationCuts(s: State, q: Query, revoker: Pk, target: Pk, rank: nat, now: int, hash: Hash, device: Pk)
    requires OneSided(s, target, RevokerSeniority(s, revoker, q.logical, now, rank))
    requires device != q.logical && rank <= q.rank && Known(hash, q.ctx)
    ensures var t := Revoke(s, revoker, q.logical, target, rank, now, hash);
            var senior := RevokerSeniority(s, revoker, q.logical, now, rank);
            Authorized(t, q, device, 0).Some? <==>
            exists chain :: Chain(s, q, device, 0, chain) && Junior(chain, device, target, senior.rank)
  {
    var t := Revoke(s, revoker, q.logical, target, rank, now, hash);
    var senior := RevokerSeniority(s, revoker, q.logical, now, rank);
    forall chain
      ensures Chain(t, q, device, 0, chain) <==>
              Chain(s, q, device, 0, chain) && Junior(chain, device, target, senior.rank)
    {
      ChainsAfter(s, t, q, target, Revocation(rank, senior, hash), device, chain);
    }
    AuthorizedMeans(t, q, device);
  }

  /** Once the master key has revoked a device, no chain leads through it. */
  lemma {:induction false} NoChainThrough(s: State, q: Query, target: Pk, rank: nat, now: int, hash: Hash, device: Pk,
                                          chain: seq<AuthRecord>)
    requires rank <= q.rank && Known(hash, q.ctx)
    ensures LiveChain(Revoke(s, q.logical, q.logical, target, rank, now, hash), q, device, chain) ==>
              Junior(chain, device, target, 0)
    decreases |chain|
  {
    var t, rev := Revoke(s, q.logical, q.logical, target, rank, now, hash), Revocation(rank, Seniority(0, 0), hash);
    assert RevocationsOf(t, target) == RevocationsOf(s, target) + [rev];
    if chain != [] {
      assert rev in RevocationsOf(t, target) && Strikes(t, q, rev, chain[0]);
      NoChainThrough(s, q, target, rank, now, hash, chain[0].issuer, chain[1..]);
    }
  }

  /** The master key revokes for good: from the rank of the revocation on, the device has no answer. */
  lemma MasterRevokes(s: State, q: Query, target: Pk, rank: nat, now: int, hash: Hash)
    requires target != q.logical && rank <= q.rank && Known(hash, q.ctx)
    ensures var t := Revoke(s, q.logical, q.logical, target, rank, now, hash);
            Authorized(t, q, target, 0) == None && Permissions(t, q, target, 0) == None
  {
    var t := Revoke(s, q.logical, q.logical, target, rank, now, hash);
    forall chain ensures !Chain(t, q, target, 0, chain) {
      NoChainThrough(s, q, target, rank, now, hash, target, chain);
    }
    AuthorizedMeans(t, q, target);
    PermissionsMean(t, q, target);
  }

  /** A device revokes a device with one record exactly when its oldest ADMIN rank is at most that record's. */
  lemma DeviceRevokes(s: State, q: Query, revoker: Pk, target: Pk, r: AuthRecord, rank: nat, now: int, hash: Hash)
    requires revoker != q.logical && target != q.logical && rank <= q.rank && Known(hash, q.ctx)
    requires RecordsOf(s, target) == [r] && r.issuer == q.logical && RevocationsOf(s, target) == []
    requires OneSided(s, target, RevokerSeniority(s, revoker, q.logical, now, rank))
    ensures var t := Revoke(s, revoker, q.logical, target, rank, now, hash);
            var oldest := RevokerSeniority(s, revoker, q.logical, now, rank);
            && IsOldest(RecordsOf(s, revoker), q.logical, now, rank, oldest)
            && (Authorized(t, q, target, 0).Some? <==>
                && r.logical == q.logical && r.expires > q.now && r.rank <= q.rank && Known(r.hash, q.ctx)
                && r.rank < oldest.rank)
  {
    OldestIsLeast(RecordsOf(s, revoker), q.logical, now, rank);
    RevocationCuts(s, q, revoker, target, rank, now, hash, target);
    SoleRecord(s, q, target, r);
    AuthorizedMeans(s, q, target);
    var oldest := RevokerSeniority(s, revoker, q.logical, now, rank);
    forall chain | Chain(s, q, target, 0, chain)
      ensures Junior(chain, target, target, oldest.rank) <==> r.rank < oldest.rank
    {
      assert chain[0] == r && |chain| == 1 && chain[1..] == [];
    }
  }

  /** Through the manager: what the master key revoked is not authorized from then on, whatever was cached. */
  method RevokeByMaster(m: Manager, q: Query, target: Pk, rank: nat, now: int, hash: Hash) returns (yes: bool)
    requires m.Valid() && target != q.logical && rank <= q.rank && Known(hash, q.ctx)
    modifies m
    ensures !yes && Permissions(m.View(), q, target, 0) == None
  {
    MasterRevokes(m.View(), q, target, rank, now, hash);
    m.RevokeDevice(q.logical, q.logical, target, rank, now, hash);
    yes := m.IsAuthorized(q, target, {}, _ => (q.ctx, q.rank));
  }

  /** Through the manager: a junior device cannot revoke a senior one, and a senior or equal one can. */
  method RevokeByDevice(m: Manager, q: Query, revoker: Pk, target: Pk, r: AuthRecord, rank: nat, now: int, hash: Hash)
    returns (before: bool, after: bool, ghost oldest: Seniority)
    requires m.Valid() && revoker != q.logical && target != q.logical && rank <= q.rank && Known(hash, q.ctx)
    requires RecordsOf(m.View(), target) == [r] && r.issuer == q.logical && RevocationsOf(m.View(), target) == []
    requires OneSided(m.View(), target, RevokerSeniority(m.View(), revoker, q.logical, now, rank))
    requires m.pathCache == map[]
    modifies m
    ensures IsOldest(RecordsOf(old(m.View()), revoker), q.logical, now, rank, oldest)
    ensures after <==> before && r.rank < oldest.rank
  {
    oldest := RevokerSeniority(m.View(), revoker, q.logical, now, rank);
    SoleRecord(m.View(), q, target, r);
    DeviceRevokes(m.View(), q, revoker, target, r, rank, now, hash);
    before := m.IsAuthorized(q, target, {}, _ => (q.ctx, q.rank));
    m.RevokeDevice(revoker, q.logical, target, rank, now, hash);
    after := m.IsAuthorized(q, target, {}, _ => (q.ctx, q.rank));
  }

  // ------------------------------------------------------- mutual revocation

  /** One side of a mutual revocation: a device with one master-issued ADMIN record for the identity. */
  ghost predicate Party(s: State, logical: Pk, device: Pk, r: AuthRecord) {
    && device != logical && device in s.order
    && r in RecordsOf(s, device) && (forall x | x in RecordsOf(s, device) && x.logical == logical :: x == r)
    && r.logical == logical && r.issuer == logical && ADMIN in r.perms
    && r.hash != 0 && r.hash <= HASH_MAX && r.rank <= U64_MAX
    && (forall d: Pk | Owns(s, d, r.hash) :: d == device)
  }

  lemma {:induction false} OldestIsOnly(records: seq<AuthRecord>, r: AuthRecord, logical: Pk, now: int, rank: nat)
    requires MayRevoke(r, logical, now, rank) && r.hash <= HASH_MAX && r.rank <= U64_MAX
    requires forall x | x in records && x.logical == logical :: x == r
    ensures OldestAdmin(records, logical, now, rank) == if r in records then Seniority(r.rank, r.hash) else LEAST_SENIOR
  {
    if records != [] {
      var init := records[..|records| - 1];
      assert records == init + [records[|records| - 1]];
      OldestIsOnly(init, r, logical, now, rank);
    }
  }

  lemma PartyIsOwner(s: State, logical: Pk, device: Pk, r: AuthRecord)
    requires Party(s, logical, device, r)
    ensures OwnerOf(s, s.order, r.hash) == Some(device)
  {
    assert Owns(s, device, r.hash);
    OwnerFound(s, s.order, r.hash);
  }

  /** A party is authorized exactly while its one record is live. */
  lemma PartyLives(s: State, q: Query, a: Pk, ra: AuthRecord)
    requires Party(s, q.logical, a, ra)
    ensures Authorized(s, q, a, 0).Some? <==> Live(s, q, a, ra)
  {
    AuthorizedMeans(s, q, a);
    if Live(s, q, a, ra) { assert Chain(s, q, a, 0, [ra]); }
  }

  /** Once each party holds exactly the other's revocation, a party survives exactly when it is the senior one. */
  lemma PartySurvives(s: State, q: Query, a: Pk, ra: AuthRecord, b: Pk, rb: AuthRecord, rankA: nat, rankB: nat,
                      hashA: Hash, hashB: Hash)
    requires a != b && ra.hash != rb.hash && Party(s, q.logical, a, ra) && Party(s, q.logical, b, rb)
    requires RevocationsOf(s, a) == [Revocation(rankB, Seniority(rb.rank, rb.hash), hashB)]
    requires RevocationsOf(s, b) == [Revocation(rankA, Seniority(ra.rank, ra.hash), hashA)]
    requires rankB <= q.rank && InHistory(q.ctx, hashB)
    requires ra.expires > q.now && ra.rank <= q.rank && InHistory(q.ctx, ra.hash)
    ensures Authorized(s, q, a, 0).Some? <==> Senior(Seniority(ra.rank, ra.hash), Seniority(rb.rank, rb.hash))
  {
    var rev := RevocationsOf(s, a)[0];
    PartyIsOwner(s, q.logical, b, rb);
    assert RevokedBy(s, b, ra.hash) by { assert RevocationsOf(s, b)[0] in RevocationsOf(s, b); }
    assert Mutual(s, rb.hash, ra.hash);
    assert Live(s, q, a, ra) <==> !Strikes(s, q, rev, ra);
    PartyLives(s, q, a, ra);
  }

  /** Revocations move no record, so parties stay parties. */
  lemma PartyKept(s: State, t: State, logical: Pk, device: Pk, r: AuthRecord)
    requires Party(s, logical, device, r) && t.records == s.records && t.order == s.order
    ensures Party(t, logical, device, r)
  {
    forall d: Pk | Owns(t, d, r.hash) ensures d == device {
      assert RecordsOf(t, d) == RecordsOf(s, d);
      assert Owns(s, d, r.hash);
    }
  }

  /** Both revocations, in the given order. */
  function RevokeBoth(s: State, logical: Pk, a: Pk, b: Pk, rankA: nat, nowA: int, hashA: Hash,
                      rankB: nat, nowB: int, hashB: Hash, aFirst: bool): State
  {
    if aFirst then Revoke(Revoke(s, a, logical, b, rankA, nowA, hashA), b, logical, a, rankB, nowB, hashB)
    else Revoke(Revoke(s, b, logical, a, rankB, nowB, hashB), a, logical, b, rankA, nowA, hashA)
  }

  /** Two devices that revoke each other: exactly one stays authorized, the senior one, whichever came first. */
  lemma MutualRevocation(s: State, q: Query, a: Pk, ra: AuthRecord, b: Pk, rb: AuthRecord,
                         rankA: nat, nowA: int, hashA: Hash, rankB: nat, nowB: int, hashB: Hash, aFirst: bool)
    requires a != b && ra.hash != rb.hash && Party(s, q.logical, a, ra) && Party(s, q.logical, b, rb)
    requires RevocationsOf(s, a) == [] && RevocationsOf(s, b) == []
    requires MayRevoke(ra, q.logical, nowA, rankA) && MayRevoke(rb, q.logical, nowB, rankB)
    requires rankA <= q.rank && rankB <= q.rank && InHistory(q.ctx, hashA) && InHistory(q.ctx, hashB)
    requires ra.expires > q.now && InHistory(q.ctx, ra.hash) && rb.expires > q.now && InHistory(q.ctx, rb.hash)
    ensures var t := RevokeBoth(s, q.logical, a, b, rankA, nowA, hashA, rankB, nowB, hashB, aFirst);
            && (Authorized(t, q, a, 0).Some? <==> Senior(Seniority(ra.rank, ra.hash), Seniority(rb.rank, rb.hash)))
            && (Authorized(t, q, b, 0).Some? <==> !Authorized(t, q, a, 0).Some?)
  {
    OldestIsOnly(RecordsOf(s, a), ra, q.logical, nowA, rankA);
    OldestIsOnly(RecordsOf(s, b), rb, q.logical, nowB, rankB);
    var t := RevokeBoth(s, q.logical, a, b, rankA, nowA, hashA, rankB, nowB, hashB, aFirst);
    assert RevocationsOf(t, a) == [Revocation(rankB, Seniority(rb.rank, rb.hash), hashB)];
    assert RevocationsOf(t, b) == [Revocation(rankA, Seniority(ra.rank, ra.hash), hashA)];
    PartyKept(s, t, q.logical, a, ra);
    PartyKept(s, t, q.logical, b, rb);
    PartySurvives(t, q, a, ra, b, rb, rankA, rankB, hashA, hashB);
    PartySurvives(t, q, b, rb, a, ra, rankB, rankA, hashB, hashA);
  }
}
