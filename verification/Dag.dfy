/**
 Validation of nodes in merkle-tox-core (`MerkleNode::validate`) and the admin distance
 that the file store records (`put_node`): what holds of every history grown by
 validated nodes.  Hashes are numbers; proof of work and signatures are answers that
 come with the node.
 */
module Dag {
  import opened Sequences

  type Hash = nat

  const MAX_PARENTS: nat := 16
  const MAX_METADATA_SIZE: nat := 32 * 1024
  const MAX_MESSAGE_SIZE: nat := 1_048_576
  const MAX_SOFT_ANCHOR_CHAIN: nat := 3
  const MAX_ANCESTRY_HOPS: nat := 500
  const U16_MAX: nat := 0xffff

  /** `Administrative`: authorize, revoke, snapshot, anchor snapshot; `Informal`: the other control actions. */
  datatype Action = Genesis | SoftAnchor(basis: Hash) | Administrative | Informal

  datatype Content = KeyWrap | SenderKeyDistribution | Control(action: Action) | Message

  datatype Auth = Signature | EphemeralSignature

  /** `signed` and `mined` answer the signature and proof-of-work checks. */
  datatype Node = Node(parents: seq<Hash>, rank: nat, timestamp: int, content: Content, metadataSize: nat,
                       contentSize: nat, auth: Auth, signed: bool, mined: bool)
  {
    predicate Admin() { content.KeyWrap? || (content.Control? && !content.action.Informal?) }

    predicate Soft() { content.Control? && content.action.SoftAnchor? }

    predicate Genesis() { content.Control? && content.action.Genesis? }

    predicate AllowsDeviceSignature() { content.SenderKeyDistribution? || (content.Control? && !Admin()) }

    predicate PowOk() { Genesis() && auth.Signature? ==> mined }

    predicate SignatureOk() { if auth.Signature? then signed else Genesis() && parents == [] }

    /** Which signature the node may carry, and that it checks. */
    predicate Authentic() {
      && (match auth
          case Signature => Admin() || AllowsDeviceSignature()
          case EphemeralSignature => Admin() ==> Genesis() && parents == [])
      && (Admin() || (AllowsDeviceSignature() && auth.Signature?) ==> PowOk() && SignatureOk())
    }
  }

  /** What each kind of content has to show, case by case. */
  predicate Credentials(node: Node) {
    match node.content
    case KeyWrap => node.auth.Signature? && node.signed
    case SenderKeyDistribution => node.auth.EphemeralSignature? || node.signed
    case Message => node.auth.EphemeralSignature?
    case Control(action) =>
      match action
      case Genesis => if node.auth.Signature? then node.signed && node.mined else node.parents == []
      case SoftAnchor(_) => node.auth.Signature? && node.signed
      case Administrative => node.auth.Signature? && node.signed
      case Informal => node.auth.EphemeralSignature? || node.signed
  }

  /** The authentication rules amount to that table. */
  lemma AuthenticMeans(node: Node)
    ensures node.Authentic() <==> Credentials(node)
  {
  }

  datatype Info = Info(node: Node, adminDistance: nat)

  type Nodes = map<Hash, Info>

  datatype Outcome =
    | Valid
    | MaxParentsExceeded(actual: nat)
    | DuplicateParent(parent: Hash)
    | MaxMetadataExceeded(size: nat)
    | MaxMessageSizeExceeded(size: nat)
    | ContentNodeShouldUseMac
    | GenesisMacWithParents
    | AdminNodeShouldUseSignature
    | PoWInvalid
    | InvalidAdminSignature
    | MissingParents(missing: seq<Hash>)
    | RankViolation(actual: nat, expected: nat)
    | AdminCannotHaveContentParent
    | SoftAnchorInvalidParent
    | SoftAnchorChainingCapExceeded(actual: nat)
    | AncestryCapExceeded(actual: nat)

  // ------------------------------------------------------- what a node must satisfy

  predicate Known(nodes: Nodes, parents: seq<Hash>) { forall i | 0 <= i < |parents| :: parents[i] in nodes }

  /** The largest rank among the known parents. */
  function MaxRank(nodes: Nodes, parents: seq<Hash>): nat {
    if parents == [] then 0
    else
      var rest, p := MaxRank(nodes, parents[..|parents| - 1]), parents[|parents| - 1];
      if p in nodes && nodes[p].node.rank >= rest then nodes[p].node.rank else rest
  }

  function ExpectedRank(nodes: Nodes, parents: seq<Hash>): nat {
    if parents == [] then 0 else MaxRank(nodes, parents) + 1
  }

  /** The least admin distance among the known parents; `none` when there is none. */
  function MinDistance(nodes: Nodes, parents: seq<Hash>, none: nat): nat {
    if parents == [] then none
    else
      var rest, p := MinDistance(nodes, parents[..|parents| - 1], none), parents[|parents| - 1];
      if p in nodes && nodes[p].adminDistance < rest then nodes[p].adminDistance else rest
  }

  const U64_MAX: nat := 0xffff_ffff_ffff_ffff

  /** What `put_node` stores. */
  function AdminDistance(nodes: Nodes, node: Node): nat {
    if node.Admin() then 0
    else
      var d := MinDistance(nodes, node.parents, U64_MAX);
      if d != U64_MAX && d + 1 <= U16_MAX then d + 1 else U16_MAX
  }

  /** Ranks fit the parents, and a soft anchor hangs on its basis alone. */
  ghost predicate Ordered(nodes: Nodes, node: Node) {
    && Known(nodes, node.parents) && node.rank == ExpectedRank(nodes, node.parents)
    && (node.Soft() ==> node.parents == [node.content.action.basis])
  }

  ghost predicate Ranked(nodes: Nodes) { forall h | h in nodes :: Ordered(nodes, nodes[h].node) }

  lemma {:induction false} ParentRank(nodes: Nodes, parents: seq<Hash>, i: nat)
    requires i < |parents| && parents[i] in nodes
    ensures nodes[parents[i]].node.rank <= MaxRank(nodes, parents)
  {
    if i < |parents| - 1 { ParentRank(nodes, parents[..|parents| - 1], i); }
  }

  lemma ParentBelow(nodes: Nodes, h: Hash, p: Hash)
    requires Ranked(nodes) && h in nodes && p in nodes[h].node.parents
    ensures p in nodes && nodes[p].node.rank < nodes[h].node.rank
  {
    var parents := nodes[h].node.parents;
    var i :| 0 <= i < |parents| && parents[i] == p;
    ParentRank(nodes, parents, i);
  }

  /** `get_soft_anchor_chain_length` */
  function ChainLength(nodes: Nodes, h: Hash): nat
    requires Ranked(nodes) && h in nodes
    decreases nodes[h].node.rank
  {
    var node := nodes[h].node;
    if node.Soft() then
      ParentBelow(nodes, h, node.content.action.basis);
      1 + ChainLength(nodes, node.content.action.basis)
    else 0
  }

  /** Everything `validate` demands. */
  ghost predicate Acceptable(nodes: Nodes, node: Node)
    requires Ranked(nodes)
  {
    && |node.parents| <= MAX_PARENTS && Distinct(node.parents)
    && node.metadataSize <= MAX_METADATA_SIZE && node.metadataSize + node.contentSize <= MAX_MESSAGE_SIZE
    && node.Authentic()
    && Ordered(nodes, node)
    && Capped(nodes, node)
  }

  /** The rules that refer to the kinds of the parents. */
  ghost predicate Capped(nodes: Nodes, node: Node)
    requires Ranked(nodes) && Known(nodes, node.parents) && (node.Soft() ==> |node.parents| == 1)
  {
    && (node.Admin() && !node.Soft() ==> OnlyAdmin(nodes, node.parents))
    && (node.Soft() ==> ChainLength(nodes, node.parents[0]) < MAX_SOFT_ANCHOR_CHAIN)
    && (!node.Admin() && node.parents != [] ==> MinDistance(nodes, node.parents, U64_MAX) < MAX_ANCESTRY_HOPS)
  }

  predicate OnlyAdmin(nodes: Nodes, parents: seq<Hash>) {
    forall i | 0 <= i < |parents| :: parents[i] in nodes && nodes[parents[i]].node.Admin()
  }

  /** An accepted node is small: 16 parents, none twice, and the sizes in bytes. */
  lemma AcceptedFits(nodes: Nodes, node: Node)
    requires Ranked(nodes) && Acceptable(nodes, node)
    ensures |node.parents| <= 16 && (forall i, j | 0 <= i < j < |node.parents| :: node.parents[i] != node.parents[j])
    ensures node.metadataSize <= 32 * 1024 && node.metadataSize + node.contentSize <= 1024 * 1024
  {
  }

  /** In an accepted node: what is not signed is a first Genesis node or content, and no message is device-signed. */
  lemma AcceptedIsSigned(nodes: Nodes, node: Node)
    requires Ranked(nodes) && Acceptable(nodes, node)
    ensures node.content.KeyWrap? || (node.content.Control? && !node.content.action.Informal?) ==>
              || (node.auth.Signature? && node.signed)
              || (node.content == Control(Genesis) && node.parents == [] && node.auth.EphemeralSignature?)
    ensures node.content == Control(Genesis) && node.auth.Signature? ==> node.mined
    ensures node.content.Message? ==> node.auth.EphemeralSignature?
    ensures node.auth.Signature? ==> node.signed
  {
    AuthenticMeans(node);
  }

  // ------------------------------------------------------- the store

  /** Every stored node is acceptable where it stands and has the distance computed for it. */
  ghost predicate Sound(nodes: Nodes) {
    && Ranked(nodes)
    && forall h | h in nodes ::
         Acceptable(nodes, nodes[h].node) && nodes[h].adminDistance == AdminDistance(nodes, nodes[h].node)
  }

  class Store {
    var nodes: Nodes

    constructor ()
      ensures Sound(nodes) && nodes == map[]
    {
      nodes := map[];
    }

    method FindDuplicate(parents: seq<Hash>) returns (at: nat)
      ensures at <= |parents| && (at == |parents| <==> Distinct(parents))
      ensures at < |parents| ==> parents[at] in parents[..at]
    {
      for i := 0 to |parents|
        invariant Distinct(parents[..i])
      {
        if parents[i] in parents[..i] { return i; }
      }
      assert parents[..|parents|] == parents;
      return |parents|;
    }

    /** Rules 0 to 2: sizes and authentication. */
    method CheckForm(node: Node) returns (r: Outcome)
      ensures r.Valid? <==> && |node.parents| <= MAX_PARENTS && Distinct(node.parents)
                            && node.metadataSize <= MAX_METADATA_SIZE
                            && node.metadataSize + node.contentSize <= MAX_MESSAGE_SIZE
                            && node.Authentic()
    {
      if |node.parents| > MAX_PARENTS { return MaxParentsExceeded(|node.parents|); }
      var at := FindDuplicate(node.parents);
      if at < |node.parents| { return DuplicateParent(node.parents[at]); }
      if node.metadataSize > MAX_METADATA_SIZE { return MaxMetadataExceeded(node.metadataSize); }
      if node.metadataSize + node.contentSize > MAX_MESSAGE_SIZE {
        return MaxMessageSizeExceeded(node.metadataSize + node.contentSize);
      }
      if node.auth.Signature? && !node.Admin() && !node.AllowsDeviceSignature() { return ContentNodeShouldUseMac; }
      if node.auth.EphemeralSignature? && node.Admin() {
        if !node.Genesis() { return AdminNodeShouldUseSignature; }
        if node.parents != [] { return GenesisMacWithParents; }
      }
      if node.Admin() || (node.AllowsDeviceSignature() && node.auth.Signature?) {
        if !node.PowOk() { return PoWInvalid; }
        if !node.SignatureOk() { return InvalidAdminSignature; }
      }
      return Valid;
    }

    /** Rule 3: all parents known, and the rank one more than theirs. */
    method CheckRank(node: Node) returns (r: Outcome)
      ensures r.Valid? <==> Known(nodes, node.parents) && node.rank == ExpectedRank(nodes, node.parents)
      ensures r.MissingParents? ==> forall h :: h in r.missing <==> h in node.parents && h !in nodes
      ensures r.RankViolation? ==> r.expected == ExpectedRank(nodes, node.parents) != node.rank == r.actual
    {
      var maxRank := 0;
      var missing := [];
      for i := 0 to |node.parents|
        invariant maxRank == MaxRank(nodes, node.parents[..i])
        invariant forall h :: h in missing <==> h in node.parents[..i] && h !in nodes
      {
        var p := node.parents[i];
        assert node.parents[..i + 1][..i] == node.parents[..i];
        if p in nodes {
          if nodes[p].node.rank >= maxRank { maxRank := nodes[p].node.rank; }
        } else {
          missing := missing + [p];
        }
      }
      assert node.parents[..|node.parents|] == node.parents;
      if missing != [] {
        assert missing[0] in node.parents && missing[0] !in nodes;
        return MissingParents(missing);
      }
      assert Known(nodes, node.parents) by {
        forall i | 0 <= i < |node.parents| ensures node.parents[i] in nodes { assert node.parents[i] !in missing; }
      }
      var expected := if node.parents == [] then 0 else maxRank + 1;
      if node.rank != expected { return RankViolation(node.rank, expected); }
      return Valid;
    }

    /** Rule 4: chain isolation, and the form and length of soft anchor chains. */
    method CheckAnchors(node: Node) returns (r: Outcome)
      requires Ranked(nodes) && Known(nodes, node.parents)
      ensures r.Valid? <==>
              && (node.Admin() && !node.Soft() ==> OnlyAdmin(nodes, node.parents))
              && (node.Soft() ==> && node.parents == [node.content.action.basis]
                                  && ChainLength(nodes, node.parents[0]) < MAX_SOFT_ANCHOR_CHAIN)
    {
      if node.Admin() && !node.Soft() {
        for i := 0 to |node.parents|
          invariant OnlyAdmin(nodes, node.parents[..i])
        {
          assert node.parents[..i + 1] == node.parents[..i] + [node.parents[i]];
          if !nodes[node.parents[i]].node.Admin() { return AdminCannotHaveContentParent; }
        }
        assert node.parents[..|node.parents|] == node.parents;
      }
      if node.Soft() {
        if |node.parents| != 1 || node.parents[0] != node.content.action.basis { return SoftAnchorInvalidParent; }
        var length := ChainLength(nodes, node.parents[0]) + 1;
        if length > MAX_SOFT_ANCHOR_CHAIN { return SoftAnchorChainingCapExceeded(length); }
      }
      return Valid;
    }

    /** Rule 5: the distance from an Admin node. */
    method CheckAncestry(node: Node) returns (r: Outcome)
      requires Known(nodes, node.parents)
      ensures r.Valid? <==>
              (!node.Admin() && node.parents != [] ==> MinDistance(nodes, node.parents, U64_MAX) < MAX_ANCESTRY_HOPS)
    {
      if !node.Admin() && node.parents != [] {
        var least := LeastDistance(node.parents);
        if least >= MAX_ANCESTRY_HOPS { return AncestryCapExceeded(least + 1); }
      }
      return Valid;
    }

    method LeastDistance(parents: seq<Hash>) returns (least: nat)
      ensures least == MinDistance(nodes, parents, U64_MAX)
    {
      least := U64_MAX;
      for i := 0 to |parents|
        invariant least == MinDistance(nodes, parents[..i], U64_MAX)
      {
        assert parents[..i + 1][..i] == parents[..i];
        if parents[i] in nodes && nodes[parents[i]].adminDistance < least { least := nodes[parents[i]].adminDistance; }
      }
      assert parents[..|parents|] == parents;
    }

    method Validate(node: Node) returns (r: Outcome)
      requires Ranked(nodes)
      ensures r.Valid? <==> Acceptable(nodes, node)
    {
      r := CheckForm(node);
      if !r.Valid? { return; }
      r := CheckRank(node);
      if !r.Valid? { return; }
      r := CheckAnchors(node);
      if !r.Valid? { return; }
      r := CheckAncestry(node);
    }

    method DistanceFor(node: Node) returns (distance: nat)
      ensures distance == AdminDistance(nodes, node)
    {
      if node.Admin() { return 0; }
      var least := LeastDistance(node.parents);
      distance := if least != U64_MAX && least + 1 <= U16_MAX then least + 1 else U16_MAX;
    }

    /** `put_node` stores whatever it is given; a sound history stays sound when the node is acceptable. */
    method PutNode(hash: Hash, node: Node)
      modifies this
      ensures nodes == old(nodes)[hash := Info(node, AdminDistance(old(nodes), node))]
      ensures old(Sound(nodes) && Acceptable(nodes, node) && (hash in nodes ==> nodes[hash].node == node)) ==>
        Sound(nodes)
    {
      var distance := DistanceFor(node);
      InsertKeepsIf(nodes, hash, node);
      nodes := nodes[hash := Info(node, distance)];
    }

    /** Validation, then storage; `hash` identifies the node, so a stored node under it is the same one. */
    method Receive(hash: Hash, node: Node) returns (r: Outcome)
      requires Sound(nodes) && (hash in nodes ==> nodes[hash].node == node)
      modifies this
      ensures Sound(nodes)
      ensures r.Valid? <==> Acceptable(old(nodes), node)
      ensures nodes == if r.Valid? then old(nodes)[hash := Info(node, AdminDistance(old(nodes), node))] else old(nodes)
    {
      r := Validate(node);
      if r.Valid? { PutNode(hash, node); }
    }
  }

  // ------------------------------------------------------- growth

  ghost predicate Grown(small: Nodes, big: Nodes) { forall h | h in small :: h in big && big[h] == small[h] }

  lemma {:induction false} LookupsAgree(small: Nodes, big: Nodes, parents: seq<Hash>)
    requires Grown(small, big) && Known(small, parents)
    ensures MaxRank(small, parents) == MaxRank(big, parents)
    ensures MinDistance(small, parents, U64_MAX) == MinDistance(big, parents, U64_MAX)
  {
    if parents != [] { LookupsAgree(small, big, parents[..|parents| - 1]); }
  }

  lemma {:induction false} ChainsAgree(small: Nodes, big: Nodes, h: Hash)
    requires Grown(small, big) && Ranked(small) && Ranked(big) && h in small
    ensures ChainLength(small, h) == ChainLength(big, h)
    decreases small[h].node.rank
  {
    var node := small[h].node;
    if node.Soft() {
      ParentBelow(small, h, node.parents[0]);
      ChainsAgree(small, big, node.parents[0]);
    }
  }

  lemma OrderedAgrees(small: Nodes, big: Nodes, node: Node)
    requires Grown(small, big) && Ordered(small, node)
    ensures Ordered(big, node)
  {
    LookupsAgree(small, big, node.parents);
  }

  /** A node stays acceptable as the history grows, with the same admin distance. */
  lemma AcceptableAgrees(small: Nodes, big: Nodes, node: Node)
    requires Grown(small, big) && Ranked(small) && Ranked(big) && Acceptable(small, node)
    ensures Acceptable(big, node) && AdminDistance(small, node) == AdminDistance(big, node)
  {
    LookupsAgree(small, big, node.parents);
    if node.Soft() { ChainsAgree(small, big, node.parents[0]); }
  }

  lemma InsertKeeps(nodes: Nodes, hash: Hash, node: Node)
    requires Sound(nodes) && Acceptable(nodes, node)
    requires hash in nodes ==> nodes[hash].node == node
    ensures Sound(nodes[hash := Info(node, AdminDistance(nodes, node))])
  {
    var big := nodes[hash := Info(node, AdminDistance(nodes, node))];
    assert Grown(nodes, big);
    forall h | h in big ensures Ordered(big, big[h].node) {
      OrderedAgrees(nodes, big, big[h].node);
    }
    forall h | h in big
      ensures Acceptable(big, big[h].node) && big[h].adminDistance == AdminDistance(big, big[h].node)
    {
      AcceptableAgrees(nodes, big, big[h].node);
    }
  }

  lemma InsertKeepsIf(nodes: Nodes, hash: Hash, node: Node)
    ensures Sound(nodes) && Acceptable(nodes, node) && (hash in nodes ==> nodes[hash].node == node) ==>
              Sound(nodes[hash := Info(node, AdminDistance(nodes, node))])
  {
    if Sound(nodes) && Acceptable(nodes, node) && (hash in nodes ==> nodes[hash].node == node) {
      InsertKeeps(nodes, hash, node);
    }
  }

  // ------------------------------------------------------- what holds of every such history

  /** `b` is an ancestor of `a` over `n` edges. */
  ghost predicate Ancestor(nodes: Nodes, a: Hash, b: Hash, n: nat)
    decreases n
  {
    && a in nodes
    && if n == 0 then a == b else exists p | p in nodes[a].node.parents :: Ancestor(nodes, p, b, n - 1)
  }

  lemma {:induction false} RankBounds(nodes: Nodes, a: Hash, b: Hash, n: nat)
    requires Ranked(nodes) && Ancestor(nodes, a, b, n)
    ensures b in nodes && nodes[a].node.rank >= nodes[b].node.rank + n
    decreases n
  {
    if n > 0 {
      var p :| p in nodes[a].node.parents && Ancestor(nodes, p, b, n - 1);
      ParentBelow(nodes, a, p);
      RankBounds(nodes, p, b, n - 1);
    }
  }

  /** No node is its own ancestor. */
  lemma Acyclic(nodes: Nodes, a: Hash, n: nat)
    requires Ranked(nodes) && n > 0
    ensures !Ancestor(nodes, a, a, n)
  {
    if Ancestor(nodes, a, a, n) { RankBounds(nodes, a, a, n); }
  }

  lemma {:induction false} HighestParent(nodes: Nodes, parents: seq<Hash>) returns (p: Hash)
    requires parents != [] && Known(nodes, parents)
    ensures p in parents && p in nodes && nodes[p].node.rank == MaxRank(nodes, parents)
  {
    var last := parents[|parents| - 1];
    assert |parents| == 1 ==> MaxRank(nodes, parents[..|parents| - 1]) == 0;
    if nodes[last].node.rank == MaxRank(nodes, parents) {
      p := last;
    } else {
      p := HighestParent(nodes, parents[..|parents| - 1]);
    }
  }

  lemma {:induction false} RankAttained(nodes: Nodes, a: Hash) returns (root: Hash)
    requires Ranked(nodes) && a in nodes
    ensures Ancestor(nodes, a, root, nodes[a].node.rank) && root in nodes && nodes[root].node.parents == []
    decreases nodes[a].node.rank
  {
    if nodes[a].node.parents == [] {
      root := a;
    } else {
      var p := HighestParent(nodes, nodes[a].node.parents);
      root := RankAttained(nodes, p);
    }
  }

  /** The rank is the length of the longest path to a root. */
  lemma RankIsLongestPath(nodes: Nodes, a: Hash)
    requires Ranked(nodes) && a in nodes
    ensures exists root ::
      Ancestor(nodes, a, root, nodes[a].node.rank) && root in nodes && nodes[root].node.parents == []
    ensures forall b, n: nat | Ancestor(nodes, a, b, n) :: n <= nodes[a].node.rank
  {
    var root := RankAttained(nodes, a);
    forall b, n: nat | Ancestor(nodes, a, b, n) ensures n <= nodes[a].node.rank {
      RankBounds(nodes, a, b, n);
    }
  }

  /** A path of `n` consecutive soft anchors starting at `a`. */
  ghost predicate SoftRun(nodes: Nodes, a: Hash, n: nat)
    decreases n
  {
    n == 0 || (a in nodes && nodes[a].node.Soft() && exists p | p in nodes[a].node.parents :: SoftRun(nodes, p, n - 1))
  }

  lemma {:induction false} RunIsChain(nodes: Nodes, a: Hash, n: nat)
    requires Ranked(nodes) && a in nodes && SoftRun(nodes, a, n)
    ensures n <= ChainLength(nodes, a)
    decreases n
  {
    if n > 0 {
      var p :| p in nodes[a].node.parents && SoftRun(nodes, p, n - 1);
      assert Ordered(nodes, nodes[a].node);
      ParentBelow(nodes, a, p);
      RunIsChain(nodes, p, n - 1);
    }
  }

  /** Soft anchors never run longer than three. */
  lemma SoftRunsAreShort(nodes: Nodes, a: Hash, n: nat)
    requires Sound(nodes) && a in nodes && SoftRun(nodes, a, n)
    ensures n <= MAX_SOFT_ANCHOR_CHAIN
  {
    RunIsChain(nodes, a, n);
    assert Acceptable(nodes, nodes[a].node);
  }

  lemma {:induction false} NearestParent(nodes: Nodes, parents: seq<Hash>) returns (p: Hash)
    requires Known(nodes, parents) && MinDistance(nodes, parents, U64_MAX) < U64_MAX
    ensures p in parents && p in nodes && nodes[p].adminDistance == MinDistance(nodes, parents, U64_MAX)
  {
    var last := parents[|parents| - 1];
    if nodes[last].adminDistance == MinDistance(nodes, parents, U64_MAX) {
      p := last;
    } else {
      p := NearestParent(nodes, parents[..|parents| - 1]);
    }
  }

  lemma {:induction false} ParentDistance(nodes: Nodes, parents: seq<Hash>, i: nat)
    requires i < |parents| && parents[i] in nodes
    ensures MinDistance(nodes, parents, U64_MAX) <= nodes[parents[i]].adminDistance
  {
    if i < |parents| - 1 { ParentDistance(nodes, parents[..|parents| - 1], i); }
  }

  ghost predicate AdminAt(nodes: Nodes, a: Hash, n: nat) {
    exists b :: Ancestor(nodes, a, b, n) && b in nodes && nodes[b].node.Admin()
  }

  /** What the distance lemmas need of a sound history. */
  ghost predicate Measured(nodes: Nodes) {
    forall h | h in nodes :: MeasuredAt(nodes, nodes[h])
  }

  ghost predicate MeasuredAt(nodes: Nodes, info: Info) {
    && Known(nodes, info.node.parents) && info.adminDistance == AdminDistance(nodes, info.node)
    && (!info.node.Admin() && info.node.parents != [] ==>
          MinDistance(nodes, info.node.parents, U64_MAX) < MAX_ANCESTRY_HOPS)
  }

  lemma SoundIsMeasured(nodes: Nodes)
    requires Sound(nodes)
    ensures Measured(nodes)
  {
    forall h | h in nodes ensures MeasuredAt(nodes, nodes[h]) { assert Acceptable(nodes, nodes[h].node); }
  }

  /** Content with parents is one hop further than its nearest parent. */
  lemma ContentDistance(nodes: Nodes, info: Info)
    requires MeasuredAt(nodes, info) && !info.node.Admin() && info.node.parents != []
    ensures info.adminDistance == MinDistance(nodes, info.node.parents, U64_MAX) + 1 <= MAX_ANCESTRY_HOPS
  {
  }

  /** A node below the cap is not content without parents. */
  lemma NearIsConnected(nodes: Nodes, info: Info)
    requires MeasuredAt(nodes, info) && info.adminDistance < MAX_ANCESTRY_HOPS
    ensures info.node.Admin() || info.node.parents != []
  {
  }

  /** A node is as close to an Admin node as its distance says, unless it is content without parents. */
  lemma {:induction false} DistanceAttained(nodes: Nodes, a: Hash)
    requires Measured(nodes) && a in nodes && (nodes[a].node.Admin() || nodes[a].node.parents != [])
    ensures nodes[a].adminDistance <= MAX_ANCESTRY_HOPS && AdminAt(nodes, a, nodes[a].adminDistance)
    decreases nodes[a].adminDistance
  {
    if nodes[a].node.Admin() {
      assert MeasuredAt(nodes, nodes[a]) && Ancestor(nodes, a, a, 0);
    } else {
      ContentDistance(nodes, nodes[a]);
      var p := NearestParent(nodes, nodes[a].node.parents);
      NearIsConnected(nodes, nodes[p]);
      DistanceAttained(nodes, p);
      AdminOneFurther(nodes, a, p, nodes[p].adminDistance);
    }
  }

  lemma OneFurther(nodes: Nodes, a: Hash, p: Hash, b: Hash, n: nat)
    requires a in nodes && p in nodes[a].node.parents && Ancestor(nodes, p, b, n)
    ensures Ancestor(nodes, a, b, n + 1)
  {
    assert Ancestor(nodes, p, b, (n + 1) - 1);
  }

  lemma AdminOneFurther(nodes: Nodes, a: Hash, p: Hash, n: nat)
    requires a in nodes && p in nodes[a].node.parents && AdminAt(nodes, p, n)
    ensures AdminAt(nodes, a, n + 1)
  {
    var b :| Ancestor(nodes, p, b, n) && b in nodes && nodes[b].node.Admin();
    OneFurther(nodes, a, p, b, n);
  }

  lemma {:induction false} DistanceBounds(nodes: Nodes, a: Hash, b: Hash, n: nat)
    requires Measured(nodes) && Ancestor(nodes, a, b, n) && b in nodes && nodes[b].node.Admin()
    ensures nodes[a].adminDistance <= n
    decreases n
  {
    assert MeasuredAt(nodes, nodes[a]);
    if n > 0 && !nodes[a].node.Admin() {
      var p :| p in nodes[a].node.parents && Ancestor(nodes, p, b, n - 1);
      DistanceBounds(nodes, p, b, n - 1);
      var i :| 0 <= i < |nodes[a].node.parents| && nodes[a].node.parents[i] == p;
      ParentDistance(nodes, nodes[a].node.parents, i);
    }
  }

  /** Every content node with parents is at most 500 hops from an Admin node; the stored distance is exact. */
  lemma WithinReachOfAdmin(nodes: Nodes, a: Hash)
    requires Sound(nodes) && a in nodes && (nodes[a].node.Admin() || nodes[a].node.parents != [])
    ensures var d := nodes[a].adminDistance;
            d <= MAX_ANCESTRY_HOPS && AdminAt(nodes, a, d) && forall n: nat | AdminAt(nodes, a, n) :: d <= n
  {
    SoundIsMeasured(nodes);
    DistanceAttained(nodes, a);
    forall n: nat | AdminAt(nodes, a, n) ensures nodes[a].adminDistance <= n {
      var b :| Ancestor(nodes, a, b, n) && b in nodes && nodes[b].node.Admin();
      DistanceBounds(nodes, a, b, n);
    }
  }

  /**
   Content without parents is acceptable in any history, the empty one included, exactly at rank 0 within the
   size limits and with a signature that fits it.
   */
  lemma OrphanAccepted(nodes: Nodes, node: Node)
    requires Ranked(nodes) && !node.Admin() && node.parents == []
    ensures Acceptable(nodes, node) <==>
            && node.rank == 0 && node.metadataSize <= MAX_METADATA_SIZE
            && node.metadataSize + node.contentSize <= MAX_MESSAGE_SIZE
            && (node.auth.Signature? ==> node.AllowsDeviceSignature() && node.signed)
  {
  }

  /** Such a node exists: an unsigned message at rank 0 starts a history of its own. */
  lemma OrphanExists(timestamp: int, size: nat)
    requires size <= MAX_MESSAGE_SIZE
    ensures Acceptable(map[], Node([], 0, timestamp, Message, 0, size, EphemeralSignature, false, false))
  {
    OrphanAccepted(map[], Node([], 0, timestamp, Message, 0, size, EphemeralSignature, false, false));
  }

  /** Content without parents has no Admin ancestor at all. */
  lemma OrphanContent(nodes: Nodes, a: Hash, n: nat)
    requires Sound(nodes) && a in nodes && !nodes[a].node.Admin() && nodes[a].node.parents == []
    ensures nodes[a].adminDistance == U16_MAX && !AdminAt(nodes, a, n)
  {
    assert Acceptable(nodes, nodes[a].node);
  }

  // ------------------------------------------------------- effective timestamps

  /** Parents are known and rank below their children. */
  ghost predicate Descends(nodes: Nodes) {
    forall h, p | h in nodes && p in nodes[h].node.parents :: p in nodes && nodes[p].node.rank < nodes[h].node.rank
  }

  lemma SoundDescends(nodes: Nodes)
    requires Ranked(nodes)
    ensures Descends(nodes)
  {
    forall h, p | h in nodes && p in nodes[h].node.parents
      ensures p in nodes && nodes[p].node.rank < nodes[h].node.rank
    {
      ParentBelow(nodes, h, p);
    }
  }

  /** The latest of the node's timestamp and the effective timestamps of its first `k` parents. */
  function EffectiveUpTo(nodes: Nodes, h: Hash, k: nat): int
    requires Descends(nodes) && h in nodes && k <= |nodes[h].node.parents|
    decreases nodes[h].node.rank, k
  {
    if k == 0 then nodes[h].node.timestamp
    else
      var sofar, p := EffectiveUpTo(nodes, h, k - 1), nodes[h].node.parents[k - 1];
      if p !in nodes then sofar
      else
        var t := EffectiveUpTo(nodes, p, |nodes[p].node.parents|);
        if t > sofar then t else sofar
  }

  /** `effective_timestamp` */
  function EffectiveTimestamp(nodes: Nodes, h: Hash): int
    requires Descends(nodes) && h in nodes
  {
    EffectiveUpTo(nodes, h, |nodes[h].node.parents|)
  }

  lemma {:induction false} EffectiveAbove(nodes: Nodes, a: Hash, k: nat, i: nat)
    requires Descends(nodes) && a in nodes && i < k <= |nodes[a].node.parents|
    ensures nodes[a].node.parents[i] in nodes
    ensures EffectiveUpTo(nodes, a, k) >= EffectiveTimestamp(nodes, nodes[a].node.parents[i])
  {
    if i < k - 1 { EffectiveAbove(nodes, a, k - 1, i); }
  }

  lemma {:induction false} EffectiveOwn(nodes: Nodes, a: Hash, k: nat)
    requires Descends(nodes) && a in nodes && k <= |nodes[a].node.parents|
    ensures EffectiveUpTo(nodes, a, k) >= nodes[a].node.timestamp
  {
    if k > 0 { EffectiveOwn(nodes, a, k - 1); }
  }

  lemma {:induction false} EffectiveBounds(nodes: Nodes, a: Hash, b: Hash, n: nat)
    requires Descends(nodes) && Ancestor(nodes, a, b, n)
    ensures b in nodes && EffectiveTimestamp(nodes, a) >= nodes[b].node.timestamp
    decreases n
  {
    if n == 0 {
      EffectiveOwn(nodes, a, |nodes[a].node.parents|);
    } else {
      var p :| p in nodes[a].node.parents && Ancestor(nodes, p, b, n - 1);
      var i :| 0 <= i < |nodes[a].node.parents| && nodes[a].node.parents[i] == p;
      EffectiveBounds(nodes, p, b, n - 1);
      EffectiveAbove(nodes, a, |nodes[a].node.parents|, i);
    }
  }

  lemma {:induction false} EffectiveAttained(nodes: Nodes, a: Hash, k: nat) returns (b: Hash, n: nat)
    requires Descends(nodes) && a in nodes && k <= |nodes[a].node.parents|
    ensures Ancestor(nodes, a, b, n) && b in nodes && nodes[b].node.timestamp == EffectiveUpTo(nodes, a, k)
    decreases nodes[a].node.rank, k
  {
    if k == 0 {
      b, n := a, 0;
    } else if EffectiveUpTo(nodes, a, k) == EffectiveUpTo(nodes, a, k - 1) {
      b, n := EffectiveAttained(nodes, a, k - 1);
    } else {
      var p := nodes[a].node.parents[k - 1];
      b, n := EffectiveAttained(nodes, p, |nodes[p].node.parents|);
      OneFurther(nodes, a, p, b, n);
      n := n + 1;
    }
  }

  /** The effective timestamp is the maximum over the node and all its ancestors. */
  lemma EffectiveIsMaximum(nodes: Nodes, a: Hash)
    requires Descends(nodes) && a in nodes
    ensures exists b, n: nat ::
      Ancestor(nodes, a, b, n) && b in nodes && nodes[b].node.timestamp == EffectiveTimestamp(nodes, a)
    ensures forall b, n: nat | Ancestor(nodes, a, b, n) ::
      b in nodes && nodes[b].node.timestamp <= EffectiveTimestamp(nodes, a)
  {
    var b, n := EffectiveAttained(nodes, a, |nodes[a].node.parents|);
    forall b, n: nat | Ancestor(nodes, a, b, n)
      ensures b in nodes && nodes[b].node.timestamp <= EffectiveTimestamp(nodes, a)
    {
      EffectiveBounds(nodes, a, b, n);
    }
  }

  /** In a history with valid ranks it never falls from a parent to its child. */
  lemma EffectiveIsMonotone(nodes: Nodes, a: Hash, p: Hash)
    requires Ranked(nodes) && a in nodes && p in nodes[a].node.parents
    ensures Descends(nodes) && p in nodes
    ensures EffectiveTimestamp(nodes, p) <= EffectiveTimestamp(nodes, a)
  {
    SoundDescends(nodes);
    EffectiveIsMaximum(nodes, p);
    EffectiveIsMaximum(nodes, a);
    var b, n: nat :| Ancestor(nodes, p, b, n) && b in nodes && nodes[b].node.timestamp == EffectiveTimestamp(nodes, p);
    OneFurther(nodes, a, p, b, n);
  }
}
