/**
 Set reconciliation of tox-reconcile: invertible Bloom lookup tables.  A sketch is
 a row of cells (signed count, XOR of ids, XOR of checksums); two sketches are
 subtracted and the difference is peeled from cells that hold exactly one id.

 The keyed hashes are parameters.  Counts are unbounded integers.
 */
module Iblt {
  import opened Sequences

  /** A bit string, as the set of its one bits. */
  type Bits = set<nat>
  type Id = Bits

  function Xor(a: Bits, b: Bits): Bits { (a - b) + (b - a) }

  lemma XorLaws(a: Bits, b: Bits, c: Bits)
    ensures Xor(a, b) == Xor(b, a) && Xor(Xor(a, b), c) == Xor(a, Xor(b, c))
    ensures Xor(a, {}) == a && Xor(a, a) == {} && Xor(Xor(a, b), b) == a
  {
  }

  datatype Cell = Cell(count: int, idSum: Bits, hashSum: Bits)

  const ZERO: Cell := Cell(0, {}, {})

  function Plus(a: Cell, b: Cell): Cell {
    Cell(a.count + b.count, Xor(a.idSum, b.idSum), Xor(a.hashSum, b.hashSum))
  }

  function Minus(a: Cell, b: Cell): Cell {
    Cell(a.count - b.count, Xor(a.idSum, b.idSum), Xor(a.hashSum, b.hashSum))
  }

  lemma PlusComm(a: Cell, b: Cell)
    ensures Plus(a, b) == Plus(b, a)
  {
  }

  lemma PlusAssoc(a: Cell, b: Cell, c: Cell)
    ensures Plus(Plus(a, b), c) == Plus(a, Plus(b, c))
  {
  }

  lemma PlusZero(a: Cell)
    ensures Plus(a, ZERO) == a == Plus(ZERO, a) == Minus(a, ZERO)
  {
  }

  lemma Cancel(a: Cell, b: Cell)
    ensures Minus(Plus(a, b), b) == a == Plus(Minus(a, b), b) && Minus(a, a) == ZERO
  {
  }

  /** Moving one term out of either side of a difference. */
  lemma MinusShift(a: Cell, b: Cell, x: Cell)
    ensures Minus(Plus(x, a), b) == Plus(Minus(a, b), x)
    ensures Minus(a, Plus(x, b)) == Minus(Minus(a, b), x)
  {
  }

  lemma CommonCancels(a: Cell, b: Cell, c: Cell)
    ensures Minus(Plus(a, c), Plus(b, c)) == Minus(a, b)
  {
  }

  /** The two keyed hashes: the cells an id goes to, and its checksum. */
  datatype Hashes = Hashes(indices: Id -> seq<nat>, checksum: Id -> Bits) {
    /** `get_indices` on n cells: min(4, n) distinct cells. */
    ghost predicate Ok(n: nat) {
      forall id: Id ::
        && |indices(id)| == (if n < 4 then n else 4)
        && (forall k | 0 <= k < |indices(id)| :: indices(id)[k] < n)
        && (forall j, k | 0 <= j < k < |indices(id)| :: indices(id)[j] != indices(id)[k])
    }

    /** What one copy of `id` adds to cell i. */
    function Item(id: Id, i: nat): Cell {
      if i in indices(id) then Cell(1, id, checksum(id)) else ZERO
    }

    predicate Pure(c: Cell) {
      (c.count == 1 || c.count == -1) && checksum(c.idSum) == c.hashSum
    }
  }

  /** `Tier::from_cell_count(n).d_max()` */
  function DMax(n: nat): nat {
    if n <= 16 then 10 else if n <= 64 then 40 else if n <= 256 then 170 else 680
  }

  /** Takes one id with its count and checksum out of cell i. */
  function Taken(h: Hashes, c: Cell, id: Id, count: int, hash: Bits, i: nat): Cell {
    if i in h.indices(id) then Cell(c.count - count, Xor(c.idSum, id), Xor(c.hashSum, hash)) else c
  }

  /** Every cell after peeling cell `k`. */
  ghost function Peeled(h: Hashes, cells: seq<Cell>, k: nat): seq<Cell>
    requires k < |cells|
  {
    seq(|cells|, i requires 0 <= i < |cells| => Taken(h, cells[i], cells[k].idSum, cells[k].count, cells[k].hashSum, i))
  }

  // ------------------------------------------------------------- peeling runs

  /** Every pick of the run was a pure cell when it was picked. */
  ghost predicate Legal(h: Hashes, cells: seq<Cell>, picks: seq<nat>)
    decreases |picks|, 0
  {
    picks == [] ||
    var init, k := picks[..|picks| - 1], picks[|picks| - 1];
    Legal(h, cells, init) && k < |cells| && h.Pure(After(h, cells, init)[k])
  }

  /** The cells after a run of picks. */
  ghost function After(h: Hashes, cells: seq<Cell>, picks: seq<nat>): (r: seq<Cell>)
    requires Legal(h, cells, picks)
    ensures |r| == |cells|
    decreases |picks|, 1
  {
    if picks == [] then cells
    else Peeled(h, After(h, cells, picks[..|picks| - 1]), picks[|picks| - 1])
  }

  /** The ids a run reads off cells with count `sign`, in order. */
  ghost function Found(h: Hashes, cells: seq<Cell>, picks: seq<nat>, sign: int): (r: seq<Id>)
    requires Legal(h, cells, picks)
    ensures |r| <= |picks|
  {
    if picks == [] then []
    else
      var init := picks[..|picks| - 1];
      var c := After(h, cells, init)[picks[|picks| - 1]];
      Pushed(Found(h, cells, init, sign), c, sign)
  }

  /** Sum of the items of a list of ids in cell i. */
  ghost function Sum(h: Hashes, ids: seq<Id>, i: nat): Cell {
    if ids == [] then ZERO else Plus(h.Item(ids[|ids| - 1], i), Sum(h, ids[..|ids| - 1], i))
  }

  lemma SumPush(h: Hashes, ids: seq<Id>, id: Id, i: nat)
    ensures Sum(h, ids + [id], i) == Plus(h.Item(id, i), Sum(h, ids, i))
  {
    assert (ids + [id])[..|ids|] == ids;
  }

  /** A pure cell takes exactly its own item out of (or, with count -1, puts it back into) every cell. */
  lemma TakenIsItem(h: Hashes, c: Cell, pure: Cell, i: nat)
    requires h.Pure(pure)
    ensures pure.count == 1 ==>
              Taken(h, c, pure.idSum, pure.count, pure.hashSum, i) == Minus(c, h.Item(pure.idSum, i))
    ensures pure.count == -1 ==>
              Taken(h, c, pure.idSum, pure.count, pure.hashSum, i) == Plus(c, h.Item(pure.idSum, i))
  {
    PlusZero(c);
  }

  /** `c` plus what was found in self minus what was found in other is the original cell. */
  ghost predicate Balanced(h: Hashes, original: Cell, c: Cell, self: seq<Id>, other: seq<Id>, i: nat) {
    original == Plus(c, Minus(Sum(h, self, i), Sum(h, other, i)))
  }

  function Pushed(ids: seq<Id>, c: Cell, sign: int): seq<Id> {
    if c.count == sign then ids + [c.idSum] else ids
  }

  /**
   Soundness, on arbitrary cells: what was found so far plus what is left is the
   original, cell by cell, in count, id XOR and checksum XOR.
   */
  lemma {:induction false} FoundPlusRest(h: Hashes, cells: seq<Cell>, picks: seq<nat>, i: nat)
    requires Legal(h, cells, picks) && i < |cells|
    ensures Balanced(h, cells[i], After(h, cells, picks)[i], Found(h, cells, picks, 1), Found(h, cells, picks, -1), i)
  {
    if picks == [] {
      PlusZero(cells[i]);
    } else {
      var init, k := picks[..|picks| - 1], picks[|picks| - 1];
      FoundPlusRest(h, cells, init, i);
      var before := After(h, cells, init);
      BalanceStep(h, cells[i], before[i], before[k], Found(h, cells, init, 1), Found(h, cells, init, -1), i);
    }
  }

  /** One peel moves an item from the remaining cell to the list it is reported in. */
  lemma BalanceStep(h: Hashes, original: Cell, c: Cell, pure: Cell, self: seq<Id>, other: seq<Id>, i: nat)
    requires h.Pure(pure) && Balanced(h, original, c, self, other, i)
    ensures Balanced(h, original, Taken(h, c, pure.idSum, pure.count, pure.hashSum, i),
                     Pushed(self, pure, 1), Pushed(other, pure, -1), i)
  {
    TakenIsItem(h, c, pure, i);
    SumPush(h, self, pure.idSum, i);
    SumPush(h, other, pure.idSum, i);
    Rebalance(c, Sum(h, self, i), Sum(h, other, i), h.Item(pure.idSum, i));
  }

  lemma Rebalance(c: Cell, a: Cell, b: Cell, x: Cell)
    ensures Plus(Minus(c, x), Minus(Plus(x, a), b)) == Plus(c, Minus(a, b))
    ensures Plus(Plus(c, x), Minus(a, Plus(x, b))) == Plus(c, Minus(a, b))
  {
  }

  // --------------------------------------------- sketches of sets and the core

  ghost function SetSum(h: Hashes, s: set<Id>, i: nat): Cell {
    if s == {} then ZERO
    else var x :| x in s; Plus(h.Item(x, i), SetSum(h, s - {x}, i))
  }

  lemma {:induction false} SetSumRemove(h: Hashes, s: set<Id>, x: Id, i: nat)
    requires x in s
    ensures SetSum(h, s, i) == Plus(h.Item(x, i), SetSum(h, s - {x}, i))
  {
    var y :| y in s && SetSum(h, s, i) == Plus(h.Item(y, i), SetSum(h, s - {y}, i));
    if x != y {
      SetSumRemove(h, s - {y}, x, i);
      SetSumRemove(h, s - {x}, y, i);
      assert s - {y} - {x} == s - {x} - {y};
      var rest := SetSum(h, s - {x} - {y}, i);
      Swap(h.Item(x, i), h.Item(y, i), rest);
    }
  }

  lemma Swap(a: Cell, b: Cell, c: Cell)
    ensures Plus(a, Plus(b, c)) == Plus(b, Plus(a, c))
  {
  }

  /** Cell i of a sketch of `p` minus a sketch of `m`. */
  ghost function Load(h: Hashes, p: set<Id>, m: set<Id>, i: nat): Cell {
    Minus(SetSum(h, p, i), SetSum(h, m, i))
  }

  /** The cells are those of the difference of two sets. */
  ghost predicate Holds(h: Hashes, cells: seq<Cell>, p: set<Id>, m: set<Id>) {
    p !! m && forall i | 0 <= i < |cells| :: cells[i] == Load(h, p, m, i)
  }

  ghost function Touching(h: Hashes, s: set<Id>, i: nat): set<Id> {
    set x | x in s && i in h.indices(x)
  }

  ghost predicate Single(s: set<Id>) { exists x :: s == {x} }

  /**
   No coincidence of checksums or XORs among parts of the two sets: a cell looks
   pure only when one id is in it, and looks empty only when none is.
   */
  ghost predicate NoCoincidence(h: Hashes, n: nat, p: set<Id>, m: set<Id>) {
    forall p', m', i: nat | p' <= p && m' <= m && i < n ::
      && (h.Pure(Load(h, p', m', i)) ==> Single(Touching(h, p' + m', i)))
      && (Load(h, p', m', i) == ZERO ==> Touching(h, p' + m', i) == {})
  }

  /** No cell is touched by exactly one id of `s`: peeling cannot start. */
  ghost predicate Stuck(h: Hashes, n: nat, s: set<Id>) {
    forall i: nat | i < n :: !Single(Touching(h, s, i))
  }

  /** The 2-core of the difference hypergraph is empty. */
  ghost predicate EmptyCore(h: Hashes, n: nat, d: set<Id>) {
    forall t | t <= d && Stuck(h, n, t) :: t == {}
  }

  lemma {:induction false} SetSumUntouched(h: Hashes, s: set<Id>, i: nat)
    requires Touching(h, s, i) == {}
    ensures SetSum(h, s, i) == ZERO
  {
    if s != {} {
      var x :| x in s;
      SetSumRemove(h, s, x, i);
      assert x in Touching(h, s, i) <==> i in h.indices(x);
      assert Touching(h, s - {x}, i) == {};
      SetSumUntouched(h, s - {x}, i);
      PlusZero(ZERO);
    }
  }

  /** A cell touched by one id alone shows that id, with its sign. */
  lemma SingleShows(h: Hashes, p: set<Id>, m: set<Id>, x: Id, i: nat)
    requires p !! m && Touching(h, p + m, i) == {x}
    ensures x in p ==> Load(h, p, m, i) == Cell(1, x, h.checksum(x))
    ensures x in m ==> Load(h, p, m, i) == Cell(-1, x, h.checksum(x))
    ensures h.Pure(Load(h, p, m, i)) && x in p + m && i in h.indices(x)
  {
    assert x in Touching(h, p + m, i);
    var s, t := if x in p then p else m, if x in p then m else p;
    assert Touching(h, p + m, i) == Touching(h, s - {x}, i) + Touching(h, t, i) + {x};
    assert Touching(h, t, i) == {} && Touching(h, s - {x}, i) == {};
    SetSumUntouched(h, t, i);
    SetSumUntouched(h, s - {x}, i);
    SetSumRemove(h, s, x, i);
    PlusZero(h.Item(x, i));
    XorLaws(x, {}, {});
    XorLaws(h.checksum(x), {}, {});
    XorLaws({}, x, {});
    XorLaws({}, h.checksum(x), {});
  }

  /** Peeling removes the id from the side its count names. */
  lemma PeelHolds(h: Hashes, cells: seq<Cell>, p: set<Id>, m: set<Id>, k: nat, x: Id)
    requires Holds(h, cells, p, m) && k < |cells| && Touching(h, p + m, k) == {x}
    ensures cells[k].idSum == x && h.Pure(cells[k])
    ensures (x in p <==> cells[k].count == 1) && (x in m <==> cells[k].count == -1)
    ensures x in p ==> Holds(h, Peeled(h, cells, k), p - {x}, m)
    ensures x in m ==> Holds(h, Peeled(h, cells, k), p, m - {x})
  {
    SingleShows(h, p, m, x, k);
    var after := Peeled(h, cells, k);
    forall i | 0 <= i < |cells|
      ensures x in p ==> after[i] == Load(h, p - {x}, m, i)
      ensures x in m ==> after[i] == Load(h, p, m - {x}, i)
    {
      TakenIsItem(h, cells[i], cells[k], i);
      var item := h.Item(x, i);
      if x in p {
        SetSumRemove(h, p, x, i);
        MinusShift(SetSum(h, p - {x}, i), SetSum(h, m, i), item);
        Cancel(Load(h, p - {x}, m, i), item);
      } else {
        SetSumRemove(h, m, x, i);
        MinusShift(SetSum(h, p, i), SetSum(h, m - {x}, i), item);
        Cancel(Load(h, p, m - {x}, i), item);
      }
    }
  }

  function Elems(s: seq<Id>): set<Id> { set x | x in s }

  lemma DistinctPush(s: seq<Id>, x: Id)
    ensures Elems(s + [x]) == Elems(s) + {x}
    ensures Distinct(s) && x !in s ==> Distinct(s + [x])
  {
  }

  /** What a peeling run has done to the difference of two sets. */
  ghost predicate Peeling(h: Hashes, cells: seq<Cell>, picks: seq<nat>, p: set<Id>, m: set<Id>)
    requires Legal(h, cells, picks)
  {
    var f, g := Found(h, cells, picks, 1), Found(h, cells, picks, -1);
    && Elems(f) <= p && Elems(g) <= m && Distinct(f) && Distinct(g) && |f| + |g| == |picks|
    && Holds(h, After(h, cells, picks), p - Elems(f), m - Elems(g))
  }

  ghost function Rest(h: Hashes, cells: seq<Cell>, picks: seq<nat>, p: set<Id>, m: set<Id>): set<Id>
    requires Legal(h, cells, picks)
  {
    (p - Elems(Found(h, cells, picks, 1))) + (m - Elems(Found(h, cells, picks, -1)))
  }

  /** Without coincidences every pick finds one true difference, on the right side, once. */
  lemma {:induction false} RunPeels(h: Hashes, cells: seq<Cell>, picks: seq<nat>, p: set<Id>, m: set<Id>)
    requires Legal(h, cells, picks) && Holds(h, cells, p, m) && NoCoincidence(h, |cells|, p, m)
    ensures Peeling(h, cells, picks, p, m)
  {
    if picks == [] {
      assert Elems([]) == {} && p - {} == p && m - {} == m;
    } else {
      var init, k := picks[..|picks| - 1], picks[|picks| - 1];
      RunPeels(h, cells, init, p, m);
      var f, g := Found(h, cells, init, 1), Found(h, cells, init, -1);
      var x := PickIsSingle(h, cells, init, p, m, k);
      PeelHolds(h, After(h, cells, init), p - Elems(f), m - Elems(g), k, x);
      DistinctPush(f, x);
      DistinctPush(g, x);
      assert p - Elems(f) - {x} == p - (Elems(f) + {x}) && m - Elems(g) - {x} == m - (Elems(g) + {x});
    }
  }

  lemma PickIsSingle(h: Hashes, cells: seq<Cell>, picks: seq<nat>, p: set<Id>, m: set<Id>, k: nat) returns (x: Id)
    requires Legal(h, cells, picks) && NoCoincidence(h, |cells|, p, m) && Peeling(h, cells, picks, p, m)
    requires k < |cells| && h.Pure(After(h, cells, picks)[k])
    ensures Touching(h, Rest(h, cells, picks, p, m), k) == {x}
  {
    var p', m' := p - Elems(Found(h, cells, picks, 1)), m - Elems(Found(h, cells, picks, -1));
    assert h.Pure(Load(h, p', m', k));
    assert Single(Touching(h, p' + m', k));
    x :| Touching(h, p' + m', k) == {x};
  }

  lemma StuckAvoids(h: Hashes, n: nat, t: set<Id>, s: set<Id>, k: nat, x: Id)
    requires t <= s && Stuck(h, n, t) && k < n && Touching(h, s, k) == {x}
    ensures x !in t
  {
    assert x in Touching(h, s, k) && Touching(h, t, k) <= Touching(h, s, k);
    assert x in t ==> Touching(h, t, k) == {x};
  }

  /** A stuck part of the difference is never peeled. */
  lemma {:induction false} StuckSurvives(h: Hashes, cells: seq<Cell>, picks: seq<nat>, p: set<Id>, m: set<Id>,
                                         t: set<Id>)
    requires Legal(h, cells, picks) && Holds(h, cells, p, m) && NoCoincidence(h, |cells|, p, m)
    requires t <= p + m && Stuck(h, |cells|, t)
    ensures t <= Rest(h, cells, picks, p, m)
  {
    if picks != [] {
      var init, k := picks[..|picks| - 1], picks[|picks| - 1];
      StuckSurvives(h, cells, init, p, m, t);
      RunPeels(h, cells, init, p, m);
      var f, g := Found(h, cells, init, 1), Found(h, cells, init, -1);
      var x := PickIsSingle(h, cells, init, p, m, k);
      PeelHolds(h, After(h, cells, init), p - Elems(f), m - Elems(g), k, x);
      DistinctPush(f, x);
      DistinctPush(g, x);
      StuckAvoids(h, |cells|, t, Rest(h, cells, init, p, m), k, x);
    }
  }

  /** A pure cell that holds the id it shows. */
  predicate Proper(h: Hashes, cells: seq<Cell>, i: nat) {
    i < |cells| && h.Pure(cells[i]) && i in h.indices(cells[i].idSum)
  }

  ghost predicate Exhausted(h: Hashes, cells: seq<Cell>) {
    forall i: nat :: !Proper(h, cells, i)
  }

  lemma SingleIsProper(h: Hashes, cells: seq<Cell>, p: set<Id>, m: set<Id>, i: nat)
    requires Holds(h, cells, p, m) && i < |cells| && Single(Touching(h, p + m, i))
    ensures Proper(h, cells, i)
  {
    var x :| Touching(h, p + m, i) == {x};
    SingleShows(h, p, m, x, i);
  }

  /** When no proper pure cell is left, what remains is stuck. */
  lemma ExhaustedIsStuck(h: Hashes, cells: seq<Cell>, picks: seq<nat>, p: set<Id>, m: set<Id>)
    requires Legal(h, cells, picks) && Peeling(h, cells, picks, p, m)
    requires Exhausted(h, After(h, cells, picks))
    ensures Stuck(h, |cells|, Rest(h, cells, picks, p, m))
  {
    var rest := Rest(h, cells, picks, p, m);
    forall i: nat | i < |cells| ensures !Single(Touching(h, rest, i)) {
      if Single(Touching(h, rest, i)) {
        SingleIsProper(h, After(h, cells, picks), p - Elems(Found(h, cells, picks, 1)),
                       m - Elems(Found(h, cells, picks, -1)), i);
      }
    }
  }

  /**
   Order independence: two runs that both went on until no proper pure cell was
   left found the same ids, in whatever order they picked cells.
   */
  lemma OrderIndependent(h: Hashes, cells: seq<Cell>, picks: seq<nat>, picks': seq<nat>, p: set<Id>, m: set<Id>)
    requires Holds(h, cells, p, m) && NoCoincidence(h, |cells|, p, m)
    requires Legal(h, cells, picks) && Exhausted(h, After(h, cells, picks))
    requires Legal(h, cells, picks') && Exhausted(h, After(h, cells, picks'))
    ensures Elems(Found(h, cells, picks, 1)) == Elems(Found(h, cells, picks', 1))
    ensures Elems(Found(h, cells, picks, -1)) == Elems(Found(h, cells, picks', -1))
    ensures |picks| == |picks'|
  {
    RestContained(h, cells, picks, picks', p, m);
    RestContained(h, cells, picks', picks, p, m);
    SameFound(p, m, Found(h, cells, picks, 1), Found(h, cells, picks, -1),
              Found(h, cells, picks', 1), Found(h, cells, picks', -1));
  }

  lemma SameCount(s: seq<Id>, t: seq<Id>)
    requires Distinct(s) && Distinct(t) && Elems(s) == Elems(t)
    ensures |s| == |t|
  {
    DistinctSize(s);
    DistinctSize(t);
  }

  lemma RestContained(h: Hashes, cells: seq<Cell>, picks: seq<nat>, picks': seq<nat>, p: set<Id>, m: set<Id>)
    requires Holds(h, cells, p, m) && NoCoincidence(h, |cells|, p, m)
    requires Legal(h, cells, picks) && Exhausted(h, After(h, cells, picks))
    requires Legal(h, cells, picks')
    ensures Peeling(h, cells, picks, p, m) && Rest(h, cells, picks, p, m) <= Rest(h, cells, picks', p, m)
  {
    RunPeels(h, cells, picks, p, m);
    ExhaustedIsStuck(h, cells, picks, p, m);
    StuckSurvives(h, cells, picks', p, m, Rest(h, cells, picks, p, m));
  }

  lemma SameFound(p: set<Id>, m: set<Id>, f: seq<Id>, g: seq<Id>, f': seq<Id>, g': seq<Id>)
    requires p !! m && Elems(f) <= p && Elems(f') <= p && Elems(g) <= m && Elems(g') <= m
    requires Distinct(f) && Distinct(g) && Distinct(f') && Distinct(g')
    requires (p - Elems(f)) + (m - Elems(g)) <= (p - Elems(f')) + (m - Elems(g'))
    requires (p - Elems(f')) + (m - Elems(g')) <= (p - Elems(f)) + (m - Elems(g))
    ensures Elems(f) == Elems(f') && Elems(g) == Elems(g') && |f| + |g| == |f'| + |g'|
  {
    var r, r' := (p - Elems(f)) + (m - Elems(g)), (p - Elems(f')) + (m - Elems(g'));
    forall x ensures (x in Elems(f) <==> x in Elems(f')) && (x in Elems(g) <==> x in Elems(g')) {
      assert x in r <==> x in r';
    }
    SameCount(f, f');
    SameCount(g, g');
  }

  lemma {:induction false} DistinctSize(s: seq<Id>)
    requires Distinct(s)
    ensures |Elems(s)| == |s|
  {
    if s != [] {
      var init, x := s[..|s| - 1], s[|s| - 1];
      DistinctSize(init);
      DistinctPush(init, x);
      assert init + [x] == s && x !in init;
    }
  }

  // ------------------------------------------------------- completeness

  ghost predicate AllZero(cells: seq<Cell>) {
    forall i | 0 <= i < |cells| :: cells[i] == ZERO
  }

  lemma ZeroMeansNothingLeft(h: Hashes, cells: seq<Cell>, p: set<Id>, m: set<Id>, p0: set<Id>, m0: set<Id>)
    requires Holds(h, cells, p, m) && p <= p0 && m <= m0 && NoCoincidence(h, |cells|, p0, m0)
    requires |cells| > 0 && h.Ok(|cells|)
    ensures AllZero(cells) <==> p + m == {}
  {
    if p + m == {} {
      assert p == {} && m == {};
    } else {
      var x :| x in p + m;
      var i := h.indices(x)[0];
      assert i in h.indices(x) && i < |cells|;
      assert x in Touching(h, p + m, i);
      assert cells[i] == Load(h, p, m, i);
    }
  }

  /** How a decode ended: given up at the cap with a pure cell in hand, or no proper pure cell left. */
  ghost predicate Ended(h: Hashes, cells: seq<Cell>, picks: seq<nat>, aborted: bool) {
    && Legal(h, cells, picks) && |picks| <= DMax(|cells|)
    && (aborted ==> |picks| == DMax(|cells|) && exists k: nat | k < |cells| :: h.Pure(After(h, cells, picks)[k]))
    && (!aborted ==> Exhausted(h, After(h, cells, picks)))
  }

  /**
   Completeness: without coincidences, on at least one cell, decoding the difference
   of two sets succeeds exactly when its hypergraph has an empty 2-core and it has at
   most `d_max` elements, and then returns exactly the two one-sided differences.
   */
  lemma DecodeComplete(h: Hashes, cells: seq<Cell>, picks: seq<nat>, aborted: bool, p: set<Id>, m: set<Id>)
    requires |cells| > 0 && h.Ok(|cells|) && Holds(h, cells, p, m) && NoCoincidence(h, |cells|, p, m)
    requires Ended(h, cells, picks, aborted)
    ensures !aborted && AllZero(After(h, cells, picks)) <==> EmptyCore(h, |cells|, p + m) && |p| + |m| <= DMax(|cells|)
    ensures !aborted && AllZero(After(h, cells, picks)) ==>
              Elems(Found(h, cells, picks, 1)) == p && Elems(Found(h, cells, picks, -1)) == m
  {
    RunPeels(h, cells, picks, p, m);
    var f, g := Found(h, cells, picks, 1), Found(h, cells, picks, -1);
    var p', m' := p - Elems(f), m - Elems(g);
    var rest := Rest(h, cells, picks, p, m);
    DistinctSize(f);
    DistinctSize(g);
    Sizes(p, m, Elems(f), Elems(g));
    ZeroMeansNothingLeft(h, After(h, cells, picks), p', m', p, m);
    if aborted {
      var k: nat :| k < |cells| && h.Pure(After(h, cells, picks)[k]);
      var x := PickIsSingle(h, cells, picks, p, m, k);
      assert x in Touching(h, rest, k) && x in rest;
    } else {
      ExhaustedIsStuck(h, cells, picks, p, m);
      if rest == {} {
        forall t | t <= p + m && Stuck(h, |cells|, t) ensures t == {} {
          StuckSurvives(h, cells, picks, p, m, t);
        }
      } else {
        assert rest <= p + m && Stuck(h, |cells|, rest);
      }
    }
  }

  lemma Sizes(p: set<Id>, m: set<Id>, f: set<Id>, g: set<Id>)
    requires f <= p && g <= m
    ensures (p - f) + (m - g) == {} ==> p == f && m == g && |p| + |m| == |f| + |g|
    ensures (p - f) + (m - g) != {} ==> |p| + |m| > |f| + |g|
  {
    assert p == f + (p - f) && m == g + (m - g);
    if (p - f) + (m - g) != {} {
      var x :| x in (p - f) + (m - g);
      assert x in p - f || x in m - g;
    }
  }
}
