/**
 The sketch object of tox-reconcile (`IbltSketch`): cells updated in place by
 insert, remove, subtract and the peeling decoder with its stack of candidate cells.
 */
module IbltSketch {
  import opened Iblt
  import opened Sequences

  datatype Stats = Stats(cellsPeeled: nat, iterations: nat)

  datatype Decoding =
    | Decoded(inSelf: seq<Id>, inOther: seq<Id>, stats: Stats)
    | DecodingFailed(stats: Stats)

  /** Cell i after adding `delta` copies of an id. */
  function Added(h: Hashes, c: Cell, id: Id, delta: int, i: nat): Cell {
    if i in h.indices(id) then Cell(c.count + delta, Xor(c.idSum, id), Xor(c.hashSum, h.checksum(id))) else c
  }

  /** The stack holds cell numbers, among them every proper pure cell but possibly `k`. */
  ghost predicate TracksBut(h: Hashes, cells: seq<Cell>, stack: seq<nat>, k: nat) {
    && (forall i | i in stack :: i < |cells|)
    && (forall i: nat | Proper(h, cells, i) && i != k :: i in stack)
  }

  ghost predicate Tracks(h: Hashes, cells: seq<Cell>, stack: seq<nat>) {
    && (forall i | i in stack :: i < |cells|)
    && (forall i: nat | Proper(h, cells, i) :: i in stack)
  }

  lemma Popped(h: Hashes, cells: seq<Cell>, stack: seq<nat>)
    requires stack != [] && Tracks(h, cells, stack)
    ensures stack[|stack| - 1] < |cells|
    ensures TracksBut(h, cells, stack[..|stack| - 1], stack[|stack| - 1])
    ensures !Proper(h, cells, stack[|stack| - 1]) ==> Tracks(h, cells, stack[..|stack| - 1])
  {
    var init := stack[..|stack| - 1];
    assert stack == init + [stack[|stack| - 1]];
    assert stack[|stack| - 1] in stack && forall i | i in init :: i in stack;
  }

  class Sketch {
    const h: Hashes
    var cells: seq<Cell>

    constructor (h: Hashes, cellCount: nat)
      ensures this.h == h && |cells| == cellCount && AllZero(cells)
    {
      this.h := h;
      cells := seq(cellCount, i => ZERO);
    }

    method Update(id: Id, delta: int)
      requires h.Ok(|cells|)
      modifies `cells
      ensures |cells| == |old(cells)|
      ensures forall i | 0 <= i < |cells| :: cells[i] == Added(h, old(cells)[i], id, delta, i)
    {
      var indices := h.indices(id);
      var checksum := h.checksum(id);
      for k := 0 to |indices|
        invariant |cells| == |old(cells)|
        invariant forall i | 0 <= i < |cells| ::
          cells[i] == if i in indices[..k] then Added(h, old(cells)[i], id, delta, i) else old(cells)[i]
      {
        var idx := indices[k];
        var c := cells[idx];
        assert idx !in indices[..k];
        cells := cells[idx := Cell(c.count + delta, Xor(c.idSum, id), Xor(c.hashSum, checksum))];
      }
      assert indices[..|indices|] == indices;
    }

    method Insert(id: Id)
      requires h.Ok(|cells|)
      modifies `cells
      ensures |cells| == |old(cells)|
      ensures forall i | 0 <= i < |cells| :: cells[i] == Plus(h.Item(id, i), old(cells)[i])
    {
      ghost var before := cells;
      Update(id, 1);
      forall i | 0 <= i < |cells| ensures cells[i] == Plus(h.Item(id, i), before[i]) {
        PlusComm(h.Item(id, i), before[i]);
        PlusZero(before[i]);
      }
    }

    method Remove(id: Id)
      requires h.Ok(|cells|)
      modifies `cells
      ensures |cells| == |old(cells)|
      ensures forall i | 0 <= i < |cells| :: cells[i] == Minus(old(cells)[i], h.Item(id, i))
    {
      ghost var before := cells;
      Update(id, -1);
      forall i | 0 <= i < |cells| ensures cells[i] == Minus(before[i], h.Item(id, i)) {
        PlusZero(before[i]);
      }
    }

    /** Inserts a list of ids into an empty sketch. */
    method InsertAll(ids: seq<Id>)
      requires h.Ok(|cells|) && AllZero(cells)
      modifies `cells
      ensures |cells| == |old(cells)|
      ensures forall i | 0 <= i < |cells| :: cells[i] == Sum(h, ids, i)
    {
      for k := 0 to |ids|
        invariant |cells| == |old(cells)|
        invariant forall i | 0 <= i < |cells| :: cells[i] == Sum(h, ids[..k], i)
      {
        assert ids[..k + 1] == ids[..k] + [ids[k]];
        forall i: nat ensures Sum(h, ids[..k + 1], i) == Plus(h.Item(ids[k], i), Sum(h, ids[..k], i)) {
          SumPush(h, ids[..k], ids[k], i);
        }
        Insert(ids[k]);
      }
      assert ids[..|ids|] == ids;
    }

    method Subtract(other: Sketch) returns (ok: bool)
      modifies `cells
      ensures ok <==> |old(cells)| == |old(other.cells)|
      ensures !ok ==> cells == old(cells)
      ensures ok ==> |cells| == |old(cells)| &&
                     forall i | 0 <= i < |cells| :: cells[i] == Minus(old(cells)[i], old(other.cells)[i])
    {
      if |cells| != |other.cells| { return false; }
      var theirs := other.cells;
      var mine := cells;
      for i := 0 to |mine|
        invariant |cells| == |mine|
        invariant forall j | 0 <= j < |mine| :: cells[j] == if j < i then Minus(mine[j], theirs[j]) else mine[j]
      {
        cells := cells[i := Minus(cells[i], theirs[i])];
      }
      return true;
    }

    /** Takes the id of pure cell `k` out of every cell it maps to; cells that become pure are pushed. */
    method Peel(k: nat, stack: seq<nat>) returns (stack': seq<nat>)
      requires k < |cells| && h.Ok(|cells|) && h.Pure(cells[k]) && TracksBut(h, cells, stack, k)
      modifies `cells
      ensures cells == Peeled(h, old(cells), k) && Tracks(h, cells, stack')
      ensures |stack'| <= |stack| + 4
    {
      var cell := cells[k];
      var id, count := cell.idSum, cell.count;
      var indices := h.indices(id);
      var mine := cells;
      ghost var target := Peeled(h, mine, k);
      stack' := stack;
      for j := 0 to |indices|
        invariant |cells| == |mine| && |stack'| <= |stack| + j
        invariant forall i | 0 <= i < |mine| :: cells[i] == if i in indices[..j] then target[i] else mine[i]
        invariant forall i | i in stack' :: i < |mine|
        invariant forall i: nat | i in stack :: i in stack'
        invariant forall i: nat | i in indices[..j] && Proper(h, cells, i) :: i in stack'
      {
        var i := indices[j];
        var c := cells[i];
        assert i !in indices[..j] && i in indices;
        cells := cells[i := Cell(c.count - count, Xor(c.idSum, id), Xor(c.hashSum, cell.hashSum))];
        assert cells[i] == target[i];
        if h.Pure(cells[i]) { stack' := stack' + [i]; }
        assert indices[..j + 1] == indices[..j] + [i];
      }
      assert indices[..|indices|] == indices;
      assert cells == target;
      forall i: nat | Proper(h, cells, i) ensures i in stack' {
        if i !in indices {
          assert cells[i] == mine[i] && Proper(h, mine, i);
        }
      }
    }

    /** The first pass: every pure cell goes on the stack. */
    method Scan() returns (stack: seq<nat>)
      ensures |stack| <= |cells| && Tracks(h, cells, stack)
    {
      stack := [];
      for i := 0 to |cells|
        invariant |stack| <= i && forall j | j in stack :: j < i
        invariant forall j: nat | j < i && h.Pure(cells[j]) :: j in stack
      {
        if h.Pure(cells[i]) { stack := stack + [i]; }
      }
    }

    /**
     Decodes arbitrary cells.  It always ends, within 3n + 4 d_max iterations; what it
     found is a legal peeling run; success means every cell came out zero, and then the
     two lists account for the original sketch cell by cell.
     */
    method Decode() returns (r: Decoding, ghost picks: seq<nat>, ghost aborted: bool)
      requires h.Ok(|cells|)
      modifies `cells
      ensures Ended(h, old(cells), picks, aborted)
      ensures r.Decoded? <==> !aborted && AllZero(After(h, old(cells), picks))
      ensures r.Decoded? ==> && r.inSelf == Found(h, old(cells), picks, 1)
                             && r.inOther == Found(h, old(cells), picks, -1)
                             && r.stats.cellsPeeled == |picks|
      ensures r.Decoded? ==> forall i | 0 <= i < |old(cells)| ::
                old(cells)[i] == Minus(Sum(h, r.inSelf, i), Sum(h, r.inOther, i))
      ensures r.stats.iterations <= 3 * |old(cells)| + 4 * DMax(|old(cells)|)
    {
      var n := |cells|;
      ghost var cells0 := cells;
      var inSelf: seq<Id>, inOther: seq<Id> := [], [];
      var stack: seq<nat> := Scan();
      var peeled: nat, iterations: nat := 0, n;
      picks, aborted := [], false;
      while stack != []
        invariant |cells| == n && Legal(h, cells0, picks) && cells == After(h, cells0, picks)
        invariant |picks| <= DMax(n)
        invariant inSelf == Found(h, cells0, picks, 1) && inOther == Found(h, cells0, picks, -1)
        invariant |inSelf| + |inOther| == |picks| == peeled
        invariant Tracks(h, cells, stack)
        invariant iterations + |stack| <= 2 * n + 4 * |picks|
        decreases DMax(n) - |picks|, |stack|
      {
        var top := |stack| - 1;
        var idx := stack[top];
        Popped(h, cells, stack);
        stack := stack[..top];
        iterations := iterations + 1;
        if h.Pure(cells[idx]) {
          var cell := cells[idx];
          peeled := peeled + 1;
          if |inSelf| + |inOther| + 1 > DMax(n) {
            aborted := true;
            r := DecodingFailed(Stats(peeled, iterations));
            return;
          }
          if cell.count == 1 { inSelf := inSelf + [cell.idSum]; } else { inOther := inOther + [cell.idSum]; }
          stack := Peel(idx, stack);
          RunPush(h, cells0, picks, idx);
          picks := picks + [idx];
        }
      }
      r := Finish(inSelf, inOther, peeled, iterations);
      if r.Decoded? {
        forall i | 0 <= i < n ensures cells0[i] == Minus(Sum(h, r.inSelf, i), Sum(h, r.inOther, i)) {
          FoundPlusRest(h, cells0, picks, i);
          PlusZero(Minus(Sum(h, inSelf, i), Sum(h, inOther, i)));
        }
      }
    }

    /** The last pass: success when every cell is zero. */
    method Finish(inSelf: seq<Id>, inOther: seq<Id>, peeled: nat, iterations: nat) returns (r: Decoding)
      ensures r.Decoded? <==> AllZero(cells)
      ensures r.Decoded? ==> r.inSelf == inSelf && r.inOther == inOther && r.stats.cellsPeeled == peeled
      ensures r.stats.iterations <= iterations + |cells|
    {
      for i := 0 to |cells|
        invariant forall j | 0 <= j < i :: cells[j] == ZERO
      {
        if cells[i].count != 0 || cells[i].hashSum != {} || cells[i].idSum != {} {
          return DecodingFailed(Stats(peeled, iterations + i + 1));
        }
      }
      return Decoded(inSelf, inOther, Stats(peeled, iterations + |cells|));
    }
  }

  lemma RunPush(h: Hashes, cells: seq<Cell>, picks: seq<nat>, k: nat)
    requires Legal(h, cells, picks) && k < |cells| && h.Pure(After(h, cells, picks)[k])
    ensures Legal(h, cells, picks + [k])
    ensures After(h, cells, picks + [k]) == Peeled(h, After(h, cells, picks), k)
    ensures forall sign: int :: Found(h, cells, picks + [k], sign) ==
                                Pushed(Found(h, cells, picks, sign), After(h, cells, picks)[k], sign)
  {
    assert (picks + [k])[..|picks|] == picks;
  }

  // ------------------------------------------------ the difference of two sketches

  lemma ElemsInit(ids: seq<Id>)
    requires Distinct(ids) && ids != []
    ensures var init, x := ids[..|ids| - 1], ids[|ids| - 1];
            Distinct(init) && x in Elems(ids) && Elems(ids) - {x} == Elems(init)
  {
    var init, x := ids[..|ids| - 1], ids[|ids| - 1];
    assert ids == init + [x] && x !in init;
  }

  lemma {:induction false} SumIsSetSum(h: Hashes, ids: seq<Id>, i: nat)
    requires Distinct(ids)
    ensures Sum(h, ids, i) == SetSum(h, Elems(ids), i)
  {
    if ids == [] {
      assert Elems([]) == {};
    } else {
      ElemsInit(ids);
      SumIsSetSum(h, ids[..|ids| - 1], i);
      SetSumRemove(h, Elems(ids), ids[|ids| - 1], i);
    }
  }

  lemma {:induction false} SetSumSplit(h: Hashes, s: set<Id>, t: set<Id>, i: nat)
    requires s !! t
    ensures SetSum(h, s + t, i) == Plus(SetSum(h, s, i), SetSum(h, t, i))
    decreases |s|
  {
    if s == {} {
      assert s + t == t;
      PlusZero(SetSum(h, t, i));
    } else {
      var x :| x in s;
      SetSumSplit(h, s - {x}, t, i);
      SetSumRemove(h, s, x, i);
      SetSumRemove(h, s + t, x, i);
      assert s + t - {x} == s - {x} + t;
      PlusAssoc(h.Item(x, i), SetSum(h, s - {x}, i), SetSum(h, t, i));
    }
  }

  /** Ids that both sides have cancel out of every cell. */
  lemma SharedCancel(h: Hashes, a: set<Id>, b: set<Id>, i: nat)
    ensures Minus(SetSum(h, a, i), SetSum(h, b, i)) == Load(h, a - b, b - a, i)
  {
    assert a - b + a * b == a && b - a + a * b == b;
    SetSumSplit(h, a - b, a * b, i);
    SetSumSplit(h, b - a, a * b, i);
    CommonCancels(SetSum(h, a - b, i), SetSum(h, b - a, i), SetSum(h, a * b, i));
  }

  /**
   Reconciling two sets: both sides sketch their ids, one sketch is subtracted from
   the other and decoded.
   */
  method Reconcile(h: Hashes, n: nat, a: seq<Id>, b: seq<Id>) returns (r: Decoding)
    requires n > 0 && h.Ok(n) && Distinct(a) && Distinct(b)
    requires NoCoincidence(h, n, Elems(a) - Elems(b), Elems(b) - Elems(a))
    ensures var p, m := Elems(a) - Elems(b), Elems(b) - Elems(a);
            && (r.Decoded? <==> EmptyCore(h, n, p + m) && |p| + |m| <= DMax(n))
            && (r.Decoded? ==> Elems(r.inSelf) == p && Elems(r.inOther) == m)
  {
    var mine := new Sketch(h, n);
    var theirs := new Sketch(h, n);
    mine.InsertAll(a);
    theirs.InsertAll(b);
    var ok := mine.Subtract(theirs);
    ghost var p, m, cells := Elems(a) - Elems(b), Elems(b) - Elems(a), mine.cells;
    forall i | 0 <= i < n ensures cells[i] == Load(h, p, m, i) {
      SumIsSetSum(h, a, i);
      SumIsSetSum(h, b, i);
      SharedCancel(h, Elems(a), Elems(b), i);
    }
    ghost var picks, aborted;
    r, picks, aborted := mine.Decode();
    DecodeComplete(h, cells, picks, aborted, p, m);
  }

  /** On zero cells the decoder reports success and finds nothing, whatever the sets were. */
  method EmptySketchDecodes(h: Hashes, ids: seq<Id>) returns (r: Decoding)
    requires h.Ok(0)
    ensures r.Decoded? && r.inSelf == [] && r.inOther == []
  {
    var s := new Sketch(h, 0);
    s.InsertAll(ids);
    ghost var picks, aborted;
    r, picks, aborted := s.Decode();
    assert Legal(h, [], picks) ==> picks == [];
  }
}
