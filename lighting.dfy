/** The theory behind World.lightDFS: which cells a radius-bounded,
    opacity-gated flood fill from the avatar's cell lights. */
module Lighting {
  type Cell = (int, int)

  /** What one lighting pass depends on: the grid extents, the set of opaque
      cells, the origin (the avatar's cell) and the torch radius. */
  datatype Scene = Scene(width: int, height: int, blocking: set<Cell>, origin: Cell, radius: real)

  predicate InGrid(w: int, h: int, c: Cell)
  {
    0 <= c.0 < w && 0 <= c.1 < h
  }

  /** The source's `sqrt(dx*dx + dy*dy) < r`, stated without the square root;
      for a non-positive radius no cell is within reach. */
  predicate InRadius(o: Cell, c: Cell, r: real)
  {
    var dx, dy := o.0 - c.0, o.1 - c.1;
    0.0 < r && (dx * dx + dy * dy) as real < r * r
  }

  /** A cell the fill may light: in the grid and strictly inside the radius. */
  predicate Lightable(s: Scene, c: Cell)
  {
    InGrid(s.width, s.height, c) && InRadius(s.origin, c, s.radius)
  }

  /** The four orthogonal neighbours of `a`, the cells the fill visits next. */
  predicate Adjacent(a: Cell, b: Cell)
  {
    b == (a.0 - 1, a.1) || b == (a.0 + 1, a.1) || b == (a.0, a.1 - 1) || b == (a.0, a.1 + 1)
  }

  /** An orthogonal path from the origin whose cells are all lightable and
      whose cells before the last are all transparent. */
  ghost predicate IsLightPath(s: Scene, p: seq<Cell>)
  {
    |p| > 0 && p[0] == s.origin &&
    (forall k :: 0 <= k < |p| ==> Lightable(s, p[k])) &&
    (forall k :: 0 <= k < |p| - 1 ==> p[k] !in s.blocking && Adjacent(p[k], p[k + 1]))
  }

  /** The cells that light reaches in scene `s`. */
  ghost predicate Reachable(s: Scene, c: Cell)
  {
    exists p :: IsLightPath(s, p) && p[|p| - 1] == c
  }

  ghost predicate AllReachable(s: Scene, lit: set<Cell>)
  {
    forall c {:trigger Reachable(s, c)} :: c in lit ==> Reachable(s, c)
  }

  /** Every transparent cell of `from` has its lightable neighbours in `lit`. */
  ghost predicate Spreads(s: Scene, from: set<Cell>, lit: set<Cell>)
  {
    forall c, n {:trigger Adjacent(c, n)} :: c in from && c !in s.blocking && Adjacent(c, n) && Lightable(s, n) ==> n in lit
  }

  /** Where a fill may start: the origin, or a neighbour of a reached transparent cell. */
  ghost predicate Admissible(s: Scene, c: Cell)
  {
    c == s.origin || exists q :: Reachable(s, q) && q !in s.blocking && Adjacent(q, c)
  }

  lemma OriginReachable(s: Scene)
    requires Lightable(s, s.origin)
    ensures Reachable(s, s.origin)
  {
    assert IsLightPath(s, [s.origin]);
  }

  /** Light passes from a reached transparent cell to any lightable neighbour. */
  lemma PathExtends(s: Scene, q: Cell, c: Cell)
    requires Reachable(s, q) && q !in s.blocking && Adjacent(q, c) && Lightable(s, c)
    ensures Reachable(s, c)
  {
    var p :| IsLightPath(s, p) && p[|p| - 1] == q;
    var p' := p + [c];
    assert p'[|p'| - 1] == c;
    assert IsLightPath(s, p');
  }

  /** A reached cell is lightable. */
  lemma ReachableIsLightable(s: Scene, c: Cell)
    requires Reachable(s, c)
    ensures Lightable(s, c)
  {
    var p :| IsLightPath(s, p) && p[|p| - 1] == c;
    assert Lightable(s, p[|p| - 1]);
  }

  /** A set that holds the origin and spreads into itself holds the end of every light path. */
  lemma {:induction false} ClosedContainsPath(s: Scene, lit: set<Cell>, p: seq<Cell>)
    requires Spreads(s, lit, lit) && s.origin in lit
    requires IsLightPath(s, p)
    ensures p[|p| - 1] in lit
    decreases |p|
  {
    if |p| > 1 {
      var q := p[..|p| - 1];
      assert IsLightPath(s, q);
      ClosedContainsPath(s, lit, q);
      assert p[|p| - 2] in lit && p[|p| - 2] !in s.blocking && Adjacent(p[|p| - 2], p[|p| - 1]);
      assert Lightable(s, p[|p| - 1]);
    }
  }

  /** A set of reachable cells that holds the lightable origin and spreads into
      itself is exactly the set of reachable cells. */
  lemma LitSetIsReachableSet(s: Scene, lit: set<Cell>)
    requires AllReachable(s, lit)
    requires Spreads(s, lit, lit)
    requires Lightable(s, s.origin) ==> s.origin in lit
    ensures forall c :: c in lit <==> Reachable(s, c)
  {
    forall c | Reachable(s, c)
      ensures c in lit
    {
      var p :| IsLightPath(s, p) && p[|p| - 1] == c;
      assert Lightable(s, p[0]);
      ClosedContainsPath(s, lit, p);
    }
  }

  lemma InRadiusMonotone(o: Cell, c: Cell, r1: real, r2: real)
    requires r1 <= r2 && InRadius(o, c, r1)
    ensures InRadius(o, c, r2)
  {
    assert r1 * r1 <= r1 * r2 <= r2 * r2;
  }

  /** A larger torch reaches at least the cells a smaller one reaches. */
  lemma ReachableMonotoneInRadius(s: Scene, r: real, c: Cell)
    requires s.radius <= r
    requires Reachable(s, c)
    ensures Reachable(s.(radius := r), c)
  {
    var p :| IsLightPath(s, p) && p[|p| - 1] == c;
    forall k | 0 <= k < |p|
      ensures Lightable(s.(radius := r), p[k])
    {
      InRadiusMonotone(s.origin, p[k], s.radius, r);
    }
    assert IsLightPath(s.(radius := r), p);
  }

  /** The cells of the grid. */
  ghost function Cells(s: Scene): set<Cell>
  {
    set i, j | 0 <= i < s.width && 0 <= j < s.height :: (i, j)
  }

  lemma CellsHasGrid(s: Scene, c: Cell)
    requires InGrid(s.width, s.height, c)
    ensures c in Cells(s)
  {
    assert c == (c.0, c.1);
  }

  /** The lit set after the depth-first fill runs from `c` with `lit` already
      lit: an out-of-grid or lit cell stops it, a cell out of the radius is
      left dark, an opaque cell is lit and stops it, and a transparent one is
      lit and the fill goes on to (x - 1, y), (x + 1, y), (x, y - 1) and
      (x, y + 1) in that order. */
  ghost function Fill(s: Scene, lit: set<Cell>, c: Cell): (r: set<Cell>)
    decreases Cells(s) - lit
    ensures lit <= r
  {
    if !InGrid(s.width, s.height, c) || c in lit then lit
    else if !InRadius(s.origin, c, s.radius) then lit
    else if c in s.blocking then lit + {c}
    else
      var l1 := lit + {c};
      var l2 := Fill(s, l1, (c.0 - 1, c.1));
      var l3 := Fill(s, l2, (c.0 + 1, c.1));
      var l4 := Fill(s, l3, (c.0, c.1 - 1));
      Fill(s, l4, (c.0, c.1 + 1))
  }

  /** The fill stops at once outside the grid, at a lit cell and outside the radius. */
  lemma FillStops(s: Scene, lit: set<Cell>, c: Cell)
    requires !Lightable(s, c) || c in lit
    ensures Fill(s, lit, c) == lit
  {
  }

  /** The fill lights an opaque cell and goes no further. */
  lemma FillBlocked(s: Scene, lit: set<Cell>, c: Cell)
    requires Lightable(s, c) && c !in lit && c in s.blocking
    ensures Fill(s, lit, c) == lit + {c}
  {
  }

  /** One step of the fill from a lightable transparent cell. */
  lemma FillUnfolds(s: Scene, lit: set<Cell>, c: Cell)
    requires Lightable(s, c) && c !in lit && c !in s.blocking
    ensures Fill(s, lit, c) ==
      Fill(s, Fill(s, Fill(s, Fill(s, lit + {c}, (c.0 - 1, c.1)), (c.0 + 1, c.1)), (c.0, c.1 - 1)), (c.0, c.1 + 1))
  {
  }

  /** One step of the fill from the lightable transparent cell (x, y), given
      the lit sets after each of the four neighbour fills in turn. */
  lemma FillStepLit(s: Scene, lit: set<Cell>, x: int, y: int,
                    l2: set<Cell>, l3: set<Cell>, l4: set<Cell>, l5: set<Cell>)
    requires Lightable(s, (x, y)) && (x, y) !in lit && (x, y) !in s.blocking
    requires l2 == Fill(s, lit + {(x, y)}, (x - 1, y))
    requires l3 == Fill(s, l2, (x + 1, y))
    requires l4 == Fill(s, l3, (x, y - 1))
    requires l5 == Fill(s, l4, (x, y + 1))
    ensures l5 == Fill(s, lit, (x, y))
  {
    FillUnfolds(s, lit, (x, y));
  }

  /** Counting the cell lit by one step and what each later pass newly lit
      gives the growth of the lit set. */
  lemma CountStep<T>(l0: set<T>, x: T, l2: set<T>, l3: set<T>, l4: set<T>, l5: set<T>,
                     n2: int, n3: int, n4: int, n5: int)
    requires x !in l0 && l0 + {x} <= l2 <= l3 <= l4 <= l5
    requires n2 == |l2| - |l0 + {x}| && n3 == |l3| - |l2| && n4 == |l4| - |l3| && n5 == |l5| - |l4|
    ensures 1 + n2 + n3 + n4 + n5 == |l5| - |l0|
  {
    assert |l0 + {x}| == |l0| + 1;
  }

  /** The fill lights only lightable cells. */
  lemma {:induction false} FillLightable(s: Scene, lit: set<Cell>, c: Cell)
    ensures forall n :: n in Fill(s, lit, c) - lit ==> Lightable(s, n)
    decreases Cells(s) - lit
  {
    if !InGrid(s.width, s.height, c) || c in lit || !InRadius(s.origin, c, s.radius) || c in s.blocking {
    } else {
      var l1 := lit + {c};
      CellsHasGrid(s, c);
      var l2 := Fill(s, l1, (c.0 - 1, c.1));
      var l3 := Fill(s, l2, (c.0 + 1, c.1));
      var l4 := Fill(s, l3, (c.0, c.1 - 1));
      var l5 := Fill(s, l4, (c.0, c.1 + 1));
      FillLightable(s, l1, (c.0 - 1, c.1));
      FillLightable(s, l2, (c.0 + 1, c.1));
      FillLightable(s, l3, (c.0, c.1 - 1));
      FillLightable(s, l4, (c.0, c.1 + 1));
      forall n | n in l5 - lit
        ensures Lightable(s, n)
      {
        if n == c {
        } else if n in l2 {
          assert n in l2 - l1;
        } else if n in l3 {
          assert n in l3 - l2;
        } else if n in l4 {
          assert n in l4 - l3;
        } else {
          assert n in l5 - l4;
        }
      }
    }
  }

  /** Every transparent cell the fill lights has its lightable neighbours lit. */
  lemma {:induction false} FillSpreads(s: Scene, lit: set<Cell>, c: Cell)
    ensures Spreads(s, Fill(s, lit, c) - lit, Fill(s, lit, c))
    decreases Cells(s) - lit
  {
    if !InGrid(s.width, s.height, c) || c in lit || !InRadius(s.origin, c, s.radius) {
    } else if c in s.blocking {
      assert Fill(s, lit, c) - lit == {c};
    } else {
      var l1 := lit + {c};
      CellsHasGrid(s, c);
      var l2 := Fill(s, l1, (c.0 - 1, c.1));
      var l3 := Fill(s, l2, (c.0 + 1, c.1));
      var l4 := Fill(s, l3, (c.0, c.1 - 1));
      var l5 := Fill(s, l4, (c.0, c.1 + 1));
      FillSpreads(s, l1, (c.0 - 1, c.1));
      FillSpreads(s, l2, (c.0 + 1, c.1));
      FillSpreads(s, l3, (c.0, c.1 - 1));
      FillSpreads(s, l4, (c.0, c.1 + 1));
      SpreadsChain(s, l1, l2, l3, l4, l5);
      FillStep(s, c.0, c.1, lit, l1, l5);
    }
  }

  /** Started from a place light may enter, the fill lights only reachable cells. */
  lemma {:induction false} FillSound(s: Scene, lit: set<Cell>, c: Cell)
    requires AllReachable(s, lit) && Admissible(s, c)
    ensures AllReachable(s, Fill(s, lit, c))
    decreases Cells(s) - lit
  {
    if !InGrid(s.width, s.height, c) || c in lit || !InRadius(s.origin, c, s.radius) {
    } else {
      if c == s.origin {
        OriginReachable(s);
      } else {
        var q :| Reachable(s, q) && q !in s.blocking && Adjacent(q, c);
        PathExtends(s, q, c);
      }
      var l1 := lit + {c};
      assert AllReachable(s, l1);
      if c in s.blocking {
        assert Fill(s, lit, c) == l1;
      } else {
        CellsHasGrid(s, c);
        var l2 := Fill(s, l1, (c.0 - 1, c.1));
        var l3 := Fill(s, l2, (c.0 + 1, c.1));
        var l4 := Fill(s, l3, (c.0, c.1 - 1));
        var l5 := Fill(s, l4, (c.0, c.1 + 1));
        AdmissibleNext(s, c, (c.0 - 1, c.1));
        FillSound(s, l1, (c.0 - 1, c.1));
        AdmissibleNext(s, c, (c.0 + 1, c.1));
        FillSound(s, l2, (c.0 + 1, c.1));
        AdmissibleNext(s, c, (c.0, c.1 - 1));
        FillSound(s, l3, (c.0, c.1 - 1));
        AdmissibleNext(s, c, (c.0, c.1 + 1));
        FillSound(s, l4, (c.0, c.1 + 1));
        FillUnfolds(s, lit, c);
      }
    }
  }

  /** From an unlit grid and the origin, the fill lights exactly the reachable cells. */
  lemma FillFromOriginIsReachable(s: Scene)
    ensures forall n :: n in Fill(s, {}, s.origin) <==> Reachable(s, n)
  {
    var r := Fill(s, {}, s.origin);
    FillSpreads(s, {}, s.origin);
    assert r - {} == r;
    FillSound(s, {}, s.origin);
    LitSetIsReachableSet(s, r);
  }

  /** How one step of the fill composes: lighting the transparent cell `c`
      (from `l0` to `l1`) and then filling from its four neighbours in turn
      (`l1` to `l5`) spreads every newly lit cell and lights one cell plus what
      the four neighbour fills lit. */
  lemma FillStep(s: Scene, x: int, y: int, l0: set<Cell>, l1: set<Cell>, l2: set<Cell>)
    requires (x, y) !in l0 && l1 == l0 + {(x, y)} && l1 <= l2
    requires (x, y) !in s.blocking
    requires Lightable(s, (x - 1, y)) ==> (x - 1, y) in l2
    requires Lightable(s, (x + 1, y)) ==> (x + 1, y) in l2
    requires Lightable(s, (x, y - 1)) ==> (x, y - 1) in l2
    requires Lightable(s, (x, y + 1)) ==> (x, y + 1) in l2
    requires Spreads(s, l2 - l1, l2)
    ensures Spreads(s, l2 - l0, l2)
  {
  }

  /** Fills run one after another spread every cell any of them lit. */
  lemma SpreadsChain(s: Scene, l1: set<Cell>, l2: set<Cell>, l3: set<Cell>, l4: set<Cell>, l5: set<Cell>)
    requires l1 <= l2 <= l3 <= l4 <= l5
    requires Spreads(s, l2 - l1, l2) && Spreads(s, l3 - l2, l3)
    requires Spreads(s, l4 - l3, l4) && Spreads(s, l5 - l4, l5)
    ensures Spreads(s, l5 - l1, l5)
  {
  }

  /** A neighbour of a reached transparent cell is a place a fill may start. */
  lemma AdmissibleNext(s: Scene, c: Cell, n: Cell)
    requires Reachable(s, c) && c !in s.blocking && Adjacent(c, n)
    ensures Admissible(s, n)
  {
  }
}
