/**
 * The greedy multi-walker router: compass directions, walkers, the shared
 * occupancy board and the game that steps every walker in lock-step.
 */
module Routing {
  import opened Geometry

  /** The eight compass directions a walker may step in. */
  datatype Direction = E | NE | N | NW | W | SW | S | SE {

    /** The unit or diagonal offset of one step in this direction. */
    function Vector(): (v: Point)
      ensures v != (0, 0)
      ensures -1 <= v.0 <= 1 && -1 <= v.1 <= 1
    {
      match this
      case E => (1, 0)
      case NE => (1, 1)
      case N => (0, 1)
      case NW => (-1, 1)
      case W => (-1, 0)
      case SW => (-1, -1)
      case S => (0, -1)
      case SE => (1, -1)
    }

    /** A direction is diagonal exactly when its offset moves along both axes. */
    function Diagonal(): (b: bool)
      ensures b <==> Vector().0 != 0 && Vector().1 != 0
    {
      match this
      case N | S | E | W => false
      case _ => true
    }
  }

  /** An evaluator's ranking: eight directions, most preferred first. */
  type DirectionPrefs = prefs: seq<Direction> | |prefs| == 8 witness [E, E, E, E, E, E, E, E]

  /** `q` is one of the eight cells around `p`. */
  predicate IsMove(p: Point, q: Point)
  {
    p != q && -1 <= q.0 - p.0 <= 1 && -1 <= q.1 - p.1 <= 1
  }

  /** The step from `p` to `q` changes both coordinates. */
  predicate IsDiagonalStep(p: Point, q: Point)
  {
    p.0 != q.0 && p.1 != q.1
  }

  /** Every neighbouring cell is reached by exactly one direction. */
  lemma DirectionsCoverMoves(p: Point, q: Point)
    requires IsMove(p, q)
    ensures exists d: Direction :: PointAdd(p, d.Vector()) == q
    ensures forall d1: Direction, d2: Direction ::
              PointAdd(p, d1.Vector()) == q && PointAdd(p, d2.Vector()) == q ==> d1 == d2
  {
    var dx, dy := q.0 - p.0, q.1 - p.1;
    var d :=
      if dx == 1 then (if dy == 1 then NE else if dy == 0 then E else SE)
      else if dx == 0 then (if dy == 1 then N else S)
      else (if dy == 1 then NW else if dy == 0 then W else SW);
    assert PointAdd(p, d.Vector()) == q;
  }

  /**
   * A walker: a fixed destination and the append-only list of cells it has
   * visited. Its position is the last cell of its history.
   */
  datatype Walker = Walker(dest: Point, history: seq<Point>) {

    predicate Valid()
    {
      |history| > 0
    }

    /** A walker that stands on `position` and heads for `dest`. */
    static function New(position: Point, dest: Point): (w: Walker)
      ensures w.Valid() && w.dest == dest
      ensures w.Route() == [position] && w.Position() == position
      ensures w.Finished() <==> position == dest
    {
      Walker(dest, [position])
    }

    function Position(): Point
      requires Valid()
    {
      history[|history| - 1]
    }

    predicate Finished()
    {
      Valid() && Position() == dest
    }

    function Route(): Route
    {
      history
    }

    /** The walker after stepping onto `next`: one more cell, same destination. */
    function Extend(next: Point): (w: Walker)
      requires Valid()
      ensures w.Valid() && w.dest == dest
      ensures w.Route() == Route() + [next] && w.Position() == next
      ensures w.Finished() <==> next == dest
    {
      Walker(dest, history + [next])
    }
  }

  /** The contents of a board: claimed cells and blocked diagonal corner pairs. */
  datatype BoardView = BoardView(tiles: set<Point>, diagonals: set<(Point, Point)>)

  /**
   * The other diagonal of the unit square that the step from `a` to `b`
   * crosses, in both orientations.
   */
  function CrossPairs(a: Point, b: Point): set<(Point, Point)>
  {
    {((a.0, b.1), (b.0, a.1)), ((b.0, a.1), (a.0, b.1))}
  }

  /** Whether the board lets a walker at `src` step in direction `dir`. */
  predicate Accepts(v: BoardView, src: Point, dir: Direction)
  {
    var dest := PointAdd(src, dir.Vector());
    dest !in v.tiles && !(dir.Diagonal() && (src, dest) in v.diagonals)
  }

  /** The board after an accepted step from `src` in direction `dir`. */
  function Claim(v: BoardView, src: Point, dir: Direction): BoardView
  {
    var dest := PointAdd(src, dir.Vector());
    BoardView(v.tiles + {dest},
              if dir.Diagonal() then v.diagonals + CrossPairs(src, dest) else v.diagonals)
  }

  /**
   * After a diagonal step from `a`, the crossing diagonal of the same unit
   * square is refused in either direction, even when its target cell is free.
   */
  lemma CrossingRefused(v: BoardView, a: Point, d: Direction, c: Point, d2: Direction)
    requires d.Diagonal()
    requires var b := PointAdd(a, d.Vector());
             (c == (a.0, b.1) && PointAdd(c, d2.Vector()) == (b.0, a.1)) ||
             (c == (b.0, a.1) && PointAdd(c, d2.Vector()) == (a.0, b.1))
    ensures d2.Diagonal()
    ensures !Accepts(Claim(v, a, d), c, d2)
  {
  }

  /** Crossing is symmetric: a step lies across each step that lies across it. */
  lemma CrossPairsSymmetric(a: Point, b: Point)
    requires IsDiagonalStep(a, b)
    ensures forall c | c in CrossPairs(a, b) ::
              IsDiagonalStep(c.0, c.1) && (a, b) in CrossPairs(c.0, c.1) && c != (a, b)
  {
  }

  /** The shared occupancy ledger. Both sets only ever grow. */
  class Board {
    var tiles: set<Point>
    var diagonals: set<(Point, Point)>

    constructor ()
      ensures tiles == {} && diagonals == {}
    {
      tiles := {};
      diagonals := {};
    }

    function View(): BoardView
      reads this
    {
      BoardView(tiles, diagonals)
    }

    /**
     * Claims the step from `src` in `direction` if the target cell is free
     * and, for a diagonal step, no earlier diagonal crosses it; otherwise
     * changes nothing.
     */
    method TryInsert(src: Point, direction: Direction) returns (ok: bool)
      modifies this
      ensures ok == Accepts(old(View()), src, direction)
      ensures View() == if ok then Claim(old(View()), src, direction) else old(View())
      ensures old(tiles) <= tiles && old(diagonals) <= diagonals
    {
      var dest := PointAdd(src, direction.Vector());
      if dest in tiles {
        return false;
      }
      if direction.Diagonal() {
        if (src, dest) in diagonals {
          return false;
        } else {
          var first := (src.0, dest.1);
          var second := (dest.0, src.1);
          diagonals := diagonals + {(first, second)};
          diagonals := diagonals + {(second, first)};
        }
      }
      tiles := tiles + {dest};
      return true;
    }

    /**
     * Tries the directions of `prefs` in order from `src` and claims the
     * first one the board accepts; reports its index, or `None` when every
     * direction is refused (and then nothing changes).
     */
    method ClaimFirst(src: Point, prefs: seq<Direction>) returns (chosen: Option<nat>)
      modifies this
      ensures chosen == FirstAccepted(old(View()), src, prefs, 0)
      ensures View() == if chosen.Some? then Claim(old(View()), src, prefs[chosen.value]) else old(View())
    {
      for k := 0 to |prefs|
        invariant View() == old(View())
        invariant FirstAccepted(View(), src, prefs, k) == FirstAccepted(View(), src, prefs, 0)
      {
        var ok := TryInsert(src, prefs[k]);
        if ok {
          return Some(k);
        }
      }
      return None;
    }

    /** Claims a starting cell unconditionally; reports whether it was unclaimed. */
    method InitPoint(src: Point) returns (inserted: bool)
      modifies this
      ensures inserted == (src !in old(tiles))
      ensures tiles == old(tiles) + {src} && diagonals == old(diagonals)
    {
      inserted := src !in tiles;
      tiles := tiles + {src};
    }
  }

  /** The outcome of one synchronised step. */
  datatype Status = Running | Stuck(index: nat) | Finished

  /**
   * The caller's strategy: from a walker's position, its destination and
   * the board, a ranking of directions.
   */
  type Evaluator = (Point, Point, BoardView) -> DirectionPrefs

  /** The histories of `ws`, in order. */
  function Histories(ws: seq<Walker>): (hs: seq<Route>)
    ensures |hs| == |ws|
    ensures forall i :: 0 <= i < |ws| ==> hs[i] == ws[i].history
  {
    if ws == [] then [] else [ws[0].history] + Histories(ws[1..])
  }

  /** Every cell on any of the routes. */
  ghost function Cells(rs: seq<Route>): set<Point>
  {
    set r, p | r in rs && p in r :: p
  }

  /** Every step (pair of consecutive cells) on any of the routes. */
  ghost function Steps(rs: seq<Route>): set<(Point, Point)>
  {
    set r, i | r in rs && 0 <= i < |r| - 1 :: StepAt(r, i)
  }

  /** The step from cell `i` to cell `i + 1` of route `r`. */
  function StepAt(r: Route, i: nat): (Point, Point)
    requires i < |r| - 1
  {
    (r[i], r[i + 1])
  }

  /** The corner pairs blocked by the diagonal steps among `steps`. */
  ghost function Ledger(steps: set<(Point, Point)>): set<(Point, Point)>
  {
    set s, c | s in steps && IsDiagonalStep(s.0, s.1) && c in CrossPairs(s.0, s.1) :: c
  }

  /**
   * The board records exactly the routes `rs`: its cells are the routes'
   * cells, its diagonal ledger is what their diagonal steps block, no
   * step crosses a diagonal of another, and every step is a move to a
   * neighbouring cell.
   */
  ghost predicate Consistent(v: BoardView, rs: seq<Route>)
  {
    [] !in rs &&
    v.tiles == Cells(rs) &&
    v.diagonals == Ledger(Steps(rs)) &&
    Steps(rs) !! v.diagonals &&
    (forall s | s in Steps(rs) :: IsMove(s.0, s.1))
  }

  /**
   * No two routes share a cell they moved onto: a cell at a position after
   * the start of a route occurs at no other position of any route, and
   * that route occurs only once. Only starting cells may be shared (by
   * walkers seeded on the same terminal). Only which routes occur, and how
   * often, matters, not their order.
   */
  ghost predicate Exclusive(rs: seq<Route>)
  {
    forall r, i, r', j | r in multiset(rs) && r' in multiset(rs) && 0 < i < |r| && 0 <= j < |r'| && CellAt(r, i) == CellAt(r', j) ::
      r == r' && i == j && multiset(rs)[r] == 1
  }

  /** Cell `i` of route `r`. */
  function CellAt(r: Route, i: nat): Point
    requires i < |r|
  {
    r[i]
  }

  /** Routes that have not moved yet are trivially exclusive. */
  lemma StartsExclusive(rs: seq<Route>)
    requires forall k :: 0 <= k < |rs| ==> |rs[k]| == 1
    ensures Exclusive(rs)
  {
    forall r | r in multiset(rs) ensures |r| == 1 {
      var k :| 0 <= k < |rs| && rs[k] == r;
    }
  }

  /**
   * Where a cell of the routes after appending `q` to route `j` comes from:
   * it is the appended `q` itself, or the same cell of a route already
   * there.
   */
  lemma ClaimedCell(rs: seq<Route>, j: nat, q: Point, r: Route, i: nat)
    requires j < |rs| && q !in Cells(rs)
    requires r in multiset(rs[j := rs[j] + [q]]) && i < |r|
    ensures r[i] == q ==> r == rs[j] + [q] && i == |rs[j]|
    ensures r[i] != q ==>
              var a := if r == rs[j] + [q] then rs[j] else r;
              a in multiset(rs) && i < |a| && a[i] == r[i]
  {
    var k :| 0 <= k < |rs| && rs[j := rs[j] + [q]][k] == r;
    if k != j {
      assert r in rs && r[i] in r;
    } else if i < |rs[j]| {
      assert rs[j] in rs && r[i] in rs[j];
    }
  }

  /** One instance of `Exclusive` after appending `q` to route `j`. */
  lemma ClaimExclusiveAt(rs: seq<Route>, j: nat, q: Point, r: Route, i: nat, r2: Route, k: nat)
    requires j < |rs| && Exclusive(rs) && q !in Cells(rs)
    requires var m' := multiset(rs[j := rs[j] + [q]]);
             r in m' && r2 in m' && 0 < i < |r| && k < |r2| && CellAt(r, i) == CellAt(r2, k)
    ensures r == r2 && i == k && multiset(rs[j := rs[j] + [q]])[r] == 1
  {
    var before, after := rs[j], rs[j] + [q];
    var m, m' := multiset(rs), multiset(rs[j := after]);
    assert m' == m - multiset{before} + multiset{after};
    assert q in after;
    assert after in rs ==> q in Cells(rs);
    ClaimedCell(rs, j, q, r, i);
    ClaimedCell(rs, j, q, r2, k);
    var a := if r == after then before else r;
    var b := if r2 == after then before else r2;
    assert r[i] != q ==> CellAt(a, i) == CellAt(b, k);
  }

  /**
   * Appending to route `j` a cell that no route holds yet keeps the routes
   * exclusive.
   */
  lemma ClaimExclusive(rs: seq<Route>, j: nat, q: Point)
    requires j < |rs| && Exclusive(rs) && q !in Cells(rs)
    ensures Exclusive(rs[j := rs[j] + [q]])
  {
    var m' := multiset(rs[j := rs[j] + [q]]);
    forall r, i, r2, k | r in m' && r2 in m' && 0 < i < |r| && 0 <= k < |r2| && CellAt(r, i) == CellAt(r2, k)
      ensures r == r2 && i == k && m'[r] == 1
    {
      ClaimExclusiveAt(rs, j, q, r, i, r2, k);
    }
  }

  /** On a consistent board no two steps of any routes cross diagonally. */
  lemma NoCrossingDiagonals(v: BoardView, rs: seq<Route>, s: (Point, Point), t: (Point, Point))
    requires Consistent(v, rs)
    requires s in Steps(rs) && t in Steps(rs) && IsDiagonalStep(s.0, s.1)
    ensures t !in CrossPairs(s.0, s.1)
  {
    assert CrossPairs(s.0, s.1) <= Ledger(Steps(rs));
  }

  lemma CellsAppend(rs: seq<Route>, j: nat, q: Point)
    requires j < |rs|
    ensures Cells(rs[j := rs[j] + [q]]) == Cells(rs) + {q}
  {
    var rs' := rs[j := rs[j] + [q]];
    forall p | p in Cells(rs') ensures p in Cells(rs) + {q} {
      var r :| r in rs' && p in r;
      var k :| 0 <= k < |rs'| && rs'[k] == r;
      if k == j && p != q {
        assert p in rs[j];
      }
    }
    forall p | p in Cells(rs) ensures p in Cells(rs') {
      var r :| r in rs && p in r;
      var k :| 0 <= k < |rs| && rs[k] == r;
      if k == j {
        assert p in rs'[j];
      } else {
        assert rs'[k] == r;
      }
    }
    assert q in rs'[j];
  }

  lemma StepsAppend(rs: seq<Route>, j: nat, q: Point)
    requires j < |rs| && |rs[j]| > 0
    ensures Steps(rs[j := rs[j] + [q]]) == Steps(rs) + {(rs[j][|rs[j]| - 1], q)}
  {
    var rs' := rs[j := rs[j] + [q]];
    var n := (rs[j][|rs[j]| - 1], q);
    forall s | s in Steps(rs') ensures s in Steps(rs) + {n} {
      var r, i :| r in rs' && 0 <= i < |r| - 1 && s == StepAt(r, i);
      var k :| 0 <= k < |rs'| && rs'[k] == r;
      if k == j && i < |rs[j]| - 1 {
        assert s == StepAt(rs[j], i);
      } else if k != j {
        assert r == rs[k];
      }
    }
    forall s | s in Steps(rs) ensures s in Steps(rs') {
      var r, i :| r in rs && 0 <= i < |r| - 1 && s == StepAt(r, i);
      var k :| 0 <= k < |rs| && rs[k] == r;
      if k == j {
        assert s == StepAt(rs'[j], i);
      } else {
        assert rs'[k] == r;
      }
    }
    var i := |rs[j]| - 1;
    assert n == StepAt(rs'[j], i);
  }

  lemma LedgerAdd(steps: set<(Point, Point)>, n: (Point, Point))
    ensures Ledger(steps + {n}) ==
            Ledger(steps) + (if IsDiagonalStep(n.0, n.1) then CrossPairs(n.0, n.1) else {})
  {
  }

  /** Every corner pair in a ledger belongs to a diagonal step. */
  lemma LedgerIsDiagonal(steps: set<(Point, Point)>, c: (Point, Point))
    requires c in Ledger(steps)
    ensures IsDiagonalStep(c.0, c.1)
  {
  }

  /**
   * An accepted claim at the end of route `j` keeps the board consistent
   * with the routes once the new cell is appended to that route.
   */
  lemma {:induction false} ClaimPreserves(v: BoardView, rs: seq<Route>, j: nat, d: Direction)
    requires Consistent(v, rs) && j < |rs|
    requires Accepts(v, rs[j][|rs[j]| - 1], d)
    ensures var p := rs[j][|rs[j]| - 1];
            Consistent(Claim(v, p, d), rs[j := rs[j] + [PointAdd(p, d.Vector())]])
  {
    var p := rs[j][|rs[j]| - 1];
    var q := PointAdd(p, d.Vector());
    var rs' := rs[j := rs[j] + [q]];
    var n := (p, q);
    var v' := Claim(v, p, d);
    CellsAppend(rs, j, q);
    StepsAppend(rs, j, q);
    LedgerAdd(Steps(rs), n);
    assert d.Diagonal() <==> IsDiagonalStep(p, q);
    assert v'.diagonals == Ledger(Steps(rs'));
    assert n !in v.diagonals by {
      if !d.Diagonal() && n in v.diagonals {
        LedgerIsDiagonal(Steps(rs), n);
      }
    }
    if d.Diagonal() {
      CrossPairsSymmetric(p, q);
    }
    forall s | s in Steps(rs') ensures s !in v'.diagonals {
      if s in Steps(rs) {
        assert IsDiagonalStep(s.0, s.1) ==> CrossPairs(s.0, s.1) <= Ledger(Steps(rs));
      }
    }
    forall r | r in rs' ensures |r| > 0 {
      var k :| 0 <= k < |rs'| && rs'[k] == r;
      if k != j {
        assert r in rs;
      }
    }
  }

  /** Seeding a new walker's start cell keeps the board consistent with the routes. */
  lemma {:induction false} SeedPreserves(v: BoardView, rs: seq<Route>, start: Point)
    requires Consistent(v, rs)
    ensures Consistent(BoardView(v.tiles + {start}, v.diagonals), rs + [[start]])
  {
    var rs' := rs + [[start]];
    assert Cells(rs') == Cells(rs) + {start} by {
      forall p | p in Cells(rs') ensures p in Cells(rs) + {start} {
        var r :| r in rs' && p in r;
        var k :| 0 <= k < |rs'| && rs'[k] == r;
        if k < |rs| {
          assert r in rs;
        }
      }
      assert start in rs'[|rs|];
      forall p | p in Cells(rs) ensures p in Cells(rs') {
        var r :| r in rs && p in r;
        assert r in rs';
      }
    }
    assert Steps(rs') == Steps(rs) by {
      forall s | s in Steps(rs') ensures s in Steps(rs) {
        var r, i :| r in rs' && 0 <= i < |r| - 1 && s == StepAt(r, i);
        var k :| 0 <= k < |rs'| && rs'[k] == r;
        if k < |rs| {
          assert r in rs;
        }
      }
      forall s | s in Steps(rs) ensures s in Steps(rs') {
        var r, i :| r in rs && 0 <= i < |r| - 1 && s == StepAt(r, i);
        assert r in rs';
      }
    }
  }

  /** Consistency only depends on which routes occur, not on their order. */
  lemma ConsistentByMembership(v: BoardView, a: seq<Route>, b: seq<Route>)
    requires Consistent(v, a)
    requires multiset(a) == multiset(b)
    ensures Consistent(v, b)
  {
    forall r ensures r in a <==> r in b {
      assert r in a <==> r in multiset(a);
      assert r in b <==> r in multiset(b);
    }
    assert Cells(a) == Cells(b);
    assert Steps(a) == Steps(b);
  }

  /** The result of one advancing pass over the walkers. */
  datatype Pass = Pass(view: BoardView, walkers: seq<Walker>, stuck: Option<nat>)

  /**
   * The index of the first direction in `prefs`, from `from` on, that the
   * board accepts at `src`.
   */
  function FirstAccepted(v: BoardView, src: Point, prefs: seq<Direction>, from: nat): (r: Option<nat>)
    requires from <= |prefs|
    decreases |prefs| - from
    ensures r.Some? ==> from <= r.value < |prefs| && Accepts(v, src, prefs[r.value])
    ensures r.Some? ==> forall j :: from <= j < r.value ==> !Accepts(v, src, prefs[j])
    ensures r.None? <==> forall j :: from <= j < |prefs| ==> !Accepts(v, src, prefs[j])
  {
    if from == |prefs| then None
    else if Accepts(v, src, prefs[from]) then Some(from)
    else FirstAccepted(v, src, prefs, from + 1)
  }

  predicate AllValid(ws: seq<Walker>)
  {
    forall i :: 0 <= i < |ws| ==> ws[i].Valid()
  }

  /**
   * The advancing pass of a step, from walker `i` on: each walker moves in
   * the first direction of its evaluator's ranking that the board accepts;
   * the pass stops at the first walker that cannot move.
   */
  ghost function AdvanceFrom(v: BoardView, ws: seq<Walker>, i: nat, eval: Evaluator): (p: Pass)
    requires i <= |ws| && AllValid(ws)
    decreases |ws| - i
    ensures |p.walkers| == |ws|
  {
    if i == |ws| then Pass(v, ws, None)
    else
      var position := ws[i].Position();
      var prefs := eval(position, ws[i].dest, v);
      match FirstAccepted(v, position, prefs, 0)
      case None => Pass(v, ws, Some(i))
      case Some(k) =>
        var next := PointAdd(position, prefs[k].Vector());
        AdvanceFrom(Claim(v, position, prefs[k]), ws[i := ws[i].Extend(next)], i + 1, eval)
  }

  /** One unfolding of a pass at a walker that moves. */
  lemma AdvanceMoves(v: BoardView, ws: seq<Walker>, i: nat, eval: Evaluator, k: nat)
    requires i < |ws| && AllValid(ws)
    requires var position := ws[i].Position();
             FirstAccepted(v, position, eval(position, ws[i].dest, v), 0) == Some(k)
    ensures var position := ws[i].Position();
            var d := eval(position, ws[i].dest, v)[k];
            AdvanceFrom(v, ws, i, eval) ==
            AdvanceFrom(Claim(v, position, d), ws[i := ws[i].Extend(PointAdd(position, d.Vector()))], i + 1, eval)
  {
  }

  /** One unfolding of a pass at a walker that cannot move. */
  lemma AdvanceStops(v: BoardView, ws: seq<Walker>, i: nat, eval: Evaluator)
    requires i < |ws| && AllValid(ws)
    requires var position := ws[i].Position();
             FirstAccepted(v, position, eval(position, ws[i].dest, v), 0) == None
    ensures AdvanceFrom(v, ws, i, eval) == Pass(v, ws, Some(i))
  {
  }

  /**
   * `w'` is `w` after exactly one step onto a neighbouring cell that was
   * not claimed on board `v`.
   */
  ghost predicate Gained(v: BoardView, w: Walker, w': Walker)
  {
    w.Valid() && w'.Valid() && w'.dest == w.dest &&
    w'.history == w.history + [w'.Position()] &&
    IsMove(w.Position(), w'.Position()) && w'.Position() !in v.tiles
  }

  /** How far a pass from walker `i` got: the stuck walker, or the end. */
  function Reached(p: Pass): nat
  {
    if p.stuck.Some? then p.stuck.value else |p.walkers|
  }

  /**
   * A pass only grows the board, stops (if at all) at a walker it reached,
   * and leaves every walker outside the stretch it moved untouched.
   */
  lemma {:induction false} AdvanceFrame(v: BoardView, ws: seq<Walker>, i: nat, eval: Evaluator)
    requires i <= |ws| && AllValid(ws)
    ensures var p := AdvanceFrom(v, ws, i, eval);
            AllValid(p.walkers) &&
            v.tiles <= p.view.tiles && v.diagonals <= p.view.diagonals &&
            i <= Reached(p) <= |ws| &&
            (p.stuck.Some? ==> Reached(p) < |ws|) &&
            (forall j :: 0 <= j < i ==> p.walkers[j] == ws[j]) &&
            (forall j :: Reached(p) <= j < |ws| ==> p.walkers[j] == ws[j])
    decreases |ws| - i
  {
    if i < |ws| {
      var position := ws[i].Position();
      var prefs := eval(position, ws[i].dest, v);
      match FirstAccepted(v, position, prefs, 0)
      case None =>
      case Some(k) =>
        var next := PointAdd(position, prefs[k].Vector());
        AdvanceFrame(Claim(v, position, prefs[k]), ws[i := ws[i].Extend(next)], i + 1, eval);
    }
  }

  /**
   * Every walker a pass moves gains one cell next to its old position that
   * was free on the board the pass started from, and now holds it.
   */
  lemma {:induction false} AdvanceGains(v: BoardView, ws: seq<Walker>, i: nat, eval: Evaluator)
    requires i <= |ws| && AllValid(ws)
    ensures var p := AdvanceFrom(v, ws, i, eval); AllValid(p.walkers) && Reached(p) <= |ws|
    ensures var p := AdvanceFrom(v, ws, i, eval);
            forall j :: i <= j < Reached(p) ==>
              Gained(v, ws[j], p.walkers[j]) && p.walkers[j].Position() in p.view.tiles
    decreases |ws| - i
  {
    if i < |ws| {
      var position := ws[i].Position();
      var prefs := eval(position, ws[i].dest, v);
      match FirstAccepted(v, position, prefs, 0)
      case None =>
      case Some(k) =>
        var next := PointAdd(position, prefs[k].Vector());
        var v' := Claim(v, position, prefs[k]);
        var ws' := ws[i := ws[i].Extend(next)];
        AdvanceFrame(v', ws', i + 1, eval);
        AdvanceGains(v', ws', i + 1, eval);
        AdvanceMoves(v, ws, i, eval, k);
        var p := AdvanceFrom(v', ws', i + 1, eval);
        assert Gained(v, ws[i], ws'[i]) && ws'[i].Position() in p.view.tiles;
        GainedShift(v, v', ws, ws', i, p);
    }
    AdvanceFrame(v, ws, i, eval);
  }

  /**
   * A pass stops only at a walker whose whole ranking the board refuses:
   * the board the pass ends with is the one that walker saw.
   */
  lemma {:induction false} AdvanceStuckRefused(v: BoardView, ws: seq<Walker>, i: nat, eval: Evaluator)
    requires i <= |ws| && AllValid(ws)
    ensures var p := AdvanceFrom(v, ws, i, eval);
            p.stuck.Some? ==>
              var idx := p.stuck.value;
              idx < |ws| &&
              var pos := ws[idx].Position();
              var prefs := eval(pos, ws[idx].dest, p.view);
              forall k :: 0 <= k < |prefs| ==> !Accepts(p.view, pos, prefs[k])
    decreases |ws| - i
  {
    if i < |ws| {
      var position := ws[i].Position();
      var prefs := eval(position, ws[i].dest, v);
      match FirstAccepted(v, position, prefs, 0)
      case None =>
        AdvanceStops(v, ws, i, eval);
      case Some(k) =>
        var next := PointAdd(position, prefs[k].Vector());
        var v', ws' := Claim(v, position, prefs[k]), ws[i := ws[i].Extend(next)];
        AdvanceFrame(v', ws', i + 1, eval);
        AdvanceStuckRefused(v', ws', i + 1, eval);
        AdvanceMoves(v, ws, i, eval, k);
        var p := AdvanceFrom(v', ws', i + 1, eval);
        if p.stuck.Some? {
          assert ws'[p.stuck.value] == ws[p.stuck.value];
        }
    }
  }

  /** The gains of a pass from `i + 1` on, seen from the board before walker `i` moved. */
  lemma GainedShift(v: BoardView, v': BoardView, ws: seq<Walker>, ws': seq<Walker>, i: nat, p: Pass)
    requires i < |ws| == |ws'| == |p.walkers| && Reached(p) <= |ws| && v.tiles <= v'.tiles
    requires Gained(v, ws[i], ws'[i]) && p.walkers[i] == ws'[i] && ws'[i].Position() in p.view.tiles
    requires forall j :: 0 <= j < |ws| && j != i ==> ws'[j] == ws[j]
    requires forall j :: i + 1 <= j < Reached(p) ==>
               Gained(v', ws'[j], p.walkers[j]) && p.walkers[j].Position() in p.view.tiles
    ensures forall j :: i <= j < Reached(p) ==>
              Gained(v, ws[j], p.walkers[j]) && p.walkers[j].Position() in p.view.tiles
  {
    forall j | i < j < Reached(p) ensures Gained(v, ws[j], p.walkers[j]) {
      assert ws'[j] == ws[j];
    }
  }

  /** No two walkers a pass moves end on the same cell. */
  lemma {:induction false} AdvanceDistinct(v: BoardView, ws: seq<Walker>, i: nat, eval: Evaluator)
    requires i <= |ws| && AllValid(ws)
    ensures var p := AdvanceFrom(v, ws, i, eval); AllValid(p.walkers) && Reached(p) <= |ws|
    ensures var p := AdvanceFrom(v, ws, i, eval);
            forall j, k :: i <= j < k < Reached(p) ==> p.walkers[j].Position() != p.walkers[k].Position()
    decreases |ws| - i
  {
    if i < |ws| {
      var position := ws[i].Position();
      var prefs := eval(position, ws[i].dest, v);
      match FirstAccepted(v, position, prefs, 0)
      case None =>
      case Some(k) =>
        var next := PointAdd(position, prefs[k].Vector());
        var v' := Claim(v, position, prefs[k]);
        var ws' := ws[i := ws[i].Extend(next)];
        AdvanceFrame(v', ws', i + 1, eval);
        AdvanceGains(v', ws', i + 1, eval);
        AdvanceDistinct(v', ws', i + 1, eval);
    }
    AdvanceFrame(v, ws, i, eval);
  }

  /** A pass keeps the board consistent with the retired routes and the walkers' histories. */
  lemma {:induction false} AdvancePreserves(done: seq<Route>, v: BoardView, ws: seq<Walker>, i: nat, eval: Evaluator)
    requires i <= |ws| && AllValid(ws)
    requires Consistent(v, done + Histories(ws))
    ensures var p := AdvanceFrom(v, ws, i, eval);
            Consistent(p.view, done + Histories(p.walkers))
    decreases |ws| - i
  {
    if i < |ws| {
      var position := ws[i].Position();
      var prefs := eval(position, ws[i].dest, v);
      match FirstAccepted(v, position, prefs, 0)
      case None =>
      case Some(k) =>
        var next := PointAdd(position, prefs[k].Vector());
        var ws' := ws[i := ws[i].Extend(next)];
        var rs := done + Histories(ws);
        assert rs[|done| + i] == ws[i].history;
        ClaimPreserves(v, rs, |done| + i, prefs[k]);
        assert rs[|done| + i := rs[|done| + i] + [next]] == done + Histories(ws');
        AdvancePreserves(done, Claim(v, position, prefs[k]), ws', i + 1, eval);
    }
  }

  /** Extending walker `i` extends its history among the routes. */
  lemma HistoriesExtend(done: seq<Route>, ws: seq<Walker>, i: nat, next: Point)
    requires i < |ws| && ws[i].Valid()
    ensures var rs := done + Histories(ws);
            rs[|done| + i] == ws[i].history &&
            rs[|done| + i := rs[|done| + i] + [next]] == done + Histories(ws[i := ws[i].Extend(next)])
  {
  }

  /**
   * Moving walker `i` onto a cell no route holds keeps the routes
   * exclusive, and adds just that cell to their cells.
   */
  lemma ExtendExclusive(done: seq<Route>, ws: seq<Walker>, i: nat, next: Point)
    requires i < |ws| && ws[i].Valid()
    requires Exclusive(done + Histories(ws)) && next !in Cells(done + Histories(ws))
    ensures var rs' := done + Histories(ws[i := ws[i].Extend(next)]);
            Exclusive(rs') && Cells(rs') == Cells(done + Histories(ws)) + {next}
  {
    var rs, rs' := done + Histories(ws), done + Histories(ws[i := ws[i].Extend(next)]);
    HistoriesExtend(done, ws, i, next);
    var j := |done| + i;
    assert rs[j := rs[j] + [next]] == rs';
    CellsAppend(rs, j, next);
    ClaimExclusive(rs, j, next);
  }

  /** One accepted move of walker `i` keeps the routes exclusive and on the board. */
  lemma MoveExclusive(done: seq<Route>, v: BoardView, ws: seq<Walker>, i: nat, d: Direction)
    requires i < |ws| && AllValid(ws) && Accepts(v, ws[i].Position(), d)
    requires Cells(done + Histories(ws)) <= v.tiles && Exclusive(done + Histories(ws))
    ensures var next := PointAdd(ws[i].Position(), d.Vector());
            var ws' := ws[i := ws[i].Extend(next)];
            AllValid(ws') &&
            Cells(done + Histories(ws')) <= Claim(v, ws[i].Position(), d).tiles &&
            Exclusive(done + Histories(ws'))
  {
    var next := PointAdd(ws[i].Position(), d.Vector());
    ExtendExclusive(done, ws, i, next);
    var ws' := ws[i := ws[i].Extend(next)];
    forall j | 0 <= j < |ws'| ensures ws'[j].Valid() {
      if j != i {
        assert ws'[j] == ws[j];
      }
    }
  }

  /** A pass keeps the retired routes and the walkers' histories exclusive. */
  lemma {:induction false} AdvanceExclusive(done: seq<Route>, v: BoardView, ws: seq<Walker>, i: nat, eval: Evaluator)
    requires i <= |ws| && AllValid(ws)
    requires Cells(done + Histories(ws)) <= v.tiles && Exclusive(done + Histories(ws))
    ensures var p := AdvanceFrom(v, ws, i, eval);
            Exclusive(done + Histories(p.walkers))
    decreases |ws| - i
  {
    if i == |ws| {
      assert AdvanceFrom(v, ws, i, eval).walkers == ws;
    } else {
      var position := ws[i].Position();
      var prefs := eval(position, ws[i].dest, v);
      match FirstAccepted(v, position, prefs, 0)
      case None =>
        AdvanceStops(v, ws, i, eval);
      case Some(k) =>
        var next := PointAdd(position, prefs[k].Vector());
        var v', ws' := Claim(v, position, prefs[k]), ws[i := ws[i].Extend(next)];
        MoveExclusive(done, v, ws, i, prefs[k]);
        AdvanceExclusive(done, v', ws', i + 1, eval);
        AdvanceMoves(v, ws, i, eval, k);
    }
  }

  /** The walkers that stay active: the unfinished ones, in their order. */
  function Unfinished(ws: seq<Walker>): (kept: seq<Walker>)
    ensures AllValid(ws) ==> AllValid(kept)
    ensures forall i :: 0 <= i < |kept| ==> !kept[i].Finished()
  {
    if ws == [] then []
    else (if ws[0].Finished() then [] else [ws[0]]) + Unfinished(ws[1..])
  }

  /** The routes of the finished walkers, in their order. */
  function FinishedRoutes(ws: seq<Walker>): (done: seq<Route>)
    ensures |done| + |Unfinished(ws)| == |ws|
  {
    if ws == [] then []
    else (if ws[0].Finished() then [ws[0].Route()] else []) + FinishedRoutes(ws[1..])
  }

  /**
   * The indices, from `from` on, of the walkers of `ws` whose `Finished()`
   * is `finished`, in increasing order: all of them and no others.
   */
  function Marked(ws: seq<Walker>, finished: bool, from: nat): (ix: seq<nat>)
    requires from <= |ws|
    decreases |ws| - from
    ensures forall k :: 0 <= k < |ix| ==> from <= ix[k] < |ws| && ws[ix[k]].Finished() == finished
  {
    if from == |ws| then []
    else (if ws[from].Finished() == finished then [from] else []) + Marked(ws, finished, from + 1)
  }

  /** `Marked` lists its indices in strictly increasing order. */
  lemma {:induction false} MarkedIncreasing(ws: seq<Walker>, finished: bool, from: nat)
    requires from <= |ws|
    decreases |ws| - from
    ensures forall k, l :: 0 <= k < l < |Marked(ws, finished, from)| ==>
              Marked(ws, finished, from)[k] < Marked(ws, finished, from)[l]
  {
    if from < |ws| {
      MarkedIncreasing(ws, finished, from + 1);
      var rest := Marked(ws, finished, from + 1);
      if ws[from].Finished() == finished {
        var ix := [from] + rest;
        assert Marked(ws, finished, from) == ix;
        forall k, l | 0 <= k < l < |ix| ensures ix[k] < ix[l] {
          assert ix[l] == rest[l - 1] && from < rest[l - 1];
          if k == 0 {
            assert ix[k] == from;
          } else {
            assert ix[k] == rest[k - 1] < rest[l - 1];
          }
        }
      }
    }
  }

  /** `Marked` misses no index: every walker from `from` on with that `Finished()` is listed. */
  lemma {:induction false} MarkedAll(ws: seq<Walker>, finished: bool, from: nat)
    requires from <= |ws|
    decreases |ws| - from
    ensures forall i :: from <= i < |ws| && ws[i].Finished() == finished ==> i in Marked(ws, finished, from)
  {
    if from < |ws| {
      MarkedAll(ws, finished, from + 1);
    }
  }

  /** Walkers picked at indices `ix`, with one more index in front. */
  lemma PickCons(ws: seq<Walker>, from: nat, ix: seq<nat>, picked: seq<Walker>)
    requires from < |ws| && |picked| == |ix|
    requires forall k :: 0 <= k < |ix| ==> ix[k] < |ws| && picked[k] == ws[ix[k]]
    ensures var picked', ix' := [ws[from]] + picked, [from] + ix;
            |picked'| == |ix'| && forall k :: 0 <= k < |ix'| ==> ix'[k] < |ws| && picked'[k] == ws[ix'[k]]
  {
    var picked', ix' := [ws[from]] + picked, [from] + ix;
    forall k | 0 < k < |ix'| ensures ix'[k] < |ws| && picked'[k] == ws[ix'[k]] {
      assert picked'[k] == picked[k - 1] && ix'[k] == ix[k - 1];
    }
  }

  /** Histories picked at indices `ix`, with one more index in front. */
  lemma PickHistoriesCons(ws: seq<Walker>, from: nat, ix: seq<nat>, picked: seq<Route>)
    requires from < |ws| && |picked| == |ix|
    requires forall k :: 0 <= k < |ix| ==> ix[k] < |ws| && picked[k] == ws[ix[k]].history
    ensures var picked', ix' := [ws[from].history] + picked, [from] + ix;
            |picked'| == |ix'| && forall k :: 0 <= k < |ix'| ==> ix'[k] < |ws| && picked'[k] == ws[ix'[k]].history
  {
    var picked', ix' := [ws[from].history] + picked, [from] + ix;
    forall k | 0 < k < |ix'| ensures ix'[k] < |ws| && picked'[k] == ws[ix'[k]].history {
      assert picked'[k] == picked[k - 1] && ix'[k] == ix[k - 1];
    }
  }

  /** One unfolding of retirement at index `from`, for the kept walkers. */
  lemma KeptStep(ws: seq<Walker>, from: nat)
    requires from < |ws|
    ensures var h := if ws[from].Finished() then [] else [ws[from]];
            Unfinished(ws[from..]) == h + Unfinished(ws[from + 1..])
    ensures Marked(ws, false, from) == (if ws[from].Finished() then [] else [from]) + Marked(ws, false, from + 1)
  {
    assert ws[from..][1..] == ws[from + 1..];
  }

  /** The walkers retiring keeps are exactly the unfinished ones, in their order. */
  lemma {:induction false} KeptInOrder(ws: seq<Walker>, from: nat)
    requires from <= |ws|
    decreases |ws| - from
    ensures var ix := Marked(ws, false, from); var kept := Unfinished(ws[from..]);
            |kept| == |ix| && forall k :: 0 <= k < |ix| ==> kept[k] == ws[ix[k]]
  {
    if from < |ws| {
      KeptInOrder(ws, from + 1);
      KeptStep(ws, from);
      var ix, rest := Marked(ws, false, from + 1), Unfinished(ws[from + 1..]);
      if !ws[from].Finished() {
        PickCons(ws, from, ix, rest);
      }
    }
  }

  /** A walker is kept exactly when it occurs among the walkers and is not finished. */
  lemma {:induction false} KeptMembers(ws: seq<Walker>)
    ensures forall w :: w in Unfinished(ws) <==> w in ws && !w.Finished()
  {
    if ws != [] {
      KeptMembers(ws[1..]);
      assert ws == [ws[0]] + ws[1..];
    }
  }

  /** One unfolding of retirement at index `from`, for the retired routes. */
  lemma RetiredStep(ws: seq<Walker>, from: nat)
    requires from < |ws|
    ensures var h := if ws[from].Finished() then [ws[from].history] else [];
            FinishedRoutes(ws[from..]) == h + FinishedRoutes(ws[from + 1..])
    ensures Marked(ws, true, from) == (if ws[from].Finished() then [from] else []) + Marked(ws, true, from + 1)
  {
    assert ws[from..][1..] == ws[from + 1..];
  }

  /** The routes retiring appends are the finished walkers' histories, in their order. */
  lemma {:induction false} RetiredInOrder(ws: seq<Walker>, from: nat)
    requires from <= |ws|
    decreases |ws| - from
    ensures var ix := Marked(ws, true, from); var done := FinishedRoutes(ws[from..]);
            |done| == |ix| && forall k :: 0 <= k < |ix| ==> done[k] == ws[ix[k]].history
  {
    if from < |ws| {
      RetiredInOrder(ws, from + 1);
      RetiredStep(ws, from);
      var ix, rest := Marked(ws, true, from + 1), FinishedRoutes(ws[from + 1..]);
      if ws[from].Finished() {
        PickHistoriesCons(ws, from, ix, rest);
      }
    }
  }

  /**
   * Retiring is a partition: every history ends up either among the
   * retired routes or among the remaining walkers, and none is lost or
   * duplicated.
   */
  lemma {:induction false} RetirePartition(ws: seq<Walker>)
    ensures multiset(FinishedRoutes(ws)) + multiset(Histories(Unfinished(ws))) == multiset(Histories(ws))
  {
    if ws != [] {
      RetirePartition(ws[1..]);
      RetireHead(ws);
    }
  }

  /** One unfolding of retirement at the first walker. */
  lemma RetireHead(ws: seq<Walker>)
    requires ws != []
    ensures Histories(ws) == [ws[0].history] + Histories(ws[1..])
    ensures FinishedRoutes(ws) == (if ws[0].Finished() then [ws[0].history] else []) + FinishedRoutes(ws[1..])
    ensures Histories(Unfinished(ws)) ==
            (if ws[0].Finished() then [] else [ws[0].history]) + Histories(Unfinished(ws[1..]))
  {
    if !ws[0].Finished() {
      HistoriesConcat([ws[0]], Unfinished(ws[1..]));
    }
  }


  lemma HistoriesConcat(a: seq<Walker>, b: seq<Walker>)
    ensures Histories(a + b) == Histories(a) + Histories(b)
  {
    assert forall i :: 0 <= i < |a + b| ==> Histories(a + b)[i] == (Histories(a) + Histories(b))[i];
  }

  /**
   * The walkers for the first `n` connections, in connection order: each
   * stands on its connection's source terminal, has moved nowhere yet and
   * heads for the destination terminal.
   */
  function InitialWalkers(circuit: Circuit, placements: seq<Point>, n: nat): (ws: seq<Walker>)
    requires n <= |circuit.connections|
    requires ValidConnections(circuit.components, placements, circuit.connections)
    ensures |ws| == n
    ensures forall i :: 0 <= i < n ==>
              var c := circuit.connections[i];
              ws[i].Route() == [Terminal(circuit.components, placements, c.src)] &&
              ws[i].dest == Terminal(circuit.components, placements, c.dst)
  {
    if n == 0 then []
    else
      var c := circuit.connections[n - 1];
      InitialWalkers(circuit, placements, n - 1) +
        [Walker.New(Terminal(circuit.components, placements, c.src), Terminal(circuit.components, placements, c.dst))]
  }

  /**
   * Starting cells can be shared: two connections from the same terminal
   * give two walkers on one cell, which is why `Exclusive` exempts the
   * start of every route.
   */
  lemma SharedSource()
    ensures var c := Circuit([Component([(0, 0), (3, 0)], (4, 1))],
                             [Connection(TerminalRef(0, 0), TerminalRef(0, 1)),
                              Connection(TerminalRef(0, 0), TerminalRef(0, 1))], (30, 30));
            var ws := InitialWalkers(c, FixedPlacements, 2);
            ws[0].Position() == ws[1].Position() == (5, 5)
  {
  }

  /** A cell of walkers that have not moved is the start of one of them. */
  lemma SeededOrigin(ws: seq<Walker>, p: Point) returns (k: nat)
    requires forall k :: 0 <= k < |ws| ==> |ws[k].history| == 1
    requires p in Cells(Histories(ws))
    ensures k < |ws| && ws[k].Position() == p
  {
    var hs := Histories(ws);
    var r :| r in hs && p in r;
    k :| 0 <= k < |hs| && hs[k] == r;
    assert r == [r[0]];
  }

  /** Walkers that have not moved yet occupy exactly their starting cells. */
  lemma SeededCells(ws: seq<Walker>)
    requires forall k :: 0 <= k < |ws| ==> |ws[k].history| == 1
    ensures Cells(Histories(ws)) == set k | 0 <= k < |ws| :: ws[k].Position()
  {
    var hs := Histories(ws);
    var starts := set k | 0 <= k < |ws| :: ws[k].Position();
    assert Cells(hs) <= starts by {
      forall p | p in Cells(hs) ensures p in starts {
        var k := SeededOrigin(ws, p);
      }
    }
    assert starts <= Cells(hs) by {
      forall k | 0 <= k < |ws| ensures ws[k].Position() in Cells(hs) {
        assert hs[k] in hs && ws[k].Position() in hs[k];
      }
    }
  }


  /** Seeding one more walker on its start keeps the board consistent with the walkers' histories. */
  lemma SeedWalker(v: BoardView, ws: seq<Walker>, src: Point, dst: Point)
    requires Consistent(v, Histories(ws))
    ensures Consistent(BoardView(v.tiles + {src}, v.diagonals), Histories(ws + [Walker.New(src, dst)]))
  {
    SeedPreserves(v, Histories(ws), src);
    HistoriesConcat(ws, [Walker.New(src, dst)]);
  }

  /**
   * A board seeded with the walkers' starting cells, and nothing retired:
   * the walkers are well formed and the board holds exactly their cells.
   */
  lemma Seeded(v: BoardView, ws: seq<Walker>)
    requires forall k :: 0 <= k < |ws| ==> |ws[k].history| == 1
    requires Consistent(v, Histories(ws))
    ensures AllValid(ws) && Consistent(v, [] + Histories(ws))
    ensures v.tiles == set k | 0 <= k < |ws| :: ws[k].Position()
  {
    SeededCells(ws);
    assert [] + Histories(ws) == Histories(ws);
  }

  /** Walkers that have not moved yet, with nothing retired, are exclusive. */
  lemma SeededExclusive(ws: seq<Walker>)
    requires forall k :: 0 <= k < |ws| ==> |ws[k].history| == 1
    ensures Exclusive([] + Histories(ws))
  {
    StartsExclusive([] + Histories(ws));
  }

  /** The state a step leaves behind, and what it reports. */
  datatype Outcome = Outcome(view: BoardView, walkers: seq<Walker>, routes: seq<Route>, status: Status)

  /**
   * One synchronised step: the advancing pass; then, unless it stopped at a
   * stuck walker, the finished walkers' routes are appended in order and
   * the rest stay active in order.
   */
  ghost function StepOutcome(v: BoardView, ws: seq<Walker>, done: seq<Route>, eval: Evaluator): Outcome
    requires AllValid(ws)
  {
    var pass := AdvanceFrom(v, ws, 0, eval);
    if pass.stuck.Some? then
      Outcome(pass.view, pass.walkers, done, Stuck(pass.stuck.value))
    else
      var kept := Unfinished(pass.walkers);
      Outcome(pass.view, kept, done + FinishedRoutes(pass.walkers), if kept == [] then Finished else Running)
  }

  /** Retiring the finished walkers keeps the board consistent with all routes. */
  lemma RetireKeepsConsistent(v: BoardView, done: seq<Route>, ws: seq<Walker>)
    requires Consistent(v, done + Histories(ws))
    ensures Consistent(v, (done + FinishedRoutes(ws)) + Histories(Unfinished(ws)))
  {
    RetireRoutes(done, ws);
    ConsistentByMembership(v, done + Histories(ws), (done + FinishedRoutes(ws)) + Histories(Unfinished(ws)));
  }

  /**
   * Retiring appends to the routes already retired and loses or
   * duplicates no history.
   */
  lemma RetireRoutes(done: seq<Route>, ws: seq<Walker>)
    ensures ((done + FinishedRoutes(ws)) + Histories(Unfinished(ws)))[..|done|] == done
    ensures multiset((done + FinishedRoutes(ws)) + Histories(Unfinished(ws))) == multiset(done + Histories(ws))
  {
    RetirePartition(ws);
    assert (done + FinishedRoutes(ws)) + Histories(Unfinished(ws)) == done + (FinishedRoutes(ws) + Histories(Unfinished(ws)));
  }

  /** A step keeps the board consistent with all routes, retired or in progress. */
  lemma StepKeepsConsistent(v: BoardView, ws: seq<Walker>, done: seq<Route>, eval: Evaluator)
    requires AllValid(ws) && Consistent(v, done + Histories(ws))
    ensures var o := StepOutcome(v, ws, done, eval);
            AllValid(o.walkers) && Consistent(o.view, o.routes + Histories(o.walkers))
  {
    var pass := AdvanceFrom(v, ws, 0, eval);
    AdvanceFrame(v, ws, 0, eval);
    AdvancePreserves(done, v, ws, 0, eval);
    if pass.stuck.None? {
      RetireKeepsConsistent(pass.view, done, pass.walkers);
    }
  }

  /**
   * A step keeps all routes, retired or in progress, exclusive: no walker
   * ever moves onto a cell another route holds.
   */
  lemma StepKeepsExclusive(v: BoardView, ws: seq<Walker>, done: seq<Route>, eval: Evaluator)
    requires AllValid(ws) && Consistent(v, done + Histories(ws)) && Exclusive(done + Histories(ws))
    ensures var o := StepOutcome(v, ws, done, eval);
            Exclusive(o.routes + Histories(o.walkers))
  {
    var pass := AdvanceFrom(v, ws, 0, eval);
    AdvanceFrame(v, ws, 0, eval);
    AdvanceExclusive(done, v, ws, 0, eval);
    if pass.stuck.None? {
      RetireRoutes(done, pass.walkers);
    }
  }

  /**
   * A stuck step: the walkers before the stuck one gained one fresh cell
   * each, the stuck one and all later ones are unchanged, and nothing is
   * retired.
   */
  lemma StepStuck(v: BoardView, ws: seq<Walker>, done: seq<Route>, eval: Evaluator)
    requires AllValid(ws)
    ensures var o := StepOutcome(v, ws, done, eval);
            o.status.Stuck? ==>
              var idx := o.status.index;
              idx < |ws| && |o.walkers| == |ws| && o.routes == done &&
              v.tiles <= o.view.tiles && v.diagonals <= o.view.diagonals &&
              (forall j :: 0 <= j < idx ==> Gained(v, ws[j], o.walkers[j])) &&
              (forall j :: idx <= j < |ws| ==> o.walkers[j] == ws[j]) &&
              var pos := ws[idx].Position();
              var prefs := eval(pos, ws[idx].dest, o.view);
              forall k :: 0 <= k < |prefs| ==> !Accepts(o.view, pos, prefs[k])
  {
    AdvanceFrame(v, ws, 0, eval);
    AdvanceGains(v, ws, 0, eval);
    AdvanceStuckRefused(v, ws, 0, eval);
  }

  /** A first walker with every neighbouring cell claimed makes the step report `Stuck(0)`. */
  lemma BoxedInStuck(v: BoardView, ws: seq<Walker>, done: seq<Route>, eval: Evaluator)
    requires AllValid(ws) && |ws| > 0
    requires forall q :: IsMove(ws[0].Position(), q) ==> q in v.tiles
    ensures StepOutcome(v, ws, done, eval).status == Stuck(0)
  {
    var pos := ws[0].Position();
    var prefs := eval(pos, ws[0].dest, v);
    forall k | 0 <= k < |prefs| ensures !Accepts(v, pos, prefs[k]) {
      assert IsMove(pos, PointAdd(pos, prefs[k].Vector()));
    }
    AdvanceStops(v, ws, 0, eval);
  }

  /**
   * A step that is not stuck moves every walker: each gained one fresh
   * cell, no two onto the same cell, and the board only grew.
   */
  lemma StepAdvances(v: BoardView, ws: seq<Walker>, done: seq<Route>, eval: Evaluator)
    requires AllValid(ws)
    ensures var o := StepOutcome(v, ws, done, eval);
            var pass := AdvanceFrom(v, ws, 0, eval);
            !o.status.Stuck? ==>
              v.tiles <= o.view.tiles && v.diagonals <= o.view.diagonals &&
              (forall j :: 0 <= j < |ws| ==> Gained(v, ws[j], pass.walkers[j])) &&
              (forall j, k :: 0 <= j < k < |ws| ==> pass.walkers[j].Position() != pass.walkers[k].Position())
  {
    AdvanceFrame(v, ws, 0, eval);
    AdvanceGains(v, ws, 0, eval);
    AdvanceDistinct(v, ws, 0, eval);
  }

  /**
   * A step that is not stuck then retires the finished walkers: the
   * retired routes are kept and extended; no active walker is finished;
   * every history is either retired or still active; and the step reports
   * `Finished` exactly when no walker remains.
   */
  lemma StepRetires(v: BoardView, ws: seq<Walker>, done: seq<Route>, eval: Evaluator)
    requires AllValid(ws)
    ensures var o := StepOutcome(v, ws, done, eval);
            var pass := AdvanceFrom(v, ws, 0, eval);
            !o.status.Stuck? ==>
              (forall j :: 0 <= j < |o.walkers| ==> !o.walkers[j].Finished()) &&
              o.routes[..|done|] == done &&
              multiset(o.routes + Histories(o.walkers)) == multiset(done + Histories(pass.walkers)) &&
              (o.status == Finished <==> o.walkers == [])
  {
    var pass := AdvanceFrom(v, ws, 0, eval);
    if pass.stuck.None? {
      RetireRoutes(done, pass.walkers);
    }
  }

  /**
   * Retiring keeps order: after a step that is not stuck, the active
   * walkers are the moved walkers that are not finished, in their order,
   * and the routes gained at the end are the finished walkers' histories,
   * in their order.
   */
  lemma StepRetiresInOrder(v: BoardView, ws: seq<Walker>, done: seq<Route>, eval: Evaluator)
    requires AllValid(ws)
    ensures var o := StepOutcome(v, ws, done, eval);
            var pass := AdvanceFrom(v, ws, 0, eval);
            var kx, fx := Marked(pass.walkers, false, 0), Marked(pass.walkers, true, 0);
            !o.status.Stuck? ==>
              |o.walkers| == |kx| &&
              (forall k :: 0 <= k < |kx| ==> o.walkers[k] == pass.walkers[kx[k]]) &&
              |o.routes| == |done| + |fx| &&
              (forall k :: 0 <= k < |fx| ==> o.routes[|done| + k] == pass.walkers[fx[k]].history)
  {
    var pass := AdvanceFrom(v, ws, 0, eval);
    assert pass.walkers[0..] == pass.walkers;
    KeptInOrder(pass.walkers, 0);
    RetiredInOrder(pass.walkers, 0);
  }

  /**
   * A walker already standing on its destination (one whose source is its
   * destination, say) is not retired by the next step that is not stuck:
   * the step first pushes it one cell on, so it stays active and its index
   * is not among the retired ones.
   */
  lemma ZeroLengthConnectionLeavesStart(v: BoardView, ws: seq<Walker>, done: seq<Route>, eval: Evaluator, j: nat)
    requires AllValid(ws) && j < |ws| && ws[j].Finished()
    ensures var o := StepOutcome(v, ws, done, eval);
            var pass := AdvanceFrom(v, ws, 0, eval);
            !o.status.Stuck? ==>
              |pass.walkers[j].history| == |ws[j].history| + 1 &&
              !pass.walkers[j].Finished() && pass.walkers[j] in o.walkers &&
              j !in Marked(pass.walkers, true, 0)
  {
    AdvanceFrame(v, ws, 0, eval);
    AdvanceGains(v, ws, 0, eval);
    KeptMembers(AdvanceFrom(v, ws, 0, eval).walkers);
  }

  /**
   * The router's invariant, on the board `v`, the active walkers `ws` and
   * the retired routes `done`: the walkers are well formed, and all routes
   * are consistent with the board and exclusive.
   */
  ghost predicate Ready(v: BoardView, ws: seq<Walker>, done: seq<Route>)
  {
    AllValid(ws) && Consistent(v, done + Histories(ws)) && Exclusive(done + Histories(ws))
  }

  /** Freshly seeded walkers, with nothing retired, satisfy the invariant. */
  lemma SeededReady(v: BoardView, ws: seq<Walker>)
    requires forall k :: 0 <= k < |ws| ==> |ws[k].history| == 1
    requires Consistent(v, Histories(ws))
    ensures Ready(v, ws, []) && v.tiles == set k | 0 <= k < |ws| :: ws[k].Position()
  {
    Seeded(v, ws);
    SeededExclusive(ws);
  }

  /** A step keeps the invariant. */
  lemma StepKeepsReady(v: BoardView, ws: seq<Walker>, done: seq<Route>, eval: Evaluator)
    requires Ready(v, ws, done)
    ensures var o := StepOutcome(v, ws, done, eval); Ready(o.view, o.walkers, o.routes)
  {
    StepKeepsConsistent(v, ws, done, eval);
    StepKeepsExclusive(v, ws, done, eval);
  }

  /** The router: the board, the active walkers in order and the retired routes. */
  class Game {
    const board: Board
    var walkers: seq<Walker>
    var routes: seq<Route>

    /** The retired routes followed by every active walker's history so far. */
    function UnfinishedRoutes(): (rs: seq<Route>)
      reads this
      ensures |rs| == |routes| + |walkers|
      ensures rs[..|routes|] == routes
      ensures forall i :: 0 <= i < |walkers| ==> rs[|routes| + i] == walkers[i].Route()
    {
      routes + Histories(walkers)
    }

    ghost predicate Valid()
      reads this, board
    {
      Ready(board.View(), walkers, routes)
    }

    /**
     * One walker per connection, in order, standing on its source terminal
     * and heading for its destination terminal; only the sources are
     * claimed on the board.
     */
    constructor (circuit: Circuit, placements: seq<Point>)
      requires ValidConnections(circuit.components, placements, circuit.connections)
      ensures Valid() && fresh(board)
      ensures walkers == InitialWalkers(circuit, placements, |circuit.connections|) && routes == []
      ensures board.tiles == set i | 0 <= i < |walkers| :: walkers[i].Position()
      ensures board.diagonals == {}
    {
      var b, ws := Seed(circuit, placements);
      SeededReady(b.View(), ws);
      board := b;
      walkers := ws;
      routes := [];
    }

    /**
     * A fresh board with every connection's source terminal claimed, and
     * one walker per connection, in connection order.
     */
    static method Seed(circuit: Circuit, placements: seq<Point>) returns (b: Board, ws: seq<Walker>)
      requires ValidConnections(circuit.components, placements, circuit.connections)
      ensures fresh(b) && ws == InitialWalkers(circuit, placements, |circuit.connections|)
      ensures b.diagonals == {} && Consistent(b.View(), Histories(ws))
    {
      b := new Board();
      ws := [];
      for i := 0 to |circuit.connections|
        invariant ws == InitialWalkers(circuit, placements, i)
        invariant fresh(b) && b.diagonals == {}
        invariant Consistent(b.View(), Histories(ws))
      {
        var c := circuit.connections[i];
        var src := Terminal(circuit.components, placements, c.src);
        var dst := Terminal(circuit.components, placements, c.dst);
        SeedWalker(b.View(), ws, src, dst);
        var seeded := b.InitPoint(src);
        ws := ws + [Walker.New(src, dst)];
      }
    }

    /**
     * The advancing pass of a step: each walker in turn claims the first
     * direction of its ranking that the board accepts and moves there; the
     * pass stops at the first walker that can claim none.
     */
    method Advance(evaluator: Evaluator) returns (stuck: Option<nat>)
      requires AllValid(walkers)
      modifies this, board
      ensures routes == old(routes)
      ensures Pass(board.View(), walkers, stuck) == AdvanceFrom(old(board.View()), old(walkers), 0, evaluator)
    {
      ghost var target := AdvanceFrom(board.View(), walkers, 0, evaluator);
      var ws := walkers;
      var n := |ws|;
      for i := 0 to n
        invariant |ws| == n && AllValid(ws)
        invariant routes == old(routes)
        invariant AdvanceFrom(board.View(), ws, i, evaluator) == target
      {
        var position := ws[i].Position();
        var prefs := evaluator(position, ws[i].dest, board.View());
        ghost var view := board.View();
        var chosen := board.ClaimFirst(position, prefs);
        if chosen.None? {
          AdvanceStops(view, ws, i, evaluator);
          walkers := ws;
          return Some(i);
        }
        var next := PointAdd(position, prefs[chosen.value].Vector());
        AdvanceMoves(view, ws, i, evaluator, chosen.value);
        ws := ws[i := ws[i].Extend(next)];
      }
      walkers := ws;
      return None;
    }

    /**
     * One synchronised step: the advancing pass; if a walker could not
     * move, `Stuck` with its index; otherwise the finished walkers are
     * retired in order, and the step reports `Finished` exactly when no
     * walker remains.
     */
    method Step(evaluator: Evaluator) returns (status: Status)
      requires Valid()
      modifies this, board
      ensures Valid()
      ensures Outcome(board.View(), walkers, routes, status) ==
              StepOutcome(old(board.View()), old(walkers), old(routes), evaluator)
    {
      StepKeepsReady(board.View(), walkers, routes, evaluator);
      var stuck := Advance(evaluator);
      if stuck.Some? {
        return Stuck(stuck.value);
      }
      routes := routes + FinishedRoutes(walkers);
      walkers := Unfinished(walkers);
      if walkers == [] {
        status := Finished;
      } else {
        status := Running;
      }
    }
  }
}
