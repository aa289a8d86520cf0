// Facts about the grid functions: how counting and filtering rows split over
// concatenation, the steps of the line-clearing loop, and what clearing lines
// guarantees about the board's shape, its full rows and its block count.

lemma {:induction false} CountFullAppend(a: Grid, b: Grid)
  ensures CountFull(a + b) == CountFull(a) + CountFull(b)
{
  if a == [] {
    assert a + b == b;
  } else {
    assert (a + b)[1..] == a[1..] + b;
    CountFullAppend(a[1..], b);
  }
}

/** A grid has no full row exactly when it counts zero full rows. */
lemma {:induction false} CountFullZero(g: Grid)
  ensures CountFull(g) == 0 <==> forall y :: 0 <= y < |g| ==> !RowFull(g[y])
{
  if g != [] {
    CountFullZero(g[1..]);
    assert forall y :: 1 <= y < |g| ==> g[y] == g[1..][y - 1];
  }
}

/** Dropping the full rows keeps the other rows in their order: it distributes over concatenation. */
lemma {:induction false} KeepRowsAppend(a: Grid, b: Grid)
  ensures KeepRows(a + b) == KeepRows(a) + KeepRows(b)
{
  if a == [] {
    assert a + b == b;
  } else {
    assert (a + b)[1..] == a[1..] + b;
    KeepRowsAppend(a[1..], b);
  }
}

lemma {:induction false} RowFilledAppend(a: Row, b: Row)
  ensures RowFilled(a + b) == RowFilled(a) + RowFilled(b)
{
  if a == [] {
    assert a + b == b;
  } else {
    assert (a + b)[1..] == a[1..] + b;
    RowFilledAppend(a[1..], b);
  }
}

lemma {:induction false} FilledCountAppend(a: Grid, b: Grid)
  ensures FilledCount(a + b) == FilledCount(a) + FilledCount(b)
{
  if a == [] {
    assert a + b == b;
  } else {
    assert (a + b)[1..] == a[1..] + b;
    FilledCountAppend(a[1..], b);
  }
}

/** A grid holds no block exactly when every one of its rows is empty. */
lemma {:induction false} FilledCountZero(g: Grid)
  ensures FilledCount(g) == 0 <==> forall y :: 0 <= y < |g| ==> RowEmpty(g[y])
{
  if g != [] {
    FilledCountZero(g[1..]);
    assert forall y :: 1 <= y < |g| ==> g[y] == g[1..][y - 1];
  }
}

/** Examining row i of a grid from the bottom: it is either dropped and counted, or kept. */
lemma KeepRowsStep(g: Grid, i: nat)
  requires i < |g|
  ensures KeepRows(g[i..]) == (if RowFull(g[i]) then [] else [g[i]]) + KeepRows(g[i + 1..])
  ensures CountFull(g[i..]) == (if RowFull(g[i]) then 1 else 0) + CountFull(g[i + 1..])
{
  assert g[i..][1..] == g[i + 1..];
}

/** Every kept row is a row of the grid and is not full. */
lemma {:induction false} KeepRowsMembers(g: Grid)
  ensures forall i :: 0 <= i < |KeepRows(g)| ==> KeepRows(g)[i] in g && !RowFull(KeepRows(g)[i])
{
  if g != [] {
    var tail := g[1..];
    KeepRowsMembers(tail);
    var head := if RowFull(g[0]) then [] else [g[0]];
    var k := KeepRows(g);
    assert k == head + KeepRows(tail);
    forall i | 0 <= i < |k|
      ensures k[i] in g && !RowFull(k[i])
    {
      if i < |head| {
        assert k[i] == g[0];
      } else {
        assert k[i] == KeepRows(tail)[i - |head|];
        assert k[i] in tail;
      }
    }
  }
}

/** Every row kept from a grid of width w has width w. */
lemma KeepRowsWidth(g: Grid, w: nat, h: nat)
  requires WellFormed(g, w, h)
  ensures forall i :: 0 <= i < |KeepRows(g)| ==> |KeepRows(g)[i]| == w
{
  KeepRowsMembers(g);
  forall i | 0 <= i < |KeepRows(g)|
    ensures |KeepRows(g)[i]| == w
  {
    var r := KeepRows(g)[i];
    var j :| 0 <= j < |g| && g[j] == r;
  }
}

/**
 * The state of the clearing loop: c rows cleared out of the bottom `done`
 * rows of the old grid g0, the cleared rows replaced by empty rows on top.
 */
ghost predicate ClearState(g0: Grid, w: nat, h: nat, c: nat, done: nat, grid: Grid, y: int)
  requires WellFormed(g0, w, h)
{
  && c <= done <= h
  && grid == EmptyRows(c, w) + g0[..h - done] + KeepRows(g0[h - done..])
  && c == CountFull(g0[h - done..])
  && (done < h ==> y == c + h - done - 1)
  && (done == h ==> -1 <= y < c)
}

/** Before the clearing loop nothing has been examined. */
lemma ClearStateStart(g0: Grid, w: nat, h: nat)
  requires WellFormed(g0, w, h)
  ensures ClearState(g0, w, h, 0, 0, g0, h - 1)
{
  assert g0[h..] == [] && g0[..h] == g0;
  assert g0 == EmptyRows(0, w) + g0[..h] + KeepRows(g0[h..]);
}

/** Once every row has been examined the grid is the cleared grid and c counts the full rows. */
lemma ClearStateDone(g0: Grid, w: nat, h: nat, c: nat, done: nat, grid: Grid)
  requires WellFormed(g0, w, h)
  requires ClearState(g0, w, h, c, done, grid, -1)
  ensures c == CountFull(g0) && grid == Cleared(g0, w)
{
  assert g0[..0] == [] && g0[0..] == g0;
}

/** The clearing loop's state describes a grid of the old grid's shape. */
lemma ClearStateShape(g0: Grid, w: nat, h: nat, c: nat, done: nat, grid: Grid, y: int)
  requires WellFormed(g0, w, h)
  requires ClearState(g0, w, h, c, done, grid, y)
  ensures WellFormed(grid, w, h)
  ensures y < h
{
  var tail := g0[h - done..];
  KeepRowsWidth(tail, w, done);
  var a, b, k := EmptyRows(c, w), g0[..h - done], KeepRows(tail);
  assert |grid| == h;
  forall v | 0 <= v < h
    ensures |grid[v]| == w
  {
    if v < c {
      assert grid[v] == a[v];
    } else if v < c + (h - done) {
      assert grid[v] == b[v - c];
    } else {
      assert grid[v] == k[v - c - (h - done)];
    }
  }
}

/** Once every old row has been examined, the rows the loop still visits are empty ones. */
lemma ClearTopNotFull(g0: Grid, w: nat, h: nat, c: nat, done: nat, grid: Grid, y: int)
  requires w >= 1 && WellFormed(g0, w, h)
  requires ClearState(g0, w, h, c, done, grid, y)
  requires 0 <= y
  ensures done == h ==> !RowFull(grid[y])
{
  if done == h {
    assert grid[y] == EmptyRows(c, w)[y];
    assert grid[y][0] == Empty;
  }
}

/** Cutting a + b + k around the last element of a non-empty b. */
lemma SplitAround<X>(a: seq<X>, b: seq<X>, k: seq<X>)
  requires |b| > 0
  ensures (a + b + k)[|a| + |b| - 1] == b[|b| - 1]
  ensures (a + b + k)[..|a| + |b| - 1] == a + b[..|b| - 1]
  ensures (a + b + k)[|a| + |b|..] == k
{
}

/** A full row found by the clearing loop is a row of the old grid; removing it advances the state. */
lemma ClearStepFull(g0: Grid, w: nat, h: nat, c: nat, done: nat, grid: Grid, y: int)
  requires w >= 1 && WellFormed(g0, w, h)
  requires ClearState(g0, w, h, c, done, grid, y)
  requires 0 <= y < |grid| && RowFull(grid[y])
  ensures done < h
  ensures ClearState(g0, w, h, c + 1, done + 1, [EmptyRow(w)] + grid[..y] + grid[y + 1..], y)
  ensures WellFormed([EmptyRow(w)] + grid[..y] + grid[y + 1..], w, h)
{
  ClearTopNotFull(g0, w, h, c, done, grid, y);
  var i := h - done - 1;
  var e, b, k := EmptyRows(c, w), g0[..h - done], KeepRows(g0[h - done..]);
  var ng := [EmptyRow(w)] + grid[..y] + grid[y + 1..];
  assert ng == ([EmptyRow(w)] + e) + g0[..i] + k && RowFull(g0[i]) by {
    SplitAround(e, b, k);
    assert b[..|b| - 1] == g0[..i];
  }
  assert KeepRows(g0[i..]) == k && CountFull(g0[i..]) == c + 1 by {
    KeepRowsStep(g0, i);
    assert g0[i + 1..] == g0[h - done..];
  }
  assert [EmptyRow(w)] + e == EmptyRows(c + 1, w);
  ClearStateShape(g0, w, h, c + 1, done + 1, ng, y);
}

/** A row the clearing loop finds not full stays where it is; the state advances past it. */
lemma ClearStepKeep(g0: Grid, w: nat, h: nat, c: nat, done: nat, grid: Grid, y: int)
  requires WellFormed(g0, w, h)
  requires ClearState(g0, w, h, c, done, grid, y)
  requires 0 <= y < |grid| && !RowFull(grid[y])
  ensures ClearState(g0, w, h, c, if done < h then done + 1 else done, grid, y - 1)
  ensures WellFormed(grid, w, h)
{
  if done < h {
    var i := h - done - 1;
    assert grid[y] == g0[..h - done][i];
    KeepRowsStep(g0, i);
    assert g0[..h - done] == g0[..i] + [g0[i]];
  }
  ClearStateShape(g0, w, h, c, done, grid, y);
}

/**
 * Clearing lines keeps the board's shape; the top CountFull(g) rows are
 * empty, the rest are the old non-full rows, and (on a board at least one
 * cell wide) no row is full any more.
 */
lemma ClearedRows(g: Grid, w: nat, h: nat)
  requires WellFormed(g, w, h)
  ensures WellFormed(Cleared(g, w), w, h)
  ensures forall y :: 0 <= y < CountFull(g) ==> RowEmpty(Cleared(g, w)[y])
  ensures Cleared(g, w)[CountFull(g)..] == KeepRows(g)
  ensures w >= 1 ==> forall y :: 0 <= y < h ==> !RowFull(Cleared(g, w)[y])
{
  var n := CountFull(g);
  var k := KeepRows(g);
  KeepRowsWidth(g, w, h);
  KeepRowsMembers(g);
  var r := Cleared(g, w);
  forall y | 0 <= y < h
    ensures |r[y]| == w
    ensures w >= 1 ==> !RowFull(r[y])
  {
    if y < n {
      assert r[y] == EmptyRows(n, w)[y];
      if w >= 1 {
        assert r[y][0] == Empty;
      }
    } else {
      assert r[y] == k[y - n];
    }
  }
}

/** Every row of a grid of width w that has no full row is kept. */
lemma {:induction false} KeepRowsNoneFull(g: Grid)
  requires CountFull(g) == 0
  ensures KeepRows(g) == g
{
  if g != [] {
    assert !RowFull(g[0]);
    KeepRowsNoneFull(g[1..]);
  }
}

/** Clearing lines a second time removes nothing and changes nothing. */
lemma ClearedIdempotent(g: Grid, w: nat, h: nat)
  requires w >= 1 && WellFormed(g, w, h)
  ensures CountFull(Cleared(g, w)) == 0
  ensures Cleared(Cleared(g, w), w) == Cleared(g, w)
{
  ClearedRows(g, w, h);
  var r := Cleared(g, w);
  CountFullZero(r);
  KeepRowsNoneFull(r);
  assert EmptyRows(0, w) + r == r;
}

/** Rows of width w: the blocks kept plus w for each full row removed are all the blocks. */
lemma {:induction false} KeepRowsFilled(g: Grid, w: nat, h: nat)
  requires WellFormed(g, w, h)
  ensures FilledCount(KeepRows(g)) + w * CountFull(g) == FilledCount(g)
{
  if g != [] {
    var tail := g[1..];
    TailWellFormed(g, w, h);
    KeepRowsFilled(tail, w, h - 1);
    if RowFull(g[0]) {
      assert KeepRows(g) == KeepRows(tail);
      assert RowFilled(g[0]) == w by {
        assert |g[0]| == w;
      }
      var c := CountFull(tail);
      assert CountFull(g) == c + 1;
      MulSucc(w, c);
    } else {
      var k := [g[0]] + KeepRows(tail);
      assert KeepRows(g) == k;
      assert k[0] == g[0] && k[1..] == KeepRows(tail);
      assert CountFull(g) == CountFull(tail);
    }
  }
}

lemma TailWellFormed(g: Grid, w: nat, h: nat)
  requires WellFormed(g, w, h) && g != []
  ensures WellFormed(g[1..], w, h - 1)
{
  forall y | 0 <= y < h - 1
    ensures |g[1..][y]| == w
  {
    assert g[1..][y] == g[y + 1];
  }
}

lemma MulSucc(w: nat, c: nat)
  ensures w * (c + 1) == w * c + w
{
}

/** Clearing k lines on a board of width w removes exactly w * k blocks. */
lemma ClearedFilledCount(g: Grid, w: nat, h: nat)
  requires WellFormed(g, w, h)
  ensures FilledCount(Cleared(g, w)) == FilledCount(g) - w * CountFull(g)
{
  var n := CountFull(g);
  FilledCountAppend(EmptyRows(n, w), KeepRows(g));
  FilledCountZero(EmptyRows(n, w));
  KeepRowsFilled(g, w, h);
}

/** Placing cells none of which lies in row v leaves row v as it was. */
lemma PlacedRowUntouched(g: Grid, w: nat, h: nat, cs: seq<(int, int)>, k: Kind, v: int)
  requires WellFormed(g, w, h) && 0 <= v < h
  requires forall i :: 0 <= i < |cs| ==> cs[i].1 != v
  ensures Placed(g, w, h, cs, k)[v] == g[v]
{
  PlacedCells(g, w, h, cs, k);
  var p := Placed(g, w, h, cs, k);
  forall x | 0 <= x < w
    ensures p[v][x] == g[v][x]
  {
    assert (x, v) !in cs;
  }
}

/** A grid whose full rows all lie among the rows lo..hi-1 has at most hi - lo full rows. */
lemma {:induction false} CountFullWindow(g: Grid, lo: int, hi: int)
  requires 0 <= lo <= hi <= |g|
  requires forall v :: 0 <= v < |g| && !(lo <= v < hi) ==> !RowFull(g[v])
  ensures CountFull(g) <= hi - lo
{
  if g != [] && hi > 0 {
    var tail := g[1..];
    assert forall v :: 0 <= v < |tail| ==> tail[v] == g[v + 1];
    if lo > 0 {
      assert !RowFull(g[0]);
      CountFullWindow(tail, lo - 1, hi - 1);
    } else {
      CountFullWindow(tail, 0, hi - 1);
    }
  } else {
    CountFullZero(g);
  }
}

/**
 * Locking a piece into a grid with no full row leaves at most four full
 * rows: only the four rows its bounding box spans can have changed.
 */
lemma AtMostFourLines(g: Grid, w: nat, h: nat, k: Kind, x: int, y: int, r: Rotation)
  requires WellFormed(g, w, h) && CountFull(g) == 0
  ensures CountFull(Placed(g, w, h, PieceCells(k, x, y, r), k)) <= 4
{
  var cs := PieceCells(k, x, y, r);
  var p := Placed(g, w, h, cs, k);
  CountFullZero(g);
  forall v | 0 <= v < |p| && !(y <= v < y + 4)
    ensures !RowFull(p[v])
  {
    PlacedRowUntouched(g, w, h, cs, k, v);
  }
  var lo := if y < 0 then 0 else if y > h then h else y;
  var hi := if y + 4 > h then h else if y + 4 < lo then lo else y + 4;
  CountFullWindow(p, lo, hi);
}
