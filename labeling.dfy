/**
 * detect_connected_components: a row-major scan that starts a breadth-first flood fill, driven by a FIFO
 * queue, at every unlabelled foreground cell, writes the component's id into the label grid MARK and
 * reports each component's id and size in discovery order.
 *
 * The image arrives as its channel-0 intensities; reading it from a file and writing the report file are
 * not part of this model (the report is returned as the list of components and their count).
 */
module Labeling {
  import opened Grid
  import opened Utils

  /** A component as the report lists it: its id and the number of cells carrying that id. */
  datatype Component = Component(id: int, size: int)

  /** The key by which components are ranked. */
  function Size(c: Component): int { c.size }

  /** The ascending-id list (1, size), ..., (n, size) read off a label grid. */
  ghost function ComponentList(marks: Marks, n: int): (cs: seq<Component>)
    ensures |cs| == if n < 0 then 0 else n
    ensures forall j :: 0 <= j < |cs| ==> cs[j] == Component(j + 1, |CellsWith(marks, j + 1)|)
    decreases n
  {
    if n <= 0 then [] else ComponentList(marks, n - 1) + [Component(n, |CellsWith(marks, n)|)]
  }

  ghost predicate SameShape(img: array2<int>, mark: array2<int>)
  {
    mark.Length0 == img.Length0 && mark.Length1 == img.Length1
  }

  /** The label grid has one entry per cell of the image. */
  ghost predicate Covers(img: array2<int>, marks: Marks)
  {
    forall q {:trigger q in marks} :: q in marks <==> InGrid(q, img.Length0, img.Length1)
  }

  /** The seeds lie in the image and come in raster order. */
  ghost predicate SeedsInOrder(img: array2<int>, seeds: seq<Cell>)
  {
    (forall i :: 0 <= i < |seeds| ==> InGrid(seeds[i], img.Length0, img.Length1)) &&
    (forall i, j :: 0 <= i < j < |seeds| ==> Before(seeds[i], seeds[j]))
  }

  /**
   * Labels lie in 0..|seeds|, and a cell labelled j is foreground, is joined to seeds[j - 1] by a foreground
   * chain and does not come before it.
   */
  ghost predicate Joined(img: array2<int>, marks: Marks, seeds: seq<Cell>)
    reads img
  {
    forall q {:trigger marks[q]} :: q in marks ==>
      0 <= marks[q] <= |seeds| &&
      (marks[q] != 0 ==>
        Fg(img, q) && !Before(q, seeds[marks[q] - 1]) && Connected(img, seeds[marks[q] - 1], q))
  }

  /** The label grid once an id has been handed out for each seed, id j + 1 having been discovered at seeds[j]. */
  ghost predicate Labels(img: array2<int>, marks: Marks, seeds: seq<Cell>)
    reads img
  {
    Covers(img, marks) && SeedsInOrder(img, seeds) && Joined(img, marks, seeds)
  }

  /** Each seed carries its own id. */
  ghost predicate SeedsMarked(marks: Marks, seeds: seq<Cell>)
  {
    forall i :: 0 <= i < |seeds| ==> seeds[i] in marks && marks[seeds[i]] == i + 1
  }

  /** Every labelled cell outside `pending` shares its label with each foreground cell around it. */
  ghost predicate Closed(img: array2<int>, marks: Marks, pending: seq<Cell>)
    reads img
  {
    forall p, q {:trigger Adjacent(p, q)} ::
      p in marks && q in marks && Adjacent(p, q) && p !in pending && marks[p] != 0 && Fg(img, q)
      ==> marks[q] == marks[p]
  }

  /** Every foreground cell before `pos` in raster order is labelled. */
  ghost predicate Scanned(img: array2<int>, marks: Marks, pos: Cell)
    reads img
  {
    forall q {:trigger marks[q]} :: q in marks && Before(q, pos) && Fg(img, q) ==> marks[q] != 0
  }

  /** The position of the first occurrence of x. */
  function FirstIndex(s: seq<Cell>, x: Cell): (i: nat)
    requires x in s
    ensures i < |s| && s[i] == x && x !in s[..i]
  {
    if s[0] == x then 0 else 1 + FirstIndex(s[1..], x)
  }

  /** The sequence without the first occurrence of x, as Python's list.remove leaves it. */
  function RemoveFirst(s: seq<Cell>, x: Cell): (r: seq<Cell>)
    requires x in s
    ensures r == s[..FirstIndex(s, x)] + s[FirstIndex(s, x) + 1..]
    ensures |r| == |s| - 1
    ensures forall y :: y != x ==> (y in r <==> y in s)
    ensures (forall i, j :: 0 <= i < j < |s| ==> s[i] != s[j]) ==> x !in r
  {
    if s[0] == x then s[1..]
    else
      var i := FirstIndex(s[1..], x);
      assert s[..i + 1] == [s[0]] + s[1..][..i];
      [s[0]] + RemoveFirst(s[1..], x)
  }

  /** Removing one cell from a list in raster order leaves it in raster order. */
  lemma RemoveFirstKeepsOrder(s: seq<Cell>, x: Cell)
    requires x in s && forall i, j :: 0 <= i < j < |s| ==> Before(s[i], s[j])
    ensures var r := RemoveFirst(s, x); forall i, j :: 0 <= i < j < |r| ==> Before(r[i], r[j])
  {
    SliceOutKeepsOrder(s, FirstIndex(s, x));
  }

  lemma SliceOutKeepsOrder(s: seq<Cell>, at: int)
    requires 0 <= at < |s| && forall i, j :: 0 <= i < j < |s| ==> Before(s[i], s[j])
    ensures var r := s[..at] + s[at + 1..]; forall i, j :: 0 <= i < j < |r| ==> Before(r[i], r[j])
  {
    var r := s[..at] + s[at + 1..];
    assert forall i :: 0 <= i < |r| ==> r[i] == if i < at then s[i] else s[i + 1];
  }

  /** The 3-by-3 block around p, clipped to the image and in raster order, without p: the neighbours list. */
  lemma CandidatesWithout(p: Cell, height: int, width: int, candidates: seq<Cell>)
    requires InGrid(p, height, width)
    requires forall q :: q in candidates <==> InGrid(q, height, width) && -1 <= q.0 - p.0 <= 1 && -1 <= q.1 - p.1 <= 1
    requires forall i, j :: 0 <= i < j < |candidates| ==> Before(candidates[i], candidates[j])
    ensures p in candidates
    ensures var ns := RemoveFirst(candidates, p);
      (forall q :: q in ns <==> InGrid(q, height, width) && Adjacent(p, q)) &&
      (forall i, j :: 0 <= i < j < |ns| ==> Before(ns[i], ns[j]))
  {
    assert p in candidates;
    assert forall i, j :: 0 <= i < j < |candidates| ==> candidates[i] != candidates[j];
    RemoveFirstKeepsOrder(candidates, p);
  }

  /** One row of offsets: the in-image cells of row p.0 + rowChange, columns p.1 - 1 .. p.1 + 1, join the list. */
  method NeighbourRow(p: Cell, height: int, width: int, rowChange: int, candidates: seq<Cell>) returns (more: seq<Cell>)
    requires -1 <= rowChange
    requires forall q :: q in candidates <==>
      InGrid(q, height, width) && -1 <= q.0 - p.0 < rowChange && -1 <= q.1 - p.1 <= 1
    requires forall i, j :: 0 <= i < j < |candidates| ==> Before(candidates[i], candidates[j])
    requires forall q :: q in candidates ==> Before(q, (p.0 + rowChange, p.1 - 1))
    ensures forall q :: q in more <==>
      InGrid(q, height, width) && -1 <= q.0 - p.0 <= rowChange && -1 <= q.1 - p.1 <= 1
    ensures forall i, j :: 0 <= i < j < |more| ==> Before(more[i], more[j])
    ensures forall q :: q in more ==> Before(q, (p.0 + rowChange + 1, p.1 - 1))
  {
    more := candidates;
    for colChange := -1 to 2
      invariant forall q :: q in more <==>
        InGrid(q, height, width) && -1 <= q.1 - p.1 <= 1 &&
        (-1 <= q.0 - p.0 < rowChange || (q.0 - p.0 == rowChange && q.1 - p.1 < colChange))
      invariant forall i, j :: 0 <= i < j < |more| ==> Before(more[i], more[j])
      invariant forall q :: q in more ==> Before(q, (p.0 + rowChange, p.1 + colChange))
    {
      var newRow, newCol := p.0 + rowChange, p.1 + colChange;
      if 0 <= newRow < height && 0 <= newCol < width {
        more := more + [(newRow, newCol)];
      }
    }
  }

  /** The neighbours list: the cells at row and column offsets -1..1 that lie inside the image, minus p itself. */
  method Neighbours(p: Cell, height: int, width: int) returns (ns: seq<Cell>)
    requires InGrid(p, height, width)
    ensures forall q :: q in ns <==> InGrid(q, height, width) && Adjacent(p, q)
    ensures forall i :: 0 <= i < |ns| ==> InGrid(ns[i], height, width) && Adjacent(p, ns[i])
    ensures forall i, j :: 0 <= i < j < |ns| ==> Before(ns[i], ns[j])
  {
    var candidates: seq<Cell> := [];
    for rowChange := -1 to 2
      invariant forall q :: q in candidates <==>
        InGrid(q, height, width) && -1 <= q.0 - p.0 < rowChange && -1 <= q.1 - p.1 <= 1
      invariant forall i, j :: 0 <= i < j < |candidates| ==> Before(candidates[i], candidates[j])
      invariant forall q :: q in candidates ==> Before(q, (p.0 + rowChange, p.1 - 1))
    {
      candidates := NeighbourRow(p, height, width, rowChange, candidates);
    }
    CandidatesWithout(p, height, width, candidates);
    ns := RemoveFirst(candidates, p);
  }

  /** A new seed after all earlier ones, with no cell labelled with its id yet, extends Labels. */
  lemma NewSeed(img: array2<int>, marks: Marks, seeds: seq<Cell>, seed: Cell)
    requires Labels(img, marks, seeds)
    requires InGrid(seed, img.Length0, img.Length1) && forall i :: 0 <= i < |seeds| ==> Before(seeds[i], seed)
    ensures Labels(img, marks, seeds + [seed])
  {
    var longer := seeds + [seed];
    forall i, j | 0 <= i < j < |longer|
      ensures Before(longer[i], longer[j])
    {
      assert longer[i] == seeds[i];
    }
    forall q | q in marks
      ensures 0 <= marks[q] <= |longer|
      ensures marks[q] != 0 ==>
        Fg(img, q) && !Before(q, longer[marks[q] - 1]) && Connected(img, longer[marks[q] - 1], q)
    {
      if marks[q] != 0 {
        assert longer[marks[q] - 1] == seeds[marks[q] - 1];
      }
    }
  }

  /** Writing the current id into an unlabelled foreground cell joined to the newest seed keeps Labels. */
  lemma LabelKeepsLabels(img: array2<int>, marks: Marks, p: Cell, seeds: seq<Cell>)
    requires Labels(img, marks, seeds) && |seeds| > 0
    requires p in marks && Fg(img, p) && !Before(p, seeds[|seeds| - 1]) && Connected(img, seeds[|seeds| - 1], p)
    ensures Labels(img, marks[p := |seeds|], seeds)
  {
    var after := marks[p := |seeds|];
    forall q | q in after
      ensures 0 <= after[q] <= |seeds|
      ensures after[q] != 0 ==>
        Fg(img, q) && !Before(q, seeds[after[q] - 1]) && Connected(img, seeds[after[q] - 1], q)
    {
      if q != p {
        assert after[q] == marks[q];
      }
    }
  }

  /** Writing a label into an unlabelled cell leaves every other labelled cell closed, the new one pending. */
  lemma LabelKeepsClosed(img: array2<int>, marks: Marks, p: Cell, k: int, pending: seq<Cell>, wider: seq<Cell>)
    requires Closed(img, marks, pending) && p in marks && marks[p] == 0
    requires p in wider && forall u :: u in pending ==> u in wider
    ensures Closed(img, marks[p := k], wider)
  {
    var after := marks[p := k];
    forall u, v | u in after && v in after && Adjacent(u, v) && u !in wider && after[u] != 0 && Fg(img, v)
      ensures after[v] == after[u]
    {
      assert u != p && after[u] == marks[u] && u !in pending;
    }
  }

  /** Writing a non-zero label only ever adds labels, so every cell already scanned stays labelled. */
  lemma LabelKeepsScanned(img: array2<int>, marks: Marks, p: Cell, k: int, pos: Cell)
    requires Scanned(img, marks, pos) && k != 0
    ensures Scanned(img, marks[p := k], pos)
  {
  }

  /** Writing a label into an unlabelled cell keeps every seed's label. */
  lemma LabelKeepsSeeds(marks: Marks, p: Cell, k: int, seeds: seq<Cell>)
    requires SeedsMarked(marks, seeds) && p in marks && marks[p] == 0
    ensures SeedsMarked(marks[p := k], seeds)
  {
  }

  /** Writing k != 0 into the unlabelled cell p moves p from the unlabelled cells to the cells labelled k. */
  lemma LabelMovesCell(marks: Marks, p: Cell, k: int)
    requires k != 0 && p in marks && marks[p] == 0
    ensures CellsWith(marks[p := k], k) == CellsWith(marks, k) + {p}
    ensures forall j :: j != k && j != 0 ==> CellsWith(marks[p := k], j) == CellsWith(marks, j)
    ensures CellsWith(marks[p := k], 0) == CellsWith(marks, 0) - {p}
    ensures LabeledCells(marks[p := k]) == LabeledCells(marks) + {p}
  {
    var after := marks[p := k];
    forall j | j != k && j != 0
      ensures CellsWith(after, j) == CellsWith(marks, j)
    {
      assert forall q :: q in CellsWith(after, j) <==> q in CellsWith(marks, j);
    }
    assert forall q :: q in CellsWith(after, k) <==> q in CellsWith(marks, k) + {p};
    assert forall q :: q in CellsWith(after, 0) <==> q in CellsWith(marks, 0) - {p};
    assert forall q :: q in LabeledCells(after) <==> q in LabeledCells(marks) + {p};
  }

  /** The same move, counted: one more cell labelled k and overall, one fewer unlabelled. */
  lemma LabelCountsCell(marks: Marks, p: Cell, k: int)
    requires k != 0 && p in marks && marks[p] == 0
    ensures forall j :: j != k && j != 0 ==> CellsWith(marks[p := k], j) == CellsWith(marks, j)
    ensures |CellsWith(marks[p := k], k)| == |CellsWith(marks, k)| + 1
    ensures |CellsWith(marks[p := k], 0)| == |CellsWith(marks, 0)| - 1
    ensures |LabeledCells(marks[p := k])| == |LabeledCells(marks)| + 1
  {
    LabelMovesCell(marks, p, k);
    assert p !in CellsWith(marks, k) && p in CellsWith(marks, 0) && p !in LabeledCells(marks);
  }

  /** MARK[row][col] = component_count: the label grid changes at p and nowhere else. */
  method SetLabel(mark: array2<int>, p: Cell, k: int)
    requires InGrid(p, mark.Length0, mark.Length1)
    modifies mark
    ensures Snap(mark) == old(Snap(mark))[p := k]
  {
    mark[p.0, p.1] := k;
    assert Snap(mark).Keys == old(Snap(mark)).Keys;
  }

  /** The first `i` neighbours that are foreground carry id `k`. */
  ghost predicate Settled(img: array2<int>, marks: Marks, ns: seq<Cell>, i: int, k: int)
    reads img
  {
    forall j :: 0 <= j < i && j < |ns| && Fg(img, ns[j]) ==> ns[j] in marks && marks[ns[j]] == k
  }

  /** Once every foreground neighbour of cur carries cur's label, cur no longer needs to be pending. */
  lemma CloseCell(img: array2<int>, marks: Marks, queue: seq<Cell>, cur: Cell, ns: seq<Cell>)
    requires Covers(img, marks) && Closed(img, marks, [cur] + queue) && cur in marks
    requires forall q :: q in ns <==> InGrid(q, img.Length0, img.Length1) && Adjacent(cur, q)
    requires Settled(img, marks, ns, |ns|, marks[cur])
    ensures Closed(img, marks, queue)
  {
    forall p, q | p in marks && q in marks && Adjacent(p, q) && p !in queue && marks[p] != 0 && Fg(img, q)
      ensures marks[q] == marks[p]
    {
      if p == cur {
        var j :| 0 <= j < |ns| && ns[j] == q;
      } else {
        assert p !in [cur] + queue;
      }
    }
  }

  /** The scan position just after p. */
  function Next(p: Cell): Cell { (p.0, p.1 + 1) }

  /**
   * The flood from the newest seed is under way: Labels and SeedsMarked hold, labelled cells outside
   * `pending` are closed, every foreground cell up to the seed is labelled, and the queued cells carry the
   * newest id.
   */
  ghost predicate Flooding(img: array2<int>, marks: Marks, seeds: seq<Cell>, queue: seq<Cell>, pending: seq<Cell>)
    reads img
  {
    |seeds| > 0 && Labels(img, marks, seeds) && SeedsMarked(marks, seeds) && Closed(img, marks, pending) &&
    Scanned(img, marks, Next(seeds[|seeds| - 1])) &&
    forall q :: q in queue ==> q in marks && marks[q] == |seeds|
  }

  /** `size` cells carry id k, the other ids kept the cells they had in `start`, and `size` cells were added. */
  ghost predicate Counted(start: Marks, marks: Marks, k: int, size: int)
  {
    size == |CellsWith(marks, k)| &&
    (forall j :: 0 < j < k ==> CellsWith(marks, j) == CellsWith(start, j)) &&
    |LabeledCells(marks)| == |LabeledCells(start)| + size
  }

  /** An unlabelled foreground neighbour of a cell in the flood is joined to the newest seed and comes after it. */
  lemma FloodReaches(img: array2<int>, marks: Marks, seeds: seq<Cell>, current: Cell, n: Cell)
    requires |seeds| > 0 && Labels(img, marks, seeds) && Scanned(img, marks, Next(seeds[|seeds| - 1]))
    requires current in marks && marks[current] == |seeds| && Adjacent(current, n)
    requires n in marks && marks[n] == 0 && Fg(img, n)
    ensures !Before(n, seeds[|seeds| - 1]) && Connected(img, seeds[|seeds| - 1], n)
  {
    var seed := seeds[|seeds| - 1];
    assert !Before(n, Next(seed));
    assert Connected(img, seed, current);
    ConnectedStep(img, seed, current, n);
  }

  /** Labelling an unlabelled foreground neighbour of the flood with the newest id keeps the labelling sound. */
  lemma FloodStepLabels(img: array2<int>, marks: Marks, seeds: seq<Cell>, current: Cell, n: Cell)
    requires |seeds| > 0 && Labels(img, marks, seeds) && Scanned(img, marks, Next(seeds[|seeds| - 1]))
    requires current in marks && marks[current] == |seeds| && Adjacent(current, n)
    requires n in marks && marks[n] == 0 && Fg(img, n)
    ensures Labels(img, marks[n := |seeds|], seeds)
    ensures Scanned(img, marks[n := |seeds|], Next(seeds[|seeds| - 1]))
  {
    FloodReaches(img, marks, seeds, current, n);
    LabelKeepsLabels(img, marks, n, seeds);
    LabelKeepsScanned(img, marks, n, |seeds|, Next(seeds[|seeds| - 1]));
  }

  /** Labelling a neighbour and queueing it keeps the seeds marked, the queue on the newest id and the grid closed. */
  lemma FloodStepQueue(img: array2<int>, marks: Marks, seeds: seq<Cell>, queue: seq<Cell>, current: Cell, n: Cell)
    requires SeedsMarked(marks, seeds) && Closed(img, marks, [current] + queue)
    requires forall q :: q in queue ==> q in marks && marks[q] == |seeds|
    requires n in marks && marks[n] == 0
    ensures SeedsMarked(marks[n := |seeds|], seeds)
    ensures Closed(img, marks[n := |seeds|], [current] + (queue + [n]))
    ensures forall q :: q in queue + [n] ==> q in marks[n := |seeds|] && marks[n := |seeds|][q] == |seeds|
  {
    LabelKeepsClosed(img, marks, n, |seeds|, [current] + queue, [current] + (queue + [n]));
    LabelKeepsSeeds(marks, n, |seeds|, seeds);
  }

  /** Labelling an unlabelled foreground neighbour of the flood with the newest id and queueing it. */
  lemma FloodStep(img: array2<int>, marks: Marks, seeds: seq<Cell>, queue: seq<Cell>, current: Cell, n: Cell)
    requires Flooding(img, marks, seeds, queue, [current] + queue)
    requires current in marks && marks[current] == |seeds| && Adjacent(current, n)
    requires n in marks && marks[n] == 0 && Fg(img, n)
    ensures Flooding(img, marks[n := |seeds|], seeds, queue + [n], [current] + (queue + [n]))
  {
    FloodStepLabels(img, marks, seeds, current, n);
    FloodStepQueue(img, marks, seeds, queue, current, n);
  }

  /** Labelling a still unlabelled cell with id `k` adds one cell to the flood's count. */
  lemma CountStep(start: Marks, marks: Marks, k: int, size: int, n: Cell)
    requires Counted(start, marks, k, size) && k != 0
    requires n in marks && marks[n] == 0
    ensures Counted(start, marks[n := k], k, size + 1)
    ensures |CellsWith(marks[n := k], 0)| == |CellsWith(marks, 0)| - 1
  {
    LabelCountsCell(marks, n, k);
  }

  /** The seed, labelled with the next id, joins the labelling as its own component's seed. */
  lemma FloodStartLabels(img: array2<int>, marks: Marks, earlier: seq<Cell>, seed: Cell)
    requires Labels(img, marks, earlier) && Scanned(img, marks, seed)
    requires forall i :: 0 <= i < |earlier| ==> Before(earlier[i], seed)
    requires seed in marks && marks[seed] == 0 && Fg(img, seed)
    ensures Labels(img, marks[seed := |earlier| + 1], earlier + [seed])
    ensures Scanned(img, marks[seed := |earlier| + 1], Next(seed))
  {
    NewSeed(img, marks, earlier, seed);
    ConnectedSelf(img, seed);
    LabelKeepsLabels(img, marks, seed, earlier + [seed]);
    LabelKeepsScanned(img, marks, seed, |earlier| + 1, seed);
    ScannedPast(img, marks[seed := |earlier| + 1], seed.0, seed.1);
  }

  lemma FloodStartSeeds(marks: Marks, earlier: seq<Cell>, seed: Cell)
    requires SeedsMarked(marks, earlier) && seed in marks && marks[seed] == 0
    ensures SeedsMarked(marks[seed := |earlier| + 1], earlier + [seed])
  {
    var after := marks[seed := |earlier| + 1];
    LabelKeepsSeeds(marks, seed, |earlier| + 1, earlier);
    forall i | 0 <= i < |earlier| + 1
      ensures (earlier + [seed])[i] in after && after[(earlier + [seed])[i]] == i + 1
    {
      if i < |earlier| {
        assert (earlier + [seed])[i] == earlier[i];
      }
    }
  }

  /** The new id is not used before the flood, so the seed is its first cell. */
  lemma FloodStartCount(img: array2<int>, marks: Marks, earlier: seq<Cell>, seed: Cell)
    requires Joined(img, marks, earlier) && seed in marks && marks[seed] == 0
    ensures Counted(marks, marks[seed := |earlier| + 1], |earlier| + 1, 1)
    ensures |CellsWith(marks[seed := |earlier| + 1], 0)| == |CellsWith(marks, 0)| - 1
  {
    assert CellsWith(marks, |earlier| + 1) == {};
    CountStep(marks, marks, |earlier| + 1, 0, seed);
  }

  /** Labelling the seed with the new id and queueing it starts its flood. */
  lemma FloodStart(img: array2<int>, marks: Marks, earlier: seq<Cell>, seed: Cell)
    requires Labels(img, marks, earlier) && SeedsMarked(marks, earlier)
    requires Closed(img, marks, []) && Scanned(img, marks, seed)
    requires forall i :: 0 <= i < |earlier| ==> Before(earlier[i], seed)
    requires seed in marks && marks[seed] == 0 && Fg(img, seed)
    ensures Flooding(img, marks[seed := |earlier| + 1], earlier + [seed], [seed], [seed])
    ensures Counted(marks, marks[seed := |earlier| + 1], |earlier| + 1, 1)
    ensures |CellsWith(marks[seed := |earlier| + 1], 0)| == |CellsWith(marks, 0)| - 1
  {
    FloodStartLabels(img, marks, earlier, seed);
    FloodStartSeeds(marks, earlier, seed);
    FloodStartCount(img, marks, earlier, seed);
    LabelKeepsClosed(img, marks, seed, |earlier| + 1, [], [seed]);
  }

  /** Labels the flood is not allowed to change: every cell already labelled keeps its label. */
  ghost predicate Kept(before: Marks, after: Marks)
  {
    forall q {:trigger after[q]} {:trigger before[q]} ::
      q in before && before[q] != 0 ==> q in after && after[q] == before[q]
  }

  /** The state of the flood while the neighbours of `current`, already taken off the queue, are visited. */
  ghost predicate Expanding(img: array2<int>, marks: Marks, seeds: seq<Cell>, queue: seq<Cell>, current: Cell,
                            start: Marks, size: int)
    reads img
  {
    Flooding(img, marks, seeds, queue, [current] + queue) && Counted(start, marks, |seeds|, size) &&
    current in marks && marks[current] == |seeds|
  }

  lemma LabelKeeps(marks: Marks, p: Cell, k: int)
    requires p in marks && marks[p] == 0
    ensures Kept(marks, marks[p := k])
  {
  }

  /** A labelled foreground neighbour of a cell in the flood already carries the newest id. */
  lemma NeighbourSettled(img: array2<int>, marks: Marks, seeds: seq<Cell>, queue: seq<Cell>, current: Cell, n: Cell)
    requires Flooding(img, marks, seeds, queue, [current] + queue)
    requires current in marks && marks[current] == |seeds| && Adjacent(current, n)
    requires n in marks && marks[n] != 0 && Fg(img, n)
    ensures marks[n] == |seeds|
  {
    if n !in [current] + queue {
      assert Adjacent(n, current) && Fg(img, current);
    }
  }

  /**
   * One neighbour visit, on values: a foreground cell still unlabelled gets the flood's id `k` and
   * joins the back of the queue; anything else leaves the grid and the queue as they were.
   */
  ghost function VisitStep(img: array2<int>, marks: Marks, n: Cell, k: int, queue: seq<Cell>): (Marks, seq<Cell>)
    reads img
  {
    if Fg(img, n) && n in marks && marks[n] == 0 then (marks[n := k], queue + [n]) else (marks, queue)
  }

  /**
   * Visiting the cells of `ns` in order: the queue only grows at the back, each cell added there is one of
   * `ns` and now carries `k`, and cells outside `ns` keep their labels.
   */
  ghost function Visited(img: array2<int>, marks: Marks, ns: seq<Cell>, k: int, queue: seq<Cell>): (r: (Marks, seq<Cell>))
    reads img
    ensures r.0.Keys == marks.Keys
    ensures |queue| <= |r.1| && r.1[..|queue|] == queue
    ensures forall j :: |queue| <= j < |r.1| ==> r.1[j] in ns && r.1[j] in r.0 && r.0[r.1[j]] == k
    ensures forall q :: q in marks && q !in ns ==> r.0[q] == marks[q]
    decreases |ns|
  {
    if ns == [] then (marks, queue)
    else
      var prev := Visited(img, marks, ns[..|ns| - 1], k, queue);
      assert forall q :: q in ns[..|ns| - 1] ==> q in ns;
      VisitStep(img, prev.0, ns[|ns| - 1], k, prev.1)
  }

  lemma VisitedNext(img: array2<int>, marks: Marks, ns: seq<Cell>, i: int, k: int, queue: seq<Cell>)
    requires 0 <= i < |ns|
    ensures Visited(img, marks, ns[..i + 1], k, queue) ==
      VisitStep(img, Visited(img, marks, ns[..i], k, queue).0, ns[i], k, Visited(img, marks, ns[..i], k, queue).1)
  {
    assert ns[..i + 1][..i] == ns[..i];
  }

  /** One neighbour of the current cell, as VisitStep says. */
  method VisitNeighbour(img: array2<int>, mark: array2<int>, n: Cell, current: Cell, k: int, queue: seq<Cell>,
                        size: int, ghost seeds: seq<Cell>, ghost start: Marks, ghost marks: Marks)
    returns (newQueue: seq<Cell>, newSize: int, ghost after: Marks)
    requires k == |seeds| && img != mark && SameShape(img, mark) && InGrid(n, img.Length0, img.Length1)
    requires Adjacent(current, n) && Snap(mark) == marks && Expanding(img, marks, seeds, queue, current, start, size)
    modifies mark
    ensures Snap(mark) == after && Expanding(img, after, seeds, newQueue, current, start, newSize)
    ensures Kept(marks, after) && (Fg(img, n) ==> n in after && after[n] == k)
    ensures |CellsWith(after, 0)| + |newQueue| == |CellsWith(marks, 0)| + |queue|
    ensures (after, newQueue) == VisitStep(img, marks, n, k, queue) && newSize == size + |newQueue| - |queue|
  {
    newQueue, newSize, after := queue, size, marks;
    if img[n.0, n.1] > Cutoff && mark[n.0, n.1] == 0 {
      FloodStep(img, marks, seeds, queue, current, n);
      CountStep(start, marks, k, size, n);
      LabelKeeps(marks, n, k);
      SetLabel(mark, n, k);
      newQueue := queue + [n];
      newSize := size + 1;
      after := marks[n := k];
    } else if img[n.0, n.1] > Cutoff {
      NeighbourSettled(img, marks, seeds, queue, current, n);
    }
  }

  lemma SettledStep(img: array2<int>, before: Marks, after: Marks, ns: seq<Cell>, i: int, k: int)
    requires Settled(img, before, ns, i, k) && Kept(before, after) && k != 0 && 0 <= i < |ns|
    requires Fg(img, ns[i]) ==> ns[i] in after && after[ns[i]] == k
    ensures Settled(img, after, ns, i + 1, k)
  {
  }

  /** Visits the neighbours `ns` of `current` in order, as the inner loop of the flood does. */
  method VisitAll(img: array2<int>, mark: array2<int>, current: Cell, k: int, ns: seq<Cell>, queue: seq<Cell>,
                  size: int, ghost seeds: seq<Cell>, ghost start: Marks, ghost marks: Marks)
    returns (newQueue: seq<Cell>, newSize: int, ghost after: Marks)
    requires k == |seeds| && img != mark && SameShape(img, mark)
    requires forall j :: 0 <= j < |ns| ==> InGrid(ns[j], img.Length0, img.Length1) && Adjacent(current, ns[j])
    requires Snap(mark) == marks && Expanding(img, marks, seeds, queue, current, start, size)
    modifies mark
    ensures Snap(mark) == after && Expanding(img, after, seeds, newQueue, current, start, newSize)
    ensures Settled(img, after, ns, |ns|, k)
    ensures |CellsWith(after, 0)| + |newQueue| == |CellsWith(marks, 0)| + |queue|
    ensures (after, newQueue) == Visited(img, marks, ns, k, queue) && newSize == size + |newQueue| - |queue|
  {
    newQueue, newSize, after := queue, size, marks;
    for i := 0 to |ns|
      invariant Snap(mark) == after && Expanding(img, after, seeds, newQueue, current, start, newSize)
      invariant Settled(img, after, ns, i, k)
      invariant |CellsWith(after, 0)| + |newQueue| == |CellsWith(marks, 0)| + |queue|
      invariant (after, newQueue) == Visited(img, marks, ns[..i], k, queue) && newSize == size + |newQueue| - |queue|
    {
      ghost var previous := after;
      newQueue, newSize, after :=
        VisitNeighbour(img, mark, ns[i], current, k, newQueue, newSize, seeds, start, after);
      SettledStep(img, previous, after, ns, i, k);
      VisitedNext(img, marks, ns, i, k, queue);
    }
    assert ns[..|ns|] == ns;
  }

  /** Once all its neighbours are visited, the current cell leaves the pending cells of the flood. */
  lemma FinishCell(img: array2<int>, marks: Marks, seeds: seq<Cell>, queue: seq<Cell>, current: Cell, ns: seq<Cell>,
                   start: Marks, size: int)
    requires Expanding(img, marks, seeds, queue, current, start, size)
    requires forall q :: q in ns <==> InGrid(q, img.Length0, img.Length1) && Adjacent(current, q)
    requires Settled(img, marks, ns, |ns|, |seeds|)
    ensures Flooding(img, marks, seeds, queue, queue)
  {
    CloseCell(img, marks, queue, current, ns);
  }

  /** Taking the front cell off the queue leaves it pending until its neighbours are visited. */
  lemma TakeCell(img: array2<int>, marks: Marks, seeds: seq<Cell>, queue: seq<Cell>, start: Marks, size: int)
    requires queue != [] && Covers(img, marks)
    requires Flooding(img, marks, seeds, queue, queue) && Counted(start, marks, |seeds|, size)
    ensures Expanding(img, marks, seeds, queue[1..], queue[0], start, size)
    ensures InGrid(queue[0], img.Length0, img.Length1)
  {
    assert queue == [queue[0]] + queue[1..] && queue[0] in marks;
  }

  /**
   * Takes the cell at the front of the queue and visits its neighbours (in the order of `Neighbours`).
   * The number of unlabelled cells plus the queue length strictly decreases, which bounds the flood.
   */
  method ExpandCell(img: array2<int>, mark: array2<int>, k: int, queue: seq<Cell>, size: int,
                    ghost seeds: seq<Cell>, ghost start: Marks, ghost marks: Marks)
    returns (newQueue: seq<Cell>, newSize: int, ghost after: Marks, ghost ns: seq<Cell>)
    requires k == |seeds| && img != mark && SameShape(img, mark) && queue != [] && Snap(mark) == marks
    requires Flooding(img, marks, seeds, queue, queue) && Counted(start, marks, |seeds|, size)
    modifies mark
    ensures Snap(mark) == after
    ensures Flooding(img, after, seeds, newQueue, newQueue) && Counted(start, after, |seeds|, newSize)
    ensures |CellsWith(after, 0)| + |newQueue| < |CellsWith(marks, 0)| + |queue|
    // the front cell is popped, and its in-grid 8-neighbours, in raster order, are visited
    ensures forall q :: q in ns <==> InGrid(q, img.Length0, img.Length1) && Adjacent(queue[0], q)
    ensures forall i, j :: 0 <= i < j < |ns| ==> Before(ns[i], ns[j])
    ensures (after, newQueue) == Visited(img, marks, ns, k, queue[1..]) && newSize == size + |newQueue| - |queue| + 1
  {
    var current := queue[0];
    TakeCell(img, marks, seeds, queue, start, size);
    var neighbours := Neighbours(current, mark.Length0, mark.Length1);
    newQueue, newSize, after := VisitAll(img, mark, current, k, neighbours, queue[1..], size, seeds, start, marks);
    ns := neighbours;
    FinishCell(img, after, seeds, newQueue, current, neighbours, start, newSize);
  }

  /**
   * The flood of one seed: label the seed with the new id, then expand the head of the queue until the
   * queue is empty. Returns the component's size.
   */
  method Flood(img: array2<int>, mark: array2<int>, seed: Cell, k: int, ghost earlier: seq<Cell>)
    returns (size: int)
    requires img != mark && SameShape(img, mark) && k == |earlier| + 1
    requires Labels(img, Snap(mark), earlier) && SeedsMarked(Snap(mark), earlier)
    requires Closed(img, Snap(mark), []) && Scanned(img, Snap(mark), seed)
    requires forall i :: 0 <= i < |earlier| ==> Before(earlier[i], seed)
    requires Fg(img, seed) && Snap(mark)[seed] == 0
    modifies mark
    ensures Flooding(img, Snap(mark), earlier + [seed], [], [])
    ensures Counted(old(Snap(mark)), Snap(mark), k, size)
  {
    ghost var start := Snap(mark);
    ghost var seeds := earlier + [seed];
    FloodStart(img, start, earlier, seed);
    SetLabel(mark, seed, k);
    ghost var marks := start[seed := k];
    var queue := [seed];
    size := 1;
    while queue != []
      invariant Snap(mark) == marks
      invariant Flooding(img, marks, seeds, queue, queue) && Counted(start, marks, k, size)
      decreases |CellsWith(marks, 0)| + |queue|
    {
      ghost var visited;
      queue, size, marks, visited := ExpandCell(img, mark, k, queue, size, seeds, start, marks);
    }
  }

  /** A foreground chain that starts on a labelled cell stays within that cell's label when the grid is closed. */
  lemma {:induction false} PathKeepsLabel(img: array2<int>, marks: Marks, path: seq<Cell>)
    requires Covers(img, marks) && Closed(img, marks, []) && IsPath(img, path)
    requires marks[path[0]] != 0
    ensures marks[path[|path| - 1]] == marks[path[0]]
    decreases |path|
  {
    if |path| > 1 {
      assert Adjacent(path[0], path[1]) && Fg(img, path[1]);
      var rest := path[1..];
      assert forall i :: 0 <= i < |rest| ==> rest[i] == path[i + 1];
      assert IsPath(img, rest);
      PathKeepsLabel(img, marks, rest);
    }
  }

  /** Two cells with the same label are both joined to that label's seed, hence to each other. */
  lemma SameLabelConnected(img: array2<int>, marks: Marks, seeds: seq<Cell>, p: Cell, q: Cell)
    requires Labels(img, marks, seeds) && p in marks && q in marks && marks[p] != 0 && marks[p] == marks[q]
    ensures Connected(img, p, q)
  {
    var s := seeds[marks[p] - 1];
    ConnectedSymmetric(img, s, p);
    ConnectedTransitive(img, p, s, q);
  }

  /** In a closed grid, a labelled cell passes its label along any foreground chain that leaves it. */
  lemma ConnectedSameLabel(img: array2<int>, marks: Marks, p: Cell, q: Cell)
    requires Covers(img, marks) && Closed(img, marks, []) && p in marks && marks[p] != 0
    requires Connected(img, p, q)
    ensures q in marks && marks[q] == marks[p]
  {
    var path :| IsPath(img, path) && path[0] == p && path[|path| - 1] == q;
    PathKeepsLabel(img, marks, path);
  }

  /** When every foreground cell is labelled and the grid is closed, labels coincide exactly on connected cells. */
  lemma LabelsMatchConnectivity(img: array2<int>, marks: Marks, seeds: seq<Cell>)
    requires Labels(img, marks, seeds) && Closed(img, marks, [])
    requires forall q :: Fg(img, q) ==> marks[q] != 0
    ensures forall p, q :: Fg(img, p) && Fg(img, q) ==> (marks[p] == marks[q] <==> Connected(img, p, q))
  {
    forall p, q | Fg(img, p) && Fg(img, q)
      ensures marks[p] == marks[q] <==> Connected(img, p, q)
    {
      if marks[p] == marks[q] {
        SameLabelConnected(img, marks, seeds, p, q);
      }
      if Connected(img, p, q) {
        ConnectedSameLabel(img, marks, p, q);
      }
    }
  }

  /**
   * The state of the row-major scan on reaching pos: Labels, SeedsMarked and Closed hold, every foreground
   * cell before pos is labelled, every seed comes before pos, and the report lists ids 1..|seeds| in order,
   * each with its number of cells, the sizes adding up to the labelled cells.
   */
  ghost predicate Progress(img: array2<int>, marks: Marks, seeds: seq<Cell>, components: seq<Component>, pos: Cell)
    reads img
  {
    Labels(img, marks, seeds) && SeedsMarked(marks, seeds) && Closed(img, marks, []) && Scanned(img, marks, pos) &&
    (forall i :: 0 <= i < |seeds| ==> Before(seeds[i], pos)) &&
    |components| == |seeds| &&
    (forall j :: 0 <= j < |seeds| ==> components[j] == Component(j + 1, |CellsWith(marks, j + 1)|)) &&
    SumOf(components, Size) == |LabeledCells(marks)|
  }

  /** An all-zero label grid is where the scan starts. */
  lemma ProgressStart(img: array2<int>, marks: Marks)
    requires Covers(img, marks) && forall q :: q in marks ==> marks[q] == 0
    ensures Progress(img, marks, [], [], (0, 0))
  {
    assert LabeledCells(marks) == {};
  }

  /** Moving the scan position past a cell that is background or already labelled keeps Scanned. */
  lemma ScannedPast(img: array2<int>, marks: Marks, row: int, col: int)
    requires Scanned(img, marks, (row, col)) && (Fg(img, (row, col)) ==> (row, col) in marks && marks[(row, col)] != 0)
    ensures Scanned(img, marks, (row, col + 1))
  {
    forall q | q in marks && Before(q, (row, col + 1)) && Fg(img, q)
      ensures marks[q] != 0
    {
      if q != (row, col) {
        assert Before(q, (row, col));
      }
    }
  }

  /** Every cell before (row, col) is before (row, col + 1). */
  lemma BeforeNext(seeds: seq<Cell>, row: int, col: int)
    requires forall i :: 0 <= i < |seeds| ==> Before(seeds[i], (row, col))
    ensures forall i :: 0 <= i < |seeds| ==> Before(seeds[i], (row, col + 1))
  {
  }

  /** Moving the scan position past a cell that is background or already labelled keeps Progress. */
  lemma ScanPast(img: array2<int>, marks: Marks, seeds: seq<Cell>, components: seq<Component>, row: int, col: int)
    requires Progress(img, marks, seeds, components, (row, col))
    requires InGrid((row, col), img.Length0, img.Length1) && (Fg(img, (row, col)) ==> marks[(row, col)] != 0)
    ensures Progress(img, marks, seeds, components, (row, col + 1))
  {
    ScannedPast(img, marks, row, col);
    BeforeNext(seeds, row, col);
  }

  /** Scanning to the end of a row is scanning to the start of the next. */
  lemma ScannedNextRow(img: array2<int>, marks: Marks, row: int)
    requires Covers(img, marks) && Scanned(img, marks, (row, img.Length1))
    ensures Scanned(img, marks, (row + 1, 0))
  {
    forall q | q in marks && Before(q, (row + 1, 0)) && Fg(img, q)
      ensures marks[q] != 0
    {
      assert Before(q, (row, img.Length1));
    }
  }

  /** A seed in the image that comes before the end of a row comes before the start of the next. */
  lemma SeedsNextRow(img: array2<int>, seeds: seq<Cell>, row: int)
    requires SeedsInOrder(img, seeds) && forall i :: 0 <= i < |seeds| ==> Before(seeds[i], (row, img.Length1))
    ensures forall i :: 0 <= i < |seeds| ==> Before(seeds[i], (row + 1, 0))
  {
  }

  /** The end of one row is the start of the next. */
  lemma NextRow(img: array2<int>, marks: Marks, seeds: seq<Cell>, components: seq<Component>, row: int)
    requires Progress(img, marks, seeds, components, (row, img.Length1))
    ensures Progress(img, marks, seeds, components, (row + 1, 0))
  {
    ScannedNextRow(img, marks, row);
    SeedsNextRow(img, seeds, row);
  }

  /** The report grows by the component just flooded; the earlier ids kept their cells. */
  lemma AppendComponent(components: seq<Component>, before: Marks, after: Marks, k: int, size: int)
    requires |components| == k - 1 >= 0
    requires forall j :: 0 <= j < k - 1 ==> components[j] == Component(j + 1, |CellsWith(before, j + 1)|)
    requires SumOf(components, Size) == |LabeledCells(before)|
    requires size == |CellsWith(after, k)| && |LabeledCells(after)| == |LabeledCells(before)| + size
    requires forall j :: 0 < j < k ==> CellsWith(after, j) == CellsWith(before, j)
    ensures var longer := components + [Component(k, size)];
      (forall j :: 0 <= j < k ==> longer[j] == Component(j + 1, |CellsWith(after, j + 1)|)) &&
      SumOf(longer, Size) == |LabeledCells(after)|
  {
    var longer := components + [Component(k, size)];
    assert longer[..|longer| - 1] == components;
    forall j | 0 <= j < k
      ensures longer[j] == Component(j + 1, |CellsWith(after, j + 1)|)
    {
      if j < k - 1 {
        assert longer[j] == components[j];
      }
    }
  }

  /** A seed discovered at pos is, with all earlier seeds, before the next scan position. */
  lemma SeedsBefore(seeds: seq<Cell>, pos: Cell)
    requires forall i :: 0 <= i < |seeds| ==> Before(seeds[i], pos)
    ensures forall i :: 0 <= i < |seeds| + 1 ==> Before((seeds + [pos])[i], (pos.0, pos.1 + 1))
  {
    forall i | 0 <= i < |seeds| + 1
      ensures Before((seeds + [pos])[i], (pos.0, pos.1 + 1))
    {
      if i < |seeds| {
        assert (seeds + [pos])[i] == seeds[i];
      }
    }
  }

  /** The flood that started at (row, col) has finished: the scan moves on past it, its component reported. */
  lemma ProgressAfterFlood(img: array2<int>, before: Marks, after: Marks, seeds: seq<Cell>,
                           components: seq<Component>, row: int, col: int, size: int)
    requires Progress(img, before, seeds, components, (row, col))
    requires Flooding(img, after, seeds + [(row, col)], [], [])
    requires Counted(before, after, |seeds| + 1, size)
    ensures Progress(img, after, seeds + [(row, col)], components + [Component(|seeds| + 1, size)], (row, col + 1))
  {
    AppendComponent(components, before, after, |seeds| + 1, size);
    SeedsBefore(seeds, (row, col));
  }

  /**
   * One step of the scan: when the cell at (row, col) is unlabelled foreground, hand out the
   * next id, flood its component and report it.
   */
  method VisitCell(img: array2<int>, mark: array2<int>, row: int, col: int, count: nat, components: seq<Component>,
                   ghost seeds: seq<Cell>)
    returns (newCount: nat, newComponents: seq<Component>, ghost newSeeds: seq<Cell>)
    requires img != mark && SameShape(img, mark) && InGrid((row, col), img.Length0, img.Length1)
    requires count == |seeds| && Progress(img, Snap(mark), seeds, components, (row, col))
    modifies mark
    ensures newCount == |newSeeds| && Progress(img, Snap(mark), newSeeds, newComponents, (row, col + 1))
  {
    newCount, newComponents, newSeeds := count, components, seeds;
    if img[row, col] > Cutoff && mark[row, col] == 0 {
      ghost var before := Snap(mark);
      newCount := count + 1;
      newSeeds := seeds + [(row, col)];
      var size := Flood(img, mark, (row, col), newCount, seeds);
      ProgressAfterFlood(img, before, Snap(mark), seeds, components, row, col, size);
      newComponents := components + [Component(newCount, size)];
    } else {
      ScanPast(img, Snap(mark), seeds, components, row, col);
    }
  }

  /** One row of the raster scan, column by column. */
  method ScanRow(img: array2<int>, mark: array2<int>, row: int, count: nat, components: seq<Component>,
                 ghost seeds: seq<Cell>)
    returns (newCount: nat, newComponents: seq<Component>, ghost newSeeds: seq<Cell>)
    requires img != mark && SameShape(img, mark) && 0 <= row < img.Length0
    requires count == |seeds| && Progress(img, Snap(mark), seeds, components, (row, 0))
    modifies mark
    ensures newCount == |newSeeds| && Progress(img, Snap(mark), newSeeds, newComponents, (row + 1, 0))
  {
    newCount, newComponents, newSeeds := count, components, seeds;
    for col := 0 to img.Length1
      invariant newCount == |newSeeds| && Progress(img, Snap(mark), newSeeds, newComponents, (row, col))
    {
      newCount, newComponents, newSeeds := VisitCell(img, mark, row, col, newCount, newComponents, newSeeds);
    }
    NextRow(img, Snap(mark), newSeeds, newComponents, row);
  }

  /** Once the scan has passed the last row, exactly the foreground cells are labelled. */
  lemma ScannedAll(img: array2<int>, marks: Marks, seeds: seq<Cell>)
    requires Labels(img, marks, seeds) && Scanned(img, marks, (img.Length0, 0))
    ensures forall q :: q in marks ==> (marks[q] == 0 <==> !Fg(img, q))
    ensures LabeledCells(marks) == FgCells(img)
  {
    forall q | q in marks && Fg(img, q)
      ensures marks[q] != 0
    {
      assert Before(q, (img.Length0, 0));
    }
    assert forall q :: q in LabeledCells(marks) <==> q in FgCells(img);
  }

  /** The finished scan: the report lists every id with its cell count, and the counts cover the foreground. */
  lemma FinalComponents(img: array2<int>, marks: Marks, seeds: seq<Cell>, components: seq<Component>)
    requires Progress(img, marks, seeds, components, (img.Length0, 0))
    ensures components == ComponentList(marks, |seeds|)
    ensures SumOf(components, Size) == |FgCells(img)|
  {
    ScannedAll(img, marks, seeds);
    var cl := ComponentList(marks, |seeds|);
    assert |cl| == |components|;
    forall j | 0 <= j < |seeds|
      ensures components[j] == cl[j]
    {
    }
  }

  /** The finished scan, read back on the label array: which cells carry an id, and which ids. */
  lemma FinalLabels(img: array2<int>, mark: array2<int>, seeds: seq<Cell>)
    requires SameShape(img, mark) && Labels(img, Snap(mark), seeds)
    requires Scanned(img, Snap(mark), (img.Length0, 0))
    ensures forall r, c :: 0 <= r < mark.Length0 && 0 <= c < mark.Length1 ==>
      0 <= mark[r, c] <= |seeds| && (mark[r, c] == 0 <==> img[r, c] <= Cutoff) &&
      (mark[r, c] != 0 ==> !Before((r, c), seeds[mark[r, c] - 1]))
    ensures LabeledCells(Snap(mark)) == FgCells(img)
  {
    var marks := Snap(mark);
    ScannedAll(img, marks, seeds);
    forall r, c | 0 <= r < mark.Length0 && 0 <= c < mark.Length1
      ensures 0 <= mark[r, c] <= |seeds| && (mark[r, c] == 0 <==> img[r, c] <= Cutoff) &&
        (mark[r, c] != 0 ==> !Before((r, c), seeds[mark[r, c] - 1]))
    {
      assert (r, c) in marks && marks[(r, c)] == mark[r, c];
    }
  }

  /** The finished scan, read back on the label array: each seed carries its own id. */
  lemma FinalSeeds(img: array2<int>, mark: array2<int>, seeds: seq<Cell>)
    requires SameShape(img, mark) && Labels(img, Snap(mark), seeds) && SeedsMarked(Snap(mark), seeds)
    ensures forall j :: 0 <= j < |seeds| ==>
      InGrid(seeds[j], mark.Length0, mark.Length1) && mark[seeds[j].0, seeds[j].1] == j + 1
  {
    var marks := Snap(mark);
    forall j | 0 <= j < |seeds|
      ensures InGrid(seeds[j], mark.Length0, mark.Length1) && mark[seeds[j].0, seeds[j].1] == j + 1
    {
      assert seeds[j] in marks;
    }
  }

  /** The finished scan, read back on the label array: equal ids on exactly the connected foreground cells. */
  lemma FinalConnectivity(img: array2<int>, mark: array2<int>, seeds: seq<Cell>)
    requires SameShape(img, mark) && Labels(img, Snap(mark), seeds)
    requires Closed(img, Snap(mark), []) && Scanned(img, Snap(mark), (img.Length0, 0))
    ensures forall p, q :: Fg(img, p) && Fg(img, q) ==>
      (mark[p.0, p.1] == mark[q.0, q.1] <==> Connected(img, p, q))
  {
    var marks := Snap(mark);
    ScannedAll(img, marks, seeds);
    LabelsMatchConnectivity(img, marks, seeds);
    forall p, q | Fg(img, p) && Fg(img, q)
      ensures mark[p.0, p.1] == mark[q.0, q.1] <==> Connected(img, p, q)
    {
      assert marks[p] == mark[p.0, p.1] && marks[q] == mark[q.0, q.1];
    }
  }

  /** The raster scan over a fresh all-zero label grid, row by row. */
  method ScanImage(img: array2<int>)
    returns (mark: array2<int>, components: seq<Component>, count: nat, ghost seeds: seq<Cell>)
    ensures fresh(mark) && SameShape(img, mark) && count == |seeds|
    ensures Progress(img, Snap(mark), seeds, components, (img.Length0, 0))
  {
    mark := new int[img.Length0, img.Length1]((r, c) => 0);
    count := 0;
    components := [];
    seeds := [];
    ProgressStart(img, Snap(mark));
    for row := 0 to img.Length0
      invariant SameShape(img, mark) && fresh(mark) && count == |seeds|
      invariant Progress(img, Snap(mark), seeds, components, (row, 0))
    {
      count, components, seeds := ScanRow(img, mark, row, count, components, seeds);
    }
  }

  /**
   * detect_connected_components: the label grid MARK, the (id, size) report in discovery order and the
   * total. `seeds[j]` is the cell at which id j + 1 was discovered.
   */
  method DetectConnectedComponents(img: array2<int>)
    returns (mark: array2<int>, components: seq<Component>, count: nat, ghost seeds: seq<Cell>)
    ensures fresh(mark) && mark.Length0 == img.Length0 && mark.Length1 == img.Length1
    ensures |components| == count && |seeds| == count
    // background cells keep 0, foreground cells get an id in 1..count, and no cell comes before its id's seed
    ensures forall r, c :: 0 <= r < mark.Length0 && 0 <= c < mark.Length1 ==>
      0 <= mark[r, c] <= count && (mark[r, c] == 0 <==> img[r, c] <= Cutoff) &&
      (mark[r, c] != 0 ==> !Before((r, c), seeds[mark[r, c] - 1]))
    // ids are dense and handed out in raster order of discovery
    ensures forall j :: 0 <= j < count ==>
      InGrid(seeds[j], mark.Length0, mark.Length1) && mark[seeds[j].0, seeds[j].1] == j + 1
    ensures forall i, j :: 0 <= i < j < count ==> Before(seeds[i], seeds[j])
    // two foreground cells share an id exactly when a chain of 8-connected foreground cells joins them
    ensures forall p, q :: Fg(img, p) && Fg(img, q) ==>
      (mark[p.0, p.1] == mark[q.0, q.1] <==> Connected(img, p, q))
    // the report: id j with the number of cells labelled j; the sizes add up to the foreground
    ensures components == ComponentList(Snap(mark), count)
    ensures SumOf(components, Size) == |FgCells(img)|
  {
    mark, components, count, seeds := ScanImage(img);
    FinalComponents(img, Snap(mark), seeds, components);
    FinalLabels(img, mark, seeds);
    FinalSeeds(img, mark, seeds);
    FinalConnectivity(img, mark, seeds);
  }
}
