/**
 * detect_connected_components_sorted: reads a label grid back, counts the cells of each id, ranks the
 * components from the largest to the smallest with the same insertion rule as sort_list, and draws the
 * two largest components as a black-on-white mask.
 */
module Ranking {
  import opened Errors
  import opened Utils
  import opened Grid
  import opened Labeling

  // Flattening the label grid and dropping the zeros.

  /** The cells labelled k that come before pos in raster order. */
  ghost function CellsWithBefore(marks: Marks, k: int, pos: Cell): set<Cell>
  {
    set q | q in marks && marks[q] == k && Before(q, pos)
  }

  /** Moving one cell along a row adds that cell to the cells seen, when it carries k. */
  lemma CellsWithBeforeNext(marks: Marks, k: int, pos: Cell)
    requires pos in marks
    ensures |CellsWithBefore(marks, k, Next(pos))| ==
      |CellsWithBefore(marks, k, pos)| + (if marks[pos] == k then 1 else 0)
  {
    var seen := CellsWithBefore(marks, k, pos);
    if marks[pos] == k {
      assert CellsWithBefore(marks, k, Next(pos)) == seen + {pos};
    } else {
      assert CellsWithBefore(marks, k, Next(pos)) == seen;
    }
  }

  /** Past the last column of a row, the scan is at the start of the next row. */
  lemma CellsWithBeforeRowEnd(marks: Marks, k: int, row: int, width: int)
    requires forall q :: q in marks ==> 0 <= q.1 < width
    ensures CellsWithBefore(marks, k, (row, width)) == CellsWithBefore(marks, k, (row + 1, 0))
  {
  }

  /** Past the last row, every cell labelled k has been seen. */
  lemma CellsWithBeforeEnd(marks: Marks, k: int, height: int)
    requires forall q :: q in marks ==> q.0 < height
    ensures CellsWithBefore(marks, k, (height, 0)) == CellsWith(marks, k)
  {
  }

  /** The labels in the first part of the raster scan, zeros dropped, counted per label. */
  ghost predicate Gathered(marks: Marks, labels: seq<int>, pos: Cell)
  {
    0 !in labels && forall k :: k != 0 ==> multiset(labels)[k] == |CellsWithBefore(marks, k, pos)|
  }

  lemma GatherCell(marks: Marks, labels: seq<int>, pos: Cell)
    requires pos in marks && Gathered(marks, labels, pos)
    ensures Gathered(marks, if marks[pos] != 0 then labels + [marks[pos]] else labels, Next(pos))
  {
    forall k | k != 0
      ensures multiset(if marks[pos] != 0 then labels + [marks[pos]] else labels)[k] ==
        |CellsWithBefore(marks, k, Next(pos))|
    {
      CellsWithBeforeNext(marks, k, pos);
    }
  }

  lemma GatherRowEnd(marks: Marks, labels: seq<int>, row: int, width: int)
    requires forall q :: q in marks ==> 0 <= q.1 < width
    requires Gathered(marks, labels, (row, width))
    ensures Gathered(marks, labels, (row + 1, 0))
  {
    forall k | k != 0
      ensures multiset(labels)[k] == |CellsWithBefore(marks, k, (row + 1, 0))|
    {
      CellsWithBeforeRowEnd(marks, k, row, width);
    }
  }

  lemma GatherStart(marks: Marks)
    requires forall q :: q in marks ==> 0 <= q.0 && 0 <= q.1
    ensures Gathered(marks, [], (0, 0))
  {
    forall k | k != 0
      ensures |CellsWithBefore(marks, k, (0, 0))| == 0
    {
      assert CellsWithBefore(marks, k, (0, 0)) == {};
    }
  }

  lemma GatherEnd(marks: Marks, labels: seq<int>, height: int)
    requires forall q :: q in marks ==> q.0 < height
    requires Gathered(marks, labels, (height, 0))
    ensures 0 !in labels && forall k :: k != 0 ==> multiset(labels)[k] == |CellsWith(marks, k)|
  {
    forall k | k != 0
      ensures multiset(labels)[k] == |CellsWith(marks, k)|
    {
      CellsWithBeforeEnd(marks, k, height);
    }
  }

  /** One row of the flattening: the row's non-zero labels, left to right, join the list. */
  method GatherRow(mark: array2<int>, row: int, labels: seq<int>, ghost marks: Marks) returns (more: seq<int>)
    requires marks == Snap(mark) && 0 <= row < mark.Length0 && Gathered(marks, labels, (row, 0))
    ensures Gathered(marks, more, (row + 1, 0))
  {
    more := labels;
    for col := 0 to mark.Length1
      invariant Gathered(marks, more, (row, col))
    {
      GatherCell(marks, more, (row, col));
      if mark[row, col] != 0 {
        more := more + [mark[row, col]];
      }
    }
    GatherRowEnd(marks, more, row, mark.Length1);
  }

  /** MARK_no_0: the non-zero labels of the grid in raster order; each label occurs once per cell carrying it. */
  method NonZeroLabels(mark: array2<int>) returns (labels: seq<int>)
    ensures 0 !in labels
    ensures forall k :: k != 0 ==> multiset(labels)[k] == |CellsWith(Snap(mark), k)|
  {
    ghost var marks := Snap(mark);
    labels := [];
    GatherStart(marks);
    for row := 0 to mark.Length0
      invariant Gathered(marks, labels, (row, 0))
    {
      labels := GatherRow(mark, row, labels, marks);
    }
    GatherEnd(marks, labels, mark.Length0);
  }

  // The number of components and the per-id counts.

  /** Python's built-in max: the largest element, a ValueError on the empty list. */
  method Largest(values: seq<int>) returns (r: Result<int>)
    ensures r.Err? <==> values == []
    ensures r.Err? ==> r.error == ValueError
    ensures r.Ok? ==> r.value in values && forall x :: x in values ==> x <= r.value
  {
    if values == [] {
      return Err(ValueError);
    }
    var best := values[0];
    for i := 1 to |values|
      invariant best in values[..i]
      invariant forall j :: 0 <= j < i ==> values[j] <= best
    {
      if values[i] > best {
        best := values[i];
      }
    }
    assert values[..|values|] == values;
    return Ok(best);
  }

  /** component_list: (index, number of occurrences of index) for index 1 .. num. */
  method CountComponents(labels: seq<int>, num: int) returns (components: seq<Component>)
    ensures |components| == if num < 0 then 0 else num
    ensures forall j :: 0 <= j < |components| ==> components[j] == Component(j + 1, multiset(labels)[j + 1])
  {
    components := [];
    var index := 1;
    while index <= num
      invariant 1 <= index && (if num < 1 then index == 1 else index <= num + 1) && |components| == index - 1
      invariant forall j :: 0 <= j < |components| ==> components[j] == Component(j + 1, multiset(labels)[j + 1])
    {
      var size := CountValue(labels, index);
      components := components + [Component(index, size)];
      index := index + 1;
    }
  }

  /** The per-id counts taken from the non-zero labels are the component list of the grid. */
  lemma CountsAreComponentList(marks: Marks, labels: seq<int>, components: seq<Component>, num: int)
    requires forall k :: k != 0 ==> multiset(labels)[k] == |CellsWith(marks, k)|
    requires |components| == if num < 0 then 0 else num
    requires forall j :: 0 <= j < |components| ==> components[j] == Component(j + 1, multiset(labels)[j + 1])
    ensures components == ComponentList(marks, num)
  {
    var cl := ComponentList(marks, num);
    forall j | 0 <= j < |components|
      ensures components[j] == cl[j]
    {
      assert multiset(labels)[j + 1] == |CellsWith(marks, j + 1)|;
    }
  }

  // Ranking.

  /** Equal sizes are ranked by descending id, the order the insertion rule leaves them in. */
  ghost predicate TiesByDescendingId(s: seq<Component>)
  {
    forall i, j :: 0 <= i < j < |s| && s[i].size == s[j].size ==> s[i].id > s[j].id
  }

  /** The ids grow strictly from the front, as in the component list. */
  ghost predicate IncreasingIds(s: seq<Component>)
  {
    forall i, j :: 0 <= i < j < |s| ==> s[i].id < s[j].id
  }

  /** Placing x at a position where everything before is strictly larger and nothing after is larger. */
  lemma TiesAfterPlacing(s: seq<Component>, x: Component, i: int, r: seq<Component>)
    requires 0 <= i <= |s| && r == s[..i] + [x] + s[i..]
    requires forall a, b :: 0 <= a < b < |s| ==> s[a].size >= s[b].size
    requires forall j :: 0 <= j < i ==> x.size < s[j].size
    requires i < |s| ==> x.size >= s[i].size
    requires TiesByDescendingId(s) && forall j :: 0 <= j < |s| ==> s[j].id < x.id
    ensures TiesByDescendingId(r)
  {
    forall a, b | 0 <= a < b < |r|
      ensures r[a].size == r[b].size ==> r[a].id > r[b].id
    {
      if b < i {
        assert r[a] == s[a] && r[b] == s[b];
      } else if b == i {
        assert r[a] == s[a] && r[b] == x;
      } else if a > i {
        assert r[a] == s[a - 1] && r[b] == s[b - 1];
      } else if a == i {
        assert r[a] == x && r[b] == s[b - 1];
      } else {
        assert r[a] == s[a] && r[b] == s[b - 1];
        assert b - 1 == i || s[i].size >= s[b - 1].size;
      }
    }
  }

  /** A component whose id is above all others goes in front of every component of the same size. */
  lemma InsertNewestKeepsTies(s: seq<Component>, x: Component)
    requires NonIncreasing(s, Size) && TiesByDescendingId(s)
    requires forall c :: c in s ==> c.id < x.id
    ensures TiesByDescendingId(Insert(s, x, Size))
  {
    var i := InsertPos(s, x, Size);
    forall a, b | 0 <= a < b < |s|
      ensures s[a].size >= s[b].size
    {
      assert Size(s[a]) >= Size(s[b]);
    }
    forall j | 0 <= j < i
      ensures x.size < s[j].size
    {
      assert Size(x) < Size(s[j]);
    }
    assert i < |s| ==> Size(x) >= Size(s[i]);
    TiesAfterPlacing(s, x, i, Insert(s, x, Size));
  }

  /** Ranking a list with growing ids leaves equal sizes in descending id order. */
  lemma {:induction false} RankedTies(s: seq<Component>)
    requires IncreasingIds(s)
    ensures TiesByDescendingId(SortDesc(s, Size))
    decreases |s|
  {
    if s != [] {
      var init := s[..|s| - 1];
      var x := s[|s| - 1];
      RankedTies(init);
      SortDescSorts(init, Size);
      forall c | c in SortDesc(init, Size)
        ensures c.id < x.id
      {
        assert c in multiset(init);
        var j :| 0 <= j < |init| && init[j] == c;
      }
      InsertNewestKeepsTies(SortDesc(init, Size), x);
    }
  }

  /**
   * One step of the ranking loop of detect_connected_components_sorted: a component larger than the first
   * ranked one goes in front; otherwise it goes just before the first ranked component it is at least as
   * large as, or at the end.
   */
  method InsertComponent(ranked: seq<Component>, component: Component) returns (r: seq<Component>)
    ensures r == Insert(ranked, component, Size)
  {
    if |ranked| == 0 || component.size > ranked[0].size {
      InsertAtFirstMatch(ranked, component, Size, 0);
      return [component] + ranked;
    }
    var index := 0;
    while index < |ranked| && component.size < ranked[index].size
      invariant 0 <= index <= |ranked|
      invariant forall j :: 0 <= j < index ==> Size(component) < Size(ranked[j])
    {
      index := index + 1;
    }
    InsertAtFirstMatch(ranked, component, Size, index);
    if index < |ranked| {
      r := ranked[..index] + [component] + ranked[index..];
    } else {
      assert ranked[index..] == [];
      r := ranked + [component];
    }
  }

  /** The ranking loop: the components inserted one by one, in the order of the component list. */
  method RankComponents(components: seq<Component>) returns (ranked: seq<Component>)
    ensures ranked == SortDesc(components, Size)
    ensures NonIncreasing(ranked, Size) && multiset(ranked) == multiset(components)
  {
    ranked := [];
    for k := 0 to |components|
      invariant ranked == SortDesc(components[..k], Size)
    {
      assert components[..k + 1][..k] == components[..k];
      ranked := InsertComponent(ranked, components[k]);
    }
    assert components[..|components|] == components;
    SortDescSorts(components, Size);
  }

  /** The ranked component list: largest first, ties by descending id, nothing lost and the sizes preserved. */
  lemma RankedComponentList(marks: Marks, n: int)
    ensures var ranked := SortDesc(ComponentList(marks, n), Size);
      NonIncreasing(ranked, Size) && TiesByDescendingId(ranked) &&
      multiset(ranked) == multiset(ComponentList(marks, n)) &&
      SumOf(ranked, Size) == SumOf(ComponentList(marks, n), Size)
  {
    var cl := ComponentList(marks, n);
    SortDescSorts(cl, Size);
    RankedTies(cl);
    SumOfPermutation(SortDesc(cl, Size), cl, Size);
  }

  // The mask of the two largest components.

  /** top_two: 0 (white) where the label is one of the two ids, 1 (black) everywhere else. */
  method TopTwoMask(mark: array2<int>, first: int, second: int) returns (top: array2<int>)
    ensures fresh(top) && top.Length0 == mark.Length0 && top.Length1 == mark.Length1
    ensures forall r, c :: 0 <= r < top.Length0 && 0 <= c < top.Length1 ==>
      (top[r, c] == 0 <==> mark[r, c] == first || mark[r, c] == second) && (top[r, c] == 0 || top[r, c] == 1)
  {
    top := new int[mark.Length0, mark.Length1]((r, c) => 1);
    for row := 0 to mark.Length0
      invariant forall r, c :: 0 <= r < top.Length0 && 0 <= c < top.Length1 ==>
        top[r, c] == if r < row && (mark[r, c] == first || mark[r, c] == second) then 0 else 1
    {
      for col := 0 to mark.Length1
        invariant forall r, c :: 0 <= r < top.Length0 && 0 <= c < top.Length1 ==>
          top[r, c] == if Before((r, c), (row, col)) && (mark[r, c] == first || mark[r, c] == second) then 0 else 1
      {
        var pixel := mark[row, col];
        if pixel == first || pixel == second {
          top[row, col] := 0;
        }
      }
    }
  }

  // The whole function.

  /** Every cell of the grid is 0. */
  ghost predicate AllZero(mark: array2<int>)
    reads mark
  {
    forall r, c :: 0 <= r < mark.Length0 && 0 <= c < mark.Length1 ==> mark[r, c] == 0
  }

  /** num is the largest non-zero label of the grid: some cell carries it and no non-zero label exceeds it. */
  ghost predicate LargestLabel(mark: array2<int>, num: int)
    reads mark
  {
    num != 0 &&
    (exists r, c :: 0 <= r < mark.Length0 && 0 <= c < mark.Length1 && mark[r, c] == num) &&
    (forall r, c :: 0 <= r < mark.Length0 && 0 <= c < mark.Length1 && mark[r, c] != 0 ==> mark[r, c] <= num)
  }

  /** No label survives the filter exactly when every cell is 0. */
  lemma LabelsAllZero(mark: array2<int>, labels: seq<int>)
    requires labels == [] && forall k :: k != 0 ==> multiset(labels)[k] == |CellsWith(Snap(mark), k)|
    ensures AllZero(mark)
  {
    var marks := Snap(mark);
    forall r, c | 0 <= r < mark.Length0 && 0 <= c < mark.Length1
      ensures mark[r, c] == 0
    {
      assert mark[r, c] != 0 ==> (r, c) in CellsWith(marks, mark[r, c]);
    }
  }

  /** The largest surviving label is the largest non-zero label of the grid, and some cell carries it. */
  lemma LargestIsLabel(mark: array2<int>, labels: seq<int>, num: int)
    requires 0 !in labels && forall k :: k != 0 ==> multiset(labels)[k] == |CellsWith(Snap(mark), k)|
    requires num in labels && forall x :: x in labels ==> x <= num
    ensures LargestLabel(mark, num) && !AllZero(mark)
  {
    var marks := Snap(mark);
    assert multiset(labels)[num] > 0;
    var q :| q in CellsWith(marks, num);
    assert mark[q.0, q.1] == num;
    forall r, c | 0 <= r < mark.Length0 && 0 <= c < mark.Length1 && mark[r, c] != 0
      ensures mark[r, c] <= num
    {
      var v := mark[r, c];
      assert (r, c) in CellsWith(marks, v);
      assert multiset(labels)[v] > 0;
      assert v in labels;
    }
  }

  /**
   * The first half of detect_connected_components_sorted: the ranked component list, or the ValueError
   * that max raises when no label is non-zero.
   */
  method RankLabels(mark: array2<int>) returns (report: Result<seq<Component>>, num: int)
    ensures report.Err? <==> AllZero(mark)
    ensures report.Err? ==> report.error == ValueError
    ensures report.Ok? ==> LargestLabel(mark, num) && report.value == SortDesc(ComponentList(Snap(mark), num), Size)
  {
    var labels := NonZeroLabels(mark);
    var largest := Largest(labels);
    if largest.Err? {
      LabelsAllZero(mark, labels);
      return Err(ValueError), 0;
    }
    num := largest.value;
    LargestIsLabel(mark, labels, num);
    var components := CountComponents(labels, num);
    CountsAreComponentList(Snap(mark), labels, components, num);
    var ranked := RankComponents(components);
    report := Ok(ranked);
  }

  /**
   * detect_connected_components_sorted, with the report file returned as the ranked list it lists (its
   * total line is that list's length). No non-zero label: ValueError from max before anything is
   * written. Fewer than two components: the report is written, then reading the second entry raises
   * IndexError.
   */
  method DetectConnectedComponentsSorted(mark: array2<int>)
    returns (report: Result<seq<Component>>, top: Result<array2<int>>, num: int)
    ensures report.Err? <==> AllZero(mark)
    ensures report.Err? ==> report.error == ValueError && top == Err(ValueError)
    ensures report.Ok? ==> LargestLabel(mark, num) && report.value == SortDesc(ComponentList(Snap(mark), num), Size)
    ensures top.Ok? <==> report.Ok? && |report.value| >= 2
    ensures report.Ok? && |report.value| < 2 ==> top == Err(IndexError)
    ensures top.Ok? ==> fresh(top.value) && top.value.Length0 == mark.Length0 && top.value.Length1 == mark.Length1
    ensures top.Ok? ==> forall r, c :: 0 <= r < mark.Length0 && 0 <= c < mark.Length1 ==>
      (top.value[r, c] == 0 <==> mark[r, c] == report.value[0].id || mark[r, c] == report.value[1].id) &&
      (top.value[r, c] == 0 || top.value[r, c] == 1)
  {
    report, num := RankLabels(mark);
    if report.Err? {
      return report, Err(ValueError), num;
    }
    var ranked := report.value;
    if |ranked| < 2 {
      return report, Err(IndexError), num;
    }
    var mask := TopTwoMask(mark, ranked[0].id, ranked[1].id);
    top := Ok(mask);
  }
}
