/** How the ranking reads the label grid that detect_connected_components produces. */
module Pipeline {
  import opened Utils
  import opened Grid
  import opened Labeling
  import opened Ranking

  /** Every ranked entry is a real id with the number of cells that carry it. */
  lemma RankedEntries(marks: Marks, n: int)
    ensures forall c :: c in SortDesc(ComponentList(marks, n), Size) ==>
      1 <= c.id <= n && c.size == |CellsWith(marks, c.id)|
  {
    var cl := ComponentList(marks, n);
    SortDescSorts(cl, Size);
    forall c | c in SortDesc(cl, Size)
      ensures 1 <= c.id <= n && c.size == |CellsWith(marks, c.id)|
    {
      assert c in multiset(cl);
      var j :| 0 <= j < |cl| && cl[j] == c;
    }
  }

  /** On a grid labelled 1..count with every id present, the largest label is count. */
  lemma LargestLabelIsCount(mark: array2<int>, count: int, seeds: seq<Cell>, num: int)
    requires |seeds| == count
    requires forall r, c :: 0 <= r < mark.Length0 && 0 <= c < mark.Length1 ==> 0 <= mark[r, c] <= count
    requires forall j :: 0 <= j < count ==>
      InGrid(seeds[j], mark.Length0, mark.Length1) && mark[seeds[j].0, seeds[j].1] == j + 1
    ensures AllZero(mark) <==> count == 0
    ensures LargestLabel(mark, num) ==> num == count
  {
    if count > 0 {
      var last := seeds[count - 1];
      assert mark[last.0, last.1] == count;
    }
    if LargestLabel(mark, num) {
      var r, c :| 0 <= r < mark.Length0 && 0 <= c < mark.Length1 && mark[r, c] == num;
      if count > 0 {
        var last := seeds[count - 1];
        assert mark[last.0, last.1] == count;
      }
    }
  }

  /**
   * Detection followed by ranking: the largest label is the number of components found, so the report
   * ranks the very list detection returned.
   */
  lemma RankingAfterDetection(mark: array2<int>, count: int, seeds: seq<Cell>, components: seq<Component>,
                              num: int)
    requires |seeds| == count
    requires forall r, c :: 0 <= r < mark.Length0 && 0 <= c < mark.Length1 ==> 0 <= mark[r, c] <= count
    requires forall j :: 0 <= j < count ==>
      InGrid(seeds[j], mark.Length0, mark.Length1) && mark[seeds[j].0, seeds[j].1] == j + 1
    requires components == ComponentList(Snap(mark), count) && LargestLabel(mark, num)
    ensures SortDesc(ComponentList(Snap(mark), num), Size) == SortDesc(components, Size)
  {
    LargestLabelIsCount(mark, count, seeds, num);
  }

  /**
   * The mask after detection: a cell is white (0) exactly when it is a foreground pixel of one of the two
   * first-ranked components and black (1) everywhere else, and those two are at least as large as every
   * other component.
   */
  lemma TopTwoAfterDetection(img: array2<int>, mark: array2<int>, top: array2<int>, n: int)
    requires mark.Length0 == img.Length0 && mark.Length1 == img.Length1
    requires top.Length0 == mark.Length0 && top.Length1 == mark.Length1
    requires forall r, c :: 0 <= r < mark.Length0 && 0 <= c < mark.Length1 ==> (mark[r, c] == 0 <==> img[r, c] <= Cutoff)
    requires |SortDesc(ComponentList(Snap(mark), n), Size)| >= 2
    requires var ranked := SortDesc(ComponentList(Snap(mark), n), Size);
      forall r, c :: 0 <= r < mark.Length0 && 0 <= c < mark.Length1 ==>
        (top[r, c] == 0 <==> mark[r, c] == ranked[0].id || mark[r, c] == ranked[1].id) && (top[r, c] == 0 || top[r, c] == 1)
    ensures var ranked := SortDesc(ComponentList(Snap(mark), n), Size);
      (forall r, c :: 0 <= r < mark.Length0 && 0 <= c < mark.Length1 ==>
        (top[r, c] == 0 <==> img[r, c] > Cutoff && (mark[r, c] == ranked[0].id || mark[r, c] == ranked[1].id)) &&
        (top[r, c] == 1 <==> img[r, c] <= Cutoff || (mark[r, c] != ranked[0].id && mark[r, c] != ranked[1].id))) &&
      (forall j :: 1 <= j < |ranked| ==> ranked[0].size >= ranked[1].size >= ranked[j].size)
  {
    var ranked := SortDesc(ComponentList(Snap(mark), n), Size);
    RankedEntries(Snap(mark), n);
    RankedComponentList(Snap(mark), n);
    assert ranked[0] in ranked && ranked[1] in ranked;
    forall j | 1 <= j < |ranked|
      ensures ranked[0].size >= ranked[1].size >= ranked[j].size
    {
      assert Size(ranked[0]) >= Size(ranked[1]);
      if j > 1 {
        assert Size(ranked[1]) >= Size(ranked[j]);
      }
    }
  }
}
