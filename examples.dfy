/** Worked instances of the list utilities and the ranking rule. */
module Examples {
  import opened Utils
  import opened Labeling

  /** Steps of the examples below: the first two insertions of sort_list([3, 1, 2, 4]). */
  lemma SortThreeOne()
    ensures SortDesc([3, 1], Identity) == [3, 1]
  {
    assert [3, 1][..1] == [3];
    assert SortDesc([3], Identity) == [3];
    assert InsertPos([3], 1, Identity) == 1;
  }

  /** The third insertion: [3, 1] then 2 gives [3, 2, 1]. */
  lemma SortThreeOneTwo()
    ensures SortDesc([3, 1, 2], Identity) == [3, 2, 1]
  {
    assert [3, 1, 2][..2] == [3, 1];
    SortThreeOne();
    assert InsertPos([3, 1], 2, Identity) == 1;
  }

  /** sort_list([3, 1, 2, 4]) is [4, 3, 2, 1]. */
  lemma SortListExample()
    ensures SortDesc([3, 1, 2, 4], Identity) == [4, 3, 2, 1]
  {
    assert [3, 1, 2, 4][..3] == [3, 1, 2];
    SortThreeOneTwo();
    assert InsertPos([3, 2, 1], 4, Identity) == 0;
  }

  /** median([3, 1, 2]) reads 2 at both middle positions of the sorted list [3, 2, 1]. */
  lemma MedianExample()
    ensures var s := SortDesc([3, 1, 2], Identity); s[3 / 2] == 2 && s[3 - 1 - 3 / 2] == 2
  {
    SortThreeOneTwo();
  }

  /** Ranking components 1 (3 cells), 2 (5 cells), 3 (3 cells): the tie puts 3 before 1. */
  lemma RankingExample()
    ensures SortDesc([Component(1, 3), Component(2, 5), Component(3, 3)], Size) ==
      [Component(2, 5), Component(3, 3), Component(1, 3)]
  {
    var s := [Component(1, 3), Component(2, 5), Component(3, 3)];
    assert s[..2] == [Component(1, 3), Component(2, 5)] && s[..2][..1] == [Component(1, 3)];
    assert SortDesc([Component(1, 3)], Size) == [Component(1, 3)];
    assert InsertPos([Component(1, 3)], Component(2, 5), Size) == 0;
    assert SortDesc(s[..2], Size) == [Component(2, 5), Component(1, 3)];
    assert InsertPos([Component(2, 5), Component(1, 3)], Component(3, 3), Size) == 1;
  }
}
