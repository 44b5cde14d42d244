/**
 * The list utilities: accumulator loops over a list of integers, the descending insertion sort and the
 * median that reads the middle of the sorted list. The Python functions also reject non-numeric
 * elements with a TypeError; a typed `seq<int>` makes that case impossible.
 */
module Utils {
  import opened Errors

  /** The key under which integers themselves are ordered. */
  function Identity(x: int): int { x }

  /** The sum of f over the elements of s, accumulated from the front. */
  function SumOf<T>(s: seq<T>, f: T -> int): int
  {
    if s == [] then 0 else SumOf(s[..|s| - 1], f) + f(s[|s| - 1])
  }

  function Sum(s: seq<int>): int { SumOf(s, Identity) }

  lemma {:induction false} SumOfConcat<T>(a: seq<T>, b: seq<T>, f: T -> int)
    ensures SumOf(a + b, f) == SumOf(a, f) + SumOf(b, f)
    decreases |b|
  {
    if b == [] {
      assert a + b == a;
    } else {
      assert (a + b)[..|a + b| - 1] == a + b[..|b| - 1];
      SumOfConcat(a, b[..|b| - 1], f);
    }
  }

  /** Reordering a list does not change its sum. */
  lemma {:induction false} SumOfPermutation<T>(a: seq<T>, b: seq<T>, f: T -> int)
    requires multiset(a) == multiset(b)
    ensures SumOf(a, f) == SumOf(b, f)
    decreases |a|
  {
    if a != [] {
      var x, a' := a[|a| - 1], a[..|a| - 1];
      assert a == a' + [x];
      assert x in multiset(b);
      var i :| 0 <= i < |b| && b[i] == x;
      var b' := b[..i] + b[i + 1..];
      assert b == b[..i] + [x] + b[i + 1..];
      calc {
        multiset(a') + multiset{x};
        multiset(a);
        multiset(b);
        multiset(b[..i]) + multiset{x} + multiset(b[i + 1..]);
        multiset(b') + multiset{x};
      }
      assert multiset(a') == multiset(a) - multiset{x};
      assert multiset(b') == multiset(b) - multiset{x};
      SumOfPermutation(a', b', f);
      SumOfConcat(b[..i], [x], f);
      SumOfConcat(b[..i] + [x], b[i + 1..], f);
      SumOfConcat(b[..i], b[i + 1..], f);
      assert [x][..0] == [];
    }
  }

  /** sumvalues: the total of the list, 0 for the empty list. */
  method SumValues(values: seq<int>) returns (total: int)
    ensures total == Sum(values)
  {
    total := 0;
    for i := 0 to |values|
      invariant total == Sum(values[..i])
    {
      assert values[..i + 1][..i] == values[..i];
      total := total + values[i];
    }
    assert values[..|values|] == values;
  }

  /** length: the number of elements, counted one by one. */
  method Length<T>(values: seq<T>) returns (count: nat)
    ensures count == |values|
  {
    count := 0;
    for i := 0 to |values|
      invariant count == i
    {
      count := count + 1;
    }
  }

  /** maxvalue: the index of the first occurrence of the largest element; IndexError on the empty list. */
  method MaxValue(values: seq<int>) returns (r: Result<nat>)
    ensures r.Err? <==> values == []
    ensures r.Err? ==> r.error == IndexError
    ensures r.Ok? ==> r.value < |values|
    ensures r.Ok? ==> forall j :: 0 <= j < |values| ==> values[j] <= values[r.value]
    ensures r.Ok? ==> forall j :: 0 <= j < r.value ==> values[j] < values[r.value]
  {
    var n := Length(values);
    if n == 0 {
      return Err(IndexError);
    }
    var maxIndex := 0;
    for index := 0 to |values|
      invariant maxIndex < |values| && maxIndex <= index
      invariant forall j :: 0 <= j < index ==> values[j] <= values[maxIndex]
      invariant forall j :: 0 <= j < maxIndex ==> values[j] < values[maxIndex]
    {
      if values[index] > values[maxIndex] {
        maxIndex := index;
      }
    }
    return Ok(maxIndex);
  }

  /** minvalue: the index of the first occurrence of the smallest element; IndexError on the empty list. */
  method MinValue(values: seq<int>) returns (r: Result<nat>)
    ensures r.Err? <==> values == []
    ensures r.Err? ==> r.error == IndexError
    ensures r.Ok? ==> r.value < |values|
    ensures r.Ok? ==> forall j :: 0 <= j < |values| ==> values[r.value] <= values[j]
    ensures r.Ok? ==> forall j :: 0 <= j < r.value ==> values[r.value] < values[j]
  {
    var n := Length(values);
    if n == 0 {
      return Err(IndexError);
    }
    var minIndex := 0;
    for index := 0 to |values|
      invariant minIndex < |values| && minIndex <= index
      invariant forall j :: 0 <= j < index ==> values[minIndex] <= values[j]
      invariant forall j :: 0 <= j < minIndex ==> values[minIndex] < values[j]
    {
      if values[index] < values[minIndex] {
        minIndex := index;
      }
    }
    return Ok(minIndex);
  }

  /** The two operands of the mean's final division, which is left to the caller. */
  datatype Quotient = Quotient(numerator: int, denominator: nat)

  /** meannvalue, up to its division: the sum over the count; ZeroDivisionError on the empty list. */
  method MeanValue(values: seq<int>) returns (r: Result<Quotient>)
    ensures r.Err? <==> values == []
    ensures r.Err? ==> r.error == ZeroDivisionError
    ensures r.Ok? ==> r.value.numerator == Sum(values) && r.value.denominator == |values| > 0
  {
    var total, count := 0, 0;
    for i := 0 to |values|
      invariant total == Sum(values[..i]) && count == i
    {
      assert values[..i + 1][..i] == values[..i];
      total := total + values[i];
      count := count + 1;
    }
    assert values[..|values|] == values;
    if count == 0 {
      return Err(ZeroDivisionError);
    }
    return Ok(Quotient(total, count));
  }

  /** countvalue: how many elements equal xw; 0 for the empty list or an absent value. */
  method CountValue<T(==)>(values: seq<T>, xw: T) returns (count: nat)
    ensures count == multiset(values)[xw]
  {
    count := 0;
    for i := 0 to |values|
      invariant count == multiset(values[..i])[xw]
    {
      assert values[..i + 1] == values[..i] + [values[i]];
      if values[i] == xw {
        count := count + 1;
      }
    }
    assert values[..|values|] == values;
  }

  // The descending insertion rule shared by sort_list and the component ranker.

  /** s is ordered from the largest key to the smallest. */
  ghost predicate NonIncreasing<T>(s: seq<T>, key: T -> int)
  {
    forall i, j :: 0 <= i < j < |s| ==> key(s[i]) >= key(s[j])
  }

  /** Where x goes: just before the first entry e with key(x) >= key(e), or at the end when there is none. */
  function InsertPos<T>(s: seq<T>, x: T, key: T -> int): (i: nat)
    ensures i <= |s|
    ensures forall j :: 0 <= j < i ==> key(x) < key(s[j])
    ensures i < |s| ==> key(x) >= key(s[i])
    decreases |s|
  {
    if s == [] || key(x) >= key(s[0]) then 0 else 1 + InsertPos(s[1..], x, key)
  }

  function Insert<T>(s: seq<T>, x: T, key: T -> int): seq<T>
  {
    var i := InsertPos(s, x, key);
    s[..i] + [x] + s[i..]
  }

  /** The list the insertion rule builds when the elements of s arrive front to back. */
  function SortDesc<T>(s: seq<T>, key: T -> int): seq<T>
  {
    if s == [] then [] else Insert(SortDesc(s[..|s| - 1], key), s[|s| - 1], key)
  }

  /** Inserting by the rule keeps a non-increasing list non-increasing. */
  lemma InsertKeepsOrder<T>(s: seq<T>, x: T, key: T -> int)
    requires NonIncreasing(s, key)
    ensures NonIncreasing(Insert(s, x, key), key)
  {
    var i := InsertPos(s, x, key);
    var r := s[..i] + [x] + s[i..];
    assert forall j :: 0 <= j < i ==> r[j] == s[j];
    assert r[i] == x;
    assert forall j :: i < j < |r| ==> r[j] == s[j - 1];
    forall a, b | 0 <= a < b < |r|
      ensures key(r[a]) >= key(r[b])
    {
      if b < i {
        assert key(s[a]) >= key(s[b]);
      } else if b == i {
        assert key(x) < key(s[a]);
      } else if a > i {
        assert key(s[a - 1]) >= key(s[b - 1]);
      } else if a == i {
        assert key(x) >= key(s[i]);
        assert i == b - 1 || key(s[i]) >= key(s[b - 1]);
      } else {
        assert key(s[a]) >= key(s[b - 1]);
      }
    }
  }

  /** Inserting adds exactly x and loses nothing. */
  lemma InsertAddsOne<T>(s: seq<T>, x: T, key: T -> int)
    ensures multiset(Insert(s, x, key)) == multiset(s) + multiset{x}
  {
    var i := InsertPos(s, x, key);
    assert s == s[..i] + s[i..];
  }

  /** The first index at which the rule's test holds is the rule's insertion position. */
  lemma InsertAtFirstMatch<T>(s: seq<T>, x: T, key: T -> int, index: nat)
    requires index <= |s|
    requires forall j :: 0 <= j < index ==> key(x) < key(s[j])
    requires index < |s| ==> key(x) >= key(s[index])
    ensures Insert(s, x, key) == s[..index] + [x] + s[index..]
  {
    assert InsertPos(s, x, key) == index;
  }

  /** The insertion rule sorts: its result is non-increasing and a permutation of the input. */
  lemma {:induction false} SortDescSorts<T>(s: seq<T>, key: T -> int)
    ensures NonIncreasing(SortDesc(s, key), key)
    ensures multiset(SortDesc(s, key)) == multiset(s)
    ensures |SortDesc(s, key)| == |s|
    decreases |s|
  {
    if s != [] {
      var init := s[..|s| - 1];
      SortDescSorts(init, key);
      InsertKeepsOrder(SortDesc(init, key), s[|s| - 1], key);
      InsertAddsOne(SortDesc(init, key), s[|s| - 1], key);
      assert s == init + [s[|s| - 1]];
    }
  }

  /** sort_list: the list in descending order, built by inserting each element in turn. */
  method SortList(items: seq<int>) returns (sorted: seq<int>)
    ensures sorted == SortDesc(items, Identity)
    ensures NonIncreasing(sorted, Identity) && multiset(sorted) == multiset(items)
  {
    sorted := [];
    for k := 0 to |items|
      invariant sorted == SortDesc(items[..k], Identity)
    {
      var item := items[k];
      assert items[..k + 1][..k] == items[..k];
      var n := Length(sorted);
      if n == 0 {
        sorted := sorted + [item];
      } else {
        var index := 0;
        while index < |sorted| && item < sorted[index]
          invariant 0 <= index <= |sorted|
          invariant forall j :: 0 <= j < index ==> Identity(item) < Identity(sorted[j])
        {
          index := index + 1;
        }
        InsertAtFirstMatch(sorted, item, Identity, index);
        assert index == |sorted| ==> sorted[index..] == [];
        if index < |sorted| {
          sorted := sorted[..index] + [item] + sorted[index..];
        } else {
          sorted := sorted + [item];
        }
      }
    }
    assert items[..|items|] == items;
    SortDescSorts(items, Identity);
  }

  /** The two elements median averages: sorted[mid] and sorted[~mid], that is sorted[n - 1 - mid]. */
  datatype MiddlePair = MiddlePair(atMid: int, atMirror: int)

  /** median, up to its final division by 2; IndexError on the empty list. */
  method Median(values: seq<int>) returns (r: Result<MiddlePair>)
    ensures r.Err? <==> values == []
    ensures r.Err? ==> r.error == IndexError
    ensures r.Ok? ==> var s, mid := SortDesc(values, Identity), |values| / 2;
      |s| == |values| && r.value == MiddlePair(s[mid], s[|values| - 1 - mid])
    ensures r.Ok? ==> r.value.atMid in values && r.value.atMirror in values
    ensures r.Ok? ==> r.value.atMid <= r.value.atMirror
    ensures r.Ok? && |values| % 2 == 1 ==> r.value.atMid == r.value.atMirror
    ensures r.Ok? ==> var s := SortDesc(values, Identity);
      (forall j :: 0 <= j < |values| / 2 ==> s[j] >= r.value.atMid) &&
      (forall j :: |values| - 1 - |values| / 2 < j < |values| ==> s[j] <= r.value.atMirror)
  {
    var sorted := SortList(values);
    var mid := |sorted| / 2;
    if mid >= |sorted| {
      return Err(IndexError);
    }
    var mirror := -mid - 1;  // Python's ~mid, a negative index counted from the end
    r := Ok(MiddlePair(sorted[mid], sorted[|sorted| + mirror]));
    assert sorted[mid] in multiset(values) && sorted[|sorted| + mirror] in multiset(values);
  }
}
