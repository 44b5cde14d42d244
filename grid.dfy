/**
 * Cells of an image, the eight-cell neighbourhood, raster order, and the connectivity relation between
 * foreground cells that the component labeler is meant to compute.
 */
module Grid {

  /** A cell as (row, column), the tuples the labeler queues. */
  type Cell = (int, int)

  /** A pixel is foreground when its intensity is strictly above this value. */
  const Cutoff := 200

  predicate InGrid(p: Cell, height: int, width: int)
  {
    0 <= p.0 < height && 0 <= p.1 < width
  }

  /** q is one of the eight cells around p: row and column each move by at most one, and q is not p. */
  predicate Adjacent(p: Cell, q: Cell)
  {
    p != q && -1 <= q.0 - p.0 <= 1 && -1 <= q.1 - p.1 <= 1
  }

  /** p comes strictly before q in raster order (rows top to bottom, columns left to right). */
  predicate Before(p: Cell, q: Cell)
  {
    p.0 < q.0 || (p.0 == q.0 && p.1 < q.1)
  }

  ghost predicate Fg(img: array2<int>, p: Cell)
    reads img
  {
    InGrid(p, img.Length0, img.Length1) && img[p.0, p.1] > Cutoff
  }

  /** A non-empty chain of foreground cells, each adjacent to the next. */
  ghost predicate IsPath(img: array2<int>, path: seq<Cell>)
    reads img
  {
    |path| > 0 &&
    (forall i :: 0 <= i < |path| ==> Fg(img, path[i])) &&
    (forall i :: 0 <= i < |path| - 1 ==> Adjacent(path[i], path[i + 1]))
  }

  /** An 8-connected chain of foreground cells leads from p to q. */
  ghost predicate Connected(img: array2<int>, p: Cell, q: Cell)
    reads img
  {
    exists path {:trigger IsPath(img, path)} :: IsPath(img, path) && path[0] == p && path[|path| - 1] == q
  }

  lemma ConnectedSelf(img: array2<int>, p: Cell)
    requires Fg(img, p)
    ensures Connected(img, p, p)
  {
    assert IsPath(img, [p]);
  }

  /** A chain that reaches q goes on to any foreground cell next to q. */
  lemma ConnectedStep(img: array2<int>, p: Cell, q: Cell, n: Cell)
    requires Connected(img, p, q) && Adjacent(q, n) && Fg(img, n)
    ensures Connected(img, p, n)
  {
    var path :| IsPath(img, path) && path[0] == p && path[|path| - 1] == q;
    var longer := path + [n];
    assert forall i :: 0 <= i < |path| ==> longer[i] == path[i];
    assert IsPath(img, longer);
  }

  lemma ConnectedSymmetric(img: array2<int>, p: Cell, q: Cell)
    requires Connected(img, p, q)
    ensures Connected(img, q, p)
  {
    var path :| IsPath(img, path) && path[0] == p && path[|path| - 1] == q;
    var n := |path|;
    var back := seq(n, i requires 0 <= i < n => path[n - 1 - i]);
    forall i | 0 <= i < n - 1
      ensures Adjacent(back[i], back[i + 1])
    {
      assert Adjacent(path[n - 2 - i], path[n - 1 - i]);
    }
    assert IsPath(img, back);
  }

  lemma ConnectedTransitive(img: array2<int>, p: Cell, q: Cell, s: Cell)
    requires Connected(img, p, q) && Connected(img, q, s)
    ensures Connected(img, p, s)
  {
    var first :| IsPath(img, first) && first[0] == p && first[|first| - 1] == q;
    var second :| IsPath(img, second) && second[0] == q && second[|second| - 1] == s;
    var joined := first + second[1..];
    var m := |first|;
    forall i | 0 <= i < |joined| - 1
      ensures Adjacent(joined[i], joined[i + 1])
    {
      if i < m - 1 {
        assert joined[i] == first[i] && joined[i + 1] == first[i + 1];
      } else {
        assert joined[i] == second[i - m + 1] && joined[i + 1] == second[i - m + 2];
      }
    }
    assert IsPath(img, joined);
  }

  /** A label grid as a value: the label held at every cell of the image. */
  type Marks = map<Cell, int>

  /** The label grid currently stored in the array m. */
  ghost function Snap(m: array2<int>): (s: Marks)
    reads m
    ensures forall q {:trigger q in s} :: q in s <==> InGrid(q, m.Length0, m.Length1)
    ensures forall r, c {:trigger m[r, c]} :: 0 <= r < m.Length0 && 0 <= c < m.Length1 ==> (r, c) in s && s[(r, c)] == m[r, c]
  {
    map r, c | 0 <= r < m.Length0 && 0 <= c < m.Length1 :: (r, c) := m[r, c]
  }

  /** The cells labelled k. */
  ghost function CellsWith(marks: Marks, k: int): set<Cell>
  {
    set q | q in marks && marks[q] == k
  }

  /** The cells carrying a non-zero label. */
  ghost function LabeledCells(marks: Marks): set<Cell>
  {
    set q | q in marks && marks[q] != 0
  }

  /** The foreground cells of an intensity image. */
  ghost function FgCells(img: array2<int>): set<Cell>
    reads img
  {
    set r, c | 0 <= r < img.Length0 && 0 <= c < img.Length1 && img[r, c] > Cutoff :: (r, c)
  }
}
