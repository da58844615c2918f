/**
 * The image-name lists behind the scrolling image lists
 * (iOSPerfBenchmark/ContentView.swift and iOSPerfBenchmark/ImageListBenchmark.swift).
 *
 * Each row shows `Array(repeating: ["image1", "image2", "image3"], count: 10)`
 * flattened: the three names tiled ten times. The outer list has one row per
 * index in `0..<300`.
 */
module ImageLists {

  import Arithmetic

  const BaseImages: seq<string> := ["image1", "image2", "image3"]
  /** How many times the three names are tiled in a row. */
  const Repeats: nat := 10
  /** Rows in the outer list. */
  const RowCount: nat := 300

  /** `Array(repeating: x, count: count)`. */
  function Repeating<T>(x: T, count: nat): (r: seq<T>)
    ensures |r| == count
    ensures forall i :: 0 <= i < count ==> r[i] == x
    decreases count
  {
    if count == 0 then [] else [x] + Repeating(x, count - 1)
  }

  /** The sum of the lengths of the inner sequences. */
  function TotalLength<T>(ss: seq<seq<T>>): nat
    decreases |ss|
  {
    if ss == [] then 0 else |ss[0]| + TotalLength(ss[1..])
  }

  /** `flatMap { $0 }`: the inner sequences one after another. */
  function Flattened<T>(ss: seq<seq<T>>): (r: seq<T>)
    // every element of every inner sequence, and nothing else
    ensures |r| == TotalLength(ss)
    ensures forall x :: x in r ==> exists k :: 0 <= k < |ss| && x in ss[k]
    ensures forall k, x :: 0 <= k < |ss| && x in ss[k] ==> x in r
    decreases |ss|
  {
    if ss == [] then [] else ss[0] + Flattened(ss[1..])
  }

  /**
   * Tiling `xs` `n` times gives `n * |xs|` elements, and element `i` is
   * element `i mod |xs|` of `xs`.
   */
  lemma {:induction false} TiledAt<T>(xs: seq<T>, n: nat)
    requires |xs| > 0
    ensures |Flattened(Repeating(xs, n))| == n * |xs|
    ensures forall i :: 0 <= i < n * |xs| ==> Flattened(Repeating(xs, n))[i] == xs[i % |xs|]
    decreases n
  {
    if n > 0 {
      TiledAt(xs, n - 1);
      var reps := Repeating(xs, n);
      assert reps[0] == xs;
      assert reps[1..] == Repeating(xs, n - 1);
      var rest := Flattened(Repeating(xs, n - 1));
      assert Flattened(reps) == xs + rest;
      assert n * |xs| == |xs| + (n - 1) * |xs|;
      forall i | 0 <= i < n * |xs|
        ensures Flattened(reps)[i] == xs[i % |xs|]
      {
        if i >= |xs| {
          assert Flattened(reps)[i] == rest[i - |xs|];
          assert rest[i - |xs|] == xs[(i - |xs|) % |xs|];
          Arithmetic.ModShift(i, |xs|);
        } else {
          Arithmetic.ModUnique(i, |xs|, 0, i);
        }
      }
    }
  }

  /** The image names of one row: 30 names cycling through the three images. */
  function ImageRow(): (r: seq<string>)
    ensures |r| == |BaseImages| * Repeats == 30
    ensures forall i :: 0 <= i < |r| ==> r[i] == BaseImages[i % 3]
  {
    TiledAt(BaseImages, Repeats);
    Flattened(Repeating(BaseImages, Repeats))
  }

  /** The range `0..<n`. */
  function Range(n: nat): (r: seq<int>)
    ensures |r| == n
    ensures forall i :: 0 <= i < n ==> r[i] == i
  {
    seq(n, i => i)
  }

  /** `ListItem(index:)`: a row showing the image row; its index does not change it. */
  function ListItem(index: int): (r: seq<string>)
    // whatever the index, the row is the 30-name image row
    ensures |r| == 30
    ensures forall j :: 0 <= j < |r| ==> r[j] == BaseImages[j % 3]
  {
    ImageRow()
  }

  /** `ContentView`'s list: one `ListItem` per index in `0..<300`. */
  function ContentRows(): (rows: seq<seq<string>>)
    ensures |rows| == RowCount
    ensures forall i :: 0 <= i < |rows| ==> |rows[i]| == 30
    ensures forall i, j :: 0 <= i < |rows| && 0 <= j < |rows[i]| ==> rows[i][j] == BaseImages[j % 3]
  {
    var indices := Range(RowCount);
    seq(|indices|, k requires 0 <= k < |indices| => ListItem(indices[k]))
  }

  /** `ImageListBenchmark`'s list: one image row per index in `0..<300`. */
  function BenchmarkRows(): (rows: seq<seq<string>>)
    ensures |rows| == RowCount
    ensures forall i :: 0 <= i < |rows| ==> |rows[i]| == 30
    ensures forall i, j :: 0 <= i < |rows| && 0 <= j < |rows[i]| ==> rows[i][j] == BaseImages[j % 3]
  {
    seq(|Range(RowCount)|, _ => ImageRow())
  }

  /** Both screens list the same 300 rows of image names. */
  lemma SameRows()
    ensures ContentRows() == BenchmarkRows()
  {
    var c, b := ContentRows(), BenchmarkRows();
    forall i | 0 <= i < RowCount
      ensures c[i] == b[i]
    {
      assert c[i] == ImageRow();
    }
  }
}
