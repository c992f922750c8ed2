/** The nearest-target column search of `RsDeviceHandCatch.WaitForFrames`.

    Each frame, 96 depth samples are read along the centre row of the depth
    image, invalid (non-positive) samples are dropped, the smallest remaining
    depth is found, every window index holding that depth is collected, and
    the midpoint of the lowest and highest such index is mapped back to a
    pixel column. */
module NearestTarget {
  import opened Outcomes

  /** Number of samples in the search window (`searchSize`). */
  const SearchSize: nat := 96
  /** Image column and row the window is centred on (a 640x480 depth stream). */
  const CenterColumn: int := 320
  const SearchRow: int := 240
  /** The first and last image column the window reads. */
  const FirstColumn: int := 273
  const LastColumn: int := 368

  /** A depth frame, as the distance (metres) it reports at a column and row;
      zero marks a pixel with no valid depth. */
  type DepthFrame = (int, int) -> real

  /** Image column at which window index `i` is sampled. */
  function ColumnOf(i: int): (col: int)
    ensures 0 <= i < SearchSize <==> FirstColumn <= col <= LastColumn
  {
    CenterColumn - SearchSize / 2 + (i + 1)
  }

  /** Window index at which image column `col` is stored. */
  function IndexOfColumn(col: int): (i: int)
    ensures FirstColumn <= col <= LastColumn <==> 0 <= i < SearchSize
  {
    col - FirstColumn
  }

  /** The two maps between window indices and image columns are inverse. */
  lemma ColumnIndexRoundTrip(i: int, col: int)
    ensures IndexOfColumn(ColumnOf(i)) == i
    ensures ColumnOf(IndexOfColumn(col)) == col
  {
  }

  /** Column 272, which a comment on the sampling loop names as the left
      end of the window, is never read. */
  lemma Column272NotSampled(i: int)
    requires 0 <= i < SearchSize
    ensures ColumnOf(i) != 272
  {
  }

  /** The sampling loop: `arrayDepth[i]` is the depth at column `ColumnOf(i)`
      of the centre row. */
  function ReadWindow(frame: DepthFrame): (w: seq<real>)
    ensures |w| == SearchSize
    ensures forall i :: 0 <= i < SearchSize ==> w[i] == frame(ColumnOf(i), SearchRow)
  {
    seq(SearchSize, i requires 0 <= i < SearchSize => frame(ColumnOf(i), SearchRow))
  }

  /** Every column from 273 to 368 of the centre row is read, into the slot
      `IndexOfColumn` names. */
  lemma EveryColumnRead(frame: DepthFrame, col: int)
    requires FirstColumn <= col <= LastColumn
    ensures ReadWindow(frame)[IndexOfColumn(col)] == frame(col, SearchRow)
  {
  }

  /** `arrayDepth.Where(x => x > 0)`: the valid samples, in window order. */
  function Positives(w: seq<real>): (r: seq<real>)
    ensures |r| <= |w|
    ensures forall x :: x in r <==> x in w && x > 0.0
    ensures forall x {:trigger multiset(r)[x]} :: multiset(r)[x] == (if x > 0.0 then multiset(w)[x] else 0)
  {
    if |w| == 0 then []
    else
      assert w == [w[0]] + w[1..];
      (if w[0] > 0.0 then [w[0]] else []) + Positives(w[1..])
  }

  /** Filtering a sample followed by the rest: the sample is kept in front
      exactly when it is valid. */
  lemma PositivesCons(x: real, s: seq<real>)
    ensures Positives([x] + s) == (if x > 0.0 then [x] else []) + Positives(s)
  {
    assert ([x] + s)[0] == x;
    assert ([x] + s)[1..] == s;
  }

  /** The filter keeps window order: filtering a concatenation filters each
      part and concatenates the results, so with `PositivesCons` the valid
      samples come out exactly as they stand in the window. */
  lemma {:induction false} PositivesAppend(a: seq<real>, b: seq<real>)
    ensures Positives(a + b) == Positives(a) + Positives(b)
    decreases |a|
  {
    if |a| == 0 {
      assert a + b == b;
    } else {
      var head := if a[0] > 0.0 then [a[0]] else [];
      assert a == [a[0]] + a[1..];
      assert a + b == [a[0]] + (a[1..] + b);
      PositivesCons(a[0], a[1..] + b);
      PositivesCons(a[0], a[1..]);
      PositivesAppend(a[1..], b);
      assert head + (Positives(a[1..]) + Positives(b)) == (head + Positives(a[1..])) + Positives(b);
    }
  }

  /** `Enumerable.Min` over a non-empty sequence of depths. */
  function MinOf(s: seq<real>): (m: real)
    requires |s| > 0
    ensures m in s
    ensures forall x :: x in s ==> m <= x
  {
    if |s| == 1 then s[0]
    else
      assert s == [s[0]] + s[1..];
      var rest := MinOf(s[1..]);
      if s[0] <= rest then s[0] else rest
  }

  /** `minDepth`: the smallest valid sample, or the fault `Min()` raises when
      the window holds no valid sample at all. */
  function MinDepth(w: seq<real>): (r: Result<real>)
    ensures r.Err? <==> forall i :: 0 <= i < |w| ==> w[i] <= 0.0
    ensures r.Err? ==> r.fault == EmptySequence
    ensures r.Ok? ==> r.value > 0.0 && r.value in w
    ensures r.Ok? ==> forall i :: 0 <= i < |w| && w[i] > 0.0 ==> r.value <= w[i]
  {
    var valid := Positives(w);
    if |valid| == 0 then
      assert forall i :: 0 <= i < |w| ==> w[i] in w;
      Err(EmptySequence)
    else
      assert valid[0] in valid;
      assert forall i :: 0 <= i < |w| && w[i] > 0.0 ==> w[i] in valid;
      Ok(MinOf(valid))
  }

  /** Replacing an invalid sample by another invalid sample leaves the set of
      valid samples, in order, unchanged. */
  lemma {:induction false} PositivesIgnoresInvalid(w: seq<real>, i: int, v: real)
    requires 0 <= i < |w|
    requires w[i] <= 0.0 && v <= 0.0
    ensures Positives(w[i := v]) == Positives(w)
    decreases |w|
  {
    if i > 0 {
      assert w[i := v][1..] == w[1..][i - 1 := v];
      PositivesIgnoresInvalid(w[1..], i - 1, v);
    } else {
      assert w[i := v][1..] == w[1..];
    }
  }

  /** Invalid samples never influence `minDepth`. */
  lemma MinDepthIgnoresInvalid(w: seq<real>, i: int, v: real)
    requires 0 <= i < |w|
    requires w[i] <= 0.0 && v <= 0.0
    ensures MinDepth(w[i := v]) == MinDepth(w)
  {
    PositivesIgnoresInvalid(w, i, v);
  }

  /** The collection loop from index `i` on, appending to `list` each index
      whose sample equals `m` (`listXPos.Add(i)`). */
  function CollectFrom(list: seq<int>, w: seq<real>, m: real, i: nat): (r: seq<int>)
    requires i <= |w|
    requires forall k :: 0 <= k < |list| ==> list[k] < i
    requires forall k, l :: 0 <= k < l < |list| ==> list[k] < list[l]
    ensures |list| <= |r| && r[..|list|] == list
    ensures forall k :: |list| <= k < |r| ==> i <= r[k] < |w| && w[r[k]] == m
    ensures forall j :: i <= j < |w| && w[j] == m ==> j in r
    ensures forall k, l :: 0 <= k < l < |r| ==> r[k] < r[l]
    decreases |w| - i
  {
    if i == |w| then list
    else
      var next := if w[i] == m then list + [i] else list;
      var r := CollectFrom(next, w, m, i + 1);
      assert w[i] == m ==> r[..|next|][|list|] == i;
      r
  }

  /** `listXPos` after it is cleared and the collection loop has run: exactly
      the window indices whose sample equals `m`, in increasing order. */
  function Minimisers(w: seq<real>, m: real): (xs: seq<int>)
    ensures forall k :: 0 <= k < |xs| ==> 0 <= xs[k] < |w| && w[xs[k]] == m
    ensures forall j :: 0 <= j < |w| && w[j] == m ==> j in xs
    ensures forall k, l :: 0 <= k < l < |xs| ==> xs[k] < xs[l]
    ensures |xs| > 0 <==> m in w
  {
    var xs := CollectFrom([], w, m, 0);
    assert m in w ==> exists j :: 0 <= j < |w| && w[j] == m && j in xs;
    assert |xs| > 0 ==> w[xs[0]] in w;
    xs
  }

  /** `listXPos.Min()`. */
  function Lowest(xs: seq<int>): (lo: int)
    requires |xs| > 0
    ensures lo in xs
    ensures forall k :: 0 <= k < |xs| ==> lo <= xs[k]
  {
    if |xs| == 1 then xs[0]
    else
      var rest := Lowest(xs[1..]);
      if xs[0] <= rest then xs[0] else rest
  }

  /** `listXPos.Max()`. */
  function Highest(xs: seq<int>): (hi: int)
    requires |xs| > 0
    ensures hi in xs
    ensures forall k :: 0 <= k < |xs| ==> xs[k] <= hi
  {
    if |xs| == 1 then xs[0]
    else
      var rest := Highest(xs[1..]);
      if xs[0] >= rest then xs[0] else rest
  }

  /** Index `i` holds a valid sample no valid sample is nearer than. */
  ghost predicate IsNearest(w: seq<real>, i: int)
  {
    0 <= i < |w| && w[i] > 0.0 && forall j :: 0 <= j < |w| && w[j] > 0.0 ==> w[i] <= w[j]
  }

  /** The indices holding `minDepth` are exactly the nearest ones. */
  lemma NearestIffMinDepth(w: seq<real>, i: int)
    requires MinDepth(w).Ok?
    ensures IsNearest(w, i) <==> 0 <= i < |w| && w[i] == MinDepth(w).value
  {
  }

  /** The collected indices of `minDepth` are exactly the nearest indices. */
  lemma MinimisersAreNearest(w: seq<real>)
    requires MinDepth(w).Ok?
    ensures var xs := Minimisers(w, MinDepth(w).value);
            && (forall k :: 0 <= k < |xs| ==> IsNearest(w, xs[k]))
            && (forall j :: IsNearest(w, j) ==> j in xs)
  {
  }

  /** `Lowest` and `Highest` of an increasing sequence are its first and
      last elements. */
  lemma {:induction false} IncreasingEnds(xs: seq<int>)
    requires |xs| > 0
    requires forall k, l :: 0 <= k < l < |xs| ==> xs[k] < xs[l]
    ensures Lowest(xs) == xs[0]
    ensures Highest(xs) == xs[|xs| - 1]
    decreases |xs|
  {
    if |xs| > 1 {
      var rest := xs[1..];
      assert forall k, l :: 0 <= k < l < |rest| ==> rest[k] < rest[l] by {
        forall k, l | 0 <= k < l < |rest|
          ensures rest[k] < rest[l]
        {
          assert rest[k] == xs[k + 1] && rest[l] == xs[l + 1];
        }
      }
      IncreasingEnds(rest);
      assert rest[0] == xs[1] && rest[|rest| - 1] == xs[|xs| - 1];
      assert xs[0] < xs[1] && xs[0] < xs[|xs| - 1];
    }
  }

  /** What the search finds in one frame: the nearest depth (`minDepth`), the
      window indices holding it (`listXPos`), the lowest and highest of them,
      their midpoint (`aveIndex`) and its image column (`avePixelX`). */
  datatype Target = Target(depth: real, indices: seq<int>, lowest: int, highest: int, index: int, column: int)

  /** `t` is the outcome the search promises for window `w`: its indices are
      exactly the nearest ones, in increasing order, and its index is the
      floor midpoint of the first and last of them. */
  ghost predicate Describes(w: seq<real>, t: Target)
  {
    && |t.indices| > 0
    && (forall k, l :: 0 <= k < l < |t.indices| ==> t.indices[k] < t.indices[l])
    && (forall k :: 0 <= k < |t.indices| ==> IsNearest(w, t.indices[k]))
    && (forall j :: IsNearest(w, j) ==> j in t.indices)
    && t.lowest == t.indices[0]
    && t.highest == t.indices[|t.indices| - 1]
    && t.depth == w[t.lowest]
    && t.index == (t.lowest + t.highest) / 2
    && t.column == ColumnOf(t.index)
  }

  /** The search of one window: `minDepth`, `listXPos`, `aveIndex` and
      `avePixelX`. */
  function Locate(w: seq<real>): (r: Result<Target>)
    requires |w| == SearchSize
    ensures r.Err? <==> forall i :: 0 <= i < |w| ==> w[i] <= 0.0
    ensures r.Ok? ==> Describes(w, r.value)
  {
    var minDepth :- MinDepth(w);
    var listXPos := Minimisers(w, minDepth);
    MinimisersAreNearest(w);
    IncreasingEnds(listXPos);
    var lo := Lowest(listXPos);
    var hi := Highest(listXPos);
    var aveIndex := (lo + hi) / 2;
    Ok(Target(minDepth, listXPos, lo, hi, aveIndex, ColumnOf(aveIndex)))
  }

  /** Bounds on a located target: its depth is the nearest valid depth, its
      index lies between the first and last nearest index and so inside the
      window, and its column lies in 273..368. */
  lemma TargetBounds(w: seq<real>, t: Target)
    requires |w| == SearchSize
    requires Describes(w, t)
    ensures IsNearest(w, t.lowest) && IsNearest(w, t.highest)
    ensures t.depth > 0.0
    ensures forall i :: 0 <= i < |w| && w[i] > 0.0 ==> t.depth <= w[i]
    ensures forall j :: IsNearest(w, j) ==> t.lowest <= j <= t.highest
    ensures t.lowest <= t.index <= t.highest
    ensures 0 <= t.index < SearchSize
    ensures FirstColumn <= t.column <= LastColumn
  {
  }

  /** A unique nearest sample is returned unchanged. */
  lemma UniqueNearestIsReturned(w: seq<real>, k: int)
    requires |w| == SearchSize
    requires IsNearest(w, k)
    requires forall j :: IsNearest(w, j) ==> j == k
    ensures Locate(w).Ok?
    ensures Locate(w).value.index == k && Locate(w).value.column == ColumnOf(k)
    ensures Locate(w).value.depth == w[k]
  {
  }

  /** The nearest samples forming one run [a, b]: the midpoint of the run is
      returned, and its sample is itself a nearest one. */
  lemma PlateauMidpoint(w: seq<real>, a: int, b: int)
    requires |w| == SearchSize
    requires 0 <= a <= b < SearchSize
    requires forall j :: a <= j <= b ==> IsNearest(w, j)
    requires forall j :: IsNearest(w, j) ==> a <= j <= b
    ensures Locate(w).Ok?
    ensures Locate(w).value.index == (a + b) / 2
    ensures IsNearest(w, Locate(w).value.index)
  {
    assert IsNearest(w, a);
    assert !(w[a] <= 0.0);
    RunMidpoint(w, Locate(w).value, a, b);
  }

  /** Any target that describes a window whose nearest samples form the run
      [a, b] has that run's ends as its lowest and highest index. */
  lemma RunMidpoint(w: seq<real>, t: Target, a: int, b: int)
    requires |w| == SearchSize
    requires Describes(w, t)
    requires 0 <= a <= b < SearchSize
    requires forall j :: a <= j <= b ==> IsNearest(w, j)
    requires forall j :: IsNearest(w, j) ==> a <= j <= b
    ensures t.index == (a + b) / 2
    ensures IsNearest(w, t.index)
  {
    assert IsNearest(w, a) && IsNearest(w, b);
    TargetBounds(w, t);
    assert t.lowest == a && t.highest == b;
  }

  /** When the nearest samples do not form one run, the midpoint index can
      hold a farther sample: nearest depth 1 at indices 0 and 2, depth 2 at
      index 1, no valid depth elsewhere. */
  lemma SplitNearestMidpointIsFarther()
    ensures var w := [1.0, 2.0, 1.0] + seq(SearchSize - 3, _ => 0.0);
            && Locate(w).Ok?
            && Locate(w).value.index == 1
            && w[1] != Locate(w).value.depth
  {
    var w := [1.0, 2.0, 1.0] + seq(SearchSize - 3, _ => 0.0);
    SplitWindow(w);
    assert Locate(w).Ok? by {
      assert !(w[0] <= 0.0);
    }
    TwoNearestMidpoint(w, Locate(w).value, 0, 2);
  }

  /** The window [1, 2, 1, 0, ...]: depth 1 at indices 0 and 2 is the nearest,
      and nothing else is. */
  lemma SplitWindow(w: seq<real>)
    requires w == [1.0, 2.0, 1.0] + seq(SearchSize - 3, _ => 0.0)
    ensures |w| == SearchSize && w[0] == 1.0 && w[1] == 2.0
    ensures IsNearest(w, 0) && IsNearest(w, 2)
    ensures forall j :: IsNearest(w, j) ==> j == 0 || j == 2
  {
    assert w[0] == 1.0 && w[1] == 2.0 && w[2] == 1.0;
    forall j | 3 <= j < |w|
      ensures w[j] == 0.0
    {
      assert w[j] == seq(SearchSize - 3, _ => 0.0)[j - 3];
    }
    assert IsNearest(w, 0) && IsNearest(w, 2);
    forall j | IsNearest(w, j)
      ensures j == 0 || j == 2
    {
      assert w[j] <= w[0];
    }
  }

  /** Any target that describes a window with exactly two nearest indices
      a < b has index (a + b) / 2. */
  lemma TwoNearestMidpoint(w: seq<real>, t: Target, a: int, b: int)
    requires |w| == SearchSize
    requires Describes(w, t)
    requires a < b && IsNearest(w, a) && IsNearest(w, b)
    requires forall j :: IsNearest(w, j) ==> j == a || j == b
    ensures t.index == (a + b) / 2
  {
    TargetBounds(w, t);
    assert t.lowest == a && t.highest == b;
  }
}
