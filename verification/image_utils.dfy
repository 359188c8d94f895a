/**
  The raster helpers of `utils.py`: horizontal banding with point counts,
  the inverse threshold followed by a rectangular dilation, the RGB to BGR
  channel reorder, and the box tuple arithmetic.

  Images are integer grids; the boolean grid of singular points is an
  input (the Harris corner response that produces it is floating point).
 */
module ImageUtils {
  import opened Outcomes

  // ---------------------------------------------------------------------
  // get_points_density

  /** The number of `true` cells of one row. */
  function CountRow(row: seq<bool>): (k: nat)
    ensures k <= |row|
  {
    if |row| == 0 then 0 else CountRow(row[..|row| - 1]) + (if row[|row| - 1] then 1 else 0)
  }

  /** `np.sum(points[s:e, ...])`: the `true` cells of rows `s` to `e - 1`. */
  function CountRows(points: seq<seq<bool>>, s: nat, e: nat): nat
    requires s <= e <= |points|
    decreases e - s
  {
    if e == s then 0 else CountRows(points, s, e - 1) + CountRow(points[e - 1])
  }

  /** Counting rows `[s, e)` is counting `[s, m)` and then `[m, e)`. */
  lemma {:induction false} CountRowsSplit(points: seq<seq<bool>>, s: nat, m: nat, e: nat)
    requires s <= m <= e <= |points|
    ensures CountRows(points, s, e) == CountRows(points, s, m) + CountRows(points, m, e)
    decreases e - m
  {
    if e > m {
      CountRowsSplit(points, s, m, e - 1);
    }
  }

  lemma MulMonotone(a: nat, b: nat, h: nat)
    requires a <= b
    ensures a * h <= b * h
  {
    assert b * h == a * h + (b - a) * h;
  }

  /** A non-zero multiplier of `n` is at least `n` away from zero. */
  lemma MulSign(d: int, n: nat)
    ensures d >= 1 ==> d * n >= n
    ensures d <= -1 ==> d * n + n <= 0
  {
    if d >= 1 {
      MulMonotone(1, d, n);
    } else if d <= -1 {
      MulMonotone(1, -d, n);
      assert (-d) * n == -(d * n);
    }
  }

  lemma MulSub(a: int, b: int, n: int)
    ensures (a - b) * n == a * n - b * n
  {
  }

  lemma DivMonotone(a: nat, b: nat, n: nat)
    requires a <= b && n > 0
    ensures a / n <= b / n
  {
    DivMod(a, n);
    DivMod(b, n);
    MulSub(a / n, b / n, n);
    MulSign(a / n - b / n, n);
  }

  lemma MulDivCancel(n: nat, h: nat)
    requires n > 0
    ensures n * h / n == h
  {
    assert n * h == h * n + 0;
    DivUnique(n * h, n, h, 0);
  }

  /**
    `int(np.linspace(0, h, n + 1)[i])`, idealised to exact arithmetic: the
    `i`-th of the `n + 1` evenly spaced borders, rounded down.
   */
  function Border(i: nat, h: nat, n: nat): (b: nat)
    requires 0 < n && i <= n
    ensures b <= h
    ensures i == 0 ==> b == 0
    ensures i == n ==> b == h
  {
    MulMonotone(i, n, h);
    DivMonotone(i * h, n * h, n);
    assert n * h == h * n;
    MulDivCancel(n, h);
    i * h / n
  }

  lemma BorderMonotone(i: nat, j: nat, h: nat, n: nat)
    requires 0 < n && i <= j <= n
    ensures Border(i, h, n) <= Border(j, h, n)
  {
    MulMonotone(i, j, h);
    DivMonotone(i * h, j * h, n);
  }

  /** numpy refuses a negative number of samples. */
  const NegativeSamples: string := "Number of samples must be non-negative"

  /** The `n` bands between consecutive borders: they run from the first row to the last without gap or overlap. */
  function Bands(h: nat, n: nat): (bands: seq<(nat, nat)>)
    requires 0 < n
    ensures |bands| == n
    ensures forall k :: 0 <= k < n ==> bands[k] == (Border(k, h, n), Border(k + 1, h, n))
    ensures forall k :: 0 <= k < n ==> bands[k].0 <= bands[k].1 <= h
    ensures forall k :: 0 <= k < n - 1 ==> bands[k].1 == bands[k + 1].0
    ensures bands[0].0 == 0 && bands[n - 1].1 == h
  {
    assert forall k :: 0 <= k < n ==> Border(k, h, n) <= Border(k + 1, h, n) by {
      forall k | 0 <= k < n ensures Border(k, h, n) <= Border(k + 1, h, n) {
        BorderMonotone(k, k + 1, h, n);
      }
    }
    seq(n, k requires 0 <= k < n => (Border(k, h, n), Border(k + 1, h, n)))
  }

  /** The singular points per band. */
  function Densities(points: seq<seq<bool>>, bands: seq<(nat, nat)>): (density: seq<nat>)
    requires forall k :: 0 <= k < |bands| ==> bands[k].0 <= bands[k].1 <= |points|
    ensures |density| == |bands|
    ensures forall k :: 0 <= k < |bands| ==> density[k] == CountRows(points, bands[k].0, bands[k].1)
  {
    seq(|bands|, k requires 0 <= k < |bands| => CountRows(points, bands[k].0, bands[k].1))
  }

  /** `get_points_density` on the singular-point grid of an image of `|points|` rows. */
  function PointsDensity(points: seq<seq<bool>>, numLocations: int): (r: Result<(seq<nat>, seq<(nat, nat)>)>)
    ensures r.Failure? <==> numLocations < -1
    ensures r.Failure? ==> r.error == ValueError(NegativeSamples)
    ensures r.Success? ==>
              var (density, bands) := r.value;
              && |density| == |bands| == (if numLocations <= 0 then 0 else numLocations)
              && (forall k :: 0 <= k < |bands| ==>
                    bands[k].0 <= bands[k].1 <= |points|
                    && density[k] == CountRows(points, bands[k].0, bands[k].1))
              && (forall k :: 0 <= k < |bands| - 1 ==> bands[k].1 == bands[k + 1].0)
              && (|bands| > 0 ==> bands[0].0 == 0 && bands[|bands| - 1].1 == |points|)
              && (forall k :: 0 <= k < |bands| ==>
                    bands[k] == (Border(k, |points|, |bands|), Border(k + 1, |points|, |bands|)))
  {
    if numLocations < -1 then Failure(ValueError(NegativeSamples))
    else if numLocations <= 0 then Success(([], []))
    else
      var bands := Bands(|points|, numLocations);
      Success((Densities(points, bands), bands))
  }

  /** The default of `num_locations`. */
  const DefaultLocations: int := 3

  /** With the default, the image is cut into three bands. */
  lemma DefaultThreeBands(points: seq<seq<bool>>)
    ensures PointsDensity(points, DefaultLocations).Success?
    ensures |PointsDensity(points, DefaultLocations).value.1| == 3
  {
  }

  /** Division is determined by any quotient and remainder that recompose the dividend. */
  lemma DivUnique(x: nat, n: nat, q: nat, r: nat)
    requires n > 0 && r < n && x == q * n + r
    ensures x / n == q
  {
    DivMod(x, n);
    MulSub(q, x / n, n);
    MulSign(q - x / n, n);
  }

  lemma DivMod(x: nat, n: nat)
    requires n > 0
    ensures x == (x / n) * n + x % n && x % n < n
  {
  }

  lemma MulAdd(a: nat, b: nat, n: nat)
    ensures (a + b) * n == a * n + b * n
  {
  }

  /** Adding `h` to a dividend adds `h / n` to the quotient, or one more when the remainders carry. */
  lemma DivAddStep(x: nat, h: nat, n: nat)
    requires n > 0
    ensures (x + h) / n == x / n + h / n || (h % n != 0 && (x + h) / n == x / n + h / n + 1)
  {
    var a, b, q, r := x / n, x % n, h / n, h % n;
    DivMod(x, n);
    DivMod(h, n);
    MulAdd(a, q, n);
    if b + r < n {
      DivUnique(x + h, n, a + q, b + r);
    } else {
      MulAdd(a + q, 1, n);
      DivUnique(x + h, n, a + q + 1, b + r - n);
    }
  }

  /** Every band is `h / n` rows high, rounded down or, when `n` does not divide `h`, up. */
  lemma BandHeight(k: nat, h: nat, n: nat)
    requires 0 < n && k < n
    ensures var d := Border(k + 1, h, n) - Border(k, h, n);
            d == h / n || (h % n != 0 && d == h / n + 1)
  {
    assert (k + 1) * h == k * h + h;
    DivAddStep(k * h, h, n);
  }

  /** The bands `get_points_density` reports have near-equal heights. */
  lemma DensityBandsNearEqual(points: seq<seq<bool>>, numLocations: int, k: nat)
    requires 0 < numLocations && k < numLocations
    ensures var (lo, hi) := PointsDensity(points, numLocations).value.1[k];
            var n := numLocations;
            hi - lo == |points| / n || (|points| % n != 0 && hi - lo == |points| / n + 1)
  {
    BandHeight(k, |points|, numLocations);
  }

  function Sum(s: seq<nat>): nat {
    if |s| == 0 then 0 else Sum(s[..|s| - 1]) + s[|s| - 1]
  }

  /** The densities of the first `m` bands count the rows those bands span. */
  lemma {:induction false} DensityPrefix(points: seq<seq<bool>>, numLocations: int, m: nat)
    requires numLocations > 0 && m <= numLocations
    ensures var (density, bands) := PointsDensity(points, numLocations).value;
            Sum(density[..m]) == CountRows(points, 0, if m == 0 then 0 else bands[m - 1].1)
  {
    var (density, bands) := PointsDensity(points, numLocations).value;
    if m > 0 {
      DensityPrefix(points, numLocations, m - 1);
      assert density[..m][..m - 1] == density[..m - 1];
      var start := if m == 1 then 0 else bands[m - 2].1;
      assert bands[m - 1].0 == start;
      CountRowsSplit(points, 0, start, bands[m - 1].1);
    }
  }

  /** The bands partition the rows: the densities add up to all singular points of the image. */
  lemma DensitySum(points: seq<seq<bool>>, numLocations: int)
    requires numLocations > 0
    ensures Sum(PointsDensity(points, numLocations).value.0) == CountRows(points, 0, |points|)
  {
    var density := PointsDensity(points, numLocations).value.0;
    DensityPrefix(points, numLocations, numLocations);
    assert density[..numLocations] == density;
  }

  // ---------------------------------------------------------------------
  // combining_mask_boxes

  /** A grey-scale image of `height` rows of `width` pixels. */
  predicate IsGrid(m: seq<seq<int>>, height: nat, width: nat) {
    |m| == height && forall r :: 0 <= r < height ==> |m[r]| == width
  }

  predicate IsBinary(m: seq<seq<int>>, height: nat, width: nat)
    requires IsGrid(m, height, width)
  {
    forall r, c :: 0 <= r < height && 0 <= c < width ==> m[r][c] == 0 || m[r][c] == 255
  }

  /** `cv2.threshold(mask, 127, 255, cv2.THRESH_BINARY_INV)`: bright pixels go black, the rest white. */
  function ThresholdInv(m: seq<seq<int>>, height: nat, width: nat): (t: seq<seq<int>>)
    requires IsGrid(m, height, width)
    ensures IsGrid(t, height, width) && IsBinary(t, height, width)
    ensures forall r, c :: 0 <= r < height && 0 <= c < width ==> (t[r][c] == 255 <==> m[r][c] <= 127)
  {
    seq(height, r requires 0 <= r < height =>
      seq(width, c requires 0 <= c < width => if m[r][c] > 127 then 0 else 255))
  }

  /**
    `cv2.getStructuringElement(cv2.MORPH_RECT, (width, height))`: an
    all-ones rectangle anchored at its centre `(width / 2, height / 2)`.
   */
  datatype Kernel = Kernel(width: nat, height: nat)

  predicate ValidKernel(k: Kernel) {
    k.width >= 1 && k.height >= 1
  }

  /**
    Some white pixel of `m` lies under the kernel placed at `(r, c)`.
    Positions outside the image are ignored, as `cv2.dilate`'s default
    border does.
   */
  predicate Hit(m: seq<seq<int>>, height: nat, width: nat, k: Kernel, r: int, c: int)
    requires IsGrid(m, height, width)
  {
    exists i, j :: 0 <= i < height && 0 <= j < width
      && r - k.height / 2 <= i < r - k.height / 2 + k.height
      && c - k.width / 2 <= j < c - k.width / 2 + k.width
      && m[i][j] == 255
  }

  /** One pass of `cv2.dilate` with the rectangular kernel on a binary image. */
  function Dilate(m: seq<seq<int>>, height: nat, width: nat, k: Kernel): (d: seq<seq<int>>)
    requires IsGrid(m, height, width)
    ensures IsGrid(d, height, width) && IsBinary(d, height, width)
  {
    seq(height, r requires 0 <= r < height =>
      seq(width, c requires 0 <= c < width => if Hit(m, height, width, k, r, c) then 255 else 0))
  }

  /** `iterations` passes of the dilation. */
  function DilateTimes(m: seq<seq<int>>, height: nat, width: nat, k: Kernel, iterations: nat): (d: seq<seq<int>>)
    requires IsGrid(m, height, width)
    ensures IsGrid(d, height, width)
    ensures iterations > 0 ==> IsBinary(d, height, width)
  {
    if iterations == 0 then m else Dilate(DilateTimes(m, height, width, k, iterations - 1), height, width, k)
  }

  /** `combining_mask_boxes(mask, kernel, iterations)`. */
  function CombiningMaskBoxes(mask: seq<seq<int>>, height: nat, width: nat, k: Kernel, iterations: nat): (d: seq<seq<int>>)
    requires IsGrid(mask, height, width) && ValidKernel(k)
    ensures IsGrid(d, height, width) && IsBinary(d, height, width)
  {
    DilateTimes(ThresholdInv(mask, height, width), height, width, k, iterations)
  }

  /** Dilation never turns a white pixel black: the kernel covers its own anchor. */
  lemma DilateExtensive(m: seq<seq<int>>, height: nat, width: nat, k: Kernel, r: nat, c: nat)
    requires IsGrid(m, height, width) && ValidKernel(k)
    requires r < height && c < width && m[r][c] == 255
    ensures Dilate(m, height, width, k)[r][c] == 255
  {
    assert Hit(m, height, width, k, r, c);
  }

  /** A pixel that is white after the threshold stays white through any number of dilations. */
  lemma {:induction false} CombiningExtensive(mask: seq<seq<int>>, height: nat, width: nat, k: Kernel,
                                              iterations: nat, r: nat, c: nat)
    requires IsGrid(mask, height, width) && ValidKernel(k)
    requires r < height && c < width && mask[r][c] <= 127
    ensures CombiningMaskBoxes(mask, height, width, k, iterations)[r][c] == 255
  {
    if iterations > 0 {
      CombiningExtensive(mask, height, width, k, iterations - 1, r, c);
      var t := ThresholdInv(mask, height, width);
      DilateExtensive(DilateTimes(t, height, width, k, iterations - 1), height, width, k, r, c);
    }
  }

  /**
    With one iteration a pixel ends up white exactly when some pixel of the
    kernel-sized window around it was at most 127.
   */
  lemma CombiningOnce(mask: seq<seq<int>>, height: nat, width: nat, k: Kernel, r: nat, c: nat)
    requires IsGrid(mask, height, width) && ValidKernel(k)
    requires r < height && c < width
    ensures CombiningMaskBoxes(mask, height, width, k, 1)[r][c] == 255
            <==> exists i, j :: 0 <= i < height && 0 <= j < width
                   && r - k.height / 2 <= i < r - k.height / 2 + k.height
                   && c - k.width / 2 <= j < c - k.width / 2 + k.width
                   && mask[i][j] <= 127
  {
    var t := ThresholdInv(mask, height, width);
    assert DilateTimes(t, height, width, k, 1) == Dilate(t, height, width, k);
    if Hit(t, height, width, k, r, c) {
      var i, j :| 0 <= i < height && 0 <= j < width
        && r - k.height / 2 <= i < r - k.height / 2 + k.height
        && c - k.width / 2 <= j < c - k.width / 2 + k.width
        && t[i][j] == 255;
      assert mask[i][j] <= 127;
    }
  }

  // ---------------------------------------------------------------------
  // read_image

  /**
    The array `np.array(img)` gives: a 2-D grey-scale plane, or rows of
    pixels with `channels` values each.
   */
  datatype Array =
    | Plane(values: seq<seq<int>>)
    | Pixels(channels: nat, rows: seq<seq<seq<int>>>)

  predicate WellShaped(a: Array) {
    a.Pixels? ==> forall r, c :: 0 <= r < |a.rows| && 0 <= c < |a.rows[r]| ==> |a.rows[r][c]| == a.channels
  }

  /** `img[:, :, order]`. */
  function Reorder(rows: seq<seq<seq<int>>>, order: seq<nat>, channels: nat): (out: seq<seq<seq<int>>>)
    requires forall r, c :: 0 <= r < |rows| && 0 <= c < |rows[r]| ==> |rows[r][c]| == channels
    requires forall k :: 0 <= k < |order| ==> order[k] < channels
    ensures |out| == |rows| && forall r :: 0 <= r < |rows| ==> |out[r]| == |rows[r]|
    ensures forall r, c :: 0 <= r < |rows| && 0 <= c < |rows[r]| ==>
              |out[r][c]| == |order| && forall k :: 0 <= k < |order| ==> out[r][c][k] == rows[r][c][order[k]]
  {
    seq(|rows|, r requires 0 <= r < |rows| =>
      seq(|rows[r]|, c requires 0 <= c < |rows[r]| =>
        seq(|order|, k requires 0 <= k < |order| => rows[r][c][order[k]])))
  }

  /** The `to_bgr` branch of `read_image`: `img.shape[2]` fails on a 2-D image. */
  function ToBgr(a: Array): (r: Result<Array>)
    requires WellShaped(a)
    ensures a.Plane? <==> r == Failure(IndexError)
    ensures r.Success? ==> r.value.Pixels? && r.value.channels == a.channels && WellShaped(r.value)
    ensures r.Success? && a.channels != 3 && a.channels != 4 ==> r.value == a
    ensures r.Success? && (a.channels == 3 || a.channels == 4) ==>
              var out := r.value.rows;
              |out| == |a.rows|
              && forall i, j :: 0 <= i < |a.rows| && 0 <= j < |a.rows[i]| ==>
                   |out[i]| == |a.rows[i]|
                   && out[i][j][0] == a.rows[i][j][2] && out[i][j][1] == a.rows[i][j][1]
                   && out[i][j][2] == a.rows[i][j][0]
                   && (a.channels == 4 ==> out[i][j][3] == a.rows[i][j][3])
  {
    match a
    case Plane(_) => Failure(IndexError)
    case Pixels(channels, rows) =>
      if channels == 3 then Success(Pixels(3, Reorder(rows, [2, 1, 0], 3)))
      else if channels == 4 then Success(Pixels(4, Reorder(rows, [2, 1, 0, 3], 4)))
      else Success(a)
  }

  /** Converting to BGR twice gives back the RGB array. */
  lemma ToBgrInvolution(a: Array)
    requires WellShaped(a) && a.Pixels?
    ensures ToBgr(ToBgr(a).value) == Success(a)
  {
    var b := ToBgr(a).value;
    if a.channels == 3 || a.channels == 4 {
      var back := ToBgr(b).value;
      assert |back.rows| == |a.rows|;
      forall i | 0 <= i < |a.rows| ensures back.rows[i] == a.rows[i] {
        assert |back.rows[i]| == |a.rows[i]|;
        forall j | 0 <= j < |a.rows[i]| ensures back.rows[i][j] == a.rows[i][j] {
          assert |back.rows[i][j]| == a.channels;
        }
      }
      assert back.rows == a.rows;
      assert back == Pixels(a.channels, a.rows);
    }
  }

  /**
    `read_image(image_path, to_bgr=toBgr)` with `as_array` set, when `files`
    maps every image file that exists to the array `np.array` decodes it to.
   */
  function ReadImage(path: string, files: map<string, Array>, toBgr: bool): (r: Result<Array>)
    requires path in files ==> WellShaped(files[path])
    ensures path !in files <==> r == Failure(FileNotFound(path))
    ensures path in files && !toBgr ==> r == Success(files[path])
    ensures path in files && toBgr ==> r == ToBgr(files[path])
    ensures path in files && toBgr && files[path].Plane? ==> r == Failure(IndexError)
    ensures path in files && toBgr && r.Success? ==> WellShaped(r.value) && ToBgr(r.value) == Success(files[path])
  {
    if path !in files then Failure(FileNotFound(path))
    else if !toBgr then Success(files[path])
    else
      var a := files[path];
      if a.Plane? then ToBgr(a)
      else ToBgrInvolution(a); ToBgr(a)
  }

  /** The default `to_bgr=True` swaps the red and blue channels of a colour image and keeps alpha. */
  lemma ReadImageSwapsRedBlue(path: string, files: map<string, Array>, i: nat, j: nat)
    requires path in files && WellShaped(files[path]) && files[path].Pixels?
    requires files[path].channels == 3 || files[path].channels == 4
    requires i < |files[path].rows| && j < |files[path].rows[i]|
    ensures var r := ReadImage(path, files, true);
            var px := files[path].rows[i][j];
            r.Success? && r.value.channels == files[path].channels
            && r.value.rows[i][j][0] == px[2] && r.value.rows[i][j][1] == px[1] && r.value.rows[i][j][2] == px[0]
            && (files[path].channels == 4 ==> r.value.rows[i][j][3] == px[3])
  {
  }

  // ---------------------------------------------------------------------
  // bbox_w_h_to_x_max_y_max

  /** `bbox_w_h_to_x_max_y_max(box)` as written: the last two entries become differences. */
  function BboxAsWritten(box: (int, int, int, int)): (int, int, int, int) {
    (box.0, box.1, box.2 - box.0, box.3 - box.1)
  }

  /** The conversion the function's name announces: `(x, y, w, h)` to `(x, y, x_max, y_max)`. */
  function WhToCorners(box: (int, int, int, int)): (r: (int, int, int, int))
    ensures r.0 == box.0 && r.1 == box.1
    ensures r.2 - r.0 == box.2 && r.3 - r.1 == box.3
  {
    (box.0, box.1, box.0 + box.2, box.1 + box.3)
  }

  /** As written, the function is the inverse of its name: it turns corners back into a width and a height. */
  lemma BboxAsWrittenInvertsName(box: (int, int, int, int))
    ensures BboxAsWritten(WhToCorners(box)) == box
    ensures WhToCorners(BboxAsWritten(box)) == box
  {
  }

  /** A box at `(1, 1)` of size 5 x 5 has its far corner at `(6, 6)`, but the function returns `(4, 4)`. */
  lemma BboxNameMismatch()
    ensures BboxAsWritten((1, 1, 5, 5)) == (1, 1, 4, 4)
    ensures WhToCorners((1, 1, 5, 5)) == (1, 1, 6, 6)
  {
  }
}
