/**
  The mask construction of `clear_image/inpainter.py` and the request the
  DALL-E in-painter sends. The API call, the download and the PNG encoding
  are outside the model.
 */
module Inpainter {
  import opened Outcomes
  import opened TextDetector

  /** `Inpainter.DEFAULT_PROMPT`. */
  const DefaultPrompt: string := "plain background"

  /**
    One bound of a numpy/Python slice on an axis of length `n`: a negative
    index counts from the end, and the result is clamped to `[0, n]`.
   */
  function SliceIndex(i: int, n: nat): (j: nat)
    ensures j <= n
    ensures 0 <= i <= n ==> j == i
    ensures i > n ==> j == n
    ensures i + n < 0 ==> j == 0
  {
    var k := if i < 0 then i + n else i;
    if k < 0 then 0 else if k > n then n else k
  }

  /**
    Pixel `(r, c)` lies in the region `alpha[y:y+h, x:x+w]` selects for box
    `b` in an image of `height` rows and `width` columns.
   */
  predicate Covers(b: TextBox, r: int, c: int, height: nat, width: nat) {
    SliceIndex(b.y, height) <= r < SliceIndex(b.y + b.h, height)
    && SliceIndex(b.x, width) <= c < SliceIndex(b.x + b.w, width)
  }

  /** Some box of `boxes` covers pixel `(r, c)`. */
  predicate Covered(boxes: seq<TextBox>, r: int, c: int, height: nat, width: nat) {
    exists k :: 0 <= k < |boxes| && Covers(boxes[k], r, c, height, width)
  }

  /** A `height` x `width` plane of integers. */
  predicate IsPlane(p: seq<seq<int>>, height: nat, width: nat) {
    |p| == height && forall r :: 0 <= r < height ==> |p[r]| == width
  }

  /** `np.ones((height, width, 1)) * 255`, as a plane. */
  function OpaquePlane(height: nat, width: nat): (p: seq<seq<int>>)
    ensures IsPlane(p, height, width)
  {
    seq(height, r => seq(width, c => 255))
  }

  /** `alpha[b.y : b.y + b.h, b.x : b.x + b.w, 0] = 0`. */
  function ClearBox(alpha: seq<seq<int>>, b: TextBox, height: nat, width: nat): (p: seq<seq<int>>)
    requires IsPlane(alpha, height, width)
    ensures IsPlane(p, height, width)
  {
    seq(height, r requires 0 <= r < height =>
      seq(width, c requires 0 <= c < width =>
        if Covers(b, r, c, height, width) then 0 else alpha[r][c]))
  }

  /** The alpha plane after the loop has cleared every box, in list order. */
  function Alpha(boxes: seq<TextBox>, height: nat, width: nat): (p: seq<seq<int>>)
    ensures IsPlane(p, height, width)
    decreases |boxes|
  {
    if |boxes| == 0 then OpaquePlane(height, width)
    else ClearBox(Alpha(boxes[..|boxes| - 1], height, width), boxes[|boxes| - 1], height, width)
  }

  /** A pixel is transparent exactly when some box covers it; otherwise it is 255. */
  lemma {:induction false} AlphaIsCoverage(boxes: seq<TextBox>, height: nat, width: nat, r: nat, c: nat)
    requires r < height && c < width
    ensures Alpha(boxes, height, width)[r][c] == if Covered(boxes, r, c, height, width) then 0 else 255
    decreases |boxes|
  {
    if |boxes| > 0 {
      var init := boxes[..|boxes| - 1];
      var last := boxes[|boxes| - 1];
      AlphaIsCoverage(init, height, width, r, c);
      if Covered(init, r, c, height, width) {
        var k :| 0 <= k < |init| && Covers(init[k], r, c, height, width);
        assert boxes[k] == init[k];
      }
      if Covered(boxes, r, c, height, width) && !Covers(last, r, c, height, width) {
        var k :| 0 <= k < |boxes| && Covers(boxes[k], r, c, height, width);
        assert init[k] == boxes[k];
      }
    }
  }

  /** An RGBA mask: `height` rows of `width` pixels of 4 channels. */
  predicate IsMask(m: seq<seq<seq<int>>>, height: nat, width: nat) {
    |m| == height
    && (forall r :: 0 <= r < height ==> |m[r]| == width)
    && (forall r, c :: 0 <= r < height && 0 <= c < width ==> |m[r][c]| == 4)
  }

  /**
    `DalleInpainter._make_mask`: black, opaque everywhere except where a
    text box lies, where the alpha channel is 0.
   */
  function MakeMask(boxes: seq<TextBox>, height: nat, width: nat): (m: seq<seq<seq<int>>>)
    ensures IsMask(m, height, width)
    ensures forall r, c, ch :: 0 <= r < height && 0 <= c < width && 0 <= ch < 3 ==> m[r][c][ch] == 0
    ensures forall r, c :: 0 <= r < height && 0 <= c < width ==>
              m[r][c][3] == (if Covered(boxes, r, c, height, width) then 0 else 255)
  {
    var alpha := Alpha(boxes, height, width);
    var m := seq(height, r requires 0 <= r < height =>
               seq(width, c requires 0 <= c < width => [0, 0, 0, alpha[r][c]]));
    assert forall r, c :: 0 <= r < height && 0 <= c < width ==>
             m[r][c][3] == (if Covered(boxes, r, c, height, width) then 0 else 255) by {
      forall r, c | 0 <= r < height && 0 <= c < width
        ensures m[r][c][3] == (if Covered(boxes, r, c, height, width) then 0 else 255)
      {
        AlphaIsCoverage(boxes, height, width, r, c);
      }
    }
    m
  }

  /** Every value of the mask is 0 or 255. */
  lemma MaskIsBinary(boxes: seq<TextBox>, height: nat, width: nat)
    ensures var m := MakeMask(boxes, height, width);
            forall r, c, ch :: 0 <= r < height && 0 <= c < width && 0 <= ch < 4 ==>
              m[r][c][ch] == 0 || m[r][c][ch] == 255
  {
    var m := MakeMask(boxes, height, width);
    forall r, c, ch | 0 <= r < height && 0 <= c < width && 0 <= ch < 4
      ensures m[r][c][ch] == 0 || m[r][c][ch] == 255
    {
      if ch == 3 {
        assert m[r][c][3] == (if Covered(boxes, r, c, height, width) then 0 else 255);
      }
    }
  }

  /** For a box with non-negative origin and size the slice is the box, clipped to the image. */
  lemma CoversNonNegative(b: TextBox, r: nat, c: nat, height: nat, width: nat)
    requires b.x >= 0 && b.y >= 0 && b.w >= 0 && b.h >= 0
    requires r < height && c < width
    ensures Covers(b, r, c, height, width) <==> b.y <= r < b.y + b.h && b.x <= c < b.x + b.w
  {
  }

  /**
    As written, a Tesseract word's box clears the word's rectangle transposed:
    `width` rows from its top and `height` columns from its left.
   */
  lemma AsWrittenBoxMasksTransposed(word: OcrWord, r: nat, c: nat, height: nat, width: nat)
    requires word.left >= 0 && word.top >= 0 && word.width >= 0 && word.height >= 0
    requires r < height && c < width
    ensures Covers(WordBox(word), r, c, height, width) <==>
            word.top <= r < word.top + word.width && word.left <= c < word.left + word.height
  {
  }

  /**
    A word 10 wide and 2 high at the origin of a 20 x 20 image: pixel (5, 0),
    below the word, is cleared, and pixel (0, 5), inside it, is kept.
   */
  lemma TesseractSwapMasksWrongPixels()
    ensures var word := OcrWord(0, 0, 10, 2, "hi");
            && Covers(WordBox(word), 5, 0, 20, 20) && !(word.top <= 5 < word.top + word.height)
            && !Covers(WordBox(word), 0, 5, 20, 20) && word.left <= 5 < word.left + word.width
  {
  }

  /** With the height in `h`, a word's box clears exactly the rectangle Tesseract reported. */
  lemma IntendedBoxMasksWord(word: OcrWord, r: nat, c: nat, height: nat, width: nat)
    requires word.left >= 0 && word.top >= 0 && word.width >= 0 && word.height >= 0
    requires r < height && c < width
    ensures Covers(IntendedWordBox(word), r, c, height, width) <==>
            word.top <= r < word.top + word.height && word.left <= c < word.left + word.width
  {
  }

  /** A box with non-positive height whose slice end is not negative clears nothing. */
  lemma EmptyExtentCoversNothing(b: TextBox, r: int, c: int, height: nat, width: nat)
    requires (b.h <= 0 && b.y + b.h >= 0) || (b.w <= 0 && b.x + b.w >= 0)
    ensures !Covers(b, r, c, height, width)
  {
  }

  /**
    A negative height whose slice end falls in `[-height, 0)` counts from
    the bottom edge: `alpha[5:-2]` on 10 rows clears rows 5 to 7.
   */
  lemma NegativeExtentWraps()
    ensures Covers(TextBox(0, 5, -7, 4, None), 6, 1, 10, 10)
  {
  }

  /** With no boxes the alpha channel is 255 everywhere. */
  lemma NoBoxesOpaque(height: nat, width: nat)
    ensures var m := MakeMask([], height, width);
            forall r, c :: 0 <= r < height && 0 <= c < width ==> m[r][c][3] == 255
  {
  }

  /**
    The mask depends only on the set of boxes: their order and any
    repetition make no difference.
   */
  lemma MaskIgnoresOrder(a: seq<TextBox>, b: seq<TextBox>, height: nat, width: nat)
    requires forall t :: t in a <==> t in b
    ensures MakeMask(a, height, width) == MakeMask(b, height, width)
  {
    var ma, mb := MakeMask(a, height, width), MakeMask(b, height, width);
    forall r, c | 0 <= r < height && 0 <= c < width
      ensures ma[r][c] == mb[r][c]
    {
      if Covered(a, r, c, height, width) {
        var k :| 0 <= k < |a| && Covers(a[k], r, c, height, width);
        assert a[k] in b;
      }
      if Covered(b, r, c, height, width) {
        var k :| 0 <= k < |b| && Covers(b[k], r, c, height, width);
        assert b[k] in a;
      }
    }
    forall r | 0 <= r < height ensures ma[r] == mb[r] { }
  }

  /** The size `PIL.Image.open` reports for the input image. */
  datatype ImageSize = ImageSize(height: nat, width: nat)

  /** The arguments of the `images.edit` call `DalleInpainter.inpaint` makes. */
  datatype EditRequest = EditRequest(image: string, mask: seq<seq<seq<int>>>, prompt: string, n: int)

  /**
    The request `inpaint` sends, when `sizes` maps every image file that
    exists to its size: `Image.open` raises for a missing input, and
    otherwise the mask is sized to the input image itself.
   */
  function InpaintRequest(inPath: string, sizes: map<string, ImageSize>, boxes: seq<TextBox>, prompt: string)
    : (q: Result<EditRequest>)
    ensures inPath !in sizes <==> q.Failure?
    ensures q.Failure? ==> q.error == FileNotFound(inPath)
    ensures q.Success? ==>
              var (height, width) := (sizes[inPath].height, sizes[inPath].width);
              IsMask(q.value.mask, height, width)
              && (forall r, c :: 0 <= r < height && 0 <= c < width ==>
                    (q.value.mask[r][c][3] == 0 <==> Covered(boxes, r, c, height, width)))
              && q.value.image == inPath && q.value.prompt == prompt && q.value.n == 1
  {
    if inPath !in sizes then Failure(FileNotFound(inPath))
    else
      var size := sizes[inPath];
      Success(EditRequest(inPath, MakeMask(boxes, size.height, size.width), prompt, 1))
  }

  /** Only the input image's own size shapes the request: other files and their sizes play no part. */
  lemma InpaintRequestUsesOwnSize(inPath: string, sizes: map<string, ImageSize>, other: map<string, ImageSize>,
                                  boxes: seq<TextBox>, prompt: string)
    requires inPath in sizes && inPath in other && sizes[inPath] == other[inPath]
    ensures InpaintRequest(inPath, sizes, boxes, prompt) == InpaintRequest(inPath, other, boxes, prompt)
  {
  }

  /** The request sends the `_make_mask` of the input image's height and width. */
  lemma InpaintRequestMask(inPath: string, sizes: map<string, ImageSize>, boxes: seq<TextBox>, prompt: string)
    requires inPath in sizes
    ensures InpaintRequest(inPath, sizes, boxes, prompt).value.mask
            == MakeMask(boxes, sizes[inPath].height, sizes[inPath].width)
  {
  }

  /** Reordering or repeating the boxes sends the same request. */
  lemma InpaintRequestIgnoresOrder(inPath: string, sizes: map<string, ImageSize>, a: seq<TextBox>,
                                   b: seq<TextBox>, prompt: string)
    requires forall t :: t in a <==> t in b
    ensures InpaintRequest(inPath, sizes, a, prompt) == InpaintRequest(inPath, sizes, b, prompt)
  {
    if inPath in sizes {
      MaskIgnoresOrder(a, b, sizes[inPath].height, sizes[inPath].width);
    }
  }
}
