/**
  `TextDeleter.delete_text` of `clear_image/text_deleter.py`: a bounded
  detect / in-paint / re-detect loop.

  The detector and the in-painter are oracles. The detector's answers are
  given in call order; the in-painter's effect on the file system is given
  per call: it writes the output file, leaves the file system as it was,
  or raises. File existence is a set of paths.
 */
module TextDeleter {
  import opened Outcomes
  import opened TextDetector

  /** One call the loop makes to a collaborator, with what it was given and got. */
  datatype Call =
    | Detect(image: string, found: seq<TextBox>)
    | Inpaint(image: string, boxes: seq<TextBox>, prompt: string, target: string)

  /** What one in-painting call does. */
  datatype Effect = Wrote | Skipped | Raised

  /** The outcome of a run, the calls it made, and the files that exist afterwards. */
  datatype Run = Run(result: Result<string>, calls: seq<Call>, files: set<string>)

  /** `range(max_retries)` has this many iterations. */
  function Iterations(maxRetries: int): (n: nat)
    ensures maxRetries <= 0 ==> n == 0
    ensures maxRetries > 0 ==> n == maxRetries
  {
    if maxRetries <= 0 then 0 else maxRetries
  }

  /**
    The call the loop makes as its `k`-th collaborator call when started at
    iteration `i` on image `current`: iteration `i + k/2` first detects, then
    in-paints what it found. Only the first iteration reads `current`; every
    later one reads the output path.
   */
  function Expected(k: nat, i: nat, current: string, outPath: string, prompt: string,
                    detections: seq<seq<TextBox>>): Call
    requires i + k / 2 < |detections|
  {
    var j := k / 2;
    var image := if j == 0 then current else outPath;
    if k % 2 == 0 then Detect(image, detections[i + j])
    else Inpaint(image, detections[i + j], prompt, outPath)
  }

  /** Two calls later, the same call is expected one iteration further on, on the output image. */
  lemma ExpectedShift(k: nat, i: nat, current: string, outPath: string, prompt: string,
                      detections: seq<seq<TextBox>>)
    requires 2 <= k && i + k / 2 < |detections|
    ensures Expected(k, i, current, outPath, prompt, detections)
            == Expected(k - 2, i + 1, outPath, outPath, prompt, detections)
  {
    assert (k - 2) / 2 == k / 2 - 1 && (k - 2) % 2 == k % 2;
  }

  /** Iterations `i` to `n - 1` of the loop, reading `current` first. */
  function Loop(i: nat, n: nat, current: string, inPath: string, outPath: string, prompt: string,
                detections: seq<seq<TextBox>>, effects: seq<Effect>, files: set<string>): (r: Run)
    requires i <= n <= |detections| && n <= |effects|
    ensures |r.calls| <= 2 * (n - i)
    ensures i < n ==> |r.calls| >= 1
    ensures r.result.Success? ==>
              r.result.value == (if i == 0 && |r.calls| == 1 then inPath else outPath)
    ensures r.result.Failure? ==>
              |r.calls| > 0 && |r.calls| % 2 == 0
              && (r.result.error == ServiceFailure
                  || (r.result.error == AssertionFailed && outPath !in r.files))
    ensures r.result.Success? && |r.calls| >= 2 ==> outPath in r.files
    ensures files <= r.files <= files + {outPath}
    decreases n - i
  {
    if i == n then Run(Success(outPath), [], files)
    else
      var found := detections[i];
      var detect := Detect(current, found);
      if found == [] then
        Run(Success(if i == 0 then inPath else outPath), [detect], files)
      else
        var inpaint := Inpaint(current, found, prompt, outPath);
        if effects[i] == Raised then
          Run(Failure(ServiceFailure), [detect, inpaint], files)
        else
          var written := if effects[i] == Wrote then files + {outPath} else files;
          if outPath !in written then
            Run(Failure(AssertionFailed), [detect, inpaint], written)
          else
            var rest := Loop(i + 1, n, outPath, inPath, outPath, prompt, detections, effects, written);
            Run(rest.result, [detect, inpaint] + rest.calls, rest.files)
  }

  /** One round that in-painted and kept going: its two calls, then the rest of the run. */
  lemma LoopStep(i: nat, n: nat, current: string, inPath: string, outPath: string,
                 prompt: string, detections: seq<seq<TextBox>>, effects: seq<Effect>,
                 files: set<string>, written: set<string>)
    requires i < n <= |detections| && n <= |effects|
    requires detections[i] != [] && effects[i] != Raised
    requires written == (if effects[i] == Wrote then files + {outPath} else files) && outPath in written
    ensures var r := Loop(i, n, current, inPath, outPath, prompt, detections, effects, files);
            var rest := Loop(i + 1, n, outPath, inPath, outPath, prompt, detections, effects, written);
            r == Run(rest.result,
                     [Detect(current, detections[i]), Inpaint(current, detections[i], prompt, outPath)] + rest.calls,
                     rest.files)
  {
  }

  /**
    The calls of a run in closed form: detections and in-paintings
    alternate, and each in-painting gets the boxes its detection found.
   */
  lemma {:induction false} LoopTrace(i: nat, n: nat, current: string, inPath: string, outPath: string,
                                     prompt: string, detections: seq<seq<TextBox>>, effects: seq<Effect>,
                                     files: set<string>)
    requires i <= n <= |detections| && n <= |effects|
    ensures var r := Loop(i, n, current, inPath, outPath, prompt, detections, effects, files);
            forall k :: 0 <= k < |r.calls| ==> r.calls[k] == Expected(k, i, current, outPath, prompt, detections)
    decreases n - i
  {
    var r := Loop(i, n, current, inPath, outPath, prompt, detections, effects, files);
    if i < n && detections[i] != [] && effects[i] != Raised {
      var written := if effects[i] == Wrote then files + {outPath} else files;
      if outPath in written {
        var rest := Loop(i + 1, n, outPath, inPath, outPath, prompt, detections, effects, written);
        LoopTrace(i + 1, n, outPath, inPath, outPath, prompt, detections, effects, written);
        LoopStep(i, n, current, inPath, outPath, prompt, detections, effects, files, written);
        forall k | 2 <= k < |r.calls|
          ensures r.calls[k] == Expected(k, i, current, outPath, prompt, detections)
        {
          assert r.calls[k] == rest.calls[k - 2];
          ExpectedShift(k, i, current, outPath, prompt, detections);
        }
      }
    }
  }

  /**
    Why a run ends: an in-painting is only attempted on boxes that were
    found, and a run that succeeds stopped on an empty detection or used
    every iteration.
   */
  lemma LoopStops(i: nat, n: nat, current: string, inPath: string, outPath: string,
                  prompt: string, detections: seq<seq<TextBox>>, effects: seq<Effect>,
                  files: set<string>)
    requires i <= n <= |detections| && n <= |effects|
    ensures var r := Loop(i, n, current, inPath, outPath, prompt, detections, effects, files);
            && (forall k :: 0 <= k < |r.calls| && k % 2 == 1 ==> detections[i + k / 2] != [])
            && (r.result.Success? && |r.calls| % 2 == 1 ==> detections[i + |r.calls| / 2] == [])
            && (r.result.Success? && |r.calls| % 2 == 0 ==> |r.calls| == 2 * (n - i))
  {
    LoopInpaintsFound(i, n, current, inPath, outPath, prompt, detections, effects, files);
    LoopEndsOnEmpty(i, n, current, inPath, outPath, prompt, detections, effects, files);
    LoopUsesAll(i, n, current, inPath, outPath, prompt, detections, effects, files);
  }

  /** Only boxes that were found are in-painted. */
  lemma {:induction false} LoopInpaintsFound(i: nat, n: nat, current: string, inPath: string, outPath: string,
                                             prompt: string, detections: seq<seq<TextBox>>, effects: seq<Effect>,
                                             files: set<string>)
    requires i <= n <= |detections| && n <= |effects|
    ensures var r := Loop(i, n, current, inPath, outPath, prompt, detections, effects, files);
            forall k :: 0 <= k < |r.calls| && k % 2 == 1 ==> detections[i + k / 2] != []
    decreases n - i
  {
    if i < n && detections[i] != [] && effects[i] != Raised {
      var written := if effects[i] == Wrote then files + {outPath} else files;
      if outPath in written {
        LoopInpaintsFound(i + 1, n, outPath, inPath, outPath, prompt, detections, effects, written);
        LoopStep(i, n, current, inPath, outPath, prompt, detections, effects, files, written);
        var r := Loop(i, n, current, inPath, outPath, prompt, detections, effects, files);
        forall k | 2 <= k < |r.calls| && k % 2 == 1
          ensures detections[i + k / 2] != []
        {
          assert (k - 2) / 2 == k / 2 - 1 && (k - 2) % 2 == k % 2;
        }
      }
    }
  }

  /** A success after an odd number of calls stopped on an empty detection. */
  lemma {:induction false} LoopEndsOnEmpty(i: nat, n: nat, current: string, inPath: string, outPath: string,
                                           prompt: string, detections: seq<seq<TextBox>>, effects: seq<Effect>,
                                           files: set<string>)
    requires i <= n <= |detections| && n <= |effects|
    ensures var r := Loop(i, n, current, inPath, outPath, prompt, detections, effects, files);
            r.result.Success? && |r.calls| % 2 == 1 ==> detections[i + |r.calls| / 2] == []
    decreases n - i
  {
    if i < n && detections[i] != [] && effects[i] != Raised {
      var written := if effects[i] == Wrote then files + {outPath} else files;
      if outPath in written {
        LoopEndsOnEmpty(i + 1, n, outPath, inPath, outPath, prompt, detections, effects, written);
        LoopStep(i, n, current, inPath, outPath, prompt, detections, effects, files, written);
      }
    }
  }

  /** A success after an even number of calls used every iteration. */
  lemma {:induction false} LoopUsesAll(i: nat, n: nat, current: string, inPath: string, outPath: string,
                                       prompt: string, detections: seq<seq<TextBox>>, effects: seq<Effect>,
                                       files: set<string>)
    requires i <= n <= |detections| && n <= |effects|
    ensures var r := Loop(i, n, current, inPath, outPath, prompt, detections, effects, files);
            r.result.Success? && |r.calls| % 2 == 0 ==> |r.calls| == 2 * (n - i)
    decreases n - i
  {
    if i < n && detections[i] != [] && effects[i] != Raised {
      var written := if effects[i] == Wrote then files + {outPath} else files;
      if outPath in written {
        LoopUsesAll(i + 1, n, outPath, inPath, outPath, prompt, detections, effects, written);
        LoopStep(i, n, current, inPath, outPath, prompt, detections, effects, files, written);
      }
    }
  }

  /**
    `delete_text(in_image_path, out_image_path, prompt, max_retries)` with
    the detector answering `detections` and the in-painter acting as
    `effects`, one entry per call; `files` exist beforehand.
   */
  function DeleteText(inPath: string, outPath: string, prompt: string, maxRetries: int,
                      detections: seq<seq<TextBox>>, effects: seq<Effect>, files: set<string>): (r: Run)
    requires Iterations(maxRetries) <= |detections| && Iterations(maxRetries) <= |effects|
    ensures (|r.calls| + 1) / 2 <= Iterations(maxRetries) && |r.calls| / 2 <= Iterations(maxRetries)
    ensures |r.calls| == 1 ==> r == Run(Success(inPath), [Detect(inPath, [])], files)
    ensures r.result.Success? ==> r.result.value == (if |r.calls| == 1 then inPath else outPath)
    ensures r.result.Success? && |r.calls| >= 2 ==> outPath in r.files
    ensures r.result.Failure? ==>
              |r.calls| >= 2
              && (r.result.error == ServiceFailure || (r.result.error == AssertionFailed && outPath !in r.files))
    ensures files <= r.files <= files + {outPath}
  {
    Loop(0, Iterations(maxRetries), inPath, inPath, outPath, prompt, detections, effects, files)
  }

  /** The `k`-th call of a run: detections alternate with in-paintings. */
  lemma DeleteTextCalls(inPath: string, outPath: string, prompt: string, maxRetries: int,
                        detections: seq<seq<TextBox>>, effects: seq<Effect>, files: set<string>, k: nat)
    requires Iterations(maxRetries) <= |detections| && Iterations(maxRetries) <= |effects|
    requires k < |DeleteText(inPath, outPath, prompt, maxRetries, detections, effects, files).calls|
    ensures var call := DeleteText(inPath, outPath, prompt, maxRetries, detections, effects, files).calls[k];
            var image := if k < 2 then inPath else outPath;
            && (k % 2 == 0 ==> call == Detect(image, detections[k / 2]))
            && (k % 2 == 1 ==> call == Inpaint(image, detections[k / 2], prompt, outPath) && detections[k / 2] != [])
  {
    LoopTrace(0, Iterations(maxRetries), inPath, inPath, outPath, prompt, detections, effects, files);
    LoopStops(0, Iterations(maxRetries), inPath, inPath, outPath, prompt, detections, effects, files);
  }

  /** No text on the first pass: the input path comes back and nothing is in-painted. */
  lemma {:induction false} FirstDetectionEmpty(inPath: string, outPath: string, prompt: string, maxRetries: int,
                                               detections: seq<seq<TextBox>>, effects: seq<Effect>, files: set<string>)
    requires 1 <= maxRetries <= |detections| && maxRetries <= |effects|
    requires detections[0] == []
    ensures DeleteText(inPath, outPath, prompt, maxRetries, detections, effects, files)
            == Run(Success(inPath), [Detect(inPath, [])], files)
  {
  }

  /** A non-positive budget makes no call and returns the output path. */
  lemma NoBudget(inPath: string, outPath: string, prompt: string, maxRetries: int,
                 detections: seq<seq<TextBox>>, effects: seq<Effect>, files: set<string>)
    requires maxRetries <= 0
    ensures DeleteText(inPath, outPath, prompt, maxRetries, detections, effects, files)
            == Run(Success(outPath), [], files)
  {
  }

  /**
    Once an in-painting has happened, a successful run returns the output
    path, and that file exists, whether the loop stopped on an empty
    detection or ran out of retries.
   */
  lemma AfterInpaintOutputReturned(inPath: string, outPath: string, prompt: string, maxRetries: int,
                                   detections: seq<seq<TextBox>>, effects: seq<Effect>, files: set<string>)
    requires Iterations(maxRetries) <= |detections| && Iterations(maxRetries) <= |effects|
    ensures var r := DeleteText(inPath, outPath, prompt, maxRetries, detections, effects, files);
            r.result.Success? && |r.calls| >= 2 ==> r.result == Success(outPath) && outPath in r.files
  {
  }

  /** A run that made a single call found no text on the input image and changed nothing. */
  lemma SingleCallFoundNothing(inPath: string, outPath: string, prompt: string, maxRetries: int,
                               detections: seq<seq<TextBox>>, effects: seq<Effect>, files: set<string>)
    requires Iterations(maxRetries) <= |detections| && Iterations(maxRetries) <= |effects|
    ensures var r := DeleteText(inPath, outPath, prompt, maxRetries, detections, effects, files);
            |r.calls| == 1 ==> r == Run(Success(inPath), [Detect(inPath, [])], files)
  {
  }

  /**
    A failure always follows an in-painting call, and nothing is detected
    after it; a failed existence assertion means the output file is absent.
   */
  lemma FailureEndsOnInpaint(inPath: string, outPath: string, prompt: string, maxRetries: int,
                             detections: seq<seq<TextBox>>, effects: seq<Effect>, files: set<string>)
    requires Iterations(maxRetries) <= |detections| && Iterations(maxRetries) <= |effects|
    ensures var r := DeleteText(inPath, outPath, prompt, maxRetries, detections, effects, files);
            r.result.Failure? ==>
              |r.calls| > 0 && r.calls[|r.calls| - 1].Inpaint?
              && (r.result.error == AssertionFailed ==> outPath !in r.files)
  {
    var r := DeleteText(inPath, outPath, prompt, maxRetries, detections, effects, files);
    if r.result.Failure? {
      DeleteTextCalls(inPath, outPath, prompt, maxRetries, detections, effects, files, |r.calls| - 1);
    }
  }

  /**
    Soft exhaustion: when the detector keeps finding text and every
    in-painting writes the file, all `max_retries` iterations run and the
    last in-painted image is returned.
   */
  lemma {:induction false} ExhaustedBudget(i: nat, n: nat, current: string, inPath: string, outPath: string,
                                           prompt: string, detections: seq<seq<TextBox>>, effects: seq<Effect>,
                                           files: set<string>)
    requires i <= n <= |detections| && n <= |effects|
    requires forall j :: i <= j < n ==> detections[j] != [] && effects[j] == Wrote
    ensures var r := Loop(i, n, current, inPath, outPath, prompt, detections, effects, files);
            |r.calls| == 2 * (n - i) && r.result == Success(outPath)
    decreases n - i
  {
    if i < n {
      ExhaustedBudget(i + 1, n, outPath, inPath, outPath, prompt, detections, effects, files + {outPath});
    }
  }

  /** With one retry and text found, exactly one in-painting happens and its output is returned. */
  lemma SingleRetry(inPath: string, outPath: string, prompt: string,
                    detections: seq<seq<TextBox>>, effects: seq<Effect>, files: set<string>)
    requires |detections| >= 1 && |effects| >= 1
    requires detections[0] != [] && effects[0] == Wrote
    ensures DeleteText(inPath, outPath, prompt, 1, detections, effects, files)
            == Run(Success(outPath),
                   [Detect(inPath, detections[0]), Inpaint(inPath, detections[0], prompt, outPath)],
                   files + {outPath})
  {
  }
}
