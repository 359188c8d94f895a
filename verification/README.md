# Banner pipeline core, modelled in Dafny

This project models the sequential logic behind the banner-generation pipeline. The outside services it talks to are replaced by inputs: the text detectors, the DALL-E in-painter, the vision and chat models, the Replicate painter, the browser, and the Streamlit UI. The project covers:

- **Text removal.** The detect / in-paint / re-detect retry loop of `TextDeleter.delete_text`. The in-painting mask of `DalleInpainter._make_mask`. How both text detectors turn their engines' output into `TextBox`es. The path handling of `TextRemover.remove_text`.
- **Raster helpers in `utils.py`.** Horizontal banding and counting of singular points. Inverse threshold followed by rectangular dilation. The BGR channel reorder. The bounding-box tuple arithmetic.
- **HTML output handling.** The clean-up done by `BannerHtmlRenderer.prepare_html`. The output file naming. The tag validation and checker sequencing of `HtmlRenderOutputHandler.handle_output`.
- **Checker verdicts.** The remark strings and verdicts of the command-line, GPT-vision and Streamlit human checkers.
- **Image description requests.** The request built by `GptImageProcessor.process_image`. The image travels as a `data:` URL (section 3 of RFC 2397) with a Base64 payload (section 4 of RFC 4648).
- **Post-generation tool decorator.** The stop checks around a tool run, the fixed hook order, and the bounded remarks loop of the post-text generator.
- **Replicate painter.** The file-name core, the model input merge, and which downloaded images come back.

Every operation is a pure function over immutable values.

- **Oracles.** Anything an outside party decides is an argument: what a detector answers, what an in-painting call does to the file system, what a model replies, what a user typed or queued, and whether a screenshot was saved.
- **Files.** Existing files are a set of paths, or a map from path to bytes where the bytes matter.
- **Exceptions.** A raised exception is the `Failure` case of `Outcomes.Result`.
- **Blocking.** A call that waits forever on an empty queue returns `None`.

Python's string and path semantics are modelled in `PyStr` and `PosixPath`:

- `strip`, `find`, `rfind`, `replace`, `split`, `join`, `lower`, `in`;
- `os.path.splitext` and `os.path.basename` for POSIX paths.

`Base64` implements the encoding of section 4 of RFC 4648 together with a decoder, and proves that decoding inverts encoding.

Files, one module each:

- `outcomes.dfy`, `pystr.dfy`, `posixpath.dfy` and `base64.dfy` are shared foundations.
- `text_detector.dfy`, `inpainter.dfy`, `text_deleter.dfy` and `remove_text.dfy` cover the text-removal path.
- `image_utils.dfy`, `output_handler.dfy`, `checkers.dfy`, `image_description.dfy`, `post_mixins.dfy` and `replicate_painting.dfy` cover the rest.

## Model

| member | source | states |
|---|---|---|
| TextDeleter.Iterations | clear_image/text_deleter.py:13 | `range(max_retries)` runs `max_retries` iterations when positive and none otherwise |
| TextDeleter.Loop | clear_image/text_deleter.py:12-30 | Each iteration makes at most two calls. A run with a remaining iteration makes at least one call. A success returns `in_image_path` exactly when the first iteration's single detection found nothing, and `out_image_path` otherwise. A failure comes after an even number of calls and is either the in-painter's exception or the existence assertion with the output file absent. A success after an in-painting has the output file present. The files only ever gain the output path. |
| TextDeleter.LoopTrace | clear_image/text_deleter.py:12-29 | The calls in closed form. Call 2j detects on iteration j's image and call 2j+1 in-paints that image. Iteration 0 reads the input path and every later iteration reads the output path. Each in-painting gets exactly the boxes of the detection just before it, the caller's prompt unchanged, and the output path as target. |
| TextDeleter.LoopStops | clear_image/text_deleter.py:20-23 | An in-painting is only attempted on a non-empty detection. A successful run ends on an empty detection or after using every iteration. |
| TextDeleter.LoopInpaintsFound | clear_image/text_deleter.py:20-23 | Every in-painting call, the odd-numbered ones, belongs to an iteration whose detection found boxes |
| TextDeleter.LoopEndsOnEmpty | clear_image/text_deleter.py:20-22 | A success after an odd number of calls stopped on an iteration whose detection found nothing |
| TextDeleter.LoopUsesAll | clear_image/text_deleter.py:13-29 | A success after an even number of calls ran every remaining iteration, two calls each |
| TextDeleter.DeleteTextCalls | clear_image/text_deleter.py:12-29 | The k-th call of `delete_text`: a detection on the input image (first iteration) or the output image (later ones), or an in-painting of non-empty boxes with the caller's prompt and the output target |
| TextDeleter.DeleteText | clear_image/text_deleter.py:11-30 | At most `max_retries` detections and in-paintings, so the loop terminates. A single call is an empty first detection and returns `in_image_path` untouched. Any other success returns `out_image_path`, and after an in-painting that file exists. A failure comes after an in-painting: the in-painter raised, or the file assertion failed and the output is missing. Only `out_image_path` can be added to the files. |
| TextDeleter.FirstDetectionEmpty | clear_image/text_deleter.py:17-22 | No boxes on the first detection: `in_image_path` is returned after that single call and nothing is in-painted |
| TextDeleter.NoBudget | clear_image/text_deleter.py:13-30 | With `max_retries <= 0` no call is made and `out_image_path` is returned |
| TextDeleter.AfterInpaintOutputReturned | clear_image/text_deleter.py:23-30 | Once an in-painting happened, a success returns `out_image_path` and that file exists, whether the loop broke on an empty detection or ran out of retries |
| TextDeleter.FailureEndsOnInpaint | clear_image/text_deleter.py:26-28 | A failure comes right after an in-painting call, so no detection follows it, and a failed assertion means the output file is missing |
| TextDeleter.ExhaustedBudget | clear_image/text_deleter.py:13-30 | When text keeps being found and every in-painting writes the file, all iterations run (two calls each) and `out_image_path` is returned |
| TextDeleter.SingleRetry | clear_image/text_deleter.py:11-30 | One retry with text found: a detection, then one in-painting of those boxes onto the output path, whose path is returned |
| TextDetector.Zip | clear_image/text_detector.py:41 | `zip` of the five lists stops at the shortest, and row i holds the i-th entries |
| TextDetector.KeepWords | clear_image/text_detector.py:40-42 | At most one box per word. Every box comes from a word whose text is not blank after `strip`. |
| TextDetector.KeepWordsAppend | clear_image/text_detector.py:40-42 | The filter preserves the words' relative order: filtering a concatenation is concatenating the filtered parts |
| TextDetector.KeepWordsSingle | clear_image/text_detector.py:40-42 | A word is kept exactly when its text is not blank. It becomes `TextBox(left, top, width, height, text)`, so `h` holds the width and `w` the height. |
| TextDetector.TesseractDetect | clear_image/text_detector.py:37-43 | At most one box per row of the engine's output. Each box is the positional `TextBox` of a row of `zip(left, top, width, height, text)` whose text is not blank. |
| TextDetector.TesseractBoxRow | clear_image/text_detector.py:40-42 | Each box is `TextBox(left[i], top[i], width[i], height[i], text[i])` for a non-blank row i: the width lands in `h` and the height in `w` |
| TextDetector.TesseractAllBlank | clear_image/text_detector.py:40-43 | No entries, or only blank ones, give no boxes |
| TextDetector.MinX | clear_image/text_detector.py:64 | `np.min` of the x coordinates is attained and is a lower bound |
| TextDetector.MaxX | clear_image/text_detector.py:65 | `np.max` of the x coordinates is attained and is an upper bound |
| TextDetector.MinY | clear_image/text_detector.py:68 | `np.min` of the y coordinates is attained and is a lower bound |
| TextDetector.MaxY | clear_image/text_detector.py:69 | `np.max` of the y coordinates is attained and is an upper bound |
| TextDetector.PolygonBox | clear_image/text_detector.py:64-72 | The box is the polygon's tight bounding rectangle: every point lies in [x, x+w] × [y, y+h], each edge touches a point, `w, h >= 0`, and the recognised text is stored |
| TextDetector.FlattenAppend | clear_image/text_detector.py:62-63 | Predictions are taken group after group |
| TextDetector.KerasDetect | clear_image/text_detector.py:58-75 | One box per prediction, in group order and then within-group order. An empty polygon makes `np.min` raise. |
| TextDetector.KerasNoPredictions | clear_image/text_detector.py:61-75 | No groups, or only empty groups, give no boxes |
| Inpainter.SliceIndex | clear_image/inpainter.py:42 | A numpy slice bound: negative values count from the end and the result is clamped to [0, n] |
| Inpainter.AlphaIsCoverage | clear_image/inpainter.py:40-42 | After the loop, an alpha pixel is 0 exactly when some box's slice covers it, and 255 otherwise |
| Inpainter.MakeMask | clear_image/inpainter.py:37-47 | The mask is height × width × 4. Channels 0-2 are 0 everywhere, and alpha is 0 exactly on covered pixels and 255 elsewhere. |
| Inpainter.MaskIsBinary | clear_image/inpainter.py:40-46 | Every value of the mask is 0 or 255 |
| Inpainter.CoversNonNegative | clear_image/inpainter.py:42 | For non-negative origin and size, a box covers (r, c) exactly when y ≤ r < y+h and x ≤ c < x+w; slicing clips it to the image |
| Inpainter.EmptyExtentCoversNothing | clear_image/inpainter.py:42 | A box with `h <= 0` or `w <= 0` whose slice end is not negative changes nothing |
| Inpainter.NegativeExtentWraps | clear_image/inpainter.py:42 | A box whose slice end is negative counts from the far edge, so it can still clear rows |
| Inpainter.AsWrittenBoxMasksTransposed | clear_image/text_detector.py:40-42 | A Tesseract word's box, built as written, clears `width` rows from the word's top and `height` columns from its left: the word's rectangle transposed |
| Inpainter.TesseractSwapMasksWrongPixels | clear_image/text_detector.py:40-42 | For a word 10 wide and 2 high, a pixel below the word is cleared and a pixel inside it is kept |
| Inpainter.IntendedBoxMasksWord | clear_image/inpainter.py:41-42 | With the height in `h`, a word's box clears exactly the rectangle Tesseract reported |
| Inpainter.NoBoxesOpaque | clear_image/inpainter.py:40-41 | With no boxes the alpha channel is 255 everywhere |
| Inpainter.MaskIgnoresOrder | clear_image/inpainter.py:41-42 | The mask depends only on the set of boxes: order and duplicates do not matter |
| Inpainter.InpaintRequest | clear_image/inpainter.py:57-65 | A missing input image raises `FileNotFoundError(in_image_path)`, which is what `Image.open` does. Otherwise the edit request sends the input image, the prompt and `n=1`, with a mask of that image's own height and width. The mask is transparent exactly on the pixels some text box covers. |
| Inpainter.InpaintRequestMask | clear_image/inpainter.py:58-62 | The mask sent is `_make_mask(text_boxes, image.height, image.width)` for the opened input image |
| Inpainter.InpaintRequestUsesOwnSize | clear_image/inpainter.py:58-62 | Only the input image's own size shapes the request; the sizes of other files play no part |
| Inpainter.InpaintRequestIgnoresOrder | clear_image/inpainter.py:37-65 | Reordering or repeating the text boxes sends the same request |
| RemoveText.OutputPath | tools/remove_text_tool.py:25-26 | The output path is `root + "_remove_text" + ext` for `(root, ext) = splitext(path)`, and is 12 characters longer |
| RemoveText.OutputKeepsExtension | tools/remove_text_tool.py:25-26 | `splitext` of the output path gives the input's root with the marker, and the same extension |
| RemoveText.RemoveText | tools/remove_text_tool.py:20-30 | The path is stripped first. `FileNotFoundError(stripped path)` is raised exactly when that path is missing, before any call and with no file changed. A success returns the stripped path (after a single empty detection) or the derived output path, which then exists. At most ten calls, and only the output path can be added to the files. |
| RemoveText.RemoveTextBounded | tools/remove_text_tool.py:30 | At most ten collaborator calls, since `max_retries` is 5. Every in-painting uses the default prompt and targets the derived output path. |
| PosixPath.SplitExt | tools/remove_text_tool.py:25 | `root + ext == path`. `ext` is empty, or is a dot followed by no dot or slash. The dot is the last one after the last slash, with a non-dot before it in that component. |
| PosixPath.SplitExtScan | tools/remove_text_tool.py:25 | CPython's `_splitext`: `rfind` of `/` and `.`, then a forward walk over the last component's leading dots, computes the same split |
| PyStr.StripIdempotent | tools/remove_text_tool.py:21 | `strip` removes the surrounding whitespace and stripping again changes nothing |
| ImageUtils.CountRowsSplit | utils.py:51 | Counting the true cells of rows [s, e) is counting [s, m) and then [m, e) |
| ImageUtils.Border | utils.py:44 | The i-th border lies in [0, h]; the first is 0 and the last is h |
| ImageUtils.BorderMonotone | utils.py:44 | Borders never decrease |
| ImageUtils.PointsDensity | utils.py:36-55 | Raises exactly when `num_locations < -1`. Otherwise it returns `max(0, num_locations)` densities and bands. Each density counts the true cells of its band's rows. Bands are contiguous, the first starts at 0 and the last ends at the image height. Band k runs from border k to border k+1 of the `linspace` borders. |
| ImageUtils.Bands | utils.py:44-50 | Band k is `(borders[k], borders[k+1])`; the bands are contiguous and cover rows 0 to h |
| ImageUtils.BandHeight | utils.py:44 | Consecutive borders are ⌊h/n⌋ or, when n does not divide h, ⌈h/n⌉ apart |
| ImageUtils.DensityBandsNearEqual | utils.py:39-53 | Every reported band is ⌊h/n⌋ or ⌈h/n⌉ rows high: the image is cut by evenly spaced horizontal lines |
| ImageUtils.DefaultThreeBands | utils.py:37 | With the default `num_locations=3` the call succeeds with three bands |
| ImageUtils.DensitySum | utils.py:44-55 | The densities add up to the total number of singular points |
| ImageUtils.ThresholdInv | utils.py:59 | A pixel becomes 255 exactly when it is at most 127, and 0 otherwise |
| ImageUtils.Dilate | utils.py:60-61 | One dilation pass keeps the image's shape and yields only 0 and 255 |
| ImageUtils.CombiningMaskBoxes | utils.py:58-63 | The result has the mask's shape and is binary |
| ImageUtils.DilateExtensive | utils.py:61 | Dilation never turns a 255 pixel to 0 |
| ImageUtils.CombiningExtensive | utils.py:59-61 | A pixel that was at most 127 is 255 after any number of iterations |
| ImageUtils.CombiningOnce | utils.py:58-63 | With one iteration, a pixel is 255 exactly when some pixel of the kernel window around it was at most 127 |
| ImageUtils.Reorder | utils.py:74-76 | `img[:, :, order]` keeps the shape and picks channel `order[k]` as channel k |
| ImageUtils.ToBgr | utils.py:71-76 | A 2-D image raises on `shape[2]`. Three channels are reordered (2,1,0) and four channels (2,1,0,3), keeping alpha. Other counts are unchanged. |
| ImageUtils.ToBgrInvolution | utils.py:72-76 | Converting twice gives back the original array |
| ImageUtils.ReadImage | utils.py:66-80 | A missing file raises `FileNotFoundError(image_path)`, as `Image.open` does. Without `to_bgr` the decoded array comes back unchanged. With it, the result is exactly `ToBgr`'s: a 2-D array raises `IndexError` on `img.shape[2]`, and 3- or 4-channel pixels are reordered to (2, 1, 0), with alpha kept. Reordering the result once more gives back the decoded array. |
| ImageUtils.ReadImageSwapsRedBlue | utils.py:66-80 | With the default `to_bgr=True`, every pixel of a 3- or 4-channel image comes back with red and blue swapped, green in place and alpha kept |
| ImageUtils.BboxAsWrittenInvertsName | utils.py:83-88 | As written the function subtracts the corner from the size entries. It is the inverse of the `(x, y, w, h)` to corners conversion its name announces. |
| ImageUtils.BboxNameMismatch | utils.py:83-88 | For `(1, 1, 5, 5)` the function returns `(1, 1, 4, 4)`, while the named conversion gives `(1, 1, 6, 6)` |
| ImageUtils.WhToCorners | utils.py:83-88 | The corrected conversion: the far corner minus the origin is the size |
| OutputHandler.Trim | output_handler.py:69-76 | Never longer than the input. Without `<` nothing is cut. With `<`, a non-empty result starts with `<` and ends with `>`. |
| OutputHandler.PrepareHtml | output_handler.py:57-81 | `None` and empty input come back unchanged, and the result is never longer than the input |
| OutputHandler.PrepareNoTag | output_handler.py:70-79 | Without `<` only the two unescapings apply |
| OutputHandler.PrepareUnclosed | output_handler.py:70-76 | A `<` with no `>` after it yields the empty string |
| OutputHandler.PrepareKeepsTagSpan | output_handler.py:70-76 | With a `>` after the first `<`, the text kept before unescaping runs from the first `<` to the last `>` inclusive |
| OutputHandler.PrepareFramed | output_handler.py:70-79 | A non-empty cleaned result of input with `<` starts with `<` and ends with `>` |
| OutputHandler.UnescapeSingleQuotes | output_handler.py:78-79 | Unescaping gives back any text with no backslash of its own whose single quotes were escaped as `\'`. The later `\"` pass leaves such text alone. |
| PyStr.UnescapeEscaped | output_handler.py:78-79 | Replacing every `e q` with `q` undoes putting `e` before each `q`, for text that holds no `e` |
| PyStr.ReplaceBySelf | output_handler.py:79 | `str.replace` with the pattern as its own replacement returns the text unchanged |
| OutputHandler.SaveFilePaths | output_handler.py:83-102 | The html path lies in the html directory and ends in `.html`; the image path lies in the images directory and ends in `.png`; both carry the same stem |
| OutputHandler.RenderImage | output_handler.py:16-55 | The cleaned HTML is what gets written to the html path. The image path is returned when the screenshot was saved, and the failure message otherwise. |
| OutputHandler.TagScan | output_handler.py:122-129 | The tag loop finds HTML exactly when some tag's open or close form occurs |
| OutputHandler.TagScanIsHtml | output_handler.py:122-129 | Scanning `html` and `head` is checking for `<html>`, `</html>`, `<head>` and `</head>` |
| OutputHandler.RunCheckers | output_handler.py:134-135 | Checkers run in list order. The first raise propagates and no later checker runs. With no raise, all run. |
| OutputHandler.HandleOutput | output_handler.py:120-137 | Raises `InvalidOutput("Html tags not found")` exactly when none of the four tags occurs, with no rendering and no checker called. Otherwise it renders, and each checker is handed `render_image`'s return, in order. The first raise propagates. If all pass, it returns `{"checked_output": <that return>}`. |
| OutputHandler.FailedRenderIsChecked | output_handler.py:133-137 | When the screenshot fails, the checkers get `"Failed to render image from HTML code"`, and a run they all pass returns it as the checked output |
| OutputHandler.SavedRenderIsChecked | output_handler.py:133-135 | After a saved screenshot, the checkers get the `.png` path |
| Checkers.Remarks | checkers.py:38-47 | At most one remark per feature, and none exactly when every answer is empty |
| Checkers.RemarksAppend | checkers.py:40-47 | Remarks follow the features' order |
| Checkers.RemarksSingle | checkers.py:43-47 | A feature yields `"    " + prefix + ": " + answer + " " + postfix` exactly when its answer is non-empty |
| Checkers.RemarksHaveNoLineBreak | checkers.py:24-47 | Remarks built from answers without line breaks contain none |
| Checkers.CliCheck | checkers.py:30-53 | Returns `True` exactly when every answer is empty. Otherwise it raises `InvalidOutput` starting with `"update html text:\n"`. |
| Checkers.CliRemarksReadBack | checkers.py:50-52 | Splitting the raised text after its header on line breaks gives back the remarks, one per non-empty answer |
| Checkers.CheckedText | checkers.py:59 | The checked text is always the quoted text: two characters longer, with quotes at both ends |
| Checkers.CheckPrompt | checkers.py:62-68 | The prompt carries the quoted text right after its opening sentence and ends with `THERE ARE NO COMMENTS.` |
| Checkers.GptVerdict | checkers.py:73-75 | `True` exactly when the phrase occurs in the reply, ignoring case; otherwise it raises `InvalidOutput(reply)` |
| Checkers.OkPhraseLowered | checkers.py:62-73 | The reply is searched for `there are no comments` |
| Checkers.GptImageCheck | checkers.py:61-75 | The image request uses the checker's prompt; a missing file raises before any verdict; otherwise the verdict is the reply's |
| Checkers.GptRequestQuotesText | checkers.py:59-71 | The request's text part is the prompt, with the quoted text at a fixed offset |
| Checkers.StreamLitCheck | checkers.py:90-127 | The counter goes up before the viewer is checked, so a wrong viewer still counts. No queue returns `True`. An empty queue blocks. A non-empty remark raises `InvalidOutput(title + ": " + remark)`. An empty remark returns `True`. |
| Checkers.StreamLitMessageShape | checkers.py:120-125 | The raised text is `Remarks for html generation:: <remarks>`, with the title's colon doubled |
| Checkers.StreamLitChecks | checkers.py:91 | After n checks the counter has grown by n, whatever the verdicts |
| Checkers.PassingRemarksDrain | checkers.py:90-127 | Against a queue whose first k remarks are all empty or `None`, k checks return `True` k times. They consume exactly those k remarks and leave the rest of the queue in order. |
| ImageDescription.ImageExtension | tools/image_description_tool.py:37-38 | The extension without its dot, or empty when `splitext` finds none |
| ImageDescription.DataUrl | tools/image_description_tool.py:40-54 | `data:image/<ext>;base64,<payload>` with a payload of length 4·⌈n/3⌉ |
| ImageDescription.DataUrlRoundTrip | tools/image_description_tool.py:30-54 | Parsing the URL gives back the extension and the file's bytes |
| ImageDescription.DataUrlPayload | tools/image_description_tool.py:30-54 | The payload has length 4·⌈n/3⌉ and uses only the RFC 4648 alphabet, with `=` only in the last two positions |
| Outcomes.OrElse | tools/image_description_tool.py:41 | A present, non-empty text wins, and `None` or the empty text falls back to the default. `prompt or self.prompt` here and `file_name or <timestamp>` in `output_handler.py` are both this. |
| ImageDescription.ProcessImage | tools/image_description_tool.py:32-59 | Raises `FileNotFoundError(stripped path)` exactly when the stripped path is missing. Otherwise it sends one user message holding the text part (the prompt) and then the image URL part. |
| ImageDescription.ProcessImageCarriesFile | tools/image_description_tool.py:33-54 | The image URL carries the stripped path's extension and exactly that file's bytes |
| Base64.Encode | tools/image_description_tool.py:30 | The output has length 4·⌈n/3⌉, with alphabet characters and `=` padding only at the end |
| Base64.RoundTrip | tools/image_description_tool.py:30 | Decoding the encoding gives back the bytes |
| PostMixins.StopMessage | tools/generate_post_tools/generate_post_mixins.py:30-36 | `Stop on tool <name>, <stage>`, with the name at a fixed offset |
| PostMixins.CheckStopping | tools/generate_post_tools/generate_post_mixins.py:54-58 | Raises `RunStopException(message)` exactly when the event is set, clearing it; otherwise nothing changes |
| PostMixins.CheckStoppingOnce | tools/generate_post_tools/generate_post_mixins.py:54-58 | The event is cleared when it fires, so a check right after never raises |
| PostMixins.Stop | tools/generate_post_tools/text_generation_tool.py:95-99 | `stop()` ends the remarks and render queues with `None` and sets the stop event, changing nothing else |
| PostMixins.RemarkPromptReadBack | tools/generate_post_tools/generate_post_mixins.py:148 | The remark and the current text sit at fixed offsets of the regeneration prompt |
| PostMixins.HumanCheckResults | tools/generate_post_tools/generate_post_mixins.py:113-153 | The results come back unchanged on every path. Without a queue or a Streamlit viewer nothing changes. At the maximum `stop()` is called. Otherwise an empty queue blocks. |
| PostMixins.EmptyRemarkClearsPrompt | tools/generate_post_tools/generate_post_mixins.py:136-140 | An empty or `None` remark is consumed, clears the prompt and leaves the counter |
| PostMixins.RemarkCounted | tools/generate_post_tools/generate_post_mixins.py:136-151 | A non-empty remark is consumed and counted once. The new prompt holds the remark and the current results. |
| PostMixins.HumanCheckKeepsBound | tools/generate_post_tools/generate_post_mixins.py:118-150 | One check raises the counter by at most one and never past `max_remarks_iterations` |
| PostMixins.Rounds | tools/generate_post_tools/generate_post_mixins.py:113-153 | Repeated checks keep the maximum |
| PostMixins.RoundsKeepBound | tools/generate_post_tools/generate_post_mixins.py:118-150 | Over any number of rounds the counter stays within the maximum and rises at most once per round |
| PostMixins.AtMaximumEveryRoundStops | tools/generate_post_tools/generate_post_mixins.py:118-120 | At the maximum every round calls `stop()` and reads no remark |
| PostMixins.StopStaysSet | tools/generate_post_tools/generate_post_mixins.py:118-120 | At the maximum the stop event ends up set |
| PostMixins.Wrapper | tools/generate_post_tools/generate_post_mixins.py:27-46 | The hooks run as a prefix of: stop check, `before_run`, execution, stop check, program check, `view_results`, human check, `finish_event.set()`. A stop before the run means the tool never executes. A tool that raises leaves the stop event as the run left it, since the second check is skipped. `finish_event` is set only when the wrapper completes, and the tool's result is then returned. |
| PostMixins.StopDuringFailedRunCarriesOver | tools/generate_post_tools/generate_post_mixins.py:32-36 | A stop requested while a tool raises stays pending, so the next decorated run raises `Stop on tool <name>, before tool run` without executing |
| PostMixins.StopDuringRunReported | tools/generate_post_tools/generate_post_mixins.py:35-36 | A stop requested during the run raises after it, before any result check, and clears the event |
| PostMixins.WrapperKeepsBound | tools/generate_post_tools/generate_post_mixins.py:118-150 | A decorated run raises the remarks counter by at most one and never past the maximum |
| ReplicatePainting.NameCoreBeforeLastDot | tools/outpainting_tools/replicate_image_painting_tool.py:45-47 | The core is the name up to its last dot, and empty for a dot-less name |
| ReplicatePainting.FileNameCore | tools/outpainting_tools/replicate_image_painting_tool.py:43-47 | A path contributes the core of its last component, which holds no slash; a buffer contributes the core of its name |
| ReplicatePainting.NameCoreIsRoot | tools/outpainting_tools/replicate_image_painting_tool.py:44-45 | When `splitext` finds an extension, the core is the root it returns |
| ReplicatePainting.DotFileCoreEmpty | tools/outpainting_tools/replicate_image_painting_tool.py:45 | For `.png` the core is empty although `splitext` finds no extension |
| ReplicatePainting.RunInput | tools/outpainting_tools/replicate_image_painting_tool.py:76-83 | The keys are the defaults' plus the keyword arguments'. A keyword argument overrides its key and every other default stays. |
| ReplicatePainting.RunInputDefaults | tools/outpainting_tools/replicate_image_painting_tool.py:76-82 | Without keyword arguments: one image, `512 * 512` pixels, product size `0.5 * width` |
| ReplicatePainting.KeptDownloads | tools/outpainting_tools/replicate_image_painting_tool.py:94-96 | Only non-empty download results are kept, each one being some URL's result |
| ReplicatePainting.KeptDownloadsAppend | tools/outpainting_tools/replicate_image_painting_tool.py:88-96 | Results are kept in URL order |
| ReplicatePainting.KeptDownloadsSingle | tools/outpainting_tools/replicate_image_painting_tool.py:95-96 | A download's result is kept exactly when it is truthy |
| ReplicatePainting.AllDownloadsKept | tools/outpainting_tools/replicate_image_painting_tool.py:94-96 | When every download succeeds, every path comes back in order |
| ReplicatePainting.Paint | tools/outpainting_tools/replicate_image_painting_tool.py:85-97 | URL 0 is never downloaded. URLs 1 to n-1 are downloaded in order. At most `max(0, n-1)` paths come back. |
| ReplicatePainting.PaintIgnoresFirst | tools/outpainting_tools/replicate_image_painting_tool.py:88-90 | The first URL and its download play no part in the result |

## Left out

- Logging, Streamlit views, spinners, `before_run`/`view_results` displays and the CLI image window: presentation only.
- Network and model calls (`images.edit` and the download in `DalleInpainter.inpaint`, the chat completion, `replicate.run`, `download_image`, the Selenium browser): their answers are inputs.
- `_make_mask_as_bytes` (PNG encoding) and `Image.open` decoding: image codecs are outside the model. The mask is a plain array of ints, and only the size `Image.open` reports is used, given per existing file.
- `find_singular_points` (Harris corner response, float thresholds): the boolean points grid is an input.
- Constructors' environment reads (`OPENAI_API_KEY` checks), the keras-ocr singleton, directory creation, and the `__main__` block of `tools/remove_text_tool.py`: process set-up, not behaviour of the core.
- ImageUtils.Border: `int(np.linspace(0, h, n + 1)[i])` is idealised as ⌊i·h/n⌋; floating-point rounding of the samples is not modelled.
- ImageUtils.PointsDensity: numpy's message for a negative sample count is paraphrased, not quoted.
- ImageUtils.CombiningMaskBoxes: kernels with a side below 1 are excluded, because OpenCV asserts on them. Negative `iterations` are not modelled. Pixels outside the image are ignored, as with OpenCV's default border.
- ImageUtils.ReadImage: `as_array=False` (returning the PIL object) is not modelled. The member starts from the array each existing file decodes to, given per path; image decoding itself is outside the model.
- TextDetector.KerasDetect: polygon coordinates are integers; the `int()` truncation of float coordinates is not modelled.
- TextDeleter.Loop: the oracle sequences must be at least as long as the retry budget, which is a device of the model and not a demand of the source. Detector exceptions are not modelled; only the in-painter can raise.
- PyStr.Lower: lower-casing is ASCII only, so the case-insensitive search of the GPT checker ignores non-ASCII case pairs.
- OutputHandler.SaveFilePaths: `pathlib` joins are plain `dir + "/" + name`, without pathlib's normalisation of repeated or trailing slashes. The timestamp is an input string.
- OutputHandler.RenderImage: the file write and the screenshot are recorded as values, not as file-system effects.
- PostMixins.HumanCheckResults: the remarks queue is a snapshot of its contents. Another thread filling it later, and `set_remark_queue` swapping it, are not modelled, so `stop()` writes to the same queue that is read.
- PostMixins.Wrapper: modelled for the post-text generator, whose stop event is its own `my_stop_event`. The base mixin's identity `program_check_tool_results` and `human_check_results` are the special case of an inactive check.
- ReplicatePainting.Paint: the download target path comes from `get_current_time_file_name`, which is not part of this model.
- `tools/mixins.py`, `tools/dalle_image_generator_tool.py`, `tools/replicate_image_generation_tool.py`, `tools/outpainting_tools/base_painting.py` and `painting_utils.py`: thin shells over helpers outside the modelled files, or float/ML numerics.

## Findings

| source | as written | input that shows it | evidently intended | confidence | as-written member | corrected member |
|---|---|---|---|---|---|---|
| utils.py:83-88 | `bbox_w_h_to_x_max_y_max` returns `(b0, b1, b2 - b0, b3 - b1)`, which turns corners into a size | `(1, 1, 5, 5)` gives `(1, 1, 4, 4)` | `(b0, b1, b0 + b2, b1 + b3)`, the far corner of an `(x, y, w, h)` box: `(1, 1, 6, 6)` | low (no caller among the modelled files; not executed) | ImageUtils.BboxNameMismatch | ImageUtils.WhToCorners |
| clear_image/text_detector.py:40-42 | `TextBox(l, top, w, h, text)` passes the width and height positionally into fields declared `x, y, h, w`, so `h` gets the width | a word 10 wide and 2 high at the origin: the mask (`alpha[y:y+h, x:x+w]`) clears rows 0-9 of columns 0-1, not rows 0-1 of columns 0-9 | `TextBox(l, top, h, w, text)`, as the Keras detector does at line 72 | medium (the Keras detector orders them correctly; not executed) | Inpainter.TesseractSwapMasksWrongPixels | Inpainter.IntendedBoxMasksWord |

The Tesseract detector itself stays modelled as written (`TextDetector.TesseractDetect`). `delete_text` takes the boxes as input, and `remove_text` uses the Keras detector, so no other member depends on the order.
