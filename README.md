# Invoice-extraction preprocessing: a verified Dafny model

The repository serves a document-understanding model (InternVL) behind an HTTP
endpoint and also runs it offline to build a question/answer dataset. The
deterministic logic around the model call is modelled here:

- the **dynamic tiling planner** (`find_closest_aspect_ratio`, `dynamic_preprocess`
  and the tile count in `load_image`). It enumerates the candidate grids `(i, j)` with
  `min_num <= i*j <= max_num` and sorts them by tile count. It picks the grid whose
  ratio `i/j` is closest to the image's `w/h`, crops the resized canvas into `i*j`
  square tiles in row-major order, and may append a whole-image thumbnail;
- the **dataset helpers** of `create_dataset.py`. `parse_extraction_result` reads
  the model output as a field map. `generate_conversations` turns that map into five
  user/assistant question-and-answer pairs.

`app.py:17-94` and `create_dataset.py:32-99` are the same code apart from
comments and `load_image`'s input handling (`app.py` accepts bytes or a path,
`create_dataset.py` a path). The table
cites `app.py` for the tiling members. The same members model `create_dataset.py:42-90`.

Files:

- `wrappers.dfy` — `Option` and `Result`.
- `divmod.dfy` — facts about integer and real division used by the proofs.
- `aspect_ratio.dfy` — candidate grids (`TargetRatios`) and the search
  (`FindClosestAspectRatio`, specified by `ClosestAspectRatio`).
- `tiling.dfy` — crop boxes, `DynamicPreprocess` and `LoadImage`.
- `extraction.dfy` — `ParseExtractionResult` and `GenerateConversations`.

Modelling choices:

- Images are known only by `(width, height)`.
- A tile is `Crop(box)` or `Thumbnail`.
- The distance `|w/h - i/j|` is an exact `real`. It equals the fraction `|w*j - h*i| / (h*j)`.
- The area test `area > 0.5 * s * s * i * j` becomes the integer comparison `2*w*h > s*s*i*j`.
- The source sorts a Python set, so the order among grids with the same tile count is
  left to set iteration. The model fixes it to ascending column count. Every search
  property is proved for an arbitrary list. `TieBreakDependsOnOrder` shows that the
  order can change the result.

Edge cases, as the source handles them:

- When `max_num < min_num` there is no candidate: `find_closest_aspect_ratio` returns
  the fallback `(1, 1)` (app.py:29-30) and `dynamic_preprocess` emits one crop and no
  thumbnail (app.py:66-77).
- A height of zero fails (division by zero in `orig_width / orig_height`, app.py:46).
  A width of zero goes through the arithmetic.

## Model

| member | source | states |
|---|---|---|
| AspectRatio.TargetRatiosMembers | app.py:49-51 | a grid is a candidate iff `i >= 1`, `j >= 1` and `min_num <= i*j <= max_num` |
| AspectRatio.TargetRatiosMatchComprehension | app.py:49-52 | the sorted list holds exactly the grids of the source's comprehension over `n`, `i`, `j` |
| AspectRatio.TargetRatiosSorted | app.py:52 | the list is non-decreasing in `i*j`; no grid appears twice; equal counts come in ascending `i` |
| AspectRatio.TargetRatiosEmpty | app.py:49-51 | the list is empty iff `max_num < min_num` or `max_num < 1` |
| AspectRatio.TargetRatiosAdmissible | app.py:33 | every candidate has `j != 0`, so `ratio[0] / ratio[1]` is defined |
| AspectRatio.RatioDiffAsFraction | app.py:33-34 | the distance `|w/h - i/j|` equals the exact fraction `|w*j - h*i| / (h*j)` |
| AspectRatio.ZeroDiffSameRatio | app.py:33-34 | a grid at distance zero has exactly the image's ratio, `w*j == h*i` |
| AspectRatio.SearchPrefixNearest | app.py:32-37 | after each step, `best_ratio_diff` is the best grid's distance, and the best grid is a visited grid no farther than any visited grid |
| AspectRatio.ClosestIsNearest | app.py:29-41 | an empty list yields `(1, 1)`; otherwise the result is a member of the list at the minimum distance |
| AspectRatio.SearchPrefixSettles | app.py:32-40 | after each step, the best grid is characterised by the tie-break rule over the visited prefix |
| AspectRatio.ClosestIsLastPreferredTie | app.py:35-40 | the result is at the minimum distance; it is the first grid at that distance or it passes the area test; no later grid at that distance passes the area test |
| AspectRatio.TieBreakDependsOnOrder | app.py:38-40 | two equally close grids give different results when their order is swapped |
| AspectRatio.FindClosestAspectRatio | app.py:27-41 | the loop computes `ClosestAspectRatio`: `(1, 1)` on an empty list, else a member at the minimum distance |
| AspectRatio.ChosenGridInRange | app.py:49-61 | the chosen grid has `i, j >= 1`; it is `(1, 1)` without candidates, else `min_num <= i*j <= max_num` |
| AspectRatio.TwiceAsWideChosen | app.py:45-56 | an image twice as wide as high, with 2 tiles allowed and `max_num < 8`, gets grid `(2, 1)` |
| AspectRatio.WideImageExample | app.py:43-56 | 896 x 448 with 448-pixel tiles and 1 to 6 tiles gives grid `(2, 1)` |
| Tiling.CropBoxInCanvas | app.py:59-72 | every box is `s x s` and lies inside `[0, i*s] x [0, j*s]` |
| Tiling.CropBoxRowMajor | app.py:66-72 | tile `r*i + c` is the box in column `c` of row `r` |
| Tiling.CropBoxLocates | app.py:67-72 | a pixel inside box `k` lies in column band `k mod i` and row band `k div i` |
| Tiling.CropBoxesDisjoint | app.py:66-72 | boxes for distinct `k` share no pixel |
| Tiling.CropBoxesCover | app.py:59-72 | every pixel of the `i*s x j*s` canvas lies in some box `k < i*j` |
| Tiling.DynamicPreprocess | app.py:43-80 | fails iff the height is 0 or the tile size is not positive; otherwise it returns `i*j` crops of the chosen grid in row-major order, followed by a thumbnail iff requested and `i*j != 1` |
| Tiling.LoadImage | app.py:82-94 | fails exactly as `dynamic_preprocess` does; otherwise returns the row-major crops of the grid chosen with `max_num=6`, followed by the thumbnail iff that grid has more than one tile, so 1 entry or 3 to 7 entries |
| Tiling.WideImageTiles | app.py:59-79 | the 896 x 448 example gives two side-by-side crops plus the thumbnail, 3 entries |
| Extraction.TrimLeftDropsLeadingSpace | create_dataset.py:155 | left-stripping removes exactly the leading white space |
| Extraction.TrimRightKeepsHead | create_dataset.py:155 | right-stripping keeps a leading non-space character |
| Extraction.LooksLikeJsonIff | create_dataset.py:155 | `s.strip().startswith('{')` iff the first non-space character of `s` is `{` |
| Extraction.ParseExtractionResult | create_dataset.py:150-165 | a dict is returned unchanged; JSON-looking text that parses gives the parsed object; any other text or a failed parse gives `{'raw_text': s}`; any other value gives `{'raw_text': str(x)}` |
| Extraction.FirstTruthyIsFirst | create_dataset.py:175-181 | an `or` chain yields the value at the first key whose value is truthy, else the fallback |
| Extraction.FieldAnswerIsFirstTruthy | create_dataset.py:174-181 | a field answer is the text of the first truthy listed field, else `'Không xác định'` |
| Extraction.PaymentAnswerIff | create_dataset.py:182-183 | the payment answer is `'Tiền mặt'` iff `'Tiền mặt'` or `'Tiền khách trả'` is truthy, else `'Không xác định'` |
| Extraction.RawTextAnswersUnknown | create_dataset.py:150-183 | text whose first non-space character is not `{`, or that `json.loads` rejects, makes every answer `'Không xác định'` |
| Extraction.GenerateConversations | create_dataset.py:167-190 | 10 turns; even indices are user turns with the fixed questions in order; odd indices are assistant turns with the answers from the parsed output |

## Left out

- `build_transform` and the ImageNet mean/std normalisation (`app.py:17-25`): floating-point tensor work done by torchvision.
- PIL pixel operations (`Image.open`, `convert`, `resize`, `crop`) are not modelled. Only the box geometry and the kind of each tile are.
- PIL's own rejection of empty images is not modelled. `NonPositiveSize` stands for `resize` refusing a canvas without pixels. With a zero tile size, the `//` in the crop loop would divide by zero anyway.
- Floating point: the source computes `aspect_ratio`, `ratio_diff` and the area test in doubles. The model uses exact rationals. Two distinct ratios placed symmetrically around `w/h` can tie exactly and yet differ in floating point, or the reverse.
- `FindClosestAspectRatio` takes `width` and `height` instead of the precomputed float `aspect_ratio`. The source's caller derives that argument from the same two numbers.
- The iteration order of the candidate set among equal tile counts is fixed to ascending `i`. CPython's set order is not modelled.
- The FastAPI endpoint, startup model loading, the `requests.get` image fetch and `model.chat` (`app.py:96-179`): I/O and an external model.
- `extract_invoice_info`, `process_all_images`, `find_all_images`, the CSV and Hugging Face export, and `main` in `create_dataset.py`: model calls, filesystem and command-line glue.
- `test_api.py` (an HTTP client with random image choice) and `download_model.py` (Hugging Face Hub download) are not part of this model.
- `json.loads` is the parameter `loads`: text whose first non-space character is `{` either parses to an object or fails.
- Python's `str()` of a non-string value is the parameter `render`. Floats are not among the modelled values.
