# Simple Moozic Builder — template compositor and session model in Dafny

Simple Moozic Builder packages a set of songs as a game music mod. Each song
gets a cassette and/or a vinyl item, and each item's textures are built by
compositing the song's cover art into template images. This project models
the core of that texture pipeline and the small pure helpers around it:

- the **region detector**, which finds where a template wants artwork: a
  dark-key scan, then the template's alpha, then the whole canvas;
- the **dual-key classifier**, which splits a mask image into a magenta
  "main" region and a cyan "trim" region, and the low-alpha clean-up of the
  overlay;
- the **geometric fitter**: cover-crop windows, letterbox offsets, the square
  stretch and the per-column bands of the corner-pinned trapezoid warp;
- the **layer compositor**: `compose_with_template`,
  `compose_item_album_with_skew`, the soft-light pass, and
  `compose_record_with_mask_overlay` with its empty-region fallback, darken
  multiplier and conditional trim pass;
- **caption fitting**: greedy word wrap with ellipsis truncation, and the
  descending font-size search and right-aligned placement of the mod name;
- the **name and path helpers**: safe song stems, mod ids, yes/no and
  placement parsing, the audio source and cache folders, the variant-pool
  check, cover-choice matching and "stem (n)" free names;
- the **song catalog**: dedup by score and the sorted listing, the cache-first
  merge of available oggs, and the cassette/vinyl partition of a mixed build;
- the **session state** of the builder window, without widgets: the fuzzy
  song filter, the recent-projects list, the global vinyl mask, the bulk
  switches, removal, generation counts, song-order restore and column sorting.

Images are immutable grids (`Raster.Plane`, with `cells[y][x]`) of 8-bit RGBA
pixels. The imaging library's numeric operations are fields of `RasterOps.Ops`,
constrained only by the laws the compositor relies on: resampling, alpha
compositing, multiply, soft light and enhancement. Masked paste, crop and
composite are modelled exactly on top of a per-pixel blend. Text measurement
is a pair of functions passed in (`TextFit.FontMetrics`). Directory listings,
file modification times and the "does this path exist" test are inputs.

Python's `//` with a positive divisor is Dafny's `/`. Python's `round` is
modelled as round-half-to-even on exact reals. `str.strip`/`str.split` use
Python's whitespace set, and `str.lower` is modelled on ASCII letters.

Files: `results.dfy` (Option/Result), `raster.dfy`, `rasterops.dfy`,
`geometry.dfy`, `region.dfy`, `keys.dfy`, `fitter.dfy`, `compositor.dfy`,
`strings.dfy`, `textfit.dfy`, `names.dfy`, `workspace.dfy`, `sorting.dfy`
(a stable insertion sort with proofs), `catalog.dfy`, `buildplan.dfy`,
`session.dfy`.

## Model

| member | source | states |
|---|---|---|
| Raster.BBox | simple_moozic_builder.py:1246-1251 | `getbbox` is None exactly for an all-zero mask; otherwise it is the tight half-open box of the nonzero cells |
| Raster.TightBoxUnique | simple_moozic_builder.py:1247 | a mask has only one tight box, so the returned box is well defined |
| Raster.Lighter | simple_moozic_builder.py:1436 | the union mask is the pointwise maximum of the main and trim masks |
| RegionDetector.KeyMask | simple_moozic_builder.py:1237-1245 | a pixel is 255 exactly when it has alpha > 0 and max(r,g,b) ≤ 40, else 0; the mask is non-empty exactly when such a pixel exists |
| RegionDetector.CoverageMask | simple_moozic_builder.py:1248-1251 | a pixel is 255 exactly when its alpha is > 0, else 0; the mask is non-empty exactly when such a pixel exists |
| RegionDetector.Detect | simple_moozic_builder.py:1233-1254 | three tiers: the mask is 255 exactly at dark-key pixels if any exist; else 255 exactly where alpha > 0; else all 255 with box (0,0,w,h) |
| RegionDetector.DetectTight | simple_moozic_builder.py:1233-1254 | on a non-empty canvas the box is always the mask's tight box |
| RegionDetector.FullCanvasIsTight | simple_moozic_builder.py:1253-1254 | the full-canvas fallback box is the tight box of the all-255 mask |
| KeyClassifier.Classify | simple_moozic_builder.py:1374-1385 | alpha < 8 is never keyed; otherwise a pixel is trim exactly when it is within L1 24 of cyan and main exactly when it is within L1 24 of magenta, so checking trim first never decides a tie |
| KeyClassifier.DualMasks | simple_moozic_builder.py:1359-1386 | alpha < 8 is in neither mask; L1 ≤ 24 to cyan gives trim weight a; else L1 ≤ 24 to magenta gives main weight a; else neither; no pixel is in both |
| KeyClassifier.KeyBallsDisjoint | simple_moozic_builder.py:1370-1385 | no colour is within tolerance of both keys, so checking trim first never breaks a tie |
| KeyClassifier.ClearLowAlphaNoise | simple_moozic_builder.py:1399-1408 | pixels with alpha below the threshold become (0,0,0,0), the rest are unchanged, and the size is kept |
| KeyClassifier.ClearLowAlphaNoiseIdempotent | simple_moozic_builder.py:1399-1408 | cleaning twice equals cleaning once |
| Geometry.CenterOffset | simple_moozic_builder.py:1272-1273 | `(outer - inner) // 2` leaves margins that differ by at most one pixel |
| Geometry.CenterOffsetFits | simple_moozic_builder.py:1299-1300 | a span that fits is placed inside, with the extra pixel on the far side |
| Geometry.CoverCropWindow | simple_moozic_builder.py:1287-1289 | the crop window is exactly out_w × out_h at max(0, ·//2); it lies inside nw × nh when the resized image covers the target, and starts at 0 and overruns it when it does not |
| Geometry.TemplateCropWindow | simple_moozic_builder.py:1272-1274 | the unclamped window of `compose_with_template` has the box's size, is centred on the image (twice the offset is the slack or one less, per axis), equals the clamped one when the image covers the box, and goes negative whenever the image is narrower, even by one pixel |
| Geometry.LetterboxOffset | simple_moozic_builder.py:1299-1300 | letterbox margins differ by at most one pixel on each axis |
| Geometry.SquareSide | simple_moozic_builder.py:1391 | the square's side is the longer source side |
| Geometry.SquareLetterboxInside | simple_moozic_builder.py:1391-1395 | the source lies wholly inside its square, flush on its longer axis |
| Geometry.ColumnBand | simple_moozic_builder.py:1327-1333 | column x spans floor(tr·t) to ceil((h−1−bl)(1−t)+(h−1)t) with t = x/(w−1), stated exactly in integers |
| Geometry.ColumnBandCorners | simple_moozic_builder.py:1319-1329 | the left column spans 0..h−1−bl and the right column tr..h−1 |
| Geometry.ColumnBandIdentity | simple_moozic_builder.py:1327-1332 | with no corner moved every column spans the full height |
| Geometry.SkewPasteOffset | simple_moozic_builder.py:1344-1354 | the warped image is centred in the detected box (sides clamped to 1): twice the near margin is the slack or one less, also when the image is larger than the box; it lies inside the box when it fits |
| Fitter.LetterboxSquareImage | simple_moozic_builder.py:1389-1396 | the output is a square whose side is the longer source side, and the source fits wholly inside it at the centring offset |
| Fitter.LetterboxSquareBars | simple_moozic_builder.py:1392-1395 | every pixel of the square outside the source is opaque black |
| Fitter.LetterboxSquareKeepsSource | simple_moozic_builder.py:1392-1395 | an opaque source appears unchanged at the centring offset |
| Fitter.PasteOpaque | simple_moozic_builder.py:1395 | an opaque image pasted wholly inside the canvas replaces exactly the pixels it covers |
| Fitter.SquareLetterbox | simple_moozic_builder.py:245-253 | the letterboxed square is resampled to out_size × out_size |
| Fitter.CoverLetterbox | simple_moozic_builder.py:1292-1302 | the contain-fit canvas is exactly out_w × out_h |
| Fitter.CoverLetterboxBars | simple_moozic_builder.py:1298-1301 | every canvas pixel outside the resized image, placed at the centring offset, is opaque black |
| Fitter.CoverCrop | simple_moozic_builder.py:1281-1289 | the cover-crop output is exactly out_w × out_h |
| Fitter.CoverCropFills | simple_moozic_builder.py:1284-1289 | when the resized image covers the target every output pixel is the resized pixel under the centred window; when it is narrower the crop runs past its edge and the far pixel is transparent |
| Fitter.CoverSquareResize | simple_moozic_builder.py:1305-1310 | the square stretch ends at exactly out_w × out_h |
| Fitter.WarpEmptyColumnTransparent | simple_moozic_builder.py:1333-1337 | a column whose band holds no row stays wholly transparent |
| Fitter.ColumnWarpTrapezoid | simple_moozic_builder.py:1313-1338 | a source with a side ≤ 1 is returned unchanged; otherwise the size is kept and every pixel outside its column's band is transparent |
| Compositor.RoundHalfEven | simple_moozic_builder.py:1467 | Python `round`: within 0.5 of the value, and ties go to the even integer |
| Compositor.DarkenMultiplier | simple_moozic_builder.py:1467 | the multiplier is round(255·f) clamped to 0..255: 0 for f ≤ 0, 255 for f ≥ 1, nearest otherwise |
| Compositor.DarkenMultiplierExamples | simple_moozic_builder.py:1431-1467 | f = 0.5 gives 128 (ties to even), and the default 214/255 gives 214 |
| Compositor.MaskedOntoTemplate | simple_moozic_builder.py:1278 | where the detected mask is 0 the template shows, and where it is 255 the foreground shows |
| Compositor.ComposeWithTemplate | simple_moozic_builder.py:1257-1278 | outside the template's region the template is unchanged; inside it the fitted source shows |
| Compositor.TemplateForeground | simple_moozic_builder.py:1257-1277 | the foreground canvas has the template's size (where the crop lands is `TemplateForegroundPlacement`) |
| Compositor.TemplateForegroundPlacement | simple_moozic_builder.py:1274-1277 | the fitted crop lands on the detected box: outside the box the foreground is transparent |
| Compositor.SkewForeground | simple_moozic_builder.py:1341-1355 | the foreground canvas of the album icon has the template's size |
| Compositor.SkewForegroundPlacement | simple_moozic_builder.py:1352-1355 | outside the target_w × target_h rectangle at the centring offset the album foreground is transparent |
| Compositor.ComposeItemAlbumWithSkew | simple_moozic_builder.py:1341-1356 | the album icon keeps the template's size and leaves every pixel outside the template's region unchanged |
| Compositor.ApplySoftLight | simple_moozic_builder.py:1411-1423 | the soft-light result has the base's size (its pixels are `SoftLightCells`) |
| Compositor.SoftLightPixel | simple_moozic_builder.py:1416-1419 | the soft-light blend keeps the base pixel's alpha |
| Compositor.SoftLightCells | simple_moozic_builder.py:1411-1423 | with no soft-light coverage the blend applies everywhere; otherwise transparent soft-light pixels keep the base and opaque ones take the blend |
| Compositor.RecordCrop | simple_moozic_builder.py:1444-1460 | the artwork is tw × th; `pixelate_to` None or ≤ 0 takes the cover-crop path |
| Compositor.RecordLayer | simple_moozic_builder.py:1462-1463 | the crop is pasted at the union box's corner on a transparent canvas of the overlay's size |
| Compositor.RecordUnderlay | simple_moozic_builder.py:1465-1470 | the layer goes through the main mask, and the darkened pass runs only when the trim mask is non-empty |
| Compositor.RecordUnderlayCells | simple_moozic_builder.py:1465-1470 | outside both masks the canvas is transparent; full main shows the layer; full trim shows the layer multiplied by the grey |
| Compositor.ComposeRecordWithMaskOverlay | simple_moozic_builder.py:1426-1475 | an empty union returns exactly `compose_with_template(source, overlay)`; it fails exactly when the union is non-empty and the mask and overlay sizes differ; otherwise the result has the overlay's size |
| Compositor.RecordIsTop | simple_moozic_builder.py:1437-1475 | with a non-empty union and no soft-light image, the result is the overlaid canvas for the union's box |
| Compositor.OverlayTop | simple_moozic_builder.py:1465-1472 | the cleaned overlay lies over transparency outside both masks, over the layer in a full main pixel, and over the grey-multiplied layer in a full trim pixel |
| Compositor.RecordTop | simple_moozic_builder.py:1462-1472 | the same per-pixel picture for the artwork layer pasted at the union box's corner and the key masks of the mask image, and the canvas has the overlay's size |
| Strings.Strip | simple_moozic_builder.py:282 | `str.strip` returns the middle slice; everything removed is whitespace, and the result has no whitespace at either end |
| Strings.WordsKeepNonSpace | simple_moozic_builder.py:282 | `str.split()` keeps every non-space character, in order |
| Strings.WordsOfJoin | simple_moozic_builder.py:282 | splitting words joined by " " gives back the words |
| Strings.JoinSplitOn | simple_moozic_builder.py:304-308 | `" ".join(s.split(" "))` gives back s |
| Strings.SplitOnJoin | simple_moozic_builder.py:304-308 | splitting a " "-join of space-free parts gives back the parts |
| Strings.SubstringIsSubsequence | simple_moozic_builder_ui.py:1249-1258 | a substring is a subsequence, so the filter's `q in t` shortcut agrees with the scan |
| TextFit.ExtendLine | simple_moozic_builder.py:289-297 | a line takes each next word while `line + " " + word` measures ≤ max_width, and stops at the first word that does not fit |
| TextFit.LineRanges | simple_moozic_builder.py:286-298 | the wrap loop makes greedy, consecutive lines and at most max_lines of them; it stops only at the last word or at the cap |
| TextFit.TrimForEllipsis | simple_moozic_builder.py:300-309 | the kept text is a prefix of the last line that fits with "..." or is empty, and a line that already fits is kept whole |
| TextFit.WrapText | simple_moozic_builder.py:274-311 | blank text gives [stripped text or "Untitled"]; without truncation the lines are the greedy ranges |
| TextFit.BlankHasNoWords | simple_moozic_builder.py:282-284 | the text has no words exactly when it is all whitespace |
| TextFit.WrapBlank | simple_moozic_builder.py:282-284 | all-whitespace text wraps to ["Untitled"] |
| TextFit.WrapLineCount | simple_moozic_builder.py:288 | there is at least one line, and at most max_lines when a cap of at least 1 is given |
| TextFit.WrapKeepsWords | simple_moozic_builder.py:286-298 | with no cap nothing is cut: the lines joined by " " are exactly the text's words joined by " " |
| TextFit.WrapGreedy | simple_moozic_builder.py:289-298 | every line fits or is a single word, and every line followed by another could not take that line's first word |
| TextFit.WrapEllipsis | simple_moozic_builder.py:300-309 | "..." appears only when words remain; then only the last line changes, to a fitting prefix of it plus "..." |
| TextFit.EllipsisStrips | simple_moozic_builder.py:309 | the final `.strip()` never removes the ellipsis |
| TextFit.Frame | simple_moozic_builder.py:319-333 | max_w ≥ 24, max_h ≥ 20, inner ≥ 8, stroke and spacing ≥ 2, and 8 ≤ min_size ≤ max(14, w//9) |
| TextFit.CaptionText | simple_moozic_builder.py:324 | a blank mod name is captioned "Untitled", so the caption text is never blank |
| TextFit.FirstFit | simple_moozic_builder.py:334-350 | counting down from the start size to min_size, the search returns the largest size that passes the fit test (a size whose wrapped box fits, as `ModNameCaption` uses it), or none if no size passes |
| TextFit.ModNameCaption | simple_moozic_builder.py:314-364 | sizes run from max(14, w//9) down to max(8, w//40); the first fitting size wins; else min_size with at most 6 lines and an ellipsis; the text is right-aligned, lifted, and never above box top + inner |
| TextFit.FallbackCaptionLines | simple_moozic_builder.py:351-355 | the caption has at least one line, and the fallback caption at most 6 |
| TextFit.FallbackCaptionEllipsis | simple_moozic_builder.py:351-355 | when the fallback wrap at min_size leaves words over, the last line ends in "..." |
| Names.RemoveForbidden | simple_moozic_builder.py:74 | the forbidden file-name characters and control characters are removed, and every other character is kept in order: the result is a subsequence shorter by exactly the number of forbidden characters |
| Names.SafeSongStem | simple_moozic_builder.py:70-76 | the stem is never empty, never ends in '.', has no leading whitespace and no forbidden characters |
| Names.SafeSongStemFromName | simple_moozic_builder.py:70-76 | the stem is "New Song" or a subsequence of the stripped name: nothing is added or reordered |
| Names.SafeSongStemClean | simple_moozic_builder.py:70-76 | a non-empty name with nothing to strip, no forbidden character and no trailing '.' comes back unchanged |
| Names.SafeSongStemNotIdempotent | simple_moozic_builder.py:70-76 | "a. ." gives "a. ", which gives "a": the clean-up is not idempotent |
| Names.SafeSongStemFixpoint | simple_moozic_builder.py:70-76 | a stem that does not end in whitespace is a fixed point |
| Names.Stem | simple_moozic_builder.py:128 | `Path.stem` followed by `Path.suffix` gives back the name |
| Names.KeepAsciiAlnum | simple_moozic_builder.py:131 | exactly the ASCII letters and digits, in order: a subsequence as long as their count |
| Names.SanitizeId | simple_moozic_builder.py:127-134 | the id has 1 to 48 ASCII letters and digits: "Track" when no letter or digit of the stem is left, otherwise the first 48 (or all) of them |
| Names.SanitizeIdIdempotent | simple_moozic_builder.py:127-134 | sanitising an id again changes nothing |
| Names.ParseYesNo | simple_moozic_builder.py:178-182 | blank gives the default; otherwise true exactly for y/yes/true/1 in any case and padding |
| Names.ParseYesNoCanonical | simple_moozic_builder.py:178-182 | "yes" and "no" parse to true and false |
| Names.ParsePlacement | simple_moozic_builder.py:185-191 | blank or unknown gives the default; the inside and outside synonyms give "inside" and "outside" |
| Names.ParsePlacementIdempotent | simple_moozic_builder.py:185-191 | a parsed placement parses to itself |
| Workspace.AudioSourceRoot | simple_moozic_builder.py:621-622 | a folder named "_ogg" stands for its parent; any other folder is its own source root |
| Workspace.AudioCacheRoot | simple_moozic_builder.py:625-626 | the cache root is always named "_ogg": the folder itself or its "_ogg" child |
| Workspace.SourceOfCache | simple_moozic_builder.py:621-626 | the cache of a folder has the same source root as the folder |
| Workspace.CacheOfSource | simple_moozic_builder.py:621-626 | the source root's cache is the folder's cache, unless the source root is itself named "_ogg" |
| Workspace.NestedCacheFolder | simple_moozic_builder.py:621-626 | for ".../_ogg/_ogg" the two rules disagree |
| Workspace.DecInjective | simple_moozic_builder.py:1033 | different numbers print differently |
| Workspace.ValidateVariantPool | simple_moozic_builder.py:212-219 | passes exactly when the found set is lo..hi; the error message starts with the pool's name |
| Workspace.PoolMatches | simple_moozic_builder.py:213-215 | the found set equals lo..hi exactly when every variant is in range and every value in range is found |
| Workspace.FindFirst | simple_moozic_builder.py:233-240 | the first listed image matching by name (or by stem), in listing order |
| Workspace.ResolveCoverChoice | simple_moozic_builder.py:222-242 | a blank choice or no images gives None; an exact-name match comes before any stem match; the result is always a listed image |
| Workspace.ChoosingListedImage | simple_moozic_builder.py:230-235 | choosing a listed image by its own name finds it when no other image has the same lower-cased name |
| Workspace.NumberedInjective | simple_moozic_builder.py:1179 | different attempts give different "stem (n)" names |
| Workspace.NextFreeName | simple_moozic_builder.py:1174-1182 | the plain name if free, else "stem (n)suffix" for the least free n ≥ 2 |
| Catalog.DedupCoversKeys | simple_moozic_builder.py:872-890 | the merged rows have one row per cache-file name seen |
| Catalog.DedupKeepsBest | simple_moozic_builder.py:868-890 | each kept row is the first entry for its name with the highest (source is .ogg, status rank, mtime) score |
| Catalog.RefreshCatalog | simple_moozic_builder.py:892 | the listing is a permutation of the merged rows |
| Catalog.RefreshCatalogSpec | simple_moozic_builder.py:868-892 | sorted by lower-cased source name; one row per name; each row is the first best-scored entry for its name |
| Catalog.CacheRows | simple_moozic_builder.py:899-901 | the cache pass holds exactly the cached .ogg names, once each |
| Catalog.SourceRows | simple_moozic_builder.py:903-906 | a source ogg is added only when the cache lacks its name |
| Catalog.CollectAvailableOggs | simple_moozic_builder.py:893-908 | each folder listing is walked in code-point order; the result is sorted by lower-cased name and holds each name once |
| Catalog.CollectAvailableOggsSpec | simple_moozic_builder.py:895-908 | the ogg files listed are exactly the cached ones and the source ones whose name is not cached |
| BuildPlan.PlacementOf | simple_moozic_builder.py:2196 | the placement is "inside" or "outside", and "inside" when missing |
| BuildPlan.PlanTracks | simple_moozic_builder.py:2187-2219 | the error is "No songs selected for cassette or vinyl build.", and a plan holds at least one ogg |
| BuildPlan.Expected | simple_moozic_builder.py:2198-2212 | a track is in a media type's cover map or random set exactly when it has an ogg and selects that type, never both; only vinyl tracks get a placement |
| BuildPlan.PartitionUnseen | simple_moozic_builder.py:2187-2212 | names that are not configured are in no map or set |
| BuildPlan.PartitionRecords | simple_moozic_builder.py:2187-2212 | every configured track is recorded exactly as its own settings ask |
| BuildPlan.PartitionOggs | simple_moozic_builder.py:2187-2207 | each ogg list holds exactly the ogg files of the tracks that select that media type |
| BuildPlan.PlanTracksFails | simple_moozic_builder.py:2214-2215 | the build fails exactly when no track with an ogg file selects cassette or vinyl |
| Session.FindFrom | simple_moozic_builder_ui.py:1253 | `str.find`: the first index at or after pos holding the character, or -1 |
| Session.FuzzyMatch | simple_moozic_builder_ui.py:1245-1249 | a blank or whitespace query matches everything |
| Session.FuzzyMatchSubsequence | simple_moozic_builder_ui.py:1245-1258 | the filter matches exactly when the query is blank or the stripped, lower-cased query is a subsequence of the lower-cased text |
| Session.Without | simple_moozic_builder_ui.py:574 | every occurrence of p is dropped and nothing else: the rest is kept and the length falls by the number of p's |
| Session.PushRecent | simple_moozic_builder_ui.py:573-576 | the list starts with p, holds p once, has at most 20 entries, and the rest is the leading (most recent) entries of the old list with p removed, in their old order |
| Session.PushRecentOrder | simple_moozic_builder_ui.py:574-576 | the other projects keep their old relative order |
| Session.PushRecentIdempotent | simple_moozic_builder_ui.py:573-576 | pushing the same project again changes nothing |
| Session.PushRecentDistinct | simple_moozic_builder_ui.py:573-576 | a list without repeats stays without repeats |
| Session.NormaliseMask | simple_moozic_builder_ui.py:1635-1638 | the stored mask is "inside" or "outside", "outside" exactly when the value, else the current mask, else "inside" normalises to "outside" |
| Session.SetPlacements | simple_moozic_builder_ui.py:1640-1641 | every track keeps its key, its placement becomes the mask, and no other setting changes |
| Session.SetPlacementsSame | simple_moozic_builder_ui.py:1640-1641 | setting every placement to the one they all already have changes nothing |
| Session.SetPlacementsTwice | simple_moozic_builder_ui.py:1640-1641 | only the last placement set counts |
| Session.ApplyGlobalMask | simple_moozic_builder_ui.py:1634-1642 | the stored mask is the normalised one, and the tracks are updated by SetPlacements with that mask |
| Session.ApplyGlobalMaskIdempotent | simple_moozic_builder_ui.py:1634-1642 | applying the same mask again changes nothing |
| Session.ToggledMask | simple_moozic_builder_ui.py:1644-1646 | inside becomes outside, and anything else (including an empty mask, read as inside) becomes inside |
| Session.ToggleGlobalMask | simple_moozic_builder_ui.py:1644-1647 | the toggled mask is stored, and the tracks are updated by SetPlacements with it |
| Session.ToggleTwice | simple_moozic_builder_ui.py:1644-1647 | two toggles restore the mask and every placement |
| Session.BulkSet | simple_moozic_builder_ui.py:1681-1686 | every track gets the switch; switching vinyl off also resets its placement to the global mask; covers and B-sides are unchanged |
| Session.BulkSetIdempotent | simple_moozic_builder_ui.py:1681-1686 | setting a switch twice is setting it once |
| Session.BulkSetCommutes | simple_moozic_builder_ui.py:1681-1686 | the cassette and vinyl switches can be set in either order |
| Session.KeepRows | simple_moozic_builder_ui.py:826 | the rows kept are exactly those whose ogg is not excluded |
| Session.RemoveSelected | simple_moozic_builder_ui.py:820-827 | an empty selection changes nothing; otherwise the selected keys become excluded and lose their settings, and exactly the non-excluded rows remain |
| Session.RemoveSelectedOrder | simple_moozic_builder_ui.py:826 | the remaining rows keep their order |
| Session.RemoveSelectedIdempotent | simple_moozic_builder_ui.py:820-827 | removing the same songs again changes nothing |
| Session.GenerationCounts | simple_moozic_builder_ui.py:1773-1784 | the counts are the numbers of listed songs whose settings select cassette and vinyl; each is at most the number of listed names |
| Session.RestoreOrder | simple_moozic_builder_ui.py:545-549 | the restored list is a permutation of the rows |
| Session.RestoreOrderSorted | simple_moozic_builder_ui.py:546-548 | the rows come out by saved position, with unnamed rows ranked at the number of saved names |
| Session.RestoreOrderStable | simple_moozic_builder_ui.py:546-548 | rows of equal rank keep their old relative order |
| Session.RestoreOrderNamedFirst | simple_moozic_builder_ui.py:545-549 | with no name saved twice, named rows come first in the saved order, and the others follow in their old order |
| Session.SortByColumn | simple_moozic_builder_ui.py:1656-1679 | the first click sorts descending, each later click flips the direction, other columns' state is untouched, and the rows are permuted |
| Session.SortByColumnSorted | simple_moozic_builder_ui.py:1659-1678 | the rows come out ordered by the column's key in the new direction |
| Session.SortByColumnStable | simple_moozic_builder_ui.py:1678 | rows with equal keys keep their old order, in either direction |
| Sorting.SortBySorted | simple_moozic_builder.py:892 | Python's `sorted` with a key returns the elements in key order |
| Sorting.SortByStable | simple_moozic_builder.py:892 | equal-key elements keep their input order |

## Left out

- Pillow's numerics are parameters constrained only by the laws the compositor uses. These are LANCZOS/BICUBIC/NEAREST resampling, `alpha_composite`, `ImageChops.multiply` and `soft_light`, `ImageEnhance`, and the interior weights of a masked blend.
- The float cover and contain scales `int(w * scale)` are inputs (`Ops.coverSize`/`containSize`), because float truncation can come out one pixel short of the exact ratio.
- `compose_with_template`'s optional source rotation (`rotate_source_degrees`) is left out; every caller in the compositor passes 0.
- Python floats are exact reals in `RoundHalfEven`, `DarkenMultiplier` and the column-warp bands; binary rounding of `255.0 * f` and `x / max_x` is not modelled.
- Fonts, `draw.textlength`, `multiline_textbbox` and the drawing itself are the measure functions in `TextFit.FontMetrics`; glyph rendering is not modelled.
- `str.lower` is modelled on ASCII letters only. Every word list compared against is ASCII, but non-ASCII letters in song names are not lower-cased by the filter and sort models.
- Names.SanitizeId: Unicode NFD decomposition and the removal of combining marks are a parameter (`MarkStripper`) that must leave ASCII text unchanged.
- Paths use '/' only (POSIX). `Path.stem`/`Path.suffix` follow pathlib's rule that a dot must be inside the name. Windows separators and drive letters are not modelled.
- Directory listings, `exists`, `is_file`, `stat().st_mtime` and `resolve()` are inputs. The construction of the raw catalog entries from the two folders (simple_moozic_builder.py:831-866) is not modelled; the merge starts from that list.
- Audio decoding, resampling and transcoding, the ffmpeg processes, mod layout, file writing, Lua script emission and the random cover choices are not modelled.
- The Tk window itself is not modelled: widgets, tooltips, menus, JSON persistence, preview processes and the build worker thread. Session functions take the window's variables as plain values.
- BuildPlan.PlanTracks: JSON truthiness of the settings (`bool(...)`, an empty cover) is modelled as booleans and empty strings; non-string JSON values are not.
- Session.GenerationCounts: the dictionary's iteration order is replaced by an arbitrary order over its keys, which does not change the counts.
- Session.RestoreOrderNamedFirst: its named-first property is proved only for a saved order without repeats. With repeats, a named row can rank level with unnamed rows, as `RestoreOrderSorted` shows; the program itself only saves orders without repeats.
- Session.SortByColumn: Python would raise on comparing text with numbers; one column's keys are always of one kind, so `KeyLe`'s cross-kind order is never used.
