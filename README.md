# blinkbo stack: a Dafny model

blinkbo's `stack.py` shows a stack of astronomical images in the ds9 viewer and blinks
between them. It cuts the mosaic into 128-pixel tiles and steps through them with the
keys `n` and `p`. With `a` and `d` it adds and deletes marks at the cursor. The marks of
each image live in a sidecar file, `<image stem>.coo`, one `x y` pair per line, in
mosaic pixel coordinates.

The model covers:

- `Stack.limits`, which reads the mosaic size from the first image's header and caches it.
- Every `DisplayManager` command the program uses.
- The tile grid of the main program.
- The main program's key-dispatch loop.

ds9 is modelled as abstract state, the class `Viewer.Ds9`. It holds a list of frames (frame
number k is list entry k - 1), the current frame number, and the blink flag. Each frame
records its image, its cutout text and its regions (circles and text labels). Each command
the program sends becomes its effect on that state. The sidecar files are a map from file
name to a list of points (`Display.Disk`). FITS headers and the file list are inputs of
`ImageStack.Stack`. The key presses that `imexam` returns are a sequence of events.

The model follows the code as written:

- `save_regions` adds the tile's x_max to y.
- `delete_region` redraws the surviving points at their mosaic coordinates on a tile view.
  `save_regions` then moves them through the tile's offsets a second time.
- The test `section == "None"` matches only the text `"None"`, never Python's `None`
  (`Sections.Section` keeps the two apart).
- `load_image` raises a TypeError at the label for any section that is not a tuple, and the
  frame bindings are already stored when it does.
- Tiles are `(x1, x1 + 128, y1, y1 + 128)`. Both bounds are inclusive in a cutout, so
  neighbouring tiles share a row or column of pixels.
- `clear` deletes the viewer's frames but keeps the frame-to-image bindings.
- The `d` key reloads the image with `load_image` and no frame number, so the reload goes
  into a new frame.
- An exception in the loop ends the program, which the model reports as
  `Interaction.Status.Crashed`. Deleting on an image that has no sidecar is one such case.

## Model

| member | source | states |
|---|---|---|
| `Text.NatToStringRoundTrip` | stack.py:150 | the decimal text of a non-negative bound reads back as the same number |
| `Text.IntToStringRoundTrip` | stack.py:150 | the decimal text of any integer, sign included, reads back as the same integer |
| `Text.ContainsMeansSubstring` | stack.py:111 | the `in` test on a region line holds exactly when the word occurs at some position of the line |
| `Text.RFind` | stack.py:91 | the index found is the last occurrence of the character, or -1 when there is none |
| `Text.RFindIgnoresSuffix` | stack.py:91 | appending text without the character does not move its last occurrence |
| `Text.SplitExt` | stack.py:91 | splitext cuts a path into stem and extension that concatenate back to the path; the extension is empty or one dot-led run in the last component |
| `Text.CooName` | stack.py:88-91 | the sidecar name ends in `.coo` and is at most four characters longer than the image name |
| `Text.CooNameRestores` | stack.py:91 | cutting `.coo` off the sidecar name and putting the image's extension back gives the image name |
| `Text.CooNameReplacesExtension` | stack.py:88-91 | the sidecar of `stem + ext` is `stem + ".coo"` for a named stem and an extension splitext recognises |
| `Text.CooNameIdempotent` | stack.py:88-91 | the sidecar name of a sidecar name is itself |
| `Text.CooNameIgnoresExtension` | stack.py:88-91 | images that differ only in extension share one sidecar |
| `Text.CooNameExample` | stack.py:65-91 | `a.fits` has the sidecar `a.coo` |
| `Coordinates.ToMosaic` | stack.py:260-261 | the cursor moved to mosaic coordinates by the tile's x_min and y_min goes back to the cursor under load_regions' transform |
| `Coordinates.ToTileLocal` | stack.py:100-103 | the tile's first pixel becomes (1, 1), and a stored point lies within the tile's bounds exactly when its local position lies within 1 .. the tile's extent |
| `Coordinates.Near` | stack.py:135 | a point is within one pixel of itself, and a point that counts as near is less than one pixel away on each axis |
| `Coordinates.LocalRoundTrip` | stack.py:102-103 | moving a stored point into the tile and back out with the y_min offset returns it |
| `Coordinates.ToMosaicAsSaved` | stack.py:122-123 | save_regions' x agrees with the y_min transform, and its y is that transform shifted by x_max - y_min |
| `Coordinates.SavedRoundTrip` | stack.py:100-125 | a reloaded point saved again keeps its x always, and keeps its y exactly when x_max equals y_min |
| `Coordinates.SaveShiftsY` | stack.py:123 | on the first tile a mark at (64, 64) is written as (64, 192) |
| `Coordinates.Reloaded` | stack.py:100-104 | one redrawn point per stored line |
| `Coordinates.StoredAsWritten` | stack.py:121-124 | one written line per marker |
| `Coordinates.Stored` | stack.py:260-261 | one point per marker, moved with the y_min offset |
| `Coordinates.StoredAfterReloaded` | stack.py:102-103 | storing reloaded points with the y_min offset gives back the stored points |
| `Coordinates.StoredAsWrittenAfterReloaded` | stack.py:93-125 | reloading and saving a sidecar as written preserves it exactly when it is empty or x_max equals y_min |
| `Coordinates.ReloadedAfterStoredAsWritten` | stack.py:93-125 | saving marks as written and reloading them gives the marks back exactly when there are none or x_max equals y_min |
| `Coordinates.Kept` | stack.py:131-137 | a point survives a delete exactly when it is stored and not within one pixel of the cursor; no points are added |
| `Coordinates.KeptAppend` | stack.py:131-137 | the survivors of a concatenation are the survivors of each part, in order |
| `Coordinates.KeptExample` | stack.py:135 | of (0,0), (0.5,0.5), (10,10), a delete at (0,0) keeps only (10,10) |
| `TileGrid.Starts` | stack.py:214-215 | there are ceil(limit / 128) starts, the first is 1 and the last lies within one stride below the limit |
| `TileGrid.StartsCount` | stack.py:214-215 | each axis has ceil(limit / 128) tile starts |
| `TileGrid.StartsMembers` | stack.py:214-215 | the starts are exactly the values 1 + k * 128 up to the limit |
| `TileGrid.StartAt` | stack.py:214-215 | every start lies within the limit and is one more than a multiple of the stride |
| `TileGrid.StartBelow` | stack.py:214-215 | every pixel has a start at most 127 below it |
| `TileGrid.Grid` | stack.py:217-220 | the nested loops give one tile per pair of starts |
| `TileGrid.Sections` | stack.py:212-220 | the tile list holds ceil(W/128) * ceil(H/128) tiles |
| `TileGrid.GridAt` | stack.py:217-220 | the tile of the i-th x start and j-th y start sits at position i * (number of y starts) + j, x outer and y inner |
| `TileGrid.GridIndex` | stack.py:217-220 | every position of the list is the tile of one pair of starts |
| `TileGrid.SectionsShape` | stack.py:212-220 | the list holds ceil(W/128) * ceil(H/128) tiles, the one at i * rows + j being (1 + 128i, 1 + 128i + 128, 1 + 128j, 1 + 128j + 128) |
| `TileGrid.SectionsDistinct` | stack.py:214-220 | no tile appears twice |
| `TileGrid.SectionsCover` | stack.py:214-220 | every pixel of the mosaic lies in some tile |
| `TileGrid.SectionsOverlap` | stack.py:220 | vertically neighbouring tiles share their boundary row |
| `TileGrid.BuildSections` | stack.py:217-220 | the appending loops build exactly the tile list above |
| `TileGrid.Next` | stack.py:235 | `n` from a valid index stays in range, moves forward by one, and stays put only on the last tile |
| `TileGrid.Prev` | stack.py:240 | `p` from a valid index stays in range, moves back by one, and stays put only on the first tile |
| `TileGrid.PrevUndoesNext` | stack.py:233-242 | `p` after `n` returns to the tile, away from the last tile |
| `TileGrid.NextUndoesPrev` | stack.py:233-242 | `n` after `p` returns to the tile, away from the first tile |
| `Sections.SectionTuple` | stack.py:97-99 | only Python's None has no tuple to subscript; a tile is used as it is |
| `Sections.CutoutText` | stack.py:147-150 | the cutout is bracketed, at least five characters long, and has `*` in its first slot exactly for Python's None |
| `Sections.SplitAtFirst` | stack.py:150 | a cutout splits at the first separator when the prefix has none |
| `Sections.ParseRangeOf` | stack.py:150 | a printed `lo:hi` range reads back as the pair |
| `Sections.CutoutRoundTrip` | stack.py:147-150 | the cutout text of a tile reads back as the tile |
| `Sections.CutoutInjective` | stack.py:147-150 | different tiles give different cutouts |
| `Sections.CutoutExample` | stack.py:150 | the first tile's cutout is `[1:129,1:129]` |
| `Viewer.Appended` | stack.py:203-204 | drawing changes at most the current frame and keeps the frame count |
| `Viewer.Redrawn` | stack.py:130-137 | showing exactly some regions on the current frame keeps its image and cutout and every other frame |
| `Viewer.AppendedAfterClearing` | stack.py:130-137 | clearing the current frame's regions and drawing a list shows exactly that list |
| `Viewer.AppendedNothing` | stack.py:203-204 | drawing nothing changes nothing |
| `Viewer.AppendedToNothing` | stack.py:130-137 | drawing on a frame with no regions leaves exactly the drawn regions |
| `Viewer.AppendedTwice` | stack.py:156-157 | two rounds of drawing are one round of both lists |
| `Viewer.Ds9.constructor` | stack.py:68 | a fresh viewer has one empty frame, current, not blinking |
| `Viewer.Ds9.FrameNew` | stack.py:145 | `frame new` appends an empty frame and makes it current |
| `Viewer.Ds9.FrameDeleteAll` | stack.py:201 | `frame delete all` leaves no frame and no current frame |
| `Viewer.Ds9.LoadFile` | stack.py:152 | `file` replaces the current frame by the image at the cutout, without regions |
| `Viewer.Ds9.AddRegion` | stack.py:204 | a region command draws one region after the current frame's regions |
| `Viewer.Ds9.DeleteAllRegions` | stack.py:130 | `region delete all` empties the current frame's regions, keeps its image and cutout, and touches no other frame |
| `Viewer.Ds9.SetBlink` | stack.py:198 | `blink <word>` turns blinking on exactly for an "on" word |
| `Display.ListedPoints` | stack.py:106-114 | the listing fails with an AttributeError exactly when a label line mentions "circle"; otherwise it returns the circle centres in order |
| `Display.ListedMarks` | stack.py:107-114 | the listing of markers drawn at some points gives those points back |
| `Display.BlinkWord` | stack.py:197-198 | no setting or an empty one flips blinking; any other setting is sent as it is |
| `Display.ReloadOutcomes` | stack.py:93-104 | load_regions raises exactly when the frame has no image, or the sidecar exists and the frame has no section or has None with points stored; without a sidecar nothing is drawn; with a tuple the drawn points, moved back, are the stored points |
| `Display.SaveOutcomes` | stack.py:116-125 | save_regions raises exactly when the frame has no section, the listing raised, or the section is None with marks to write; otherwise one line per mark |
| `Display.ReloadAfterSave` | stack.py:93-125 | load_regions after save_regions on a tile shows the saved marks again exactly when there were none or x_max equals y_min |
| `Display.LabelNamesTile` | stack.py:147-156 | the label text is the image name followed by a cutout that reads back as the tile, drawn at x_max - 10, half way between y_min and y_max |
| `Display.SidecarAfterDelete` | stack.py:127-138 | redrawing the survivors at their tile positions and storing them with the tile offsets writes exactly the survivors |
| `Display.DeleteShiftsSurvivors` | stack.py:127-138 | on tile (129, 257, 1, 129) a kept point (200, 50) is rewritten as (328, 306) |
| `Display.RebindAt` | stack.py:153-154 | after loading images into consecutive new frames, each new frame number is bound to its image and every other binding is unchanged |
| `Display.DisplayManager.constructor` | stack.py:67-82 | the manager starts with every frame deleted, blinking on and no bindings |
| `Display.DisplayManager.RegionFilename` | stack.py:88-91 | the sidecar of the current frame's image, and a KeyError exactly when the frame has no image |
| `Display.DisplayManager.Blinking` | stack.py:193-195 | the answer is the viewer's blink state |
| `Display.DisplayManager.Blink` | stack.py:197-198 | `blink()` flips the flag, `blink(s)` sets it from s; frames unchanged |
| `Display.DisplayManager.Clear` | stack.py:200-201 | every frame is deleted; the bindings are kept |
| `Display.DisplayManager.Mark` | stack.py:203-204 | one radius-10 circle is drawn on the current frame |
| `Display.DisplayManager.Regions` | stack.py:106-114 | the loop returns the listing of the current frame's regions |
| `Display.DisplayManager.LoadRegions` | stack.py:93-104 | the stored points of the frame's image are drawn moved into its tile; a missing sidecar draws nothing; a missing binding or a None section with points raises |
| `Display.DisplayManager.SaveRegions` | stack.py:116-125 | the sidecar is truncated, then holds every marker moved out with x_min and x_max; the file stays empty when the save raises |
| `Display.DisplayManager.WriteStored` | stack.py:121-125 | the write loop leaves exactly the transformed markers in the sidecar |
| `Display.DisplayManager.DeleteRegion` | stack.py:127-138 | a missing binding or sidecar raises with nothing changed; otherwise the current frame keeps its image and cutout and shows exactly the survivors, other frames, the blink state and the bindings are untouched, and the sidecar holds what save_regions writes from them |
| `Display.DisplayManager.DeleteFrom` | stack.py:128-138 | once the sidecar is found, the unlink, redraw and save leave exactly the survivors on the current frame, every frame otherwise as it was, and their save in the file |
| `Display.DisplayManager.SaveShown` | stack.py:138 | saving a frame that shows exactly some markers saves those points |
| `Display.DisplayManager.RedrawKept` | stack.py:130-137 | after the clear and the loop the current frame shows exactly the survivors' markers, with its image and cutout kept, and no other frame changes |
| `Display.DisplayManager.MarkAllBut` | stack.py:131-137 | the loop draws one marker per survivor, in file order |
| `Display.DisplayManager.LoadImage` | stack.py:143-157 | the image goes into a new frame (or the given one) with its cutout, label and stored marks; the frame is bound to image and section and no other binding changes; a section that is not a tile raises after the binding |
| `Display.DisplayManager.Open` | stack.py:143-154 | the frame gets the image at the cutout, without regions, and is bound |
| `Display.DisplayManager.Bind` | stack.py:153-154 | exactly the current frame's bindings change |
| `Display.DisplayManager.Annotate` | stack.py:156-157 | the label and the stored marks are drawn on the current frame |
| `Display.DisplayManager.LoadImages` | stack.py:163-176 | every image is loaded into its own new frame, in order, the last one current, and blinking ends as it began; an empty list changes no frame; a section that is not a tile raises in the first load, leaving that frame with the image and no regions, blinking off |
| `Display.DisplayManager.LoadEach` | stack.py:172-173 | the loop appends one loaded frame per image and binds frames n+1, n+2, ... to the images |
| `ImageStack.ReadLimits` | stack.py:52-59 | reading the limits raises an IndexError exactly for an empty stack, succeeds exactly when the first header has both keywords, and returns (NAXIS1, NAXIS2) |
| `ImageStack.Stack.constructor` | stack.py:38-46 | a new stack has nothing cached |
| `ImageStack.Stack.Limits` | stack.py:52-59 | every call returns what a fresh header read gives; a success is cached, a failure is not, and a cached value is never replaced |
| `Interaction.PyIndex` | stack.py:263 | a subscript succeeds exactly within -len..len-1, and a non-negative one gives that element |
| `Interaction.ShowTile` | stack.py:236-242 | after `n`/`p` the frames are exactly one loaded frame per image at the new tile, the last one current, frames 1..n bound to the images and the tile, blinking and sidecars as before |
| `Interaction.AddMark` | stack.py:246-255 | while blinking nothing changes; otherwise a marker is drawn at the cursor on the current frame and the sidecar is rewritten from the frame's markers, raising a KeyError when the frame has no image; the bindings never change |
| `Interaction.DeleteMark` | stack.py:256-263 | while blinking nothing changes; otherwise the delete at the cursor moved by x_min and y_min either raises with nothing changed, or redraws the survivors and rewrites the sidecar, after which the image of the current frame number is loaded into a new frame and bound to it, or an IndexError is raised past the file list |
| `Interaction.DeleteAndReshow` | stack.py:259-263 | the delete followed, when it passes, by the reload: the full frames, sidecars and bindings afterwards, for every outcome |
| `Interaction.DeleteThenReshow` | stack.py:259-263 | what delete_region does followed by what the reload does is the effect of key `d` |
| `Interaction.Reshow` | stack.py:263 | the reload appends the loaded frame for the file at the current frame number, makes it current and binds it, or raises an IndexError past the list with nothing changed |
| `Interaction.ReshowInPlace` | stack.py:143-157 | a reload with load_image's frame number replaces the current frame by the loaded frame and rebinds it, keeping the frame count and the current frame |
| `Interaction.DeleteMarkInPlace` | stack.py:256-263 | with the in-place reload nothing changes while blinking; otherwise a delete keeps the frame count and the current frame, and a successful one leaves the reloaded frame in place of the one it was made on |
| `Interaction.DeleteThenReshowInPlace` | stack.py:259-263 | the delete followed by the in-place reload replaces the redrawn frame as a whole |
| `Interaction.SecondDeleteCrashes` | stack.py:256-263 | one image with a sidecar, blinking off: the first `d` succeeds and the second raises an IndexError |
| `Interaction.SecondDeleteInPlace` | stack.py:256-263 | the same two deletes with the in-place reload both succeed |
| `Interaction.Step` | stack.py:230-269 | the index after a key stays in range and moves only by `n`/`p`, saturating; `n`/`p` reload the stack at the new tile and rebind frames 1..n, leaving sidecars alone; `b` flips blinking and `q` turns it off, ending the loop, with nothing else changed; `a` and `d` do what AddMark and DeleteMark state; any other key changes nothing |
| `Interaction.Turn` | stack.py:229-269 | one pass reads one event; the loop ends on `q` exactly when it is that event, and the events read so far hold no other `q` |
| `Interaction.Listen` | stack.py:230-269 | the loop stops at the first `q` with blinking off, runs through all events when nothing ends it, and never ends without a `q` unless something raised |
| `Interaction.QuitFreeMeansNoQuit` | stack.py:229-269 | the recursive no-`q` count used by the loop means no event among the first n has key `q` |
| `Interaction.Run` | stack.py:207-269 | a failed header read ends the program before the viewer is touched; an empty tile grid raises after the frames are deleted; otherwise the loop's guarantees hold of the viewer |

## Left out

- The ds9 connection and its command strings (stack.py:68, 74-82, 146, 155, 159-161). Each command is modelled by its effect on the viewer state. The display settings of `__setup`, the colour map, the zoom and the label colour have no effect on that state.
- The viewer's own behaviour is an assumption of the model. `frame new` appends a frame and makes it current. `frame delete all` leaves no frame (frame number 0). `blink` does not change the current frame. Any word other than yes/on/true/1 turns blinking off. While blinking, the real viewer moves the current frame itself. The model does not.
- `imexam` and its retry on a ValueError (stack.py:178-191). The answers are the input sequence of events, and the loop stops when that sequence ends.
- FITS reading (stack.py:55-57) and `glob` (stack.py:50). The headers are a map from file name to keyword values. The file list is fixed when the stack is made, although `file_names` globs again on every use.
- `argparse`, the usage text and `print_help` (stack.py:17-32, 209-211, 264-265), and the warnings printed for `a` and `d` while blinking (stack.py:248, 258).
- Float formatting with `{:12.2f}` and `float()` parsing (stack.py:101-102, 124, 133). A sidecar line is a pair of reals, so the rounding to two decimals is not modelled, and neither is the failure on a malformed line. The region listing is modelled as the region list itself. The regular expression of stack.py:112 is modelled only as far as this: it fails on every label line that mentions "circle".
- `math.sqrt` (stack.py:135). The test is on the squared distance, which is equivalent.
- `next_frame` (stack.py:140-141) and `label` (stack.py:159-161) as separate operations. The label is drawn inside load_image, and nothing calls `next_frame`.
- Integer widths. Python integers are unbounded, and so are the model's.

## Findings

| source | as written | input that shows it | evidently intended | confidence | as-written member | corrected member |
|---|---|---|---|---|---|---|
| stack.py:123 | save_regions adds the section's x_max to y | a mark at tile-local (64, 64) on tile (1, 129, 1, 129) is written as (64, 192) | add y_min, the offset load_regions subtracts, so a reload and save give the sidecar back | high, not executed | `Coordinates.SaveShiftsY` | `Coordinates.StoredAfterReloaded` |
| stack.py:137-138 | delete_region redraws the survivors at their stored mosaic coordinates on the tile view, and save_regions then adds the tile offsets again | tile (129, 257, 1, 129), sidecar [(200, 50)], delete far from it: the sidecar becomes [(328, 306)] | the survivors are written back unchanged | high, not executed | `Display.DeleteShiftsSurvivors` | `Display.SidecarAfterDelete` |
| stack.py:263 | the reload after a delete passes no frame number, so it opens a new frame past the stack and makes it current | one image `a.fits` with an empty sidecar, blinking off, keys `d` then `d`: the second reads `file_names[1]` of a one-name list | reload into the frame the delete was made on (`frameno` of load_image) | medium, not executed | `Interaction.SecondDeleteCrashes` | `Interaction.SecondDeleteInPlace` |
