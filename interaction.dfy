/** The main program (stack.py:207-269): the tile grid over the first image, the stack
    loaded at the first tile, and the loop that reads one key press at a time from the
    viewer and acts on it. The key presses are given as a sequence of events. */
module Interaction {
  import opened Outcomes
  import opened Coordinates
  import opened TileGrid
  import opened Sections
  import opened Text
  import opened Viewer
  import opened Display
  import opened ImageStack

  /** One answer of `imexam` (stack.py:178-191): the key and the tile-local cursor. */
  datatype Event = Event(key: string, x: real, y: real)

  /** The state of the loop after an event: still reading keys, ended by `q`, or ended
      by an exception. */
  datatype Status = Running | Quit | Crashed(error: Error)

  /** The keys the loop acts on (stack.py:233-269); every other key does nothing. */
  predicate Handled(key: string) {
    key == "n" || key == "p" || key == "b" || key == "a" || key == "d" || key == "question" || key == "q"
  }

  /** Python's `s[i]`: a negative index counts from the end; past either end it raises. */
  function PyIndex<T>(s: seq<T>, i: int): (r: Result<T>)
    ensures r.Ok? <==> -|s| <= i < |s|
    ensures r.Err? ==> r.error == IndexError
    ensures 0 <= i < |s| ==> r == Ok(s[i])
  {
    if 0 <= i < |s| then Ok(s[i])
    else if -|s| <= i < 0 then Ok(s[|s| + i])
    else Err(IndexError)
  }

  function StatusOf(r: Outcome): (s: Status)
    ensures s.Running? <==> r.Pass?
    ensures r.Fail? ==> s == Crashed(r.error)
  {
    if r.Pass? then Running else Crashed(r.error)
  }

  /** Keys `n` and `p` once the index has moved (stack.py:236-237, 241-242): deletes
      every frame and loads the stack at the tile, the last image current. */
  method ShowTile(d: DisplayManager, fileNames: seq<string>, t: Tile)
    requires d.Valid()
    modifies d, d.display
    ensures d.Valid() && d.display.blink == old(d.display.blink)
    ensures d.display.frames == LoadedFrames(fileNames, t, d.disk.files)
    ensures d.display.current == |fileNames|
    ensures d.filenames == Rebind(old(d.filenames), 0, fileNames)
    ensures d.sections == Rebind(old(d.sections), 0, Copies(Cut(t), |fileNames|))
  {
    d.Clear();
    var r := d.LoadImages(fileNames, Cut(t));
  }

  /** What key `a` does to session s, giving s' (stack.py:246-255): refused while
      blinking; otherwise a marker at the cursor on the current frame, then the frame's
      sidecar rewritten from its markers, which raises when the frame has no image bound. */
  predicate MarkAdded(s: Session, s': Session, ev: Event, status: Status) {
    s'.blink == s.blink && s'.current == s.current && s'.filenames == s.filenames && s'.sections == s.sections &&
    (s.blink ==> status == Running && s' == s) &&
    (!s.blink ==> s'.frames == Appended(s.frames, s.current, [Circle(Point(ev.x, ev.y), MarkRadius)])) &&
    (!s.blink && s.current !in s.filenames ==> status == Crashed(KeyError) && s'.files == s.files) &&
    (!s.blink && s.current in s.filenames ==>
       var saved := Save(s.current, s.sections, ListedPoints(Shown(s')));
       status == StatusOf(ToOutcome(saved)) && s'.files == s.files[CooName(s.filenames[s.current]) := Written(saved)])
  }

  /** Key `a` (stack.py:246-255). */
  method AddMark(d: DisplayManager, ev: Event) returns (status: Status)
    requires d.Valid()
    modifies d.display, d.disk
    ensures d.Valid() && MarkAdded(old(d.State()), d.State(), ev, status)
  {
    if d.Blinking() {
      return Running;
    }
    d.Mark(ev.x, ev.y);
    var r := d.SaveRegions();
    status := StatusOf(r);
  }

  /** What key `d` does (stack.py:256-263): refused while blinking; otherwise the
      delete and the reload. */
  predicate MarkDeleted(s: Session, s': Session, fileNames: seq<string>, t: Tile, ev: Event, status: Status) {
    (s.blink ==> status == Running && s' == s) &&
    (!s.blink ==> DeletedAndReshown(s, s', fileNames, t, ev, status))
  }

  /** Key `d` when not blinking (stack.py:259-263): the cursor moved out of the tile,
      the stored marks near it deleted from the sidecar and from the current frame, and
      the image at the current frame number in the stack's list loaded again at the tile,
      into a new frame. Each step can raise, leaving what the steps before it did. */
  predicate DeletedAndReshown(s: Session, s': Session, fileNames: seq<string>, t: Tile, ev: Event, status: Status) {
    var frame := s.current;
    s'.blink == s.blink &&
    (frame !in s.filenames ==> status == Crashed(KeyError) && s' == s) &&
    (frame in s.filenames && CooName(s.filenames[frame]) !in s.files ==> status == Crashed(FileNotFound) && s' == s) &&
    (frame in s.filenames && CooName(s.filenames[frame]) in s.files ==>
       var name := CooName(s.filenames[frame]);
       var kept := Kept(s.files[name], ToMosaic(Point(ev.x, ev.y), t));
       var saved := Save(frame, s.sections, Ok(kept));
       var redrawn := Redrawn(s.frames, frame, MarksOf(kept));
       s'.files == s.files[name := Written(saved)] &&
       (saved.Err? || frame > |fileNames| ==>
          status == (if saved.Err? then Crashed(saved.error) else Crashed(IndexError)) &&
          s'.frames == redrawn && s'.current == frame && s'.filenames == s.filenames && s'.sections == s.sections) &&
       (saved.Ok? && 1 <= frame <= |fileNames| ==>
          status == Running &&
          s'.frames == redrawn + [LoadedFrame(fileNames[frame - 1], t, s'.files)] && s'.current == |s'.frames| &&
          s'.filenames == s.filenames[s'.current := fileNames[frame - 1]] &&
          s'.sections == s.sections[s'.current := Cut(t)]))
  }

  /** Key `d` (stack.py:256-263). */
  method DeleteMark(d: DisplayManager, fileNames: seq<string>, t: Tile, ev: Event) returns (status: Status)
    requires d.Valid()
    modifies d, d.display, d.disk
    ensures d.Valid() && MarkDeleted(old(d.State()), d.State(), fileNames, t, ev, status)
  {
    if d.Blinking() {
      return Running;
    }
    status := DeleteAndReshow(d, fileNames, t, ev);
  }

  /** The `d` branch past the blinking test (stack.py:259-263). */
  method DeleteAndReshow(d: DisplayManager, fileNames: seq<string>, t: Tile, ev: Event) returns (status: Status)
    requires d.Valid()
    modifies d, d.display, d.disk
    ensures d.Valid() && DeletedAndReshown(old(d.State()), d.State(), fileNames, t, ev, status)
  {
    var c := ToMosaic(Point(ev.x, ev.y), t);
    var r := d.DeleteRegion(c.x, c.y);
    ghost var deleted := d.State();
    if r.Fail? {
      status := Crashed(r.error);
    } else {
      status := Reshow(d, fileNames, t);
    }
    DeleteThenReshow(old(d.State()), deleted, d.State(), fileNames, t, ev, r, status);
  }

  /** The delete followed, when it passes, by the reload gives what key `d` promises. */
  lemma DeleteThenReshow(s: Session, m: Session, s': Session, fileNames: seq<string>, t: Tile, ev: Event,
                         r: Outcome, status: Status)
    requires RegionDeleted(s, m, ToMosaic(Point(ev.x, ev.y), t), r)
    requires r.Fail? ==> s' == m && status == Crashed(r.error)
    requires r.Pass? ==> Reshown(m, s', fileNames, t, status)
    ensures DeletedAndReshown(s, s', fileNames, t, ev, status)
  {
  }

  /** What the reload after a delete (stack.py:263) does to session s, giving s': the
      file at the current frame number in the stack's list loaded at the tile into a new
      frame, or an IndexError past the end of the list, before changing anything. */
  predicate Reshown(s: Session, s': Session, fileNames: seq<string>, t: Tile, status: Status) {
    s'.blink == s.blink && s'.files == s.files &&
    (s.current > |fileNames| ==> status == Crashed(IndexError) && s' == s) &&
    (1 <= s.current <= |fileNames| ==>
       status == Running &&
       s'.frames == s.frames + [LoadedFrame(fileNames[s.current - 1], t, s.files)] && s'.current == |s'.frames| &&
       s'.filenames == s.filenames[s'.current := fileNames[s.current - 1]] &&
       s'.sections == s.sections[s'.current := Cut(t)])
  }

  /** The reload after a delete (stack.py:263): the file at the current frame number in
      the stack's list, loaded into a new frame. */
  method Reshow(d: DisplayManager, fileNames: seq<string>, t: Tile) returns (status: Status)
    requires d.Valid() && d.display.current in d.filenames
    modifies d, d.display
    ensures d.Valid() && Reshown(old(d.State()), d.State(), fileNames, t, status)
  {
    var image := PyIndex(fileNames, d.display.current - 1);
    if image.Err? {
      return Crashed(image.error);
    }
    assert image.value == fileNames[d.display.current - 1];
    var r := d.LoadImage(image.value, Cut(t), None);
    assert LoadedAs(image.value, Cut(t), d.disk.files) == LoadedFrame(image.value, t, d.disk.files);
    status := Running;
  }

  /** What the reload into the frame the delete was made on does to session s, giving
      s': with load_image's frame number the file at the current frame number in the
      stack's list replaces that frame, so the frames stay one per image; past the end
      of the list an IndexError, before changing anything. */
  predicate ReshownInPlace(s: Session, s': Session, fileNames: seq<string>, t: Tile, status: Status) {
    s'.blink == s.blink && s'.files == s.files && s'.current == s.current &&
    (s.current > |fileNames| ==> status == Crashed(IndexError) && s' == s) &&
    (1 <= s.current <= |fileNames| && s.current <= |s.frames| ==>
       status == Running &&
       s'.frames == s.frames[s.current - 1 := LoadedFrame(fileNames[s.current - 1], t, s.files)] &&
       s'.filenames == s.filenames[s.current := fileNames[s.current - 1]] &&
       s'.sections == s.sections[s.current := Cut(t)])
  }

  /** The reload after a delete into the frame the delete was made on. */
  method ReshowInPlace(d: DisplayManager, fileNames: seq<string>, t: Tile) returns (status: Status)
    requires d.Valid() && d.display.current in d.filenames
    modifies d, d.display
    ensures d.Valid() && ReshownInPlace(old(d.State()), d.State(), fileNames, t, status)
  {
    var image := PyIndex(fileNames, d.display.current - 1);
    if image.Err? {
      return Crashed(image.error);
    }
    assert image.value == fileNames[d.display.current - 1];
    var r := d.LoadImage(image.value, Cut(t), Some(d.display.current));
    assert LoadedAs(image.value, Cut(t), d.disk.files) == LoadedFrame(image.value, t, d.disk.files);
    status := Running;
  }

  /** Key `d` with the reload into the same frame, when not blinking: as for key `d`,
      except that a successful reload replaces the frame the delete was made on, so the
      frame count and the current frame are what they were. */
  predicate DeletedAndReshownInPlace(s: Session, s': Session, fileNames: seq<string>, t: Tile, ev: Event,
                                     status: Status) {
    var frame := s.current;
    s'.blink == s.blink && s'.current == s.current && |s'.frames| == |s.frames| &&
    (frame !in s.filenames ==> status == Crashed(KeyError) && s' == s) &&
    (frame in s.filenames && CooName(s.filenames[frame]) !in s.files ==> status == Crashed(FileNotFound) && s' == s) &&
    (frame in s.filenames && CooName(s.filenames[frame]) in s.files ==>
       var name := CooName(s.filenames[frame]);
       var kept := Kept(s.files[name], ToMosaic(Point(ev.x, ev.y), t));
       var saved := Save(frame, s.sections, Ok(kept));
       s'.files == s.files[name := Written(saved)] &&
       (saved.Err? || frame > |fileNames| ==>
          status == (if saved.Err? then Crashed(saved.error) else Crashed(IndexError)) &&
          s'.frames == Redrawn(s.frames, frame, MarksOf(kept)) &&
          s'.filenames == s.filenames && s'.sections == s.sections) &&
       (saved.Ok? && 1 <= frame <= |fileNames| && frame <= |s.frames| ==>
          status == Running &&
          s'.frames == s.frames[frame - 1 := LoadedFrame(fileNames[frame - 1], t, s'.files)] &&
          s'.filenames == s.filenames[frame := fileNames[frame - 1]] &&
          s'.sections == s.sections[frame := Cut(t)]))
  }

  /** Key `d` with the reload into the same frame: a frame within the stack stays within
      it. */
  method DeleteMarkInPlace(d: DisplayManager, fileNames: seq<string>, t: Tile, ev: Event) returns (status: Status)
    requires d.Valid()
    modifies d, d.display, d.disk
    ensures d.Valid() && d.display.blink == old(d.display.blink) && d.display.current == old(d.display.current)
    ensures |d.display.frames| == |old(d.display.frames)|
    ensures old(d.display.blink) ==> status == Running && d.State() == old(d.State())
    ensures !old(d.display.blink) ==> DeletedAndReshownInPlace(old(d.State()), d.State(), fileNames, t, ev, status)
  {
    if d.Blinking() {
      return Running;
    }
    var c := ToMosaic(Point(ev.x, ev.y), t);
    var r := d.DeleteRegion(c.x, c.y);
    ghost var deleted := d.State();
    if r.Fail? {
      status := Crashed(r.error);
    } else {
      status := ReshowInPlace(d, fileNames, t);
    }
    DeleteThenReshowInPlace(old(d.State()), deleted, d.State(), fileNames, t, ev, r, status);
  }

  /** The delete followed, when it passes, by the reload into the same frame: the frame
      the delete redrew is replaced as a whole. */
  lemma DeleteThenReshowInPlace(s: Session, m: Session, s': Session, fileNames: seq<string>, t: Tile, ev: Event,
                                r: Outcome, status: Status)
    requires s.current <= |s.frames| && (s.current in s.filenames ==> s.current >= 1)
    requires RegionDeleted(s, m, ToMosaic(Point(ev.x, ev.y), t), r)
    requires r.Fail? ==> s' == m && status == Crashed(r.error)
    requires r.Pass? ==> ReshownInPlace(m, s', fileNames, t, status)
    ensures DeletedAndReshownInPlace(s, s', fileNames, t, ev, status)
  {
    var frame := s.current;
    if frame in s.filenames && CooName(s.filenames[frame]) in s.files {
      var kept := Kept(s.files[CooName(s.filenames[frame])], ToMosaic(Point(ev.x, ev.y), t));
      var redrawn := Redrawn(s.frames, frame, MarksOf(kept));
      assert m.frames == redrawn && |redrawn| == |s.frames|;
      if r.Pass? && 1 <= frame <= |fileNames| {
        var x := LoadedFrame(fileNames[frame - 1], t, s'.files);
        assert redrawn[frame - 1 := x] == s.frames[frame - 1 := x];
      }
    }
  }

  /** One image with an empty sidecar, loaded at the first tile, blinking off: the first
      `d` succeeds and leaves a second frame current, and the second `d` indexes the
      one-name list at 1. */
  method SecondDeleteCrashes() returns (first: Status, second: Status)
    ensures first == Running && second == Crashed(IndexError)
  {
    var d, t := StartOne();
    var ev := Event("d", 5.0, 5.0);
    first := DeleteMark(d, ["a.fits"], t, ev);
    second := DeleteMark(d, ["a.fits"], t, ev);
  }

  /** The same two deletes with the reload into the same frame both succeed. */
  method SecondDeleteInPlace() returns (first: Status, second: Status)
    ensures first == Running && second == Running
  {
    var d, t := StartOne();
    var ev := Event("d", 5.0, 5.0);
    first := DeleteMarkInPlace(d, ["a.fits"], t, ev);
    second := DeleteMarkInPlace(d, ["a.fits"], t, ev);
  }

  /** A session over the one image a.fits, with an empty sidecar, shown at the first
      tile, not blinking. */
  method StartOne() returns (d: DisplayManager, t: Tile)
    ensures fresh(d) && fresh(d.display) && fresh(d.disk) && d.Valid() && !d.display.blink
    ensures d.display.current == 1 && |d.display.frames| == 1
    ensures 1 in d.filenames && d.filenames[1] == "a.fits" && d.sections[1] == Cut(t)
    ensures CooName("a.fits") in d.disk.files && t == Tile(1, 129, 1, 129)
  {
    CooNameExample();
    var viewer := new Ds9();
    var disk := new Disk(map["a.coo" := []]);
    d := new DisplayManager(viewer, disk);
    t := Tile(1, 129, 1, 129);
    var r := d.LoadImages(["a.fits"], Cut(t));
    RebindAt(map[], 0, ["a.fits"], 1);
    RebindAt(map[], 0, Copies(Cut(t), 1), 1);
    d.Blink(Some("no"));
  }

  /** What one key does to session s, giving s' (stack.py:233-269), with the tile index
      after it: `n` and `p` reload the stack at the new tile; `b` flips blinking; `a`
      adds a mark and `d` deletes marks, neither while blinking; `q` turns blinking off;
      every other key leaves everything as it was. */
  predicate KeyHandled(s: Session, s': Session, fileNames: seq<string>, tiles: seq<Tile>, idx: int, ev: Event,
                       next: int, status: Status) {
    if ev.key == "n" || ev.key == "p" then
      0 <= next < |tiles| &&
      status == Running && s'.blink == s.blink && s'.files == s.files &&
      s'.frames == LoadedFrames(fileNames, tiles[next], s.files) && s'.current == |fileNames| &&
      s'.filenames == Rebind(s.filenames, 0, fileNames) &&
      s'.sections == Rebind(s.sections, 0, Copies(Cut(tiles[next]), |fileNames|))
    else if ev.key == "b" then status == Running && s' == s.(blink := !s.blink)
    else if ev.key == "a" then MarkAdded(s, s', ev, status)
    else if ev.key == "d" then 0 <= idx < |tiles| && MarkDeleted(s, s', fileNames, tiles[idx], ev, status)
    else if ev.key == "q" then s' == s.(blink := false)
    else status == Running && s' == s
  }

  /** One pass of the loop (stack.py:231-269): the tile index after the key, which `n`
      and `p` move without leaving the list, whether the loop goes on, and what the key
      does. */
  method Step(d: DisplayManager, fileNames: seq<string>, tiles: seq<Tile>, idx: int, ev: Event)
    returns (next: int, status: Status)
    requires d.Valid() && 0 <= idx < |tiles|
    modifies d, d.display, d.disk
    ensures d.Valid() && 0 <= next < |tiles|
    ensures next == if ev.key == "n" then Next(idx, |tiles|) else if ev.key == "p" then Prev(idx, |tiles|) else idx
    ensures status == Quit <==> ev.key == "q"
    ensures ev.key == "q" ==> !d.display.blink
    ensures KeyHandled(old(d.State()), d.State(), fileNames, tiles, idx, ev, next, status)
  {
    next, status := idx, Running;
    if ev.key == "n" {
      next := Next(idx, |tiles|);
      ShowTile(d, fileNames, tiles[next]);
    } else if ev.key == "p" {
      next := Prev(idx, |tiles|);
      ShowTile(d, fileNames, tiles[next]);
    } else if ev.key == "b" {
      d.Blink(None);
    } else if ev.key == "a" {
      status := AddMark(d, ev);
    } else if ev.key == "d" {
      status := DeleteMark(d, fileNames, tiles[idx], ev);
    } else if ev.key == "q" {
      d.Blink(Some("no"));
      status := Quit;
    }
  }

  /** The whole program (stack.py:207-269) against a running viewer, the sidecar files
      and a stack: the limits of the first image, the tile grid, the stack loaded at the
      first tile, then one step per event until `q`, an exception, or the end of the
      events. `handled` counts the events read. */
  method Run(viewer: Ds9, disk: Disk, stack: Stack, events: seq<Event>) returns (status: Status, handled: nat)
    requires viewer.Valid() && stack.Valid()
    modifies viewer, disk, stack
    ensures handled <= |events|
    ensures ReadLimits(stack.fileNames, stack.headers).Err? ==>
              status == Crashed(ReadLimits(stack.fileNames, stack.headers).error) && handled == 0 &&
              viewer.frames == old(viewer.frames) && viewer.blink == old(viewer.blink)
    ensures ReadLimits(stack.fileNames, stack.headers).Ok? &&
            TileGrid.Sections(ReadLimits(stack.fileNames, stack.headers).value.0,
                     ReadLimits(stack.fileNames, stack.headers).value.1, Width) == [] ==>
              status == Crashed(IndexError) && handled == 0 && viewer.frames == []
    ensures status == Quit ==> !viewer.blink && 1 <= handled && events[handled - 1].key == "q"
    ensures status != Quit ==> forall k :: 0 <= k < handled ==> events[k].key != "q"
    ensures status == Quit ==> forall k :: 0 <= k < handled - 1 ==> events[k].key != "q"
    ensures status == Running ==> handled == |events|
  {
    handled := 0;
    // `stack.limits[0]` reads the header; `stack.limits[1]` reads the cache
    var width := stack.Limits();
    if width.Err? {
      return Crashed(width.error), 0;
    }
    var height := stack.Limits();
    var tiles := BuildSections(width.value.0, height.value.1, Width);
    var d := new DisplayManager(viewer, disk);
    d.Clear();
    if tiles == [] {
      return Crashed(IndexError), 0;
    }
    // loading at a tile never raises
    var r := d.LoadImages(stack.fileNames, Cut(tiles[0]));
    status, handled := Listen(d, stack.fileNames, tiles, events);
  }

  /** The loop of the main program (stack.py:230-269) from the first tile: one step per
      event until `q`, an exception, or the end of the events. */
  method Listen(d: DisplayManager, fileNames: seq<string>, tiles: seq<Tile>, events: seq<Event>)
    returns (status: Status, handled: nat)
    requires d.Valid() && tiles != []
    modifies d, d.display, d.disk
    ensures handled <= |events|
    ensures status == Quit ==> !d.display.blink && 1 <= handled && events[handled - 1].key == "q"
    ensures status != Quit ==> forall k :: 0 <= k < handled ==> events[k].key != "q"
    ensures status == Quit ==> forall k :: 0 <= k < handled - 1 ==> events[k].key != "q"
    ensures status == Running ==> handled == |events|
  {
    var idx := 0;
    handled, status := 0, Running;
    while handled < |events| && status == Running
      invariant d.Valid()
      invariant 0 <= idx < |tiles| && handled <= |events|
      invariant status == Running || status == Quit
      invariant status == Quit ==> !d.display.blink && 1 <= handled && events[handled - 1].key == "q"
      invariant status == Running ==> QuitFree(events, handled)
      invariant status == Quit ==> QuitFree(events, handled - 1)
      decreases |events| - handled
    {
      idx, status, handled := Turn(d, fileNames, tiles, events, idx, handled);
      if status.Crashed? {
        break;
      }
    }
    QuitFreeMeansNoQuit(events, handled);
    if handled > 0 {
      QuitFreeMeansNoQuit(events, handled - 1);
    }
  }

  /** One pass of `while True` (stack.py:229-269): `imexam` hands over the next event
      and the key is dispatched. The count of events read goes up by one, and the loop
      stops on `q` exactly when this event was the first `q`. */
  method Turn(d: DisplayManager, fileNames: seq<string>, tiles: seq<Tile>, events: seq<Event>, idx: int, handled: nat)
    returns (next: int, status: Status, handled': nat)
    requires d.Valid() && 0 <= idx < |tiles| && handled < |events| && QuitFree(events, handled)
    modifies d, d.display, d.disk
    ensures d.Valid() && 0 <= next < |tiles| && handled' == handled + 1
    ensures status == Quit <==> events[handled].key == "q"
    ensures status == Quit ==> !d.display.blink && QuitFree(events, handled' - 1)
    ensures status == Running ==> QuitFree(events, handled')
  {
    next, status := Step(d, fileNames, tiles, idx, events[handled]);
    handled' := handled + 1;
  }

  /** No `q` among the first n events. */
  predicate QuitFree(events: seq<Event>, n: nat)
    requires n <= |events|
  {
    n == 0 || (QuitFree(events, n - 1) && events[n - 1].key != "q")
  }

  lemma {:induction false} QuitFreeMeansNoQuit(events: seq<Event>, n: nat)
    requires n <= |events|
    ensures QuitFree(events, n) <==> forall k :: 0 <= k < n ==> events[k].key != "q"
  {
    if n > 0 {
      QuitFreeMeansNoQuit(events, n - 1);
    }
  }
}
