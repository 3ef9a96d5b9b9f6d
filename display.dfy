/** DisplayManager (stack.py:62-204): the bindings from viewer frames to images and
    sections, the sidecar files of marked points, and the commands that keep them in
    step with the viewer. */
module Display {
  import opened Outcomes
  import opened Text
  import opened Coordinates
  import opened Sections
  import opened Viewer

  /** The radius `mark` draws with (stack.py:203). */
  const MarkRadius: real := 10.0

  /** The sidecar files on disk: the points of each file, one per line. */
  class Disk {
    var files: map<string, seq<Point>>

    constructor (files: map<string, seq<Point>>)
      ensures this.files == files
    {
      this.files := files;
    }
  }

  /** One marker per point, in order. */
  function MarksOf(pts: seq<Point>): (rs: seq<Region>)
    ensures |rs| == |pts|
  {
    seq(|pts|, i requires 0 <= i < |pts| => Circle(pts[i], MarkRadius))
  }

  lemma MarksOfAppend(pts: seq<Point>, p: Point)
    ensures MarksOf(pts + [p]) == MarksOf(pts) + [Circle(p, MarkRadius)]
  {
  }

  /** The centres of the circles of a region list, in order. */
  function Circles(rs: seq<Region>): seq<Point> {
    if rs == [] then []
    else Circles(rs[..|rs| - 1]) + (if rs[|rs| - 1].Circle? then [rs[|rs| - 1].center] else [])
  }

  /** A label whose listed line contains "circle": the regular expression of
      stack.py:112 does not match it, and `.groups()` raises. */
  predicate LabelMentionsCircle(r: Region) {
    r.Label? && Contains(r.text, "circle")
  }

  /** The points `regions` reads from the listing of a region list (stack.py:107-114):
      the centre of every circle in order, or the exception a label line raises. */
  function ListedPoints(rs: seq<Region>): (r: Result<seq<Point>>)
    ensures r.Err? <==> exists k :: 0 <= k < |rs| && LabelMentionsCircle(rs[k])
    ensures r.Err? ==> r.error == AttributeError
    ensures r.Ok? ==> r.value == Circles(rs)
  {
    if rs == [] then Ok([])
    else
      var front := ListedPoints(rs[..|rs| - 1]);
      var last := rs[|rs| - 1];
      assert forall k :: 0 <= k < |rs| - 1 ==> rs[..|rs| - 1][k] == rs[k];
      if front.Err? then front
      else if last.Circle? then Ok(front.value + [last.center])
      else if Contains(last.text, "circle") then Err(AttributeError)
      else front
  }

  /** Listing markers drawn at some points gives those points back. */
  lemma {:induction false} ListedMarks(pts: seq<Point>)
    ensures ListedPoints(MarksOf(pts)) == Ok(pts)
  {
    if pts != [] {
      var front := pts[..|pts| - 1];
      ListedMarks(front);
      assert MarksOf(pts)[..|pts| - 1] == MarksOf(front);
      assert front + [pts[|pts| - 1]] == pts;
    }
  }

  /** The word `blink` sends (stack.py:198): the setting when one is given and non-empty,
      otherwise the opposite of the current state. */
  function BlinkWord(setting: Option<string>, blinking: bool): (word: string)
    ensures (setting == None || setting == Some("")) ==> MeansOn(word) == !blinking
    ensures setting.Some? && setting.value != "" ==> word == setting.value
  {
    if setting.Some? && setting.value != "" then setting.value
    else if blinking then "no" else "yes"
  }

  /** What load_regions draws on the current frame (stack.py:93-104), or the exception it
      raises: nothing when the sidecar does not exist; each stored point moved into the
      section's local frame otherwise. */
  function Reload(frame: int, filenames: map<int, string>, sections: map<int, Section>,
                  files: map<string, seq<Point>>): Result<seq<Point>>
  {
    if frame !in filenames then Err(KeyError)
    else if CooName(filenames[frame]) !in files then Ok([])
    else if frame !in sections then Err(KeyError)
    else
      var pts := files[CooName(filenames[frame])];
      match SectionTuple(sections[frame])
      case None => if pts == [] then Ok([]) else Err(TypeError)
      case Some(t) => Ok(Reloaded(pts, t))
  }

  /** What save_regions writes into the sidecar of the current frame (stack.py:116-125),
      given what `regions` returned, or the exception it raises once the file is open. */
  function Save(frame: int, sections: map<int, Section>, listed: Result<seq<Point>>): Result<seq<Point>> {
    if frame !in sections then Err(KeyError)
    else if listed.Err? then Err(listed.error)
    else match SectionTuple(sections[frame])
      case None => if listed.value == [] then Ok([]) else Err(TypeError)
      case Some(t) => Ok(StoredAsWritten(listed.value, t))
  }

  /** load_regions raises exactly when the frame has no image, or when the sidecar
      exists and the frame has no section, or has Python's None with points stored;
      a frame without a sidecar shows nothing; and with a tuple the marks shown, moved
      back with the y_min offset, are the stored points. */
  lemma ReloadOutcomes(frame: int, filenames: map<int, string>, sections: map<int, Section>,
                       files: map<string, seq<Point>>)
    ensures Reload(frame, filenames, sections, files).Err? <==>
              frame !in filenames ||
              (CooName(filenames[frame]) in files &&
               (frame !in sections || (sections[frame] == Uncropped && files[CooName(filenames[frame])] != [])))
    ensures Reload(frame, filenames, sections, files).Err? ==>
              Reload(frame, filenames, sections, files).error ==
                (if frame in filenames && frame in sections then TypeError else KeyError)
    ensures frame in filenames && CooName(filenames[frame]) !in files ==>
              Reload(frame, filenames, sections, files) == Ok([])
    ensures frame in filenames && frame in sections && CooName(filenames[frame]) in files &&
            SectionTuple(sections[frame]).Some? ==>
              Reload(frame, filenames, sections, files).Ok? &&
              Stored(Reload(frame, filenames, sections, files).value, SectionTuple(sections[frame]).value)
                == files[CooName(filenames[frame])]
  {
    if frame in filenames && frame in sections && CooName(filenames[frame]) in files &&
       SectionTuple(sections[frame]).Some? {
      StoredAfterReloaded(files[CooName(filenames[frame])], SectionTuple(sections[frame]).value);
    }
  }

  /** save_regions raises exactly when the frame has no section, the listing raised,
      or the section is Python's None and there are marks to write; otherwise it
      writes one line per mark. */
  lemma SaveOutcomes(frame: int, sections: map<int, Section>, listed: Result<seq<Point>>)
    ensures Save(frame, sections, listed).Err? <==>
              frame !in sections || listed.Err? || (sections[frame] == Uncropped && listed.value != [])
    ensures listed.Err? && frame in sections ==> Save(frame, sections, listed) == Err(listed.error)
    ensures Save(frame, sections, listed).Ok? ==> |Save(frame, sections, listed).value| == |listed.value|
  {
  }

  /** A save followed by load_regions on a frame bound to an image and a tile shows
      the saved marks again only when there were none or the tile's x_max equals its
      y_min. */
  lemma ReloadAfterSave(frame: int, filenames: map<int, string>, sections: map<int, Section>,
                        files: map<string, seq<Point>>, marks: seq<Point>, t: Tile)
    requires frame in filenames && frame in sections && sections[frame] == Cut(t)
    ensures var written := files[CooName(filenames[frame]) := Written(Save(frame, sections, Ok(marks)))];
            Reload(frame, filenames, sections, written) == Ok(marks) <==> marks == [] || t.xMax == t.yMin
  {
    ReloadedAfterStoredAsWritten(marks, t);
  }

  /** The sidecar after a save: the written points, or the empty file the failed save
      leaves behind. */
  function Written(saved: Result<seq<Point>>): seq<Point> {
    if saved.Ok? then saved.value else []
  }

  function ToOutcome<T>(r: Result<T>): Outcome {
    if r.Ok? then Pass else Fail(r.error)
  }

  /** The label load_image draws (stack.py:156): the image name and cutout, at ten pixels
      left of the section's x_max and half way up it. */
  function LabelFor(image: string, t: Tile): Region {
    Label(Point((t.xMax - 10) as real, (t.yMin + t.yMax) as real / 2.0), image + CutoutText(Cut(t)))
  }

  /** The label names the image and, readably, the tile it shows; it sits ten pixels
      left of x_max, half way between y_min and y_max. */
  lemma LabelNamesTile(image: string, t: Tile)
    ensures LabelFor(image, t).Label?
    ensures LabelFor(image, t).text[..|image|] == image
    ensures ParseCutout(LabelFor(image, t).text[|image|..]) == Some(t)
    ensures LabelFor(image, t).at.x + 10.0 == t.xMax as real
    ensures 2.0 * LabelFor(image, t).at.y == (t.yMin + t.yMax) as real
  {
    var text := LabelFor(image, t).text;
    assert text[|image|..] == CutoutText(Cut(t));
    CutoutRoundTrip(t);
  }

  /** The frame load_image leaves for an image and a tile: the cutout, the label, and a
      marker for every point of the image's sidecar, moved into the tile. */
  function LoadedFrame(image: string, t: Tile, files: map<string, seq<Point>>): Frame {
    Frame(image, CutoutText(Cut(t)), [LabelFor(image, t)] + MarksOf(SidecarMarks(image, t, files)))
  }

  /** The frame load_image leaves for an image and any section: for anything but a tile
      it raises after loading the file, before the label. */
  function LoadedAs(image: string, section: Section, files: map<string, seq<Point>>): Frame {
    if section.Cut? then LoadedFrame(image, section.tile, files) else Frame(image, CutoutText(section), [])
  }

  /** One loaded frame per image, in order. */
  function LoadedFrames(images: seq<string>, t: Tile, files: map<string, seq<Point>>): (fs: seq<Frame>)
    ensures |fs| == |images|
  {
    seq(|images|, k requires 0 <= k < |images| => LoadedFrame(images[k], t, files))
  }

  lemma LoadedFramesSnoc(images: seq<string>, i: int, t: Tile, files: map<string, seq<Point>>)
    requires 0 <= i < |images|
    ensures LoadedFrames(images[..i + 1], t, files) == LoadedFrames(images[..i], t, files) + [LoadedFrame(images[i], t, files)]
  {
    assert images[..i + 1][..i] == images[..i];
  }

  /** n copies of a value. */
  function Copies<T>(x: T, n: nat): (xs: seq<T>)
    ensures |xs| == n
  {
    seq(n, _ => x)
  }

  lemma RebindCopiesSnoc<V>(m: map<int, V>, base: int, x: V, n: nat)
    ensures Rebind(m, base, Copies(x, n + 1)) == Rebind(m, base, Copies(x, n))[base + n + 1 := x]
  {
    assert Copies(x, n + 1)[..n] == Copies(x, n);
  }

  lemma RebindSnoc<V>(m: map<int, V>, base: int, vals: seq<V>, i: int)
    requires 0 <= i < |vals|
    ensures Rebind(m, base, vals[..i + 1]) == Rebind(m, base, vals[..i])[base + i + 1 := vals[i]]
  {
    assert vals[..i + 1][..i] == vals[..i];
  }

  /** Removing a file and writing it again is writing it. */
  lemma RemoveThenSet<K, V>(m: map<K, V>, k: K, v: V)
    ensures (m - {k})[k := v] == m[k := v]
  {
  }

  /** What delete_region writes back when it keeps the survivors in the sidecar's own
      coordinates: the survivors drawn on the tile at their local positions and stored
      with the tile's offsets. It is exactly the survivors. */
  function SidecarAfterDelete(lines: seq<Point>, c: Point, t: Tile): (r: seq<Point>)
    ensures r == Kept(lines, c)
  {
    StoredAfterReloaded(Kept(lines, c), t);
    Stored(Reloaded(Kept(lines, c), t), t)
  }

  /** delete_region as written on the second tile of the first column: a survivor at
      (200, 50), redrawn there and saved through the tile's offsets, comes back as
      (328, 306). */
  lemma DeleteShiftsSurvivors()
    ensures Kept([Point(200.0, 50.0)], Point(10.0, 10.0)) == [Point(200.0, 50.0)]
    ensures Save(1, map[1 := Cut(Tile(129, 257, 1, 129))], Ok([Point(200.0, 50.0)])) == Ok([Point(328.0, 306.0)])
  {
    assert [Point(200.0, 50.0)][..0] == [];
    var t := Tile(129, 257, 1, 129);
    assert SectionTuple(Cut(t)) == Some(t);
    assert ToMosaicAsSaved(Point(200.0, 50.0), t) == Point(328.0, 306.0);
    assert StoredAsWritten([Point(200.0, 50.0)], t) == [Point(328.0, 306.0)];
  }

  /** The image's stored points moved into the tile; none without a sidecar. */
  function SidecarMarks(image: string, t: Tile, files: map<string, seq<Point>>): seq<Point> {
    if CooName(image) in files then Reloaded(files[CooName(image)], t) else []
  }

  /** A map with keys base + 1, base + 2, ... bound to the given values in turn. */
  function Rebind<V>(m: map<int, V>, base: int, vals: seq<V>): map<int, V> {
    if vals == [] then m
    else Rebind(m, base, vals[..|vals| - 1])[base + |vals| := vals[|vals| - 1]]
  }

  lemma {:induction false} RebindAt<V>(m: map<int, V>, base: int, vals: seq<V>, key: int)
    ensures key in Rebind(m, base, vals) <==> key in m || base < key <= base + |vals|
    ensures base < key <= base + |vals| ==> Rebind(m, base, vals)[key] == vals[key - base - 1]
    ensures !(base < key <= base + |vals|) && key in m ==> Rebind(m, base, vals)[key] == m[key]
  {
    if vals != [] {
      RebindAt(m, base, vals[..|vals| - 1], key);
    }
  }

  /** What a display manager tracks, as a value: the viewer's frames, current frame and
      blink flag, the sidecars, and the image name and section bound to each frame
      number. */
  datatype Session = Session(frames: seq<Frame>, current: nat, blink: bool, files: map<string, seq<Point>>,
                             filenames: map<int, string>, sections: map<int, Section>)

  /** The regions of the current frame of a session. */
  function Shown(s: Session): seq<Region> {
    if 1 <= s.current <= |s.frames| then s.frames[s.current - 1].regions else []
  }

  /** What `delete_region` (stack.py:127-138) at mosaic point c does to session s,
      giving s': with no image bound to the current frame it raises a KeyError, with no
      sidecar a FileNotFoundError, both before changing anything; otherwise the current
      frame shows exactly a marker at each stored point not within a pixel of c, image
      and cutout kept, and the sidecar holds what save_regions writes for them. */
  predicate RegionDeleted(s: Session, s': Session, c: Point, r: Outcome) {
    s'.blink == s.blink && s'.current == s.current && s'.filenames == s.filenames && s'.sections == s.sections &&
    (s.current !in s.filenames ==> r == Fail(KeyError) && s' == s) &&
    (s.current in s.filenames && CooName(s.filenames[s.current]) !in s.files ==> r == Fail(FileNotFound) && s' == s) &&
    (s.current in s.filenames && CooName(s.filenames[s.current]) in s.files ==>
       var name := CooName(s.filenames[s.current]);
       var kept := Kept(s.files[name], c);
       var saved := Save(s.current, s.sections, Ok(kept));
       s'.frames == Redrawn(s.frames, s.current, MarksOf(kept)) &&
       r == ToOutcome(saved) && s'.files == s.files[name := Written(saved)])
  }

  class DisplayManager {
    const display: Ds9
    const disk: Disk
    var filenames: map<int, string>
    var sections: map<int, Section>

    ghost predicate Valid()
      reads this, display
    {
      display.Valid() && filenames.Keys == sections.Keys && (forall k :: k in filenames ==> k >= 1)
    }

    ghost function State(): Session
      reads this, display, disk
    {
      Session(display.frames, display.current, display.blink, disk.files, filenames, sections)
    }

    /** Connects to a viewer, deletes its frames and starts it blinking, with no frame
        bound to an image (stack.py:67-82). */
    constructor (display: Ds9, disk: Disk)
      requires display.Valid()
      modifies display
      ensures Valid() && this.display == display && this.disk == disk
      ensures display.frames == [] && display.current == 0 && display.blink
      ensures filenames == map[] && sections == map[]
    {
      this.display := display;
      this.disk := disk;
      filenames := map[];
      sections := map[];
      new;
      Clear();
      Blink(Some("on"));
    }

    /** `region_filename` (stack.py:88-91): the sidecar of the current frame's image. */
    function RegionFilename(): (r: Result<string>)
      reads this, display
      ensures r.Ok? <==> display.current in filenames
      ensures r.Err? ==> r.error == KeyError
      ensures r.Ok? ==> r.value == CooName(filenames[display.current])
    {
      if display.current in filenames then Ok(CooName(filenames[display.current])) else Err(KeyError)
    }

    /** `blinking` (stack.py:193-195). */
    function Blinking(): (b: bool)
      reads this, display
      ensures b <==> display.blink
    {
      display.blink
    }

    /** `blink` (stack.py:197-198): no setting (or an empty one) flips blinking,
        a setting sets it. */
    method Blink(setting: Option<string>)
      requires Valid()
      modifies display
      ensures Valid() && display.frames == old(display.frames) && display.current == old(display.current)
      ensures display.blink == MeansOn(BlinkWord(setting, old(display.blink)))
      ensures setting == None ==> display.blink == !old(display.blink)
    {
      display.SetBlink(BlinkWord(setting, display.blink));
    }

    /** `clear` (stack.py:200-201): deletes every frame. The frame bindings are kept. */
    method Clear()
      requires Valid()
      modifies display
      ensures Valid() && display.frames == [] && display.current == 0 && display.blink == old(display.blink)
    {
      display.FrameDeleteAll();
    }

    /** `mark` (stack.py:203-204): a marker on the current frame. */
    method Mark(x: real, y: real)
      requires Valid()
      modifies display
      ensures Valid() && display.current == old(display.current) && display.blink == old(display.blink)
      ensures display.frames == Appended(old(display.frames), display.current, [Circle(Point(x, y), MarkRadius)])
    {
      display.AddRegion(Circle(Point(x, y), MarkRadius));
    }

    /** `regions` (stack.py:106-114): the centres of the current frame's markers. */
    method Regions() returns (r: Result<seq<Point>>)
      ensures r == ListedPoints(display.CurrentRegions())
    {
      var lines := display.CurrentRegions();
      var regions := [];
      for i := 0 to |lines|
        invariant ListedPoints(lines[..i]) == Ok(regions)
      {
        assert lines[..i + 1][..i] == lines[..i];
        match lines[i]
        case Circle(c, _) =>
          regions := regions + [c];
        case Label(_, text) =>
          if Contains(text, "circle") {
            assert LabelMentionsCircle(lines[i]);
            return Err(AttributeError);
          }
      }
      assert lines[..|lines|] == lines;
      return Ok(regions);
    }

    /** `load_regions` (stack.py:93-104): draws the stored points of the current frame's
        image, moved into its section. */
    method LoadRegions() returns (r: Outcome)
      requires Valid()
      modifies display
      ensures Valid() && display.current == old(display.current) && display.blink == old(display.blink)
      ensures var reload := Reload(display.current, filenames, sections, disk.files);
              r == ToOutcome(reload) &&
              display.frames == if reload.Ok? then Appended(old(display.frames), display.current, MarksOf(reload.value))
                                else old(display.frames)
    {
      var name := RegionFilename();
      if name.Err? {
        return Fail(name.error);
      }
      if name.value !in disk.files {
        AppendedNothing(display.frames, display.current);
        return Pass;
      }
      if display.current !in sections {
        return Fail(KeyError);
      }
      var section := SectionTuple(sections[display.current]);
      var lines := disk.files[name.value];
      if section.None? {
        // the first line subscripts None
        if lines != [] {
          return Fail(TypeError);
        }
        AppendedNothing(display.frames, display.current);
        return Pass;
      }
      var t := section.value;
      ghost var before := display.frames;
      AppendedNothing(before, display.current);
      assert Reloaded(lines[..0], t) == [];
      for i := 0 to |lines|
        invariant Valid() && display.current == old(display.current) && display.blink == old(display.blink)
        invariant display.frames == Appended(before, display.current, MarksOf(Reloaded(lines[..i], t)))
      {
        var p := ToTileLocal(lines[i], t);
        Mark(p.x, p.y);
        assert Reloaded(lines[..i + 1], t) == Reloaded(lines[..i], t) + [p];
        MarksOfAppend(Reloaded(lines[..i], t), p);
        AppendedTwice(before, display.current, MarksOf(Reloaded(lines[..i], t)), [Circle(p, MarkRadius)]);
      }
      assert lines[..|lines|] == lines;
      return Pass;
    }

    /** `save_regions` (stack.py:116-125): rewrites the current frame's sidecar from the
        markers on the frame. The y offset is the section's x_max. */
    method SaveRegions() returns (r: Outcome)
      requires Valid()
      modifies disk
      ensures display.current !in filenames ==> r == Fail(KeyError) && disk.files == old(disk.files)
      ensures display.current in filenames ==>
                var saved := Save(display.current, sections, ListedPoints(display.CurrentRegions()));
                r == ToOutcome(saved) &&
                disk.files == old(disk.files)[CooName(filenames[display.current]) := Written(saved)]
    {
      var name := RegionFilename();
      if name.Err? {
        return Fail(name.error);
      }
      disk.files := disk.files[name.value := []];
      if display.current !in sections {
        return Fail(KeyError);
      }
      var section := SectionTuple(sections[display.current]);
      var regions := Regions();
      if regions.Err? {
        return Fail(regions.error);
      }
      var pts := regions.value;
      if section.None? {
        // the first point subscripts None
        return if pts == [] then Pass else Fail(TypeError);
      }
      WriteStored(name.value, pts, section.value);
      return Pass;
    }

    /** The loop of save_regions (stack.py:122-125): one line per point, moved out of the
        tile, into the freshly emptied sidecar. */
    method WriteStored(name: string, pts: seq<Point>, t: Tile)
      requires name in disk.files && disk.files[name] == []
      modifies disk
      ensures disk.files == old(disk.files)[name := StoredAsWritten(pts, t)]
    {
      for i := 0 to |pts|
        invariant disk.files == old(disk.files)[name := StoredAsWritten(pts[..i], t)]
      {
        var q := ToMosaicAsSaved(pts[i], t);
        disk.files := disk.files[name := disk.files[name] + [q]];
        assert StoredAsWritten(pts[..i + 1], t) == StoredAsWritten(pts[..i], t) + [q];
      }
      assert pts[..|pts|] == pts;
    }

    /** `delete_region` (stack.py:127-138): drops the stored points within one pixel of
        (x, y), draws the survivors at their stored coordinates on a frame cleared of
        regions, and rewrites the sidecar from them through save_regions. */
    method DeleteRegion(x: real, y: real) returns (r: Outcome)
      requires Valid()
      modifies display, disk
      ensures Valid() && RegionDeleted(old(State()), State(), Point(x, y), r)
    {
      var name := RegionFilename();
      if name.Err? {
        return Fail(name.error);
      }
      if name.value !in disk.files {
        return Fail(FileNotFound);
      }
      r := DeleteFrom(name.value, Point(x, y));
    }

    /** delete_region once the current frame's sidecar is found (stack.py:129-138). */
    method DeleteFrom(name: string, c: Point) returns (r: Outcome)
      requires Valid() && display.current in filenames && name == CooName(filenames[display.current])
      requires name in disk.files
      modifies display, disk
      ensures Valid() && display.current == old(display.current) && display.blink == old(display.blink)
      ensures filenames == old(filenames) && sections == old(sections)
      ensures var kept := Kept(old(disk.files)[name], c);
              var saved := Save(display.current, sections, Ok(kept));
              display.frames == Redrawn(old(display.frames), display.current, MarksOf(kept)) &&
              r == ToOutcome(saved) && disk.files == old(disk.files)[name := Written(saved)]
    {
      var lines := disk.files[name];
      disk.files := disk.files - {name};
      RedrawKept(lines, c);
      r := SaveShown(name, Kept(lines, c));
      RemoveThenSet(old(disk.files), name, Written(Save(display.current, sections, Ok(Kept(lines, c)))));
    }

    /** save_regions on a frame that shows exactly the markers of `shown`: what is saved
        is those points (stack.py:138). */
    method SaveShown(name: string, shown: seq<Point>) returns (r: Outcome)
      requires Valid() && display.current in filenames && name == CooName(filenames[display.current])
      requires display.CurrentRegions() == MarksOf(shown)
      modifies disk
      ensures var saved := Save(display.current, sections, Ok(shown));
              r == ToOutcome(saved) && disk.files == old(disk.files)[name := Written(saved)]
    {
      ListedMarks(shown);
      r := SaveRegions();
    }

    /** Clears the current frame's regions and marks the lines not near c (stack.py:130-137). */
    method RedrawKept(lines: seq<Point>, c: Point)
      requires Valid() && display.current >= 1
      modifies display
      ensures Valid() && display.current == old(display.current) && display.blink == old(display.blink)
      ensures display.frames == Redrawn(old(display.frames), display.current, MarksOf(Kept(lines, c)))
      ensures display.CurrentRegions() == MarksOf(Kept(lines, c))
    {
      display.DeleteAllRegions();
      MarkAllBut(lines, c);
      AppendedAfterClearing(old(display.frames), display.current, MarksOf(Kept(lines, c)));
    }

    /** The loop of delete_region (stack.py:131-137): a marker, on the current frame, at
        every line not within one pixel of c, in file order. */
    method MarkAllBut(lines: seq<Point>, c: Point)
      requires Valid()
      modifies display
      ensures Valid() && display.current == old(display.current) && display.blink == old(display.blink)
      ensures display.frames == Appended(old(display.frames), display.current, MarksOf(Kept(lines, c)))
    {
      ghost var before := display.frames;
      AppendedNothing(before, display.current);
      for i := 0 to |lines|
        invariant Valid() && display.current == old(display.current) && display.blink == old(display.blink)
        invariant display.frames == Appended(before, display.current, MarksOf(Kept(lines[..i], c)))
      {
        assert lines[..i + 1][..i] == lines[..i];
        if Near(lines[i], c) {
          assert Kept(lines[..i + 1], c) == Kept(lines[..i], c) + [];
          assert Kept(lines[..i], c) + [] == Kept(lines[..i], c);
        } else {
          assert Kept(lines[..i + 1], c) == Kept(lines[..i], c) + [lines[i]];
          Mark(lines[i].x, lines[i].y);
          MarksOfAppend(Kept(lines[..i], c), lines[i]);
          AppendedTwice(before, display.current, MarksOf(Kept(lines[..i], c)), [Circle(lines[i], MarkRadius)]);
        }
      }
      assert lines[..|lines|] == lines;
    }

    /** `load_image` (stack.py:143-157): loads an image, cut to the section, into a new
        frame (or the current one when a frame number is given), binds the frame to the
        image and section, labels it and draws its stored marks. Anything but a tile for a
        section raises at the label, after the binding. */
    method LoadImage(image: string, section: Section, frameno: Option<int>) returns (r: Outcome)
      requires Valid()
      requires frameno.Some? ==> display.current >= 1
      modifies this, display
      ensures Valid() && display.blink == old(display.blink)
      ensures frameno.None? ==> display.frames == old(display.frames) + [LoadedAs(image, section, disk.files)] &&
                                display.current == |display.frames|
      ensures frameno.Some? ==> display.current == old(display.current) &&
                                display.frames == old(display.frames)[old(display.current) - 1 := LoadedAs(image, section, disk.files)]
      ensures filenames == old(filenames)[display.current := image]
      ensures sections == old(sections)[display.current := section]
      ensures r == if section.Cut? then Pass else Fail(TypeError)
    {
      Open(image, section, frameno);
      if !section.Cut? {
        return Fail(TypeError);
      }
      ghost var cur := display.current;
      ghost var shown := display.frames;
      Annotate(image, section.tile);
      AppendedToNothing(shown, cur, [LabelFor(image, section.tile)] + MarksOf(SidecarMarks(image, section.tile, disk.files)));
      assert shown[cur - 1].(regions := [LabelFor(image, section.tile)] + MarksOf(SidecarMarks(image, section.tile, disk.files)))
          == LoadedFrame(image, section.tile, disk.files);
      if frameno.None? {
        assert display.frames == old(display.frames) + [LoadedFrame(image, section.tile, disk.files)];
      }
      r := Pass;
    }

    /** The part of load_image before the label (stack.py:145-154): a new frame unless a
        frame number is given, the file at the section's cutout, and the bindings. */
    method Open(image: string, section: Section, frameno: Option<int>)
      requires Valid()
      requires frameno.Some? ==> display.current >= 1
      modifies this, display
      ensures Valid() && display.blink == old(display.blink) && display.current >= 1
      ensures frameno.None? ==> display.frames == old(display.frames) + [Frame(image, CutoutText(section), [])] &&
                                display.current == |display.frames|
      ensures frameno.Some? ==> display.current == old(display.current) &&
                                display.frames == old(display.frames)[old(display.current) - 1 := Frame(image, CutoutText(section), [])]
      ensures filenames == old(filenames)[display.current := image]
      ensures sections == old(sections)[display.current := section]
    {
      if frameno.None? {
        display.FrameNew();
      }
      display.LoadFile(image, CutoutText(section));
      Bind(image, section);
    }

    /** Binds the current frame to an image and a section (stack.py:153-154). */
    method Bind(image: string, section: Section)
      requires Valid() && display.current >= 1
      modifies this
      ensures Valid()
      ensures filenames == old(filenames)[display.current := image]
      ensures sections == old(sections)[display.current := section]
    {
      filenames := filenames[display.current := image];
      sections := sections[display.current := section];
    }

    /** The label and the stored marks that load_image draws on a frame bound to an
        image and a tile (stack.py:156-157). */
    method Annotate(image: string, t: Tile)
      requires Valid() && display.current in filenames
      requires filenames[display.current] == image && sections[display.current] == Cut(t)
      modifies display
      ensures Valid() && display.current == old(display.current) && display.blink == old(display.blink)
      ensures display.frames == Appended(old(display.frames), display.current,
                                         [LabelFor(image, t)] + MarksOf(SidecarMarks(image, t, disk.files)))
    {
      ghost var before := display.frames;
      display.AddRegion(LabelFor(image, t));
      var r := LoadRegions();
      AppendedTwice(before, display.current, [LabelFor(image, t)], MarksOf(SidecarMarks(image, t, disk.files)));
    }

    /** `load_images` (stack.py:163-176): loads every image at the section, one new frame
        each, with blinking suspended while it loads and restored afterwards. For anything
        but a tile the first load raises after opening its frame and binding its name,
        and blinking stays off. */
    method LoadImages(images: seq<string>, section: Section) returns (r: Outcome)
      requires Valid()
      modifies this, display
      ensures Valid()
      ensures r == if images != [] && !section.Cut? then Fail(TypeError) else Pass
      ensures r.Pass? ==> display.blink == old(display.blink)
      ensures r.Fail? ==> !display.blink
      ensures r.Pass? ==>
                (images != [] ==> display.frames == old(display.frames) + LoadedFrames(images, section.tile, disk.files)) &&
                (images == [] ==> display.frames == old(display.frames)) &&
                filenames == Rebind(old(filenames), |old(display.frames)|, images) &&
                sections == Rebind(old(sections), |old(display.frames)|, Copies(section, |images|))
      ensures r.Pass? && images != [] ==> display.current == |display.frames|
      ensures images == [] ==> display.current == old(display.current)
      ensures r.Fail? ==>
                display.frames == old(display.frames) + [Frame(images[0], CutoutText(section), [])] &&
                display.current == |display.frames| &&
                filenames == old(filenames)[display.current := images[0]] &&
                sections == old(sections)[display.current := section]
    {
      var blinking := Blinking();
      if blinking {
        Blink(Some("no"));
      }
      if !section.Cut? && images != [] {
        // the first load raises at the label
        r := LoadImage(images[0], section, None);
        return;
      }
      if images != [] {
        LoadEach(images, section.tile);
      } else {
        assert Copies(section, 0) == [];
      }
      if blinking {
        Blink(Some("yes"));
      }
      r := Pass;
    }

    /** The loop of load_images (stack.py:169-172) for a tile: one load_image per image,
        each into a new frame. */
    method LoadEach(images: seq<string>, t: Tile)
      requires Valid()
      modifies this, display
      ensures Valid() && display.blink == old(display.blink)
      ensures display.frames == old(display.frames) + LoadedFrames(images, t, disk.files)
      ensures filenames == Rebind(old(filenames), |old(display.frames)|, images)
      ensures sections == Rebind(old(sections), |old(display.frames)|, Copies(Cut(t), |images|))
      ensures images != [] ==> display.current == |display.frames|
    {
      ghost var base := display.frames;
      ghost var n0 := |base|;
      for i := 0 to |images|
        invariant Valid() && display.blink == old(display.blink)
        invariant display.frames == base + LoadedFrames(images[..i], t, disk.files)
        invariant filenames == Rebind(old(filenames), n0, images[..i])
        invariant sections == Rebind(old(sections), n0, Copies(Cut(t), i))
        invariant i > 0 ==> display.current == |display.frames|
      {
        ghost var bound := sections;
        var r := LoadImage(images[i], Cut(t), None);
        assert display.current == n0 + i + 1;
        assert sections == bound[n0 + i + 1 := Cut(t)];
        LoadedFramesSnoc(images, i, t, disk.files);
        RebindSnoc(old(filenames), n0, images, i);
        RebindCopiesSnoc(old(sections), n0, Cut(t), i);
      }
      assert images[..|images|] == images;
    }
  }
}
