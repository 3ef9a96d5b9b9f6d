/** The image viewer (ds9) as abstract state: its frames, the current frame, and the
    blink flag. Only the effect of each command the program sends is modelled; the
    command strings and the connection to the viewer are not. */
module Viewer {
  import opened Coordinates

  /** A region drawn on a frame: a circular marker or a text label. */
  datatype Region = Circle(center: Point, radius: real) | Label(at: Point, text: string)

  /** One viewer frame: the image loaded into it, the cutout it was loaded with, and
      the regions drawn on it. */
  datatype Frame = Frame(image: string, cutout: string, regions: seq<Region>)

  const EmptyFrame: Frame := Frame("", "", [])

  /** The words the viewer reads as "on" in a `blink` command; any other word as "off". */
  predicate MeansOn(word: string) {
    word == "yes" || word == "on" || word == "true" || word == "1"
  }

  /** The frames with `rs` drawn after the regions of frame number `current`
      (frame number k is frames[k - 1]; with no such frame nothing is drawn). */
  function Appended(frames: seq<Frame>, current: int, rs: seq<Region>): (r: seq<Frame>)
    ensures |r| == |frames|
    ensures SameExcept(frames, r, current)
  {
    if 1 <= current <= |frames| then
      frames[current - 1 := frames[current - 1].(regions := frames[current - 1].regions + rs)]
    else frames
  }

  /** The two frame lists differ at most in frame number `current`. */
  ghost predicate SameExcept(a: seq<Frame>, b: seq<Frame>, current: int) {
    |a| == |b| && forall k :: 0 <= k < |a| && k != current - 1 ==> a[k] == b[k]
  }

  /** The frames with frame number `current` showing exactly the regions `rs`, its
      image and cutout kept (with no such frame, the frames as they are). */
  function Redrawn(frames: seq<Frame>, current: int, rs: seq<Region>): (r: seq<Frame>)
    ensures SameExcept(frames, r, current)
    ensures 1 <= current <= |frames| ==>
              r[current - 1].image == frames[current - 1].image &&
              r[current - 1].cutout == frames[current - 1].cutout && r[current - 1].regions == rs
  {
    if 1 <= current <= |frames| then frames[current - 1 := frames[current - 1].(regions := rs)]
    else frames
  }

  /** Drawing `rs` on a frame just cleared of its regions leaves it showing exactly `rs`. */
  lemma AppendedAfterClearing(frames: seq<Frame>, current: int, rs: seq<Region>)
    ensures Appended(Redrawn(frames, current, []), current, rs) == Redrawn(frames, current, rs)
  {
    assert [] + rs == rs;
  }

  lemma AppendedNothing(frames: seq<Frame>, current: int)
    ensures Appended(frames, current, []) == frames
  {
    if 1 <= current <= |frames| {
      assert frames[current - 1].regions + [] == frames[current - 1].regions;
      assert frames[current - 1].(regions := frames[current - 1].regions) == frames[current - 1];
    }
  }

  lemma AppendedToNothing(frames: seq<Frame>, current: int, rs: seq<Region>)
    requires 1 <= current <= |frames| && frames[current - 1].regions == []
    ensures Appended(frames, current, rs) == frames[current - 1 := frames[current - 1].(regions := rs)]
  {
    assert [] + rs == rs;
  }

  lemma AppendedTwice(frames: seq<Frame>, current: int, a: seq<Region>, b: seq<Region>)
    ensures Appended(Appended(frames, current, a), current, b) == Appended(frames, current, a + b)
  {
    if 1 <= current <= |frames| {
      assert frames[current - 1].regions + a + b == frames[current - 1].regions + (a + b);
    }
  }

  class Ds9 {
    var frames: seq<Frame>
    var current: nat   // the number of the current frame; 0 when there are no frames
    var blink: bool

    ghost predicate Valid()
      reads this
    {
      current <= |frames| && (current == 0 <==> frames == [])
    }

    /** A viewer as it starts: one empty frame, not blinking. */
    constructor ()
      ensures Valid() && frames == [EmptyFrame] && current == 1 && !blink
    {
      frames := [EmptyFrame];
      current := 1;
      blink := false;
    }

    /** The regions of the current frame, as `get regions` lists them. */
    function CurrentRegions(): seq<Region>
      reads this
    {
      if 1 <= current <= |frames| then frames[current - 1].regions else []
    }

    /** `frame new`: a new empty frame after the others becomes current. */
    method FrameNew()
      requires Valid()
      modifies this
      ensures Valid() && blink == old(blink)
      ensures frames == old(frames) + [EmptyFrame] && current == |frames|
    {
      frames := frames + [EmptyFrame];
      current := |frames|;
    }

    /** `frame delete all`. */
    method FrameDeleteAll()
      requires Valid()
      modifies this
      ensures Valid() && blink == old(blink)
      ensures frames == [] && current == 0
    {
      frames := [];
      current := 0;
    }

    /** `file <image><cutout>`: the current frame shows the image, without regions. */
    method LoadFile(image: string, cutout: string)
      requires Valid()
      modifies this
      ensures Valid() && blink == old(blink) && current == old(current)
      ensures frames == if current == 0 then old(frames)
                        else old(frames)[current - 1 := Frame(image, cutout, [])]
    {
      if current != 0 {
        frames := frames[current - 1 := Frame(image, cutout, [])];
      }
    }

    /** `regions <shape>`: draws one region on the current frame. */
    method AddRegion(r: Region)
      requires Valid()
      modifies this
      ensures Valid() && blink == old(blink) && current == old(current)
      ensures frames == Appended(old(frames), current, [r])
    {
      if current != 0 {
        frames := frames[current - 1 := frames[current - 1].(regions := frames[current - 1].regions + [r])];
      }
    }

    /** `region delete all`: removes every region of the current frame. */
    method DeleteAllRegions()
      requires Valid()
      modifies this
      ensures Valid() && blink == old(blink) && current == old(current)
      ensures frames == Redrawn(old(frames), current, [])
      ensures CurrentRegions() == []
    {
      if current != 0 {
        frames := frames[current - 1 := frames[current - 1].(regions := [])];
      }
    }

    /** `blink <word>`. */
    method SetBlink(word: string)
      requires Valid()
      modifies this
      ensures Valid() && frames == old(frames) && current == old(current)
      ensures blink == MeansOn(word)
    {
      blink := MeansOn(word);
    }
  }
}
