/**
 The call-frame stack that grows by segments of eight frames, as a stack of frames.
 */
module CallFrames {
  import opened Options

  const FRAMES_PER_SEGMENT := 8

  // A frame: its position, that of its parent (-1 for none), and everything else.
  datatype Frame<T> = Frame(idx: int, parent: int, body: T)

  class CallFrameStack<T(0)> {
    const segments: array<array?<Frame<T>>>
    var segIdx: nat
    var segSp: nat

    // The frames pushed and not popped.
    ghost var frames: seq<Frame<T>>

    // Exactly the segments 0..segIdx are allocated, each an array of its own.
    ghost predicate Allocated()
      reads this, segments
    {
      && segIdx < segments.Length
      && (forall i :: 0 <= i < segments.Length ==> (segments[i] != null <==> i <= segIdx))
      && (forall i :: 0 <= i <= segIdx ==> segments[i].Length == FRAMES_PER_SEGMENT)
      && (forall i, j :: 0 <= i < j <= segIdx ==> segments[i] != segments[j])
    }

    // All objects the stack consists of.
    ghost function Parts(): set<object>
      reads this, segments
    {
      {this, segments} + set i | 0 <= i < segments.Length && segments[i] != null :: segments[i]
    }

    ghost predicate Valid()
      reads this, segments, Parts()
    {
      && Allocated()
      && segSp <= FRAMES_PER_SEGMENT
      && |frames| == segSp + FRAMES_PER_SEGMENT * segIdx
      && (forall k :: 0 <= k < |frames| ==> Holds(k))
    }

    // Frame k is in its place and knows its position.
    ghost predicate Holds(k: nat)
      reads this, segments, Parts()
      requires Allocated() && k < |frames| <= FRAMES_PER_SEGMENT * (segIdx + 1)
    {
      frames[k] == segments[k / FRAMES_PER_SEGMENT][k % FRAMES_PER_SEGMENT] && frames[k].idx == k
    }

    constructor (maxSize: nat)
      requires maxSize > 0
      ensures Valid() && fresh(Parts()) && frames == []
      ensures segments.Length == (maxSize + FRAMES_PER_SEGMENT - 1) / FRAMES_PER_SEGMENT
    {
      segments := new array?<Frame<T>>[(maxSize + FRAMES_PER_SEGMENT - 1) / FRAMES_PER_SEGMENT](_ => null);
      segIdx, segSp, frames := 0, 0, [];
      new;
      segments[0] := new Frame<T>[FRAMES_PER_SEGMENT];
    }

    method IsEmpty() returns (empty: bool)
      requires Valid()
      ensures empty <==> frames == []
    {
      empty := segIdx == 0 && segSp == 0;
    }

    // The test compares with an index the stack never reaches, so it never reports a full stack.
    method IsFull() returns (full: bool)
      requires Valid()
      ensures !full
    {
      full := segIdx == segments.Length && segSp >= FRAMES_PER_SEGMENT;
    }

    // Sp
    method Depth() returns (sp: nat)
      requires Valid()
      ensures sp == |frames|
    {
      sp := segSp + segIdx * FRAMES_PER_SEGMENT;
    }

    // Fails when all segments are full, and otherwise puts the frame on top with its position.
    method Push(v: Frame<T>) returns (ok: bool)
      requires Valid()
      modifies Parts()
      ensures Valid() && fresh(Parts() - old(Parts()))
      ensures ok <==> |old(frames)| < FRAMES_PER_SEGMENT * segments.Length
      ensures frames == if ok then old(frames) + [v.(idx := |old(frames)|)] else old(frames)
    {
      if segSp >= FRAMES_PER_SEGMENT {
        if segIdx < segments.Length - 1 {
          AddSegment();
        } else {
          return false;
        }
      }
      var seg := segments[segIdx];
      seg[segSp] := v.(idx := segSp + FRAMES_PER_SEGMENT * segIdx);
      frames := frames + [seg[segSp]];
      segSp := segSp + 1;
      ok := true;
      forall k | 0 <= k < |frames| ensures Holds(k) {
        if k < |frames| - 1 {
          assert old(Holds(k));
        }
      }
    }

    method AddSegment()
      requires Valid() && segSp == FRAMES_PER_SEGMENT && segIdx < segments.Length - 1
      modifies this, segments
      ensures Valid() && frames == old(frames) && segIdx == old(segIdx) + 1 && segSp == 0
      ensures forall i :: 0 <= i <= old(segIdx) ==> segments[i] == old(segments[i])
      ensures fresh(segments[segIdx])
    {
      var seg := new Frame<T>[FRAMES_PER_SEGMENT];
      segIdx := segIdx + 1;
      segments[segIdx] := seg;
      segSp := 0;
      forall k | 0 <= k < |frames| ensures Holds(k) {
        assert old(Holds(k));
      }
    }

    // A copy of the top frame, if any.
    method Last() returns (f: Option<Frame<T>>)
      requires Valid()
      ensures f == if frames == [] then None else Some(frames[|frames| - 1])
    {
      var seg, sp := segments[segIdx], segSp;
      if sp == 0 {
        if segIdx == 0 {
          return None;
        }
        seg, sp := segments[segIdx - 1], FRAMES_PER_SEGMENT;
      }
      assert Holds(|frames| - 1);
      f := Some(seg[sp - 1]);
    }

    method At(sp: nat) returns (f: Frame<T>)
      requires Valid() && sp < |frames|
      ensures f == frames[sp]
    {
      assert Holds(sp);
      f := segments[sp / FRAMES_PER_SEGMENT][sp % FRAMES_PER_SEGMENT];
    }

    // Writing through the pointer At returns.
    method Write(sp: nat, f: Frame<T>)
      requires Valid() && sp < |frames| && f.idx == sp
      modifies Parts()
      ensures Valid() && frames == old(frames)[sp := f] && unchanged(`segIdx) && unchanged(`segSp)
      ensures Parts() == old(Parts())
    {
      assert Holds(sp);
      var seg := segments[sp / FRAMES_PER_SEGMENT];
      seg[sp % FRAMES_PER_SEGMENT] := f;
      frames := frames[sp := f];
      forall k | 0 <= k < |frames| ensures Holds(k) {
        assert old(Holds(k));
        if k != sp && k / FRAMES_PER_SEGMENT == sp / FRAMES_PER_SEGMENT {
          assert k % FRAMES_PER_SEGMENT != sp % FRAMES_PER_SEGMENT;
        }
      }
    }

    method Pop() returns (f: Option<Frame<T>>)
      requires Valid()
      modifies Parts()
      ensures Valid() && Parts() <= old(Parts())
      ensures old(frames) == [] ==> f == None && frames == []
      ensures old(frames) != [] ==>
                f == Some(old(frames)[|old(frames)| - 1]) && frames == old(frames)[..|old(frames)| - 1]
    {
      if segSp == 0 {
        if segIdx == 0 {
          return None;
        }
        DropSegment();
        segSp := FRAMES_PER_SEGMENT;
      }
      segSp := segSp - 1;
      f := Some(segments[segIdx][segSp]);
      assert old(Holds(|frames| - 1));
      frames := frames[..|frames| - 1];
      forall k | 0 <= k < |frames| ensures Holds(k) {
        assert old(Holds(k));
      }
    }

    // Frees the last segment; the frames below it stay.
    method DropSegment()
      requires Allocated() && segIdx > 0
      modifies this`segIdx, segments
      ensures Allocated() && segIdx == old(segIdx) - 1 && Parts() <= old(Parts())
      ensures forall i :: 0 <= i <= segIdx ==> segments[i] == old(segments[i])
    {
      segments[segIdx] := null;
      segIdx := segIdx - 1;
    }

    // What SetSp leaves: exact, except that unwinding to the very depth of a stack whose last segment
    // is full forgets that segment's frames.
    ghost function Unwound(sp: nat): nat
      reads this
      requires sp <= |frames| == segSp + FRAMES_PER_SEGMENT * segIdx
    {
      if sp == |frames| && segSp == FRAMES_PER_SEGMENT then sp - FRAMES_PER_SEGMENT else sp
    }

    method SetSp(sp: nat)
      requires Valid() && sp <= |frames|
      modifies Parts()
      ensures Valid() && Parts() <= old(Parts())
      ensures frames == old(frames)[..old(Unwound(sp))]
      ensures frames == old(frames)[..sp] <==> !(sp == |old(frames)| && old(segSp) == FRAMES_PER_SEGMENT)
    {
      var desired := sp / FRAMES_PER_SEGMENT;
      while segIdx > desired
        invariant Allocated() && segIdx <= old(segIdx) && Parts() <= old(Parts())
        invariant segIdx >= desired || segIdx == old(segIdx)
        invariant forall i :: 0 <= i <= segIdx ==> segments[i] == old(segments[i])
        invariant unchanged(`segSp) && unchanged(`frames)
        invariant forall i :: 0 <= i <= segIdx ==> segments[i][..] == old(segments[i][..])
      {
        DropSegment();
      }
      segSp := sp % FRAMES_PER_SEGMENT;
      frames := frames[..segSp + FRAMES_PER_SEGMENT * segIdx];
      forall k | 0 <= k < |frames| ensures Holds(k) {
        assert old(Holds(k));
        assert segments[k / FRAMES_PER_SEGMENT][..][k % FRAMES_PER_SEGMENT] ==
               old(segments[k / FRAMES_PER_SEGMENT][..])[k % FRAMES_PER_SEGMENT];
      }
    }

    // The caller's frame is replaced by the current one, which keeps the caller's parent.
    method RemoveCallerFrame() returns (f: Frame<T>)
      requires Valid() && |frames| >= 2
      modifies Parts()
      ensures Valid()
      ensures var n, was := |old(frames)|, old(frames);
              f == was[n - 1].(parent := was[n - 2].parent, idx := n - 2) && frames == was[..n - 2] + [f]
    {
      var sp := Depth();
      var parentFrame := At(sp - 2);
      var currentFrame := At(sp - 1);
      f := currentFrame.(parent := parentFrame.parent, idx := sp - 2);
      Write(sp - 2, f);
      var popped := Pop();
    }
  }
}
