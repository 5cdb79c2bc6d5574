/** The LRU replacer: a list of evictable frames, most recent first, and a map from frames into that list. */
module Lru {
  import opened Types

  datatype Option<T> = None | Some(value: T)

  /** What has happened to the replacer so far. */
  datatype Event = Pinned(frame: FrameId) | Unpinned(frame: FrameId) | Evicted(frame: FrameId)

  /** When `f` last became evictable: the time of its first unpin since it was last pinned or evicted. */
  function Since(history: seq<Event>, f: FrameId): Option<nat> {
    if history == [] then
      None
    else
      var n := |history| - 1;
      var before := Since(history[..n], f);
      match history[n]
      case Pinned(g) => if g == f then None else before
      case Evicted(g) => if g == f then None else before
      case Unpinned(g) => if g == f && before.None? then Some(n) else before
  }

  /** In terms of the history alone: an unpin since the last removal, and the first of these. */
  lemma {:induction false} SinceMeans(history: seq<Event>, f: FrameId, n: nat)
    ensures Since(history, f) == Some(n) <==>
            && n < |history| && history[n] == Unpinned(f)
            && (forall i :: n <= i < |history| ==> history[i] != Pinned(f) && history[i] != Evicted(f))
            && (forall m :: 0 <= m < n && history[m] == Unpinned(f) ==>
                  exists i :: m < i < n && (history[i] == Pinned(f) || history[i] == Evicted(f)))
  {
    if history != [] {
      var k := |history| - 1;
      var front := history[..k];
      SinceInPast(front, f);
      SinceMeans(front, f, n);
      if history[k] == Unpinned(f) && Since(front, f).None? && n == k {
        NoneMeans(front, f);
      }
      if history[k] == Unpinned(f) && Since(front, f).Some? {
        SinceMeans(front, f, Since(front, f).value);
      }
    }
  }

  lemma {:induction false} NoneMeans(history: seq<Event>, f: FrameId)
    requires Since(history, f).None?
    ensures forall m :: 0 <= m < |history| && history[m] == Unpinned(f) ==>
              exists i :: m < i < |history| && (history[i] == Pinned(f) || history[i] == Evicted(f))
  {
    if history != [] {
      var k := |history| - 1;
      var front := history[..k];
      if history[k] != Pinned(f) && history[k] != Evicted(f) {
        NoneMeans(front, f);
        forall m | 0 <= m < k && history[m] == Unpinned(f)
          ensures exists i :: m < i < |history| && (history[i] == Pinned(f) || history[i] == Evicted(f))
        {
          assert front[m] == Unpinned(f);
          var i :| m < i < k && (front[i] == Pinned(f) || front[i] == Evicted(f));
          assert history[i] == front[i];
        }
      }
    }
  }

  /** `frames` lists exactly the evictable frames, the latest to become so first. */
  ghost predicate Refines(frames: seq<FrameId>, history: seq<Event>) {
    && (forall f :: f in frames <==> Since(history, f).Some?)
    && (forall i, j :: 0 <= i < j < |frames| ==>
          Since(history, frames[i]).Some? && Since(history, frames[j]).Some? &&
          Since(history, frames[i]).value > Since(history, frames[j]).value)
  }

  function Without(frames: seq<FrameId>, f: FrameId): (r: seq<FrameId>)
    ensures forall g :: g in r <==> g in frames && g != f
    ensures f !in frames ==> r == frames
  {
    if frames == [] then []
    else if frames[0] == f then Without(frames[1..], f)
    else [frames[0]] + Without(frames[1..], f)
  }

  ghost predicate Distinct<T>(s: seq<T>) {
    forall i, j :: 0 <= i < j < |s| ==> s[i] != s[j]
  }

  lemma {:induction false} WithoutIndex(frames: seq<FrameId>, k: nat)
    requires Distinct(frames) && k < |frames|
    ensures Without(frames, frames[k]) == frames[..k] + frames[k + 1..]
  {
    if k == 0 {
      assert frames[0] !in frames[1..];
    } else {
      var rest := frames[1..];
      assert frames[0] != frames[k] == rest[k - 1];
      WithoutIndex(rest, k - 1);
      assert [frames[0]] + (rest[..k - 1] + rest[k..]) == frames[..k] + frames[k + 1..];
    }
  }

  lemma WithoutAt(frames: seq<FrameId>, k: nat)
    requires Distinct(frames) && k < |frames|
    ensures Without(frames, frames[k]) == frames[..k] + frames[k + 1..]
    ensures Distinct(Without(frames, frames[k]))
  {
    hide Without;
    WithoutIndex(frames, k);
  }

  // ---------- the list is a function of the history ----------

  lemma SinceStep(history: seq<Event>, e: Event, f: FrameId)
    ensures Since(history + [e], f) ==
            match e
            case Pinned(g) => if g == f then None else Since(history, f)
            case Evicted(g) => if g == f then None else Since(history, f)
            case Unpinned(g) => if g == f && Since(history, f).None? then Some(|history|) else Since(history, f)
  {
    assert (history + [e])[..|history|] == history;
  }

  lemma {:induction false} SinceInPast(history: seq<Event>, f: FrameId)
    ensures Since(history, f).Some? ==> Since(history, f).value < |history|
  {
    if history != [] {
      SinceInPast(history[..|history| - 1], f);
    }
  }

  lemma RefinesDistinct(frames: seq<FrameId>, history: seq<Event>)
    requires Refines(frames, history)
    ensures Distinct(frames)
  {
    hide Since, Without;
    forall i, j | 0 <= i < j < |frames|
      ensures frames[i] != frames[j]
    {
      assert Since(history, frames[i]).value > Since(history, frames[j]).value;
    }
  }

  /** Unpinning a frame puts it in front, unless it is evictable already: then its turn does not change. */
  lemma UnpinRefines(frames: seq<FrameId>, history: seq<Event>, f: FrameId)
    requires Refines(frames, history)
    ensures Refines(if f in frames then frames else [f] + frames, history + [Unpinned(f)])
  {
    hide Since, Without;
    var frames' := if f in frames then frames else [f] + frames;
    forall g
      ensures Since(history + [Unpinned(f)], g) ==
              if g == f && f !in frames then Some(|history|) else Since(history, g)
      ensures Since(history, g).Some? ==> Since(history, g).value < |history|
    {
      SinceStep(history, Unpinned(f), g);
      SinceInPast(history, g);
    }
  }

  /** Pinning removes the frame and keeps the order of the others. */
  lemma PinRefines(frames: seq<FrameId>, history: seq<Event>, f: FrameId)
    requires Refines(frames, history)
    ensures Refines(Without(frames, f), history + [Pinned(f)])
  {
    RemovalRefines(frames, history, f, Pinned(f));
  }

  lemma RemovedOrder(frames: seq<FrameId>, history: seq<Event>, k: nat)
    requires Refines(frames, history) && Distinct(frames) && k < |frames|
    ensures var rest := frames[..k] + frames[k + 1..];
            && (forall i :: 0 <= i < |rest| ==> rest[i] != frames[k])
            && (forall i, j :: 0 <= i < j < |rest| ==>
                  Since(history, rest[i]).Some? && Since(history, rest[j]).Some? &&
                  Since(history, rest[i]).value > Since(history, rest[j]).value)
  {
    hide Since, Without;
    var rest := frames[..k] + frames[k + 1..];
    forall i | 0 <= i < |rest|
      ensures rest[i] == frames[if i < k then i else i + 1] && rest[i] != frames[k]
    {
    }
  }

  lemma RemovalRefines(frames: seq<FrameId>, history: seq<Event>, f: FrameId, e: Event)
    requires Refines(frames, history) && (e == Pinned(f) || e == Evicted(f))
    ensures Refines(Without(frames, f), history + [e])
  {
    hide Since, Without;
    forall g
      ensures Since(history + [e], g) == if g == f then None else Since(history, g)
    {
      SinceStep(history, e, g);
    }
    if f in frames {
      var k :| 0 <= k < |frames| && frames[k] == f;
      RefinesDistinct(frames, history);
      WithoutAt(frames, k);
      hide Refines;
      RemovedOrder(frames, history, k);
    }
  }

  /** The victim is the frame that has been evictable longest. */
  lemma VictimIsOldest(frames: seq<FrameId>, history: seq<Event>)
    requires Refines(frames, history) && frames != []
    ensures var v := frames[|frames| - 1];
            && Since(history, v).Some?
            && (forall f :: f != v && Since(history, f).Some? ==> Since(history, v).value < Since(history, f).value)
            && Refines(frames[..|frames| - 1], history + [Evicted(v)])
  {
    hide Since, Without;
    var n := |frames| - 1;
    var v := frames[n];
    RefinesDistinct(frames, history);
    WithoutAt(frames, n);
    RemovalRefines(frames, history, v, Evicted(v));
    assert frames[..n] + frames[n + 1..] == frames[..n];
  }

  lemma SameFront(a: seq<FrameId>, b: seq<FrameId>, history: seq<Event>)
    requires Refines(a, history) && Refines(b, history) && a != []
    ensures b != [] && a[0] == b[0]
  {
    hide Since, Without;
    assert a[0] in b;
    assert b[0] in a;
    var i :| 0 <= i < |b| && b[i] == a[0];
    var j :| 0 <= j < |a| && a[j] == b[0];
  }

  /** The history determines the list. */
  lemma {:induction false} RefinementIsUnique(a: seq<FrameId>, b: seq<FrameId>, history: seq<Event>)
    requires Refines(a, history) && Refines(b, history)
    ensures a == b
    decreases |a|
  {
    hide Since, Without;
    if a != [] {
      SameFront(a, b, history);
      RefinesDistinct(a, history);
      RefinesDistinct(b, history);
      WithoutAt(a, 0);
      WithoutAt(b, 0);
      PinRefines(a, history, a[0]);
      PinRefines(b, history, a[0]);
      assert a == [a[0]] + a[1..] && b == [a[0]] + b[1..];
      assert a[..0] + a[0 + 1..] == a[1..] && b[..0] + b[0 + 1..] == b[1..];
      RefinementIsUnique(a[1..], b[1..], history + [Pinned(a[0])]);
    } else if b != [] {
      SameFront(b, a, history);
    }
  }

  // ---------- the replacer ----------

  /** A node of the linked list; `handle` is the identity that an iterator to it carries. */
  datatype Node = Node(handle: nat, frame: FrameId)

  function FramesOf(nodes: seq<Node>): (r: seq<FrameId>)
    ensures |r| == |nodes| && forall i :: 0 <= i < |nodes| ==> r[i] == nodes[i].frame
  {
    seq(|nodes|, i requires 0 <= i < |nodes| => nodes[i].frame)
  }

  /** The map holds, for each frame in the list, the iterator to its one node. */
  ghost predicate Linked(nodes: seq<Node>, lruMap: map<FrameId, nat>, nextHandle: nat) {
    && (forall i, j :: 0 <= i < j < |nodes| ==> nodes[i].handle != nodes[j].handle)
    && (forall i :: 0 <= i < |nodes| ==> nodes[i].handle < nextHandle)
    && (forall i :: 0 <= i < |nodes| ==> nodes[i].frame in lruMap && lruMap[nodes[i].frame] == nodes[i].handle)
    && (forall f :: f in lruMap <==> f in FramesOf(nodes))
    && Distinct(FramesOf(nodes))
  }

  lemma ErasedFrames(nodes: seq<Node>, k: nat)
    requires k < |nodes| && Distinct(FramesOf(nodes))
    ensures FramesOf(nodes[..k] + nodes[k + 1..]) == Without(FramesOf(nodes), nodes[k].frame)
    ensures Distinct(FramesOf(nodes[..k] + nodes[k + 1..]))
  {
    hide Without, FramesOf;
    var frames, nodes' := FramesOf(nodes), nodes[..k] + nodes[k + 1..];
    WithoutAt(frames, k);
    assert FramesOf(nodes') == frames[..k] + frames[k + 1..];
  }

  lemma ErasedNodes(nodes: seq<Node>, k: nat)
    requires k < |nodes| && Distinct(FramesOf(nodes))
    requires forall i, j :: 0 <= i < j < |nodes| ==> nodes[i].handle != nodes[j].handle
    ensures var nodes' := nodes[..k] + nodes[k + 1..];
            && (forall i, j :: 0 <= i < j < |nodes'| ==> nodes'[i].handle != nodes'[j].handle)
            && (forall i :: 0 <= i < |nodes'| ==> nodes'[i] in nodes && nodes'[i].frame != nodes[k].frame)
  {
    hide FramesOf;
    var nodes', frames := nodes[..k] + nodes[k + 1..], FramesOf(nodes);
    forall i | 0 <= i < |nodes'|
      ensures nodes'[i] in nodes && nodes'[i].frame != nodes[k].frame
    {
      var m := if i < k then i else i + 1;
      assert nodes'[i] == nodes[m] && frames[m] != frames[k];
    }
  }

  /** Erasing the node an iterator points to. */
  lemma LinkedErase(nodes: seq<Node>, lruMap: map<FrameId, nat>, nextHandle: nat, k: nat)
    requires Linked(nodes, lruMap, nextHandle) && k < |nodes|
    ensures Linked(nodes[..k] + nodes[k + 1..], lruMap - {nodes[k].frame}, nextHandle)
    ensures FramesOf(nodes[..k] + nodes[k + 1..]) == Without(FramesOf(nodes), nodes[k].frame)
  {
    hide Without, FramesOf;
    ErasedFrames(nodes, k);
    var nodes', frames := nodes[..k] + nodes[k + 1..], FramesOf(nodes);
    ErasedNodes(nodes, k);
    forall f
      ensures f in lruMap - {nodes[k].frame} <==> f in FramesOf(nodes')
    {
      assert f in lruMap <==> f in frames;
    }
  }

  lemma LinkedPopBack(nodes: seq<Node>, lruMap: map<FrameId, nat>, nextHandle: nat)
    requires Linked(nodes, lruMap, nextHandle) && nodes != []
    ensures var n := |nodes| - 1;
            && Linked(nodes[..n], lruMap - {nodes[n].frame}, nextHandle)
            && FramesOf(nodes[..n]) == FramesOf(nodes)[..n]
  {
    hide Without, FramesOf;
    var n := |nodes| - 1;
    LinkedErase(nodes, lruMap, nextHandle, n);
    assert nodes[..n] + nodes[n + 1..] == nodes[..n];
    hide Linked;
    assert FramesOf(nodes[..n]) == FramesOf(nodes)[..n];
  }

  lemma LinkedHas(nodes: seq<Node>, lruMap: map<FrameId, nat>, nextHandle: nat, f: FrameId)
    requires Linked(nodes, lruMap, nextHandle)
    ensures f in lruMap <==> f in FramesOf(nodes)
  {
  }

  /** The iterator of a frame leads to its node. */
  lemma LinkedAt(nodes: seq<Node>, lruMap: map<FrameId, nat>, nextHandle: nat, f: FrameId)
    requires Linked(nodes, lruMap, nextHandle) && f in lruMap
    ensures exists k :: 0 <= k < |nodes| && nodes[k].handle == lruMap[f]
    ensures forall k :: 0 <= k < |nodes| && nodes[k].handle == lruMap[f] ==> nodes[k].frame == f
  {
    var k :| 0 <= k < |FramesOf(nodes)| && FramesOf(nodes)[k] == f;
    assert nodes[k].handle == lruMap[f];
  }

  lemma LinkedPush(nodes: seq<Node>, lruMap: map<FrameId, nat>, nextHandle: nat, f: FrameId)
    requires Linked(nodes, lruMap, nextHandle) && f !in lruMap
    ensures Linked([Node(nextHandle, f)] + nodes, lruMap[f := nextHandle], nextHandle + 1)
    ensures FramesOf([Node(nextHandle, f)] + nodes) == [f] + FramesOf(nodes)
  {
    hide FramesOf;
    var nodes' := [Node(nextHandle, f)] + nodes;
    assert FramesOf(nodes') == [f] + FramesOf(nodes);
    forall g
      ensures g in lruMap[f := nextHandle] <==> g in FramesOf(nodes')
    {
      assert g in FramesOf(nodes) <==> g in lruMap;
    }
  }

  class LRUReplacer {
    const numPages: nat
    var replacer: seq<Node>  // the list, front first
    var lruMap: map<FrameId, nat>  // frame to iterator
    var nextHandle: nat
    ghost var history: seq<Event>

    /** The evictable frames, the latest to become so first. */
    ghost function Frames(): seq<FrameId>
      reads this`replacer
    {
      FramesOf(replacer)
    }

    /** List and map hold the same frames without duplicates, in the order the history dictates. */
    ghost predicate Valid()
      reads this
    {
      && Linked(replacer, lruMap, nextHandle)
      && Refines(Frames(), history)
    }

    constructor (n: nat)
      ensures Valid() && Frames() == [] && numPages == n && history == []
    {
      numPages := n;
      replacer, lruMap, nextHandle, history := [], map[], 0, [];
    }

    method Size() returns (n: nat)
      ensures n == |Frames()|
    {
      n := |replacer|;
    }

    /** Takes the frame that has been evictable longest; fails only when there is none. */
    method Victim() returns (ok: bool, frame: FrameId)
      requires Valid()
      modifies this
      ensures Valid()
      ensures ok <==> old(Frames()) != []
      ensures ok ==> frame == old(Frames())[|old(Frames())| - 1]
      ensures ok ==>
                && Since(old(history), frame).Some?
                && (forall g :: g != frame && Since(old(history), g).Some? ==>
                      Since(old(history), frame).value < Since(old(history), g).value)
      ensures ok ==> Frames() == old(Frames())[..|old(Frames())| - 1] && history == old(history) + [Evicted(frame)]
      ensures !ok ==> Frames() == old(Frames()) && history == old(history)
    {
      if replacer == [] {
        return false, 0;
      }
      hide Refines, Linked, Since, Without, FramesOf;
      VictimIsOldest(Frames(), history);
      LinkedPopBack(replacer, lruMap, nextHandle);
      frame := replacer[|replacer| - 1].frame;
      history := history + [Evicted(frame)];
      replacer := replacer[..|replacer| - 1];
      lruMap := lruMap - {frame};
      ok := true;
    }

    method Pin(frame: FrameId)
      requires Valid()
      modifies this
      ensures Valid()
      ensures Frames() == Without(old(Frames()), frame) && history == old(history) + [Pinned(frame)]
    {
      hide Refines, Since, Without, FramesOf, Linked;
      PinRefines(Frames(), history, frame);
      LinkedHas(replacer, lruMap, nextHandle, frame);
      history := history + [Pinned(frame)];
      if frame in lruMap {
        LinkedAt(replacer, lruMap, nextHandle, frame);
        var k :| 0 <= k < |replacer| && replacer[k].handle == lruMap[frame];
        LinkedErase(replacer, lruMap, nextHandle, k);
        replacer := replacer[..k] + replacer[k + 1..];
        lruMap := lruMap - {frame};
      }
    }

    /**
     Below capacity, the frame goes to the front unless it is listed. At capacity the source calls `Victim` with its own
     mutex held, which `Victim` takes first: the call blocks for ever, and nothing is changed.
     */
    method Unpin(frame: FrameId) returns (blocked: bool)
      requires Valid()
      modifies this
      ensures Valid()
      ensures blocked <==> |old(Frames())| == numPages
      ensures blocked ==> Frames() == old(Frames()) && history == old(history)
      ensures !blocked ==>
                && Frames() == (if frame in old(Frames()) then old(Frames()) else [frame] + old(Frames()))
                && history == old(history) + [Unpinned(frame)]
    {
      hide Refines, Since, Without, Linked, FramesOf;
      var size := Size();
      if size == numPages {
        return true;
      }
      LinkedHas(replacer, lruMap, nextHandle, frame);
      UnpinRefines(Frames(), history, frame);
      history := history + [Unpinned(frame)];
      blocked := false;
      if frame in lruMap {
        return;
      }
      LinkedPush(replacer, lruMap, nextHandle, frame);
      replacer := [Node(nextHandle, frame)] + replacer;
      lruMap := lruMap[frame := nextHandle];
      nextHandle := nextHandle + 1;
    }
  }
}
