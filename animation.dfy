/**
 * The frame synthesiser: the series of carpets of orders 0..maxOrder, the
 * per-frame rule that dissolves one order into the next, and the integer
 * progress percentages reported while generating carpets and frames.
 * The random mask of the source is a caller-supplied boolean grid; a frame
 * blends only when f % framesPerOrder != 0, which is exactly when the
 * source's blend factor (f % framesPerOrder) / framesPerOrder is positive.
 */
module Animation {
  import opened Arith
  import opened Carpet

  /** Number of frames in a run: framesPerOrder for every order 0..maxOrder. */
  function TotalFrames(maxOrder: nat, framesPerOrder: nat): (t: nat)
    ensures t == (maxOrder + 1) * framesPerOrder
  {
    maxOrder * framesPerOrder + framesPerOrder
  }

  /** Order whose carpet frame f starts from, clamped to maxOrder. */
  function CurrentOrder(f: nat, maxOrder: nat, framesPerOrder: nat): (c: nat)
    requires framesPerOrder >= 1
    ensures c <= maxOrder
  {
    if f / framesPerOrder < maxOrder then f / framesPerOrder else maxOrder
  }

  /** Order frame f dissolves towards, clamped to maxOrder. */
  function NextOrder(f: nat, maxOrder: nat, framesPerOrder: nat): (n: nat)
    requires framesPerOrder >= 1
    ensures n <= maxOrder
  {
    var c := CurrentOrder(f, maxOrder, framesPerOrder);
    if c + 1 < maxOrder then c + 1 else maxOrder
  }

  /** The two orders a frame uses are ordered, at most one apart, and equal only at maxOrder. */
  lemma OrdersInRange(f: nat, maxOrder: nat, framesPerOrder: nat)
    requires framesPerOrder >= 1
    ensures CurrentOrder(f, maxOrder, framesPerOrder) <= NextOrder(f, maxOrder, framesPerOrder) <= maxOrder
    ensures NextOrder(f, maxOrder, framesPerOrder) <= CurrentOrder(f, maxOrder, framesPerOrder) + 1
    ensures NextOrder(f, maxOrder, framesPerOrder) == CurrentOrder(f, maxOrder, framesPerOrder)
        <==> CurrentOrder(f, maxOrder, framesPerOrder) == maxOrder
  {
  }

  /** Within a run the clamp never bites: frame f starts from order f / framesPerOrder. */
  lemma CurrentOrderWithinRun(f: nat, maxOrder: nat, framesPerOrder: nat)
    requires framesPerOrder >= 1 && f < TotalFrames(maxOrder, framesPerOrder)
    ensures CurrentOrder(f, maxOrder, framesPerOrder) == f / framesPerOrder
  {
    DivBelow(f, framesPerOrder, maxOrder + 1);
  }

  /** The frames at or after maxOrder * framesPerOrder, and only those, are at the deepest order. */
  lemma TerminalWindow(f: nat, maxOrder: nat, framesPerOrder: nat)
    requires framesPerOrder >= 1
    ensures CurrentOrder(f, maxOrder, framesPerOrder) == maxOrder <==> maxOrder * framesPerOrder <= f
  {
    if maxOrder * framesPerOrder <= f {
      DivAtLeast(f, framesPerOrder, maxOrder);
    } else {
      DivBelow(f, framesPerOrder, maxOrder);
    }
  }

  /**
   * Value of cell (i, j) in frame f, where `dissolve` is the random mask at
   * that cell: the current carpet, except that a cell which differs from the
   * next carpet takes the next carpet's value when the frame blends and the
   * mask is set. At the deepest order the frame is that order's carpet.
   */
  function FrameCell(maxOrder: nat, framesPerOrder: nat, f: nat, i: nat, j: nat, dissolve: bool): (v: int)
    requires framesPerOrder >= 1
    ensures v == 0 || v == 1
    ensures Cell(NextOrder(f, maxOrder, framesPerOrder), i, j) <= v <= Cell(CurrentOrder(f, maxOrder, framesPerOrder), i, j)
  {
    var current := CurrentOrder(f, maxOrder, framesPerOrder);
    var next := NextOrder(f, maxOrder, framesPerOrder);
    NestedOrders(current, next, i, j);
    if current == maxOrder then
      Cell(current, i, j)
    else if f % framesPerOrder != 0 && Cell(current, i, j) != Cell(next, i, j) && dissolve then
      Cell(next, i, j)
    else
      Cell(current, i, j)
  }

  /** Terminal hold: from frame maxOrder * framesPerOrder on, every frame is the deepest carpet, whatever the mask. */
  lemma FinalFramesHoldDeepestCarpet(maxOrder: nat, framesPerOrder: nat, f: nat, i: nat, j: nat, dissolve: bool)
    requires framesPerOrder >= 1 && maxOrder * framesPerOrder <= f
    ensures FrameCell(maxOrder, framesPerOrder, f, i, j, dissolve) == Cell(maxOrder, i, j)
  {
    TerminalWindow(f, maxOrder, framesPerOrder);
  }

  /** A frame at the start of a transition window shows the current carpet unchanged. */
  lemma WindowStartShowsCurrentCarpet(maxOrder: nat, framesPerOrder: nat, f: nat, i: nat, j: nat, dissolve: bool)
    requires framesPerOrder >= 1 && f % framesPerOrder == 0
    ensures FrameCell(maxOrder, framesPerOrder, f, i, j, dissolve) == Cell(CurrentOrder(f, maxOrder, framesPerOrder), i, j)
  {
  }

  /** Frame 0 is the solid square. */
  lemma FirstFrameSolid(maxOrder: nat, framesPerOrder: nat, i: nat, j: nat, dissolve: bool)
    requires framesPerOrder >= 1
    ensures FrameCell(maxOrder, framesPerOrder, 0, i, j, dissolve) == 1
  {
    WindowStartShowsCurrentCarpet(maxOrder, framesPerOrder, 0, i, j, dissolve);
  }

  /** Cells that are the same in the current and next carpet are never touched by the dissolve. */
  lemma UnchangingCellsKeepCurrentValue(maxOrder: nat, framesPerOrder: nat, f: nat, i: nat, j: nat, dissolve: bool)
    requires framesPerOrder >= 1
    requires Cell(CurrentOrder(f, maxOrder, framesPerOrder), i, j) == Cell(NextOrder(f, maxOrder, framesPerOrder), i, j)
    ensures FrameCell(maxOrder, framesPerOrder, f, i, j, dissolve) == Cell(CurrentOrder(f, maxOrder, framesPerOrder), i, j)
  {
  }

  /**
   * The cells the transition changes are exactly those filled in the current
   * carpet and empty in the next; in a blending frame such a cell is empty
   * exactly where the mask is set.
   */
  lemma DissolvingCell(maxOrder: nat, framesPerOrder: nat, f: nat, i: nat, j: nat, dissolve: bool)
    requires framesPerOrder >= 1
    requires CurrentOrder(f, maxOrder, framesPerOrder) < maxOrder && f % framesPerOrder != 0
    requires Cell(CurrentOrder(f, maxOrder, framesPerOrder), i, j) != Cell(NextOrder(f, maxOrder, framesPerOrder), i, j)
    ensures Cell(CurrentOrder(f, maxOrder, framesPerOrder), i, j) == 1
    ensures Cell(NextOrder(f, maxOrder, framesPerOrder), i, j) == 0
    ensures FrameCell(maxOrder, framesPerOrder, f, i, j, dissolve) == if dissolve then 0 else 1
  {
    ChangeIsRemoval(CurrentOrder(f, maxOrder, framesPerOrder), i, j);
  }

  /**
   * The dissolve is not cumulative: a changing cell emptied in frame f can be
   * filled again in frame f + 1 of the same window when the next mask misses it.
   */
  lemma DissolveNotCumulative(maxOrder: nat, framesPerOrder: nat, f: nat, i: nat, j: nat)
    requires framesPerOrder >= 1
    requires f % framesPerOrder != 0 && (f + 1) % framesPerOrder != 0
    requires f / framesPerOrder < maxOrder
    requires Cell(f / framesPerOrder, i, j) == 1 && Cell(f / framesPerOrder + 1, i, j) == 0
    ensures FrameCell(maxOrder, framesPerOrder, f, i, j, true) == 0
    ensures FrameCell(maxOrder, framesPerOrder, f + 1, i, j, false) == 1
  {
    var q, r := f / framesPerOrder, f % framesPerOrder;
    if r + 1 == framesPerOrder {
      DivModUnique(f + 1, framesPerOrder, q + 1, 0);
      assert false;
    }
    DivModUnique(f + 1, framesPerOrder, q, r + 1);
  }

  /** The hypotheses of DissolveNotCumulative are met: two orders, three frames per order, centre cell. */
  lemma FlickerExample()
    ensures FrameCell(1, 3, 1, 1, 1, true) == 0 && FrameCell(1, 3, 2, 1, 1, false) == 1
  {
    DissolveNotCumulative(1, 3, 1, 1, 1);
  }

  /** Progress reported after generating the carpet of the given order (0 to 30 percent). */
  function GenerationProgress(order: nat, maxOrder: nat): (p: nat)
    ensures order <= maxOrder ==> p <= 30
    ensures order == maxOrder ==> p == 30
  {
    DivModUnique(30 * (maxOrder + 1), maxOrder + 1, 30, 0);
    if order <= maxOrder then
      DivMonotone(30 * (order + 1), 30 * (maxOrder + 1), maxOrder + 1);
      (30 * (order + 1)) / (maxOrder + 1)
    else
      (30 * (order + 1)) / (maxOrder + 1)
  }

  /** Generation progress stays within 0..30, never decreases, and reaches 30 at the last order. */
  lemma GenerationProgressBounds(o1: nat, o2: nat, maxOrder: nat)
    requires o1 <= o2 <= maxOrder
    ensures GenerationProgress(o1, maxOrder) <= GenerationProgress(o2, maxOrder) <= 30
    ensures GenerationProgress(maxOrder, maxOrder) == 30
  {
    DivMonotone(30 * (o1 + 1), 30 * (o2 + 1), maxOrder + 1);
    DivMonotone(30 * (o2 + 1), 30 * (maxOrder + 1), maxOrder + 1);
    DivModUnique(30 * (maxOrder + 1), maxOrder + 1, 30, 0);
  }

  /** Progress reported after frame f of totalFrames (30 to 90 percent). */
  function FrameProgress(f: nat, totalFrames: nat): (p: nat)
    requires totalFrames > 0
    ensures f < totalFrames ==> 30 <= p <= 89
  {
    if f < totalFrames then
      DivBelow(60 * f, totalFrames, 60);
      30 + (60 * f) / totalFrames
    else
      30 + (60 * f) / totalFrames
  }

  /** Frame progress stays within 30..89 over a run and never decreases. */
  lemma FrameProgressBounds(f1: nat, f2: nat, totalFrames: nat)
    requires f1 <= f2 < totalFrames
    ensures 30 <= FrameProgress(f1, totalFrames) <= FrameProgress(f2, totalFrames) <= 89
  {
    DivMonotone(60 * f1, 60 * f2, totalFrames);
    DivBelow(60 * f2, totalFrames, 60);
  }

  /** carpets[k] is the size-by-size carpet of order k, for every k. */
  ghost predicate IsSeries(carpets: seq<array2<int>>, size: nat)
    reads set k | 0 <= k < |carpets| :: carpets[k]
  {
    forall k :: 0 <= k < |carpets| ==> IsCarpet(carpets[k], k, size)
  }

  /** `frame` is frame f of the run, drawn with the given mask. */
  ghost predicate IsFrame(frame: array2<int>, maxOrder: nat, framesPerOrder: nat, size: nat, f: nat, mask: array2<bool>)
    reads frame, mask
  {
    framesPerOrder >= 1 &&
    frame.Length0 == size && frame.Length1 == size &&
    mask.Length0 == size && mask.Length1 == size &&
    forall i, j :: 0 <= i < size && 0 <= j < size ==>
      frame[i, j] == FrameCell(maxOrder, framesPerOrder, f, i, j, mask[i, j])
  }

  /**
   * The precompute loop: one carpet per order 0..maxOrder, appended in order,
   * with the generation progress reported after each.
   */
  method PrecomputeCarpets(maxOrder: nat, size: nat) returns (carpets: seq<array2<int>>, progress: seq<nat>)
    ensures |carpets| == maxOrder + 1 && IsSeries(carpets, size)
    ensures |progress| == maxOrder + 1
    ensures forall k :: 0 <= k < |progress| ==> progress[k] == GenerationProgress(k, maxOrder)
    ensures forall k, l :: 0 <= k <= l < |progress| ==> progress[k] <= progress[l] <= 30
    ensures progress[maxOrder] == 30
  {
    carpets, progress := [], [];
    for order := 0 to maxOrder + 1
      invariant |carpets| == order && IsSeries(carpets, size)
      invariant |progress| == order
      invariant forall k :: 0 <= k < order ==> progress[k] == GenerationProgress(k, maxOrder)
    {
      var carpet := CreateSierpinskiCarpet(order, size);
      carpets := carpets + [carpet];
      progress := progress + [GenerationProgress(order, maxOrder)];
    }
    forall k, l | 0 <= k <= l < |progress|
      ensures progress[k] <= progress[l] <= 30
    {
      GenerationProgressBounds(k, l, maxOrder);
    }
    GenerationProgressBounds(maxOrder, maxOrder, maxOrder);
  }

  /** A fresh grid with the same cells as `src`. */
  method CopyGrid(src: array2<int>) returns (dst: array2<int>)
    ensures fresh(dst)
    ensures dst.Length0 == src.Length0 && dst.Length1 == src.Length1
    ensures forall i, j :: 0 <= i < src.Length0 && 0 <= j < src.Length1 ==> dst[i, j] == src[i, j]
  {
    dst := new int[src.Length0, src.Length1]((i: nat, j: nat) reads src => if i < src.Length0 && j < src.Length1 then src[i, j] else 0);
  }

  /**
   * The masked assignment: every cell that differs between `current` and
   * `next` and whose mask is set takes its value from `next`; the others keep
   * the value `frame` had.
   */
  method ApplyDissolve(frame: array2<int>, current: array2<int>, next: array2<int>, mask: array2<bool>)
    requires frame != current && frame != next
    requires current.Length0 == next.Length0 == mask.Length0 == frame.Length0
    requires current.Length1 == next.Length1 == mask.Length1 == frame.Length1
    modifies frame
    ensures forall i, j :: 0 <= i < frame.Length0 && 0 <= j < frame.Length1 ==>
      frame[i, j] == if current[i, j] != next[i, j] && mask[i, j] then next[i, j] else old(frame[i, j])
  {
    for i := 0 to frame.Length0
      invariant forall a, b :: 0 <= a < frame.Length0 && 0 <= b < frame.Length1 ==>
        frame[a, b] == if a < i && current[a, b] != next[a, b] && mask[a, b] then next[a, b] else old(frame[a, b])
    {
      for j := 0 to frame.Length1
        invariant forall a, b :: 0 <= a < frame.Length0 && 0 <= b < frame.Length1 ==>
          frame[a, b] == if (a < i || (a == i && b < j)) && current[a, b] != next[a, b] && mask[a, b]
                         then next[a, b] else old(frame[a, b])
      {
        if current[i, j] != next[i, j] && mask[i, j] {
          frame[i, j] := next[i, j];
        }
      }
    }
  }

  /**
   * One call of the per-frame rule. At the deepest order the frame is the
   * deepest carpet itself (no copy is made); otherwise it is a copy of the
   * current carpet, dissolved towards the next one when f % framesPerOrder != 0.
   */
  method Animate(carpets: seq<array2<int>>, maxOrder: nat, framesPerOrder: nat, size: nat, f: nat, mask: array2<bool>)
    returns (frame: array2<int>)
    requires framesPerOrder >= 1
    requires |carpets| == maxOrder + 1 && IsSeries(carpets, size)
    requires mask.Length0 == size && mask.Length1 == size
    ensures IsFrame(frame, maxOrder, framesPerOrder, size, f, mask)
    ensures CurrentOrder(f, maxOrder, framesPerOrder) == maxOrder ==> frame == carpets[maxOrder]
    ensures CurrentOrder(f, maxOrder, framesPerOrder) < maxOrder ==> fresh(frame)
  {
    var currentOrder := CurrentOrder(f, maxOrder, framesPerOrder);
    var nextOrder := NextOrder(f, maxOrder, framesPerOrder);
    var blendStep := f % framesPerOrder;
    if currentOrder == maxOrder {
      frame := carpets[currentOrder];
    } else {
      var currentCarpet, nextCarpet := carpets[currentOrder], carpets[nextOrder];
      frame := CopyGrid(currentCarpet);
      if blendStep > 0 {
        ApplyDissolve(frame, currentCarpet, nextCarpet, mask);
      }
    }
  }

  /**
   * The whole run without rendering: precompute the carpets, then build frames
   * 0..TotalFrames - 1 in order, frame f with masks[f], recording the progress
   * reported after each carpet and each frame.
   */
  method CreateFrames(maxOrder: nat, framesPerOrder: nat, size: nat, masks: seq<array2<bool>>)
    returns (frames: seq<array2<int>>, progress: seq<nat>)
    requires |masks| == TotalFrames(maxOrder, framesPerOrder)
    requires forall f :: 0 <= f < |masks| ==> masks[f].Length0 == size && masks[f].Length1 == size
    ensures |frames| == (maxOrder + 1) * framesPerOrder
    ensures forall f :: 0 <= f < |frames| ==> IsFrame(frames[f], maxOrder, framesPerOrder, size, f, masks[f])
    ensures |progress| == maxOrder + 1 + |frames|
    ensures forall k :: 0 <= k <= maxOrder ==> progress[k] == GenerationProgress(k, maxOrder)
    ensures forall k :: maxOrder < k < |progress| ==>
      progress[k] == FrameProgress(k - maxOrder - 1, |frames|) && 30 <= progress[k] <= 89
  {
    var carpets;
    carpets, progress := PrecomputeCarpets(maxOrder, size);
    var total := TotalFrames(maxOrder, framesPerOrder);
    frames := [];
    for f := 0 to total
      invariant |frames| == f
      invariant forall g :: 0 <= g < f ==> IsFrame(frames[g], maxOrder, framesPerOrder, size, g, masks[g])
      invariant |progress| == maxOrder + 1 + f
      invariant forall k :: 0 <= k <= maxOrder ==> progress[k] == GenerationProgress(k, maxOrder)
      invariant forall k :: maxOrder < k < |progress| ==>
        progress[k] == FrameProgress(k - maxOrder - 1, total) && 30 <= progress[k] <= 89
      invariant IsSeries(carpets, size) && |carpets| == maxOrder + 1
    {
      var frame := Animate(carpets, maxOrder, framesPerOrder, size, f, masks[f]);
      FrameProgressBounds(f, f, total);
      frames := frames + [frame];
      progress := progress + [FrameProgress(f, total)];
    }
  }
}
