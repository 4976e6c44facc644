/**
 * `floodFill` of plugins/analyze-frames.ts (the server copy is the same code):
 * an explicit-stack fill over 4-neighbours that marks pixels in the shared
 * `visited` buffer and grows a bounding box over the transparent pixels it reaches.
 */
module RegionFill {
  import opened Raster

  /**
   * What one fill from `start` does to the set of marked pixels: `region` is
   * the set of transparent pixels it newly marks, each connected to `start`;
   * it marks `start`, `region` and the in-bounds neighbours of `region`, and
   * nothing else.
   */
  ghost predicate FillEffect(m: AlphaMask, threshold: int, before: set<Point>, after: set<Point>,
                             start: Point, region: set<Point>)
    requires m.Valid()
  {
    && (forall p :: p in region <==> p in after && p !in before && m.Transparent(threshold, p))
    && before <= after && start in after && region <= after
    && (forall q :: m.Touches(region, q) ==> q in after)
    && (forall p {:trigger m.Touches(region, p)} ::
          p in after ==> p in before || p == start || p in region || m.Touches(region, p))
    && (forall p :: p in region ==> Connected(m, threshold, start, p))
  }

  /** A popped pixel next to the region joins the seed's connection. */
  lemma ConnectedViaTouch(m: AlphaMask, threshold: int, start: Point, region: set<Point>, p: Point)
    requires m.Valid()
    requires forall r :: r in region ==> Connected(m, threshold, start, r)
    requires m.Touches(region, p) && m.Transparent(threshold, p)
    ensures Connected(m, threshold, start, p)
  {
    var r :| r in region && Adjacent(r, p) by {
      if Point(p.x - 1, p.y) in region {
        assert Adjacent(Point(p.x - 1, p.y), p);
      } else if Point(p.x + 1, p.y) in region {
        assert Adjacent(Point(p.x + 1, p.y), p);
      } else if Point(p.x, p.y - 1) in region {
        assert Adjacent(Point(p.x, p.y - 1), p);
      } else {
        assert Adjacent(Point(p.x, p.y + 1), p);
      }
    }
    ConnectedStep(m, threshold, start, r, p);
  }

  /** Adding `p` to the region makes only `p`'s neighbours newly touching. */
  lemma TouchesGrow(m: AlphaMask, region: set<Point>, p: Point, q: Point)
    requires m.InBounds(p) && m.Touches(region + {p}, q)
    ensures m.Touches(region, q) || q in m.Neighbours(p)
  {
  }

  /** Every neighbour the fill pushes for a region pixel touches the region. */
  lemma NeighboursTouch(m: AlphaMask, region: set<Point>, p: Point)
    requires m.InBounds(p) && p in region
    ensures forall q :: q in m.Neighbours(p) ==> m.Touches(region, q)
  {
  }

  /** The fill loop's invariant: what has been marked, what is still on the stack, and the box so far. */
  ghost predicate FillInvariant(m: AlphaMask, threshold: int, before: set<Point>, seen: set<Point>,
                                start: Point, stack: seq<Point>, region: set<Point>,
                                minX: int, maxX: int, minY: int, maxY: int)
    requires m.Valid()
  {
    && m.InBounds(start)
    && before <= seen
    && (forall k :: 0 <= k < |stack| ==> stack[k] == start || m.Touches(region, stack[k]))
    && (forall p :: p in region <==> p in seen && p !in before && m.Transparent(threshold, p))
    && (forall p {:trigger m.Touches(region, p)} ::
          p in seen ==> p in before || p == start || p in region || m.Touches(region, p))
    && (forall q :: m.Touches(region, q) ==> q in seen || q in stack)
    && (start in seen || stack == [start])
    && (forall p :: p in region ==> Connected(m, threshold, start, p))
    && IsBoundingBox(Span(minX, maxX, minY, maxY), region + {start})
  }

  /** `Math.min` and `Math.max`, as the fill widens its box. */
  function Min(a: int, b: int): int { if a < b then a else b }
  function Max(a: int, b: int): int { if a > b then a else b }

  /** The box spanning `minX..maxX` by `minY..maxY`, inclusive. */
  function Span(minX: int, maxX: int, minY: int, maxY: int): Slot {
    Slot(minX, minY, maxX - minX + 1, maxY - minY + 1)
  }

  lemma WidenBoundingBox(minX: int, maxX: int, minY: int, maxY: int, ps: set<Point>, p: Point)
    requires IsBoundingBox(Span(minX, maxX, minY, maxY), ps)
    ensures IsBoundingBox(Span(Min(minX, p.x), Max(maxX, p.x), Min(minY, p.y), Max(maxY, p.y)), ps + {p})
  {
    var p1 :| p1 in ps && p1.x == minX;
    var p2 :| p2 in ps && p2.x == maxX;
    var p3 :| p3 in ps && p3.y == minY;
    var p4 :| p4 in ps && p4.y == maxY;
    assert (if p.x < minX then p else p1) in ps + {p};
    assert (if p.x > maxX then p else p2) in ps + {p};
    assert (if p.y < minY then p else p3) in ps + {p};
    assert (if p.y > maxY then p else p4) in ps + {p};
  }

  lemma FillStart(m: AlphaMask, threshold: int, before: set<Point>, start: Point)
    requires m.Valid() && m.InBounds(start)
    ensures FillInvariant(m, threshold, before, before, start, [start], {}, start.x, start.x, start.y, start.y)
  {
    assert {} + {start} == {start};
  }

  /** Every pixel on the stack is in bounds. */
  lemma PopInBounds(m: AlphaMask, threshold: int, before: set<Point>, seen: set<Point>,
                    start: Point, stack: seq<Point>, region: set<Point>,
                    minX: int, maxX: int, minY: int, maxY: int)
    requires m.Valid()
    requires FillInvariant(m, threshold, before, seen, start, stack, region, minX, maxX, minY, maxY)
    requires |stack| > 0
    ensures m.InBounds(stack[|stack| - 1])
  {
  }

  /** An already visited pixel is popped and skipped. */
  lemma SkipStep(m: AlphaMask, threshold: int, before: set<Point>, seen: set<Point>,
                 start: Point, stack: seq<Point>, p: Point, region: set<Point>,
                 minX: int, maxX: int, minY: int, maxY: int)
    requires m.Valid()
    requires FillInvariant(m, threshold, before, seen, start, stack + [p], region, minX, maxX, minY, maxY)
    requires p in seen
    ensures FillInvariant(m, threshold, before, seen, start, stack, region, minX, maxX, minY, maxY)
  {
    var full := stack + [p];
    assert forall k :: 0 <= k < |stack| ==> stack[k] == full[k];
    assert full[|stack|] == p;
    assert start in seen;
    forall q | m.Touches(region, q)
      ensures q in seen || q in stack
    {
      assert q in seen || q in full;
    }
  }

  /** An unvisited opaque pixel is marked and is a dead end. */
  lemma OpaqueStep(m: AlphaMask, threshold: int, before: set<Point>, seen: set<Point>,
                   start: Point, stack: seq<Point>, p: Point, region: set<Point>,
                   minX: int, maxX: int, minY: int, maxY: int)
    requires m.Valid()
    requires FillInvariant(m, threshold, before, seen, start, stack + [p], region, minX, maxX, minY, maxY)
    requires p !in seen && m.InBounds(p) && !m.Transparent(threshold, p)
    ensures FillInvariant(m, threshold, before, seen + {p}, start, stack, region, minX, maxX, minY, maxY)
  {
    var full := stack + [p];
    assert forall k :: 0 <= k < |stack| ==> stack[k] == full[k];
    assert full[|stack|] == p;
    assert start in seen + {p};
    forall q | m.Touches(region, q)
      ensures q in seen + {p} || q in stack
    {
      assert q in seen || q in full;
    }
  }

  /** Pushing the neighbours of a new region pixel keeps the stack and the frontier accounted for. */
  lemma PushNeighbours(m: AlphaMask, start: Point, seen: set<Point>, stack: seq<Point>, p: Point,
                       region: set<Point>)
    requires m.InBounds(p)
    requires forall k :: 0 <= k < |stack| ==> stack[k] == start || m.Touches(region, stack[k])
    requires forall q :: m.Touches(region, q) ==> q in seen || q in stack + [p]
    ensures forall k :: 0 <= k < |stack + m.Neighbours(p)| ==>
              (stack + m.Neighbours(p))[k] == start || m.Touches(region + {p}, (stack + m.Neighbours(p))[k])
    ensures forall q :: m.Touches(region + {p}, q) ==> q in seen + {p} || q in stack + m.Neighbours(p)
  {
    var region' := region + {p};
    var stack' := stack + m.Neighbours(p);
    NeighboursTouch(m, region', p);
    forall k | 0 <= k < |stack'|
      ensures stack'[k] == start || m.Touches(region', stack'[k])
    {
      if k >= |stack| {
        assert stack'[k] in m.Neighbours(p);
      } else {
        assert stack'[k] == stack[k];
      }
    }
    forall q | m.Touches(region', q)
      ensures q in seen + {p} || q in stack'
    {
      TouchesGrow(m, region, p, q);
      if m.Touches(region, q) {
        assert q in seen || q in stack + [p];
      }
    }
  }

  /** An unvisited transparent pixel is marked, joins the region, widens the box and pushes its neighbours. */
  lemma TransparentStep(m: AlphaMask, threshold: int, before: set<Point>, seen: set<Point>,
                        start: Point, stack: seq<Point>, p: Point, region: set<Point>,
                        minX: int, maxX: int, minY: int, maxY: int)
    requires m.Valid()
    requires FillInvariant(m, threshold, before, seen, start, stack + [p], region, minX, maxX, minY, maxY)
    requires p !in seen && m.Transparent(threshold, p)
    ensures FillInvariant(m, threshold, before, seen + {p}, start, stack + m.Neighbours(p),
                          region + {p}, Min(minX, p.x), Max(maxX, p.x), Min(minY, p.y), Max(maxY, p.y))
  {
    var full := stack + [p];
    assert forall k :: 0 <= k < |stack| ==> stack[k] == full[k];
    assert full[|stack|] == p;
    assert p == start || m.Touches(region, p);
    if p == start {
      ConnectedRefl(m, threshold, start);
    } else {
      ConnectedViaTouch(m, threshold, start, region, p);
    }
    var region' := region + {p};
    PushNeighbours(m, start, seen, stack, p, region);
    forall q | q in seen + {p}
      ensures q in before || q == start || q in region' || m.Touches(region', q)
    {
      if q != p && q !in before && q != start && q !in region {
        assert m.Touches(region, q);
      }
    }
    WidenBoundingBox(minX, maxX, minY, maxY, region + {start}, p);
    assert region + {start} + {p} == region' + {start};
  }

  /** With the stack empty, the invariant is the fill's effect. */
  lemma FillEnd(m: AlphaMask, threshold: int, before: set<Point>, seen: set<Point>,
                start: Point, region: set<Point>,
                minX: int, maxX: int, minY: int, maxY: int)
    requires m.Valid()
    requires FillInvariant(m, threshold, before, seen, start, [], region, minX, maxX, minY, maxY)
    ensures FillEffect(m, threshold, before, seen, start, region)
    ensures IsBoundingBox(Span(minX, maxX, minY, maxY), region + {start})
    ensures 0 <= minX <= start.x <= maxX < m.width && 0 <= minY <= start.y <= maxY < m.height
  {
    var p1 :| p1 in region + {start} && p1.x == minX;
    var p2 :| p2 in region + {start} && p2.x == maxX;
    var p3 :| p3 in region + {start} && p3.y == minY;
    var p4 :| p4 in region + {start} && p4.y == maxY;
  }

  /**
   * Marks pixel `p` in `visited`, as each pass of the fill loop does, and
   * reports whether it was already marked and whether it is transparent.
   */
  method Visit(mask: AlphaMask, visited: array<bool>, p: Point, threshold: int)
    returns (wasVisited: bool, clear: bool)
    requires mask.Valid() && visited.Length == |mask.data| && mask.InBounds(p)
    modifies visited
    ensures wasVisited <==> p in Marked(mask, old(visited[..]))
    ensures !wasVisited ==> (clear <==> mask.Transparent(threshold, p))
    ensures Marked(mask, visited[..]) == Marked(mask, old(visited[..])) + {p}
  {
    MarkedAt(mask, visited[..], p);
    var idx := p.y * mask.width + p.x;
    wasVisited := visited[idx];
    if wasVisited {
      MarkedUpdate(mask, visited[..], p);
      assert visited[..][idx := true] == visited[..];
      return wasVisited, false;
    }
    ghost var flags := visited[..];
    MarkedUpdate(mask, flags, p);
    visited[idx] := true;
    assert visited[..] == flags[idx := true];
    clear := mask.data[idx] < threshold;
  }

  /**
   * One pass of the fill loop: pop a pixel, skip it if visited, else mark it;
   * if it is transparent, widen the box and push its in-bounds neighbours.
   */
  method FillStep(mask: AlphaMask, visited: array<bool>, threshold: int, ghost before: set<Point>,
                  ghost seen: set<Point>, start: Point, stack: seq<Point>, ghost region: set<Point>,
                  minX: int, maxX: int, minY: int, maxY: int)
    returns (stack': seq<Point>, ghost seen': set<Point>, ghost region': set<Point>,
             minX': int, maxX': int, minY': int, maxY': int)
    requires mask.Valid() && visited.Length == |mask.data| && |stack| > 0
    requires seen == Marked(mask, visited[..])
    requires FillInvariant(mask, threshold, before, seen, start, stack, region, minX, maxX, minY, maxY)
    modifies visited
    ensures seen' == Marked(mask, visited[..])
    ensures FillInvariant(mask, threshold, before, seen', start, stack', region', minX', maxX', minY', maxY')
    ensures Grid(mask) - seen' < Grid(mask) - seen || (seen' == seen && |stack'| < |stack|)
  {
    PopInBounds(mask, threshold, before, seen, start, stack, region, minX, maxX, minY, maxY);
    var p := stack[|stack| - 1];
    stack' := stack[..|stack| - 1];
    assert stack == stack' + [p];
    var wasVisited, clear := Visit(mask, visited, p, threshold);
    seen', region', minX', maxX', minY', maxY' := seen, region, minX, maxX, minY, maxY;
    if wasVisited {
      SkipStep(mask, threshold, before, seen, start, stack', p, region, minX, maxX, minY, maxY);
      return;
    }
    GridMember(mask, p);
    seen' := seen + {p};
    if !clear {
      OpaqueStep(mask, threshold, before, seen, start, stack', p, region, minX, maxX, minY, maxY);
      return;
    }
    TransparentStep(mask, threshold, before, seen, start, stack', p, region, minX, maxX, minY, maxY);
    region' := region + {p};
    minX', maxX' := Min(minX, p.x), Max(maxX, p.x);
    minY', maxY' := Min(minY, p.y), Max(maxY, p.y);
    // the four guarded pushes: left, right, up, down
    stack' := stack' + mask.Neighbours(p);
  }

  method FloodFill(mask: AlphaMask, visited: array<bool>, start: Point, threshold: int)
    returns (slot: Slot, ghost region: set<Point>)
    requires mask.Valid() && visited.Length == |mask.data| && mask.InBounds(start)
    modifies visited
    ensures FillEffect(mask, threshold, Marked(mask, old(visited[..])), Marked(mask, visited[..]), start, region)
    ensures IsBoundingBox(slot, region + {start})
    ensures 0 <= slot.x <= start.x < slot.x + slot.width <= mask.width && slot.width >= 1
    ensures 0 <= slot.y <= start.y < slot.y + slot.height <= mask.height && slot.height >= 1
  {
    var stack := [start];
    var minX, maxX, minY, maxY := start.x, start.x, start.y, start.y;
    ghost var before := Marked(mask, visited[..]);
    ghost var seen := before;
    region := {};
    FillStart(mask, threshold, before, start);
    while |stack| > 0
      invariant seen == Marked(mask, visited[..])
      invariant FillInvariant(mask, threshold, before, seen, start, stack, region, minX, maxX, minY, maxY)
      decreases Grid(mask) - seen, |stack|
    {
      ghost var seen0, stack0 := seen, stack;
      stack, seen, region, minX, maxX, minY, maxY :=
        FillStep(mask, visited, threshold, before, seen, start, stack, region, minX, maxX, minY, maxY);
      assert Grid(mask) - seen < Grid(mask) - seen0 || (seen == seen0 && |stack| < |stack0|);
    }
    slot := Span(minX, maxX, minY, maxY);
    FillEnd(mask, threshold, before, seen, start, region, minX, maxX, minY, maxY);
  }

  /** An in-bounds pixel next to a region pixel touches the region. */
  lemma AdjacentTouches(m: AlphaMask, region: set<Point>, p: Point, q: Point)
    requires p in region && m.InBounds(q) && Adjacent(p, q)
    ensures m.Touches(region, q)
  {
    if p.y == q.y && p.x == q.x + 1 {
      assert p == Point(q.x + 1, q.y);
    } else if p.y == q.y {
      assert p == Point(q.x - 1, q.y);
    } else if p.y == q.y + 1 {
      assert p == Point(q.x, q.y + 1);
    } else {
      assert p == Point(q.x, q.y - 1);
    }
  }

  /**
   * A fill keeps the marked set closed: once every transparent marked pixel
   * has its neighbours marked, that stays true after the fill.
   */
  lemma FillKeepsClosed(m: AlphaMask, threshold: int, before: set<Point>, after: set<Point>,
                        start: Point, region: set<Point>)
    requires m.Valid() && FillEffect(m, threshold, before, after, start, region)
    requires Closed(m, threshold, before)
    ensures Closed(m, threshold, after)
  {
    forall p, q | p in after && m.Transparent(threshold, p) && m.InBounds(q) && Adjacent(p, q)
      ensures q in after
    {
      if p !in before {
        assert p in region;
        AdjacentTouches(m, region, p, q);
      }
    }
  }

  /**
   * Started on an unmarked transparent pixel of a closed marking, a fill
   * newly marks exactly the 4-connected transparent region of that pixel.
   */
  lemma FillFindsComponent(m: AlphaMask, threshold: int, before: set<Point>, after: set<Point>,
                           start: Point, region: set<Point>)
    requires m.Valid() && FillEffect(m, threshold, before, after, start, region)
    requires Closed(m, threshold, before)
    requires start !in before && m.Transparent(threshold, start)
    ensures region == Component(m, threshold, start)
  {
    FillKeepsClosed(m, threshold, before, after, start, region);
    forall p | p in region
      ensures p in Component(m, threshold, start)
    {
      ComponentMember(m, threshold, start, p);
    }
    forall p | p in Component(m, threshold, start)
      ensures p in region
    {
      ComponentMember(m, threshold, start, p);
      ConnectedEnds(m, threshold, start, p);
      ClosedConnected(m, threshold, after, start, p);
      if p in before {
        ConnectedSym(m, threshold, start, p);
        ClosedConnected(m, threshold, before, p, start);
      }
    }
  }
}
