/**
 * `detectSlots` of plugins/analyze-frames.ts, and the same scan inlined in
 * `analyzeFrame` of server/plugins/analyze-frames.ts: a row-major scan that
 * starts a fill at every unvisited transparent pixel, keeps the boxes larger
 * than 20 pixels both ways, and sorts them into banded reading order.
 */
module SlotDetection {
  import opened Raster
  import opened RegionFill
  import opened SlotOrder

  /** `alphaThreshold`: a pixel whose alpha is below this is transparent. */
  const AlphaThreshold := 10

  /** A region must be strictly wider and strictly taller than this to be a slot. */
  const MinSlotSize := 20

  /** The size filter `slot.width > 20 && slot.height > 20`. */
  predicate Large(s: Slot) {
    s.width > MinSlotSize && s.height > MinSlotSize
  }

  /** Both comparisons are strict: a 20 by 21 region is dropped, a 21 by 21 region kept. */
  lemma SizeFilterBoundary()
    ensures !Large(Slot(0, 0, 20, 21)) && !Large(Slot(0, 0, 21, 20)) && Large(Slot(0, 0, 21, 21))
  {
  }

  /** The boxes that pass the size filter, in the order they were found. */
  function KeepLarge(boxes: seq<Slot>): seq<Slot> {
    if |boxes| == 0 then []
    else KeepLarge(boxes[..|boxes| - 1]) + (if Large(boxes[|boxes| - 1]) then [boxes[|boxes| - 1]] else [])
  }

  /** The filter keeps exactly the large boxes. */
  lemma {:induction false} KeepLargeMember(boxes: seq<Slot>, b: Slot)
    ensures b in KeepLarge(boxes) <==> b in boxes && Large(b)
  {
    if |boxes| > 0 {
      KeepLargeMember(boxes[..|boxes| - 1], b);
      assert boxes == boxes[..|boxes| - 1] + [boxes[|boxes| - 1]];
    }
  }

  /** The filter never grows the list, keeps every large box, and keeps nothing else. */
  lemma {:induction false} KeepLargeAllLarge(boxes: seq<Slot>)
    ensures |KeepLarge(boxes)| <= |boxes|
    ensures forall b :: b in boxes && Large(b) ==> b in KeepLarge(boxes)
    ensures forall i :: 0 <= i < |KeepLarge(boxes)| ==> Large(KeepLarge(boxes)[i])
  {
    if |boxes| > 0 {
      KeepLargeAllLarge(boxes[..|boxes| - 1]);
      assert boxes == boxes[..|boxes| - 1] + [boxes[|boxes| - 1]];
    }
  }

  lemma KeepLargeAppend(boxes: seq<Slot>, b: Slot)
    ensures KeepLarge(boxes + [b]) == KeepLarge(boxes) + (if Large(b) then [b] else [])
  {
    assert (boxes + [b])[..|boxes|] == boxes;
  }

  /** `s` is transparent and the first pixel, in scan order, of its 4-connected transparent component. */
  ghost predicate FirstOfComponent(m: AlphaMask, s: Point)
    requires m.Valid()
  {
    && m.Transparent(AlphaThreshold, s)
    && (forall p :: p in Component(m, AlphaThreshold, s) ==> p == s || ScansBefore(s, p))
  }

  /** `s` is the first pixel of its component and `box` is that component's bounding box. */
  ghost predicate SeedOf(m: AlphaMask, s: Point, box: Slot)
    requires m.Valid()
  {
    FirstOfComponent(m, s) && IsBoundingBox(box, Component(m, AlphaThreshold, s))
  }

  /** `p` lies in the component of one of the seeds. */
  ghost predicate Covered(m: AlphaMask, seeds: seq<Point>, p: Point)
    requires m.Valid()
  {
    exists i :: 0 <= i < |seeds| && p in Component(m, AlphaThreshold, seeds[i])
  }

  /** Strictly increasing in scan order. */
  predicate InScanOrder(ps: seq<Point>) {
    forall i, j :: 0 <= i < j < |ps| ==> ScansBefore(ps[i], ps[j])
  }

  /**
   * What the whole scan finds: one seed per transparent component, taken at
   * the component's first pixel, in scan order, with its bounding box.
   */
  ghost predicate Scan(m: AlphaMask, seeds: seq<Point>, boxes: seq<Slot>)
    requires m.Valid()
  {
    && |seeds| == |boxes|
    && (forall i :: 0 <= i < |seeds| ==> SeedOf(m, seeds[i], boxes[i]))
    && InScanOrder(seeds)
    && (forall p :: m.Transparent(AlphaThreshold, p) ==> Covered(m, seeds, p))
  }

  /** `slots` is what the detector returns for `m`: the large boxes of a scan of `m`, sorted. */
  ghost predicate DetectedFrom(m: AlphaMask, slots: seq<Slot>)
    requires m.Valid()
  {
    exists seeds, boxes :: Scan(m, seeds, boxes) && slots == InsertionSort(KeepLarge(boxes))
  }

  /**
   * The seeds found before pixel `pos`: each the first pixel of its
   * component with that component's box, in scan order, and each component
   * wholly marked.
   */
  ghost predicate SeedsFound(m: AlphaMask, marked: set<Point>, seeds: seq<Point>, boxes: seq<Slot>, pos: Point)
    requires m.Valid()
  {
    && |seeds| == |boxes|
    && (forall i :: 0 <= i < |seeds| ==> SeedOf(m, seeds[i], boxes[i]))
    && InScanOrder(seeds)
    && (forall i :: 0 <= i < |seeds| ==> ScansBefore(seeds[i], pos))
    && (forall i :: 0 <= i < |seeds| ==> Component(m, AlphaThreshold, seeds[i]) <= marked)
  }

  /** Every marked transparent pixel belongs to the component of some seed. */
  ghost predicate MarkedCovered(m: AlphaMask, marked: set<Point>, seeds: seq<Point>)
    requires m.Valid()
  {
    forall p :: p in marked && m.Transparent(AlphaThreshold, p) ==> Covered(m, seeds, p)
  }

  /** Every transparent pixel the scan has passed is marked. */
  ghost predicate ScannedMarked(m: AlphaMask, marked: set<Point>, pos: Point)
    requires m.Valid()
  {
    forall p :: m.Transparent(AlphaThreshold, p) && ScansBefore(p, pos) ==> p in marked
  }

  /** The scan's invariant before visiting pixel `pos`, with `marked` the pixels set in `visited`. */
  ghost predicate Progress(m: AlphaMask, marked: set<Point>, seeds: seq<Point>, boxes: seq<Slot>, pos: Point)
    requires m.Valid()
  {
    && Closed(m, AlphaThreshold, marked)
    && SeedsFound(m, marked, seeds, boxes, pos)
    && MarkedCovered(m, marked, seeds)
    && ScannedMarked(m, marked, pos)
  }

  lemma ScanStart(m: AlphaMask)
    requires m.Valid()
    ensures Progress(m, {}, [], [], Point(0, 0))
  {
  }

  /** Moving the scan position forward keeps the seeds behind it. */
  lemma SeedsAdvance(m: AlphaMask, marked: set<Point>, seeds: seq<Point>, boxes: seq<Slot>, pos: Point, next: Point)
    requires m.Valid() && SeedsFound(m, marked, seeds, boxes, pos) && ScansBefore(pos, next)
    ensures SeedsFound(m, marked, seeds, boxes, next)
  {
  }

  /** Once `pos` is marked, every transparent pixel up to and including it is marked. */
  lemma ScannedExtend(m: AlphaMask, marked: set<Point>, after: set<Point>, x: int, y: int)
    requires m.Valid() && ScannedMarked(m, marked, Point(x, y)) && marked <= after
    requires m.Transparent(AlphaThreshold, Point(x, y)) ==> Point(x, y) in after
    ensures ScannedMarked(m, after, Point(x + 1, y))
  {
    var pos := Point(x, y);
    forall p | m.Transparent(AlphaThreshold, p) && ScansBefore(p, Point(x + 1, y))
      ensures p in after
    {
      if p != pos {
        assert ScansBefore(p, pos);
      }
    }
  }

  /** A pixel that starts no fill: opaque, or already marked by an earlier fill. */
  lemma NonSeedStep(m: AlphaMask, marked: set<Point>, seeds: seq<Point>, boxes: seq<Slot>, x: int, y: int)
    requires m.Valid() && Progress(m, marked, seeds, boxes, Point(x, y))
    requires !m.Transparent(AlphaThreshold, Point(x, y)) || Point(x, y) in marked
    ensures Progress(m, marked, seeds, boxes, Point(x + 1, y))
  {
    var pos := Point(x, y);
    SeedsAdvance(m, marked, seeds, boxes, pos, Point(x + 1, y));
    ScannedExtend(m, marked, marked, x, y);
  }

  /** The seed is the first pixel of its component: every earlier transparent pixel is marked, and marking is closed. */
  lemma SeedIsFirst(m: AlphaMask, marked: set<Point>, pos: Point)
    requires m.Valid() && Closed(m, AlphaThreshold, marked) && ScannedMarked(m, marked, pos)
    requires m.Transparent(AlphaThreshold, pos) && pos !in marked
    ensures forall p :: p in Component(m, AlphaThreshold, pos) ==> p == pos || ScansBefore(pos, p)
  {
    forall p | p in Component(m, AlphaThreshold, pos)
      ensures p == pos || ScansBefore(pos, p)
    {
      ComponentMember(m, AlphaThreshold, pos, p);
      if p != pos && !ScansBefore(pos, p) {
        assert ScansBefore(p, pos);
        ConnectedEnds(m, AlphaThreshold, pos, p);
        ConnectedSym(m, AlphaThreshold, pos, p);
        ClosedConnected(m, AlphaThreshold, marked, p, pos);
        assert false;
      }
    }
  }

  /** Appending the new seed keeps the seeds in scan order and behind the next pixel. */
  lemma SeedsOrdered(seeds: seq<Point>, x: int, y: int)
    requires InScanOrder(seeds)
    requires forall i :: 0 <= i < |seeds| ==> ScansBefore(seeds[i], Point(x, y))
    ensures InScanOrder(seeds + [Point(x, y)])
    ensures forall i :: 0 <= i < |seeds + [Point(x, y)]| ==> ScansBefore((seeds + [Point(x, y)])[i], Point(x + 1, y))
  {
    var pos := Point(x, y);
    var seeds' := seeds + [pos];
    forall i, j | 0 <= i < j < |seeds'|
      ensures ScansBefore(seeds'[i], seeds'[j])
    {
      assert seeds'[i] == seeds[i];
      if j < |seeds| {
        assert seeds'[j] == seeds[j];
      }
    }
    forall i | 0 <= i < |seeds'|
      ensures ScansBefore(seeds'[i], Point(x + 1, y))
    {
      if i < |seeds| {
        assert seeds'[i] == seeds[i];
      }
    }
  }

  /** Appending the new seed and its box keeps every seed paired with its component's box. */
  lemma SeedsBoxed(m: AlphaMask, marked: set<Point>, after: set<Point>, seeds: seq<Point>, boxes: seq<Slot>,
                   pos: Point, slot: Slot)
    requires m.Valid() && |seeds| == |boxes| && marked <= after
    requires forall i :: 0 <= i < |seeds| ==> SeedOf(m, seeds[i], boxes[i])
    requires forall i :: 0 <= i < |seeds| ==> Component(m, AlphaThreshold, seeds[i]) <= marked
    requires SeedOf(m, pos, slot) && Component(m, AlphaThreshold, pos) <= after
    ensures forall i :: 0 <= i < |seeds + [pos]| ==> SeedOf(m, (seeds + [pos])[i], (boxes + [slot])[i])
    ensures forall i :: 0 <= i < |seeds + [pos]| ==> Component(m, AlphaThreshold, (seeds + [pos])[i]) <= after
  {
    var seeds', boxes' := seeds + [pos], boxes + [slot];
    forall i | 0 <= i < |seeds'|
      ensures SeedOf(m, seeds'[i], boxes'[i])
      ensures Component(m, AlphaThreshold, seeds'[i]) <= after
    {
      if i < |seeds| {
        assert seeds'[i] == seeds[i] && boxes'[i] == boxes[i];
      } else {
        assert seeds'[i] == pos && boxes'[i] == slot;
      }
    }
  }

  /** The seeds found so far, followed by the new one. */
  lemma SeedsExtend(m: AlphaMask, marked: set<Point>, after: set<Point>, seeds: seq<Point>, boxes: seq<Slot>,
                    x: int, y: int, slot: Slot)
    requires m.Valid() && SeedsFound(m, marked, seeds, boxes, Point(x, y)) && marked <= after
    requires SeedOf(m, Point(x, y), slot) && Component(m, AlphaThreshold, Point(x, y)) <= after
    ensures SeedsFound(m, after, seeds + [Point(x, y)], boxes + [slot], Point(x + 1, y))
  {
    var pos := Point(x, y);
    SeedsOrdered(seeds, x, y);
    SeedsBoxed(m, marked, after, seeds, boxes, pos, slot);
  }

  /** Every transparent marked pixel lies in the component of an earlier seed or of the new one. */
  lemma CoveredExtend(m: AlphaMask, marked: set<Point>, after: set<Point>, seeds: seq<Point>, pos: Point,
                      region: set<Point>)
    requires m.Valid() && MarkedCovered(m, marked, seeds)
    requires forall p :: p in after && p !in marked && m.Transparent(AlphaThreshold, p) ==> p in region
    requires region == Component(m, AlphaThreshold, pos)
    ensures MarkedCovered(m, after, seeds + [pos])
  {
    var seeds' := seeds + [pos];
    forall p | p in after && m.Transparent(AlphaThreshold, p)
      ensures Covered(m, seeds', p)
    {
      if p in marked {
        var i :| 0 <= i < |seeds| && p in Component(m, AlphaThreshold, seeds[i]);
        assert seeds'[i] == seeds[i];
      } else {
        assert p in region && seeds'[|seeds|] == pos;
      }
    }
  }

  /** The pixels one fill from an unmarked transparent pixel marks: its whole component, and marking stays closed. */
  lemma FillRegion(m: AlphaMask, marked: set<Point>, after: set<Point>, pos: Point, region: set<Point>)
    requires m.Valid() && Closed(m, AlphaThreshold, marked)
    requires m.Transparent(AlphaThreshold, pos) && pos !in marked
    requires FillEffect(m, AlphaThreshold, marked, after, pos, region)
    ensures region == Component(m, AlphaThreshold, pos) && region <= after && marked <= after
    ensures pos in region
    ensures Closed(m, AlphaThreshold, after)
    ensures forall p :: p in after && p !in marked && m.Transparent(AlphaThreshold, p) ==> p in region
  {
    FillFindsComponent(m, AlphaThreshold, marked, after, pos, region);
    FillKeepsClosed(m, AlphaThreshold, marked, after, pos, region);
  }

  /** The pixel that started the fill is its component's seed, and the fill's box is the component's box. */
  lemma NewSeed(m: AlphaMask, marked: set<Point>, pos: Point, region: set<Point>, slot: Slot)
    requires m.Valid() && Closed(m, AlphaThreshold, marked) && ScannedMarked(m, marked, pos)
    requires m.Transparent(AlphaThreshold, pos) && pos !in marked
    requires region == Component(m, AlphaThreshold, pos) && pos in region
    requires IsBoundingBox(slot, region + {pos})
    ensures SeedOf(m, pos, slot)
  {
    SeedIsFirst(m, marked, pos);
    assert region + {pos} == region;
  }

  /** A fill started at an unmarked transparent pixel records one more seed and box. */
  lemma SeedStep(m: AlphaMask, marked: set<Point>, after: set<Point>, seeds: seq<Point>, boxes: seq<Slot>,
                 x: int, y: int, region: set<Point>, slot: Slot)
    requires m.Valid() && Progress(m, marked, seeds, boxes, Point(x, y))
    requires m.Transparent(AlphaThreshold, Point(x, y)) && Point(x, y) !in marked
    requires FillEffect(m, AlphaThreshold, marked, after, Point(x, y), region)
    requires IsBoundingBox(slot, region + {Point(x, y)})
    ensures Progress(m, after, seeds + [Point(x, y)], boxes + [slot], Point(x + 1, y))
  {
    var pos := Point(x, y);
    FillRegion(m, marked, after, pos, region);
    NewSeed(m, marked, pos, region, slot);
    SeedsExtend(m, marked, after, seeds, boxes, x, y, slot);
    CoveredExtend(m, marked, after, seeds, pos, region);
    ScannedExtend(m, marked, after, x, y);
  }

  /** Past the last column the scan moves to the start of the next row. */
  lemma RowEnd(m: AlphaMask, marked: set<Point>, seeds: seq<Point>, boxes: seq<Slot>, y: int)
    requires m.Valid() && Progress(m, marked, seeds, boxes, Point(m.width, y))
    ensures Progress(m, marked, seeds, boxes, Point(0, y + 1))
  {
    SeedsAdvance(m, marked, seeds, boxes, Point(m.width, y), Point(0, y + 1));
    forall p | m.Transparent(AlphaThreshold, p) && ScansBefore(p, Point(0, y + 1))
      ensures p in marked
    {
      assert ScansBefore(p, Point(m.width, y));
    }
  }

  /** After the last row every transparent pixel has been reached. */
  lemma ScanEnd(m: AlphaMask, marked: set<Point>, seeds: seq<Point>, boxes: seq<Slot>)
    requires m.Valid() && Progress(m, marked, seeds, boxes, Point(0, m.height))
    ensures Scan(m, seeds, boxes)
  {
    forall p | m.Transparent(AlphaThreshold, p)
      ensures Covered(m, seeds, p)
    {
      assert ScansBefore(p, Point(0, m.height));
    }
  }

  /** The scan's test `data[idx] < alphaThreshold && !visited[idx]` at pixel `(x, y)`. */
  lemma PixelTest(m: AlphaMask, visited: seq<bool>, x: int, y: int)
    requires m.Valid() && |visited| == |m.data| && 0 <= x < m.width && 0 <= y < m.height
    ensures 0 <= y * m.width + x < |m.data|
    ensures m.data[y * m.width + x] < AlphaThreshold <==> m.Transparent(AlphaThreshold, Point(x, y))
    ensures visited[y * m.width + x] <==> Point(x, y) in Marked(m, visited)
  {
    IndexInRange(m, Point(x, y));
    MarkedAt(m, visited, Point(x, y));
  }

  /** The fill from an unvisited transparent pixel `pos`, recorded as one more seed and box. */
  method FillSeed(mask: AlphaMask, visited: array<bool>, x: int, y: int,
                  ghost marked: set<Point>, ghost seeds: seq<Point>, ghost boxes: seq<Slot>)
    returns (slot: Slot, ghost marked': set<Point>)
    requires mask.Valid() && visited.Length == |mask.data|
    requires marked == Marked(mask, visited[..])
    requires Progress(mask, marked, seeds, boxes, Point(x, y))
    requires mask.Transparent(AlphaThreshold, Point(x, y)) && Point(x, y) !in marked
    modifies visited
    ensures marked' == Marked(mask, visited[..])
    ensures Progress(mask, marked', seeds + [Point(x, y)], boxes + [slot], Point(x + 1, y))
  {
    var pos := Point(x, y);
    ghost var region;
    slot, region := FloodFill(mask, visited, pos, AlphaThreshold);
    marked' := Marked(mask, visited[..]);
    SeedStep(mask, marked, marked', seeds, boxes, x, y, region, slot);
  }

  /**
   * One pixel of the scan at `(x, y)`: a fill when the pixel is transparent
   * and unvisited, its box kept when it passes the size filter.
   */
  method ScanPixel(mask: AlphaMask, visited: array<bool>, x: int, y: int, found: seq<Slot>,
                   ghost marked: set<Point>, ghost seeds: seq<Point>, ghost boxes: seq<Slot>)
    returns (found': seq<Slot>, ghost marked': set<Point>, ghost seeds': seq<Point>, ghost boxes': seq<Slot>)
    requires mask.Valid() && visited.Length == |mask.data|
    requires 0 <= x < mask.width && 0 <= y < mask.height
    requires marked == Marked(mask, visited[..])
    requires Progress(mask, marked, seeds, boxes, Point(x, y))
    requires found == KeepLarge(boxes)
    modifies visited
    ensures marked' == Marked(mask, visited[..])
    ensures Progress(mask, marked', seeds', boxes', Point(x + 1, y))
    ensures found' == KeepLarge(boxes')
  {
    PixelTest(mask, visited[..], x, y);
    var idx := y * mask.width + x;
    if mask.data[idx] < AlphaThreshold && !visited[idx] {
      var slot;
      slot, marked' := FillSeed(mask, visited, x, y, marked, seeds, boxes);
      KeepLargeAppend(boxes, slot);
      found' := found;
      if slot.width > MinSlotSize && slot.height > MinSlotSize {
        found' := found' + [slot];
      }
      seeds', boxes' := seeds + [Point(x, y)], boxes + [slot];
    } else {
      NonSeedStep(mask, marked, seeds, boxes, x, y);
      found', marked', seeds', boxes' := found, marked, seeds, boxes;
    }
  }

  /** The inner loop of the scan: every pixel of row `y`, left to right. */
  method ScanRow(mask: AlphaMask, visited: array<bool>, y: int, found: seq<Slot>,
                 ghost marked: set<Point>, ghost seeds: seq<Point>, ghost boxes: seq<Slot>)
    returns (found': seq<Slot>, ghost marked': set<Point>, ghost seeds': seq<Point>, ghost boxes': seq<Slot>)
    requires mask.Valid() && visited.Length == |mask.data| && 0 <= y < mask.height
    requires marked == Marked(mask, visited[..])
    requires Progress(mask, marked, seeds, boxes, Point(0, y))
    requires found == KeepLarge(boxes)
    modifies visited
    ensures marked' == Marked(mask, visited[..])
    ensures Progress(mask, marked', seeds', boxes', Point(mask.width, y))
    ensures found' == KeepLarge(boxes')
  {
    found', marked', seeds', boxes' := found, marked, seeds, boxes;
    var x := 0;
    while x < mask.width
      invariant 0 <= x <= mask.width
      invariant marked' == Marked(mask, visited[..])
      invariant Progress(mask, marked', seeds', boxes', Point(x, y))
      invariant found' == KeepLarge(boxes')
    {
      found', marked', seeds', boxes' := ScanPixel(mask, visited, x, y, found', marked', seeds', boxes');
      x := x + 1;
    }
  }

  /**
   * The scan over `mask`: a fill from every unvisited transparent pixel in
   * row-major order, the size filter on each box as it is found, then the
   * banded sort.
   */
  method DetectSlots(mask: AlphaMask) returns (slots: seq<Slot>)
    requires mask.Valid()
    ensures DetectedFrom(mask, slots)
    ensures Sorted(slots)
    ensures forall b :: b in slots <==>
              Large(b) && exists s :: FirstOfComponent(mask, s) && IsBoundingBox(b, Component(mask, AlphaThreshold, s))
  {
    var visited := new bool[mask.width * mask.height](_ => false);
    MarkedNone(mask, visited[..]);
    ghost var marked: set<Point> := {};
    var found: seq<Slot> := [];
    ghost var seeds: seq<Point>, boxes: seq<Slot> := [], [];
    ScanStart(mask);
    var y := 0;
    while y < mask.height
      invariant 0 <= y <= mask.height
      invariant visited.Length == |mask.data|
      invariant marked == Marked(mask, visited[..])
      invariant Progress(mask, marked, seeds, boxes, Point(0, y))
      invariant found == KeepLarge(boxes)
    {
      found, marked, seeds, boxes := ScanRow(mask, visited, y, found, marked, seeds, boxes);
      RowEnd(mask, marked, seeds, boxes, y);
      y := y + 1;
    }
    ScanEnd(mask, marked, seeds, boxes);
    slots := SortedSlots(found);
    DetectedSlots(mask, seeds, boxes, slots);
    assert Scan(mask, seeds, boxes) && slots == InsertionSort(KeepLarge(boxes));
  }

  // ---------------------------------------------------------------------------
  // What the scan's result is

  /** Two first pixels, one in the other's component, are the same pixel. */
  lemma FirstUnique(m: AlphaMask, a: Point, b: Point)
    requires m.Valid() && FirstOfComponent(m, a) && FirstOfComponent(m, b)
    requires b in Component(m, AlphaThreshold, a)
    ensures a == b
  {
    ComponentMember(m, AlphaThreshold, a, b);
    ComponentShared(m, AlphaThreshold, a, b);
    ConnectedRefl(m, AlphaThreshold, a);
    ComponentMember(m, AlphaThreshold, a, a);
    assert a in Component(m, AlphaThreshold, b);
  }

  /** The seeds of a scan are exactly the first pixels of the transparent components. */
  lemma ScanSeeds(m: AlphaMask, seeds: seq<Point>, boxes: seq<Slot>, s: Point)
    requires m.Valid() && Scan(m, seeds, boxes)
    ensures s in seeds <==> FirstOfComponent(m, s)
  {
    if s in seeds {
      var i :| 0 <= i < |seeds| && seeds[i] == s;
      assert SeedOf(m, seeds[i], boxes[i]);
    } else if FirstOfComponent(m, s) {
      assert Covered(m, seeds, s);
      var i :| 0 <= i < |seeds| && s in Component(m, AlphaThreshold, seeds[i]);
      assert SeedOf(m, seeds[i], boxes[i]);
      FirstUnique(m, seeds[i], s);
      assert false;
    }
  }

  /** No pixel belongs to the components of two different seeds. */
  lemma ScanDisjoint(m: AlphaMask, seeds: seq<Point>, boxes: seq<Slot>, i: int, j: int)
    requires m.Valid() && Scan(m, seeds, boxes) && 0 <= i < j < |seeds|
    ensures Component(m, AlphaThreshold, seeds[i]) !! Component(m, AlphaThreshold, seeds[j])
  {
    var a, b := seeds[i], seeds[j];
    if p :| p in Component(m, AlphaThreshold, a) && p in Component(m, AlphaThreshold, b) {
      ComponentMember(m, AlphaThreshold, a, p);
      ComponentMember(m, AlphaThreshold, b, p);
      ConnectedSym(m, AlphaThreshold, b, p);
      ConnectedTrans(m, AlphaThreshold, a, p, b);
      ComponentMember(m, AlphaThreshold, a, b);
      assert SeedOf(m, a, boxes[i]) && SeedOf(m, b, boxes[j]);
      FirstUnique(m, a, b);
      assert false;
    }
  }

  /** Two sequences in strict scan order with the same members are equal. */
  lemma {:induction false} ScanOrderUnique(s: seq<Point>, t: seq<Point>)
    requires InScanOrder(s) && InScanOrder(t)
    requires forall p :: p in s <==> p in t
    ensures s == t
    decreases |s|
  {
    assert |t| > 0 ==> t[0] in t;
    if |s| > 0 {
      assert s[0] in s;
      assert s[0] in t && t[0] in s;
      var k :| 0 <= k < |t| && t[k] == s[0];
      var l :| 0 <= l < |s| && s[l] == t[0];
      assert k == 0;
      forall p
        ensures p in s[1..] <==> p in t[1..]
      {
        if p in s[1..] {
          var a :| 1 <= a < |s| && s[a] == p;
          assert ScansBefore(s[0], s[a]);
          assert p in t && p != t[0];
        }
        if p in t[1..] {
          var b :| 1 <= b < |t| && t[b] == p;
          assert ScansBefore(t[0], t[b]);
          assert p in s && p != s[0];
        }
      }
      ScanOrderUnique(s[1..], t[1..]);
      assert s == [s[0]] + s[1..] && t == [t[0]] + t[1..];
    }
  }

  /** The scan's seeds and boxes are determined by the image alone. */
  lemma ScanUnique(m: AlphaMask, seeds: seq<Point>, boxes: seq<Slot>, seeds': seq<Point>, boxes': seq<Slot>)
    requires m.Valid() && Scan(m, seeds, boxes) && Scan(m, seeds', boxes')
    ensures seeds == seeds' && boxes == boxes'
  {
    forall p
      ensures p in seeds <==> p in seeds'
    {
      ScanSeeds(m, seeds, boxes, p);
      ScanSeeds(m, seeds', boxes', p);
    }
    ScanOrderUnique(seeds, seeds');
    forall i | 0 <= i < |boxes|
      ensures boxes[i] == boxes'[i]
    {
      assert SeedOf(m, seeds[i], boxes[i]) && SeedOf(m, seeds'[i], boxes'[i]);
      BoundingBoxUnique(boxes[i], boxes'[i], Component(m, AlphaThreshold, seeds[i]));
    }
  }

  /** The bounding box of a transparent component lies inside the image. */
  lemma BoxInImage(m: AlphaMask, s: Point, box: Slot)
    requires m.Valid() && IsBoundingBox(box, Component(m, AlphaThreshold, s))
    ensures 0 <= box.x && box.x + box.width <= m.width && box.width > 0
    ensures 0 <= box.y && box.y + box.height <= m.height && box.height > 0
  {
    var c := Component(m, AlphaThreshold, s);
    var p1 :| p1 in c && p1.x == box.x;
    var p2 :| p2 in c && p2.x == box.x + box.width - 1;
    var p3 :| p3 in c && p3.y == box.y;
    var p4 :| p4 in c && p4.y == box.y + box.height - 1;
  }

  /** A box the scan recorded is the box of the component of a first pixel, and lies inside the image. */
  lemma RecordedBox(m: AlphaMask, seeds: seq<Point>, boxes: seq<Slot>, b: Slot)
    requires m.Valid() && Scan(m, seeds, boxes)
    ensures b in boxes <==> exists s :: FirstOfComponent(m, s) && IsBoundingBox(b, Component(m, AlphaThreshold, s))
    ensures b in boxes ==> 0 <= b.x && b.x + b.width <= m.width && 0 <= b.y && b.y + b.height <= m.height
  {
    if b in boxes {
      var i :| 0 <= i < |boxes| && boxes[i] == b;
      assert SeedOf(m, seeds[i], boxes[i]);
      BoxInImage(m, seeds[i], b);
    }
    if s :| FirstOfComponent(m, s) && IsBoundingBox(b, Component(m, AlphaThreshold, s)) {
      ScanSeeds(m, seeds, boxes, s);
      var i :| 0 <= i < |seeds| && seeds[i] == s;
      assert SeedOf(m, seeds[i], boxes[i]);
      BoundingBoxUnique(b, boxes[i], Component(m, AlphaThreshold, s));
    }
  }

  /**
   * The slots the detector returns for a scan: each is the box of one
   * transparent component and passes the size filter, every component box
   * that passes the filter is among them, each lies inside the image, and
   * they are in the comparator's order.
   */
  lemma DetectedSlots(m: AlphaMask, seeds: seq<Point>, boxes: seq<Slot>, slots: seq<Slot>)
    requires m.Valid() && Scan(m, seeds, boxes) && slots == InsertionSort(KeepLarge(boxes))
    ensures Sorted(slots) && multiset(slots) == multiset(KeepLarge(boxes))
    ensures forall b :: b in slots <==> Large(b) && exists s :: FirstOfComponent(m, s) && IsBoundingBox(b, Component(m, AlphaThreshold, s))
    ensures forall b :: b in slots ==> 0 <= b.x && b.x + b.width <= m.width && 0 <= b.y && b.y + b.height <= m.height
  {
    SortSorted(KeepLarge(boxes));
    SortPermutes(KeepLarge(boxes));
    forall b
      ensures b in slots <==> Large(b) && exists s :: FirstOfComponent(m, s) && IsBoundingBox(b, Component(m, AlphaThreshold, s))
      ensures b in slots ==> 0 <= b.x && b.x + b.width <= m.width && 0 <= b.y && b.y + b.height <= m.height
    {
      assert b in slots <==> b in multiset(slots);
      assert b in KeepLarge(boxes) <==> b in multiset(KeepLarge(boxes));
      KeepLargeMember(boxes, b);
      RecordedBox(m, seeds, boxes, b);
    }
  }

  /** The detector's output is a function of the image: two runs on the same mask give the same slots. */
  lemma DetectedFromUnique(m: AlphaMask, slots: seq<Slot>, slots': seq<Slot>)
    requires m.Valid() && DetectedFrom(m, slots) && DetectedFrom(m, slots')
    ensures slots == slots'
  {
    var seeds, boxes :| Scan(m, seeds, boxes) && slots == InsertionSort(KeepLarge(boxes));
    var seeds', boxes' :| Scan(m, seeds', boxes') && slots' == InsertionSort(KeepLarge(boxes'));
    ScanUnique(m, seeds, boxes, seeds', boxes');
  }
}
