/**
 * The decoded alpha channel of a frame image, pixel positions, slot rectangles,
 * and the geometry the slot detector relies on: transparency, 4-adjacency,
 * paths of transparent pixels, and the set of pixels a `visited` buffer marks.
 */
module Raster {

  /** One alpha sample (an element of the decoded Uint8Array). */
  type Byte = x: int | 0 <= x < 256

  /** A pixel position; the fill's stack holds these. */
  datatype Point = Point(x: int, y: int)

  /** A slot rectangle: top-left corner and size, as the detector returns it. */
  datatype Slot = Slot(x: int, y: int, width: int, height: int)

  /** `p` is scanned before `q` by the row-major scan (y outer, x inner). */
  predicate ScansBefore(p: Point, q: Point) {
    p.y < q.y || (p.y == q.y && p.x < q.x)
  }

  /** 4-adjacency: one step left, right, up or down. Diagonals do not count. */
  predicate Adjacent(p: Point, q: Point) {
    (p.y == q.y && (p.x == q.x + 1 || q.x == p.x + 1)) ||
    (p.x == q.x && (p.y == q.y + 1 || q.y == p.y + 1))
  }

  /** The single-channel alpha buffer and its dimensions, stored row-major. */
  datatype AlphaMask = AlphaMask(data: seq<Byte>, width: nat, height: nat) {

    /** The decoder's guarantee: one sample per pixel. */
    predicate Valid() {
      |data| == width * height
    }

    predicate InBounds(p: Point) {
      0 <= p.x < width && 0 <= p.y < height
    }

    /** The buffer offset `y * width + x` used for both `data` and `visited`. */
    function Index(p: Point): int {
      p.y * width + p.x
    }

    function Alpha(p: Point): Byte
      requires Valid() && InBounds(p)
    {
      IndexInRange(this, p);
      data[Index(p)]
    }

    /** A pixel whose alpha is below the threshold. */
    predicate Transparent(threshold: int, p: Point)
      requires Valid()
    {
      InBounds(p) && Alpha(p) < threshold
    }

    /** The in-bounds 4-neighbours of `p`, in the order the fill pushes them. */
    function Neighbours(p: Point): seq<Point> {
      (if p.x > 0 then [Point(p.x - 1, p.y)] else []) +
      (if p.x < width - 1 then [Point(p.x + 1, p.y)] else []) +
      (if p.y > 0 then [Point(p.x, p.y - 1)] else []) +
      (if p.y < height - 1 then [Point(p.x, p.y + 1)] else [])
    }

    /** `q` is an in-bounds pixel 4-adjacent to some pixel of `region`. */
    predicate Touches(region: set<Point>, q: Point) {
      InBounds(q) &&
      (Point(q.x - 1, q.y) in region || Point(q.x + 1, q.y) in region ||
       Point(q.x, q.y - 1) in region || Point(q.x, q.y + 1) in region)
    }
  }

  // ---------------------------------------------------------------------------
  // Buffer offsets

  lemma MulMonotone(a: int, b: int, c: nat)
    requires a <= b
    ensures a * c <= b * c
  {
  }

  lemma IndexInRange(m: AlphaMask, p: Point)
    requires m.Valid() && m.InBounds(p)
    ensures 0 <= m.Index(p) < |m.data|
  {
    MulMonotone(0, p.y, m.width);
    MulMonotone(p.y + 1, m.height, m.width);
  }

  /** Distinct in-bounds pixels have distinct offsets. */
  lemma IndexInjective(m: AlphaMask, p: Point, q: Point)
    requires m.InBounds(p) && m.InBounds(q) && m.Index(p) == m.Index(q)
    ensures p == q
  {
    if p.y < q.y {
      MulMonotone(p.y + 1, q.y, m.width);
      assert false;
    } else if q.y < p.y {
      MulMonotone(q.y + 1, p.y, m.width);
      assert false;
    }
  }

  lemma NeighboursAreAdjacent(m: AlphaMask, p: Point, q: Point)
    requires m.InBounds(p)
    ensures q in m.Neighbours(p) <==> m.InBounds(q) && Adjacent(p, q)
  {
  }

  // ---------------------------------------------------------------------------
  // The pixels a visited buffer marks

  ghost function Grid(m: AlphaMask): set<Point> {
    set x: int, y: int | 0 <= x < m.width && 0 <= y < m.height :: Point(x, y)
  }

  lemma GridMember(m: AlphaMask, p: Point)
    ensures p in Grid(m) <==> m.InBounds(p)
  {
    if m.InBounds(p) {
      assert p == Point(p.x, p.y);
    }
  }

  ghost predicate FlagAt(m: AlphaMask, visited: seq<bool>, p: Point)
    requires m.Valid() && |visited| == |m.data| && m.InBounds(p)
  {
    IndexInRange(m, p);
    visited[m.Index(p)]
  }

  /** The set of pixels whose flag is set in a buffer laid out like the mask. */
  ghost function Marked(m: AlphaMask, visited: seq<bool>): set<Point>
    requires m.Valid() && |visited| == |m.data|
  {
    set x: int, y: int | 0 <= x < m.width && 0 <= y < m.height && FlagAt(m, visited, Point(x, y)) :: Point(x, y)
  }

  lemma MarkedMember(m: AlphaMask, visited: seq<bool>, p: Point)
    requires m.Valid() && |visited| == |m.data|
    ensures p in Marked(m, visited) <==> m.InBounds(p) && FlagAt(m, visited, p)
  {
    if m.InBounds(p) && FlagAt(m, visited, p) {
      assert p == Point(p.x, p.y);
    }
  }

  /** Reading the flag of an in-bounds pixel asks whether it is marked. */
  lemma MarkedAt(m: AlphaMask, visited: seq<bool>, p: Point)
    requires m.Valid() && |visited| == |m.data| && m.InBounds(p)
    ensures 0 <= m.Index(p) < |visited|
    ensures visited[m.Index(p)] <==> p in Marked(m, visited)
  {
    IndexInRange(m, p);
    MarkedMember(m, visited, p);
  }

  /** Setting the flag of one pixel marks exactly that pixel in addition. */
  lemma MarkedUpdate(m: AlphaMask, visited: seq<bool>, p: Point)
    requires m.Valid() && |visited| == |m.data| && m.InBounds(p)
    ensures 0 <= m.Index(p) < |visited|
    ensures Marked(m, visited[m.Index(p) := true]) == Marked(m, visited) + {p}
  {
    IndexInRange(m, p);
    var after := visited[m.Index(p) := true];
    forall q
      ensures q in Marked(m, after) <==> q in Marked(m, visited) + {p}
    {
      MarkedMember(m, after, q);
      MarkedMember(m, visited, q);
      if m.InBounds(q) && q != p {
        IndexInRange(m, q);
        if m.Index(q) == m.Index(p) {
          IndexInjective(m, q, p);
        }
      }
    }
  }

  lemma MarkedNone(m: AlphaMask, visited: seq<bool>)
    requires m.Valid() && |visited| == |m.data|
    requires forall i :: 0 <= i < |visited| ==> !visited[i]
    ensures Marked(m, visited) == {}
  {
    forall q | q in Marked(m, visited)
      ensures false
    {
      MarkedMember(m, visited, q);
      IndexInRange(m, q);
    }
  }

  // ---------------------------------------------------------------------------
  // 4-connectivity through transparent pixels

  /** A walk of 4-adjacent transparent pixels. */
  ghost predicate IsPath(m: AlphaMask, threshold: int, path: seq<Point>)
    requires m.Valid()
  {
    && |path| > 0
    && (forall i :: 0 <= i < |path| ==> m.Transparent(threshold, path[i]))
    && (forall i :: 0 <= i < |path| - 1 ==> Adjacent(path[i], path[i + 1]))
  }

  /** `a` and `b` lie in the same 4-connected transparent region. */
  ghost predicate Connected(m: AlphaMask, threshold: int, a: Point, b: Point)
    requires m.Valid()
  {
    exists path :: IsPath(m, threshold, path) && path[0] == a && path[|path| - 1] == b
  }

  /** The 4-connected transparent region that contains `seed`. */
  ghost function Component(m: AlphaMask, threshold: int, seed: Point): set<Point>
    requires m.Valid()
  {
    set x: int, y: int | 0 <= x < m.width && 0 <= y < m.height && Connected(m, threshold, seed, Point(x, y)) :: Point(x, y)
  }

  /** A set of pixels that contains every in-bounds neighbour of each of its transparent pixels. */
  ghost predicate Closed(m: AlphaMask, threshold: int, s: set<Point>)
    requires m.Valid()
  {
    forall p, q {:trigger Adjacent(p, q)} ::
      p in s && m.Transparent(threshold, p) && m.InBounds(q) && Adjacent(p, q) ==> q in s
  }

  /** `box` is the smallest rectangle holding every point of `ps`. */
  ghost predicate IsBoundingBox(box: Slot, ps: set<Point>) {
    && (forall p :: p in ps ==> box.x <= p.x < box.x + box.width && box.y <= p.y < box.y + box.height)
    && (exists p :: p in ps && p.x == box.x)
    && (exists p :: p in ps && p.x == box.x + box.width - 1)
    && (exists p :: p in ps && p.y == box.y)
    && (exists p :: p in ps && p.y == box.y + box.height - 1)
  }

  lemma ComponentMember(m: AlphaMask, threshold: int, seed: Point, p: Point)
    requires m.Valid()
    ensures p in Component(m, threshold, seed) <==> Connected(m, threshold, seed, p)
  {
    if Connected(m, threshold, seed, p) {
      var path :| IsPath(m, threshold, path) && path[0] == seed && path[|path| - 1] == p;
      assert m.Transparent(threshold, path[|path| - 1]);
      assert p == Point(p.x, p.y);
    }
  }

  /** Both ends of a connection are transparent. */
  lemma ConnectedEnds(m: AlphaMask, threshold: int, a: Point, b: Point)
    requires m.Valid() && Connected(m, threshold, a, b)
    ensures m.Transparent(threshold, a) && m.Transparent(threshold, b)
  {
    var path :| IsPath(m, threshold, path) && path[0] == a && path[|path| - 1] == b;
    assert m.Transparent(threshold, path[0]);
    assert m.Transparent(threshold, path[|path| - 1]);
  }

  lemma ConnectedRefl(m: AlphaMask, threshold: int, a: Point)
    requires m.Valid() && m.Transparent(threshold, a)
    ensures Connected(m, threshold, a, a)
  {
    assert IsPath(m, threshold, [a]);
  }

  /** A connection extends by one 4-step onto a transparent pixel. */
  lemma ConnectedStep(m: AlphaMask, threshold: int, a: Point, b: Point, c: Point)
    requires m.Valid() && Connected(m, threshold, a, b)
    requires Adjacent(b, c) && m.Transparent(threshold, c)
    ensures Connected(m, threshold, a, c)
  {
    var path :| IsPath(m, threshold, path) && path[0] == a && path[|path| - 1] == b;
    var longer := path + [c];
    assert IsPath(m, threshold, longer);
  }

  function Reverse(s: seq<Point>): (r: seq<Point>)
    ensures |r| == |s|
    ensures forall i :: 0 <= i < |s| ==> r[i] == s[|s| - 1 - i]
  {
    if s == [] then [] else Reverse(s[1..]) + [s[0]]
  }

  /** Connectivity is symmetric: a path walked backwards is a path. */
  lemma ConnectedSym(m: AlphaMask, threshold: int, a: Point, b: Point)
    requires m.Valid() && Connected(m, threshold, a, b)
    ensures Connected(m, threshold, b, a)
  {
    var path :| IsPath(m, threshold, path) && path[0] == a && path[|path| - 1] == b;
    var back := Reverse(path);
    forall i | 0 <= i < |back| - 1
      ensures Adjacent(back[i], back[i + 1])
    {
      assert back[i] == path[|path| - 1 - i] && back[i + 1] == path[|path| - 2 - i];
      assert Adjacent(path[|path| - 2 - i], path[|path| - 1 - i]);
    }
    assert IsPath(m, threshold, back);
  }

  /** Connectivity is transitive: two paths meeting at `b` join into one. */
  lemma ConnectedTrans(m: AlphaMask, threshold: int, a: Point, b: Point, c: Point)
    requires m.Valid() && Connected(m, threshold, a, b) && Connected(m, threshold, b, c)
    ensures Connected(m, threshold, a, c)
  {
    var p1 :| IsPath(m, threshold, p1) && p1[0] == a && p1[|p1| - 1] == b;
    var p2 :| IsPath(m, threshold, p2) && p2[0] == b && p2[|p2| - 1] == c;
    var joined := p1 + p2[1..];
    forall i | 0 <= i < |joined| - 1
      ensures Adjacent(joined[i], joined[i + 1])
    {
      if i < |p1| - 1 {
        assert joined[i] == p1[i] && joined[i + 1] == p1[i + 1];
      } else {
        var k := i - |p1| + 1;
        assert joined[i] == p2[k] && joined[i + 1] == p2[k + 1];
      }
    }
    forall i | 0 <= i < |joined|
      ensures m.Transparent(threshold, joined[i])
    {
      if i >= |p1| {
        assert joined[i] == p2[i - |p1| + 1];
      }
    }
    assert IsPath(m, threshold, joined);
  }

  /** Connected seeds have the same component. */
  lemma ComponentShared(m: AlphaMask, threshold: int, a: Point, b: Point)
    requires m.Valid() && Connected(m, threshold, a, b)
    ensures Component(m, threshold, a) == Component(m, threshold, b)
  {
    ConnectedSym(m, threshold, a, b);
    forall p
      ensures p in Component(m, threshold, a) <==> p in Component(m, threshold, b)
    {
      ComponentMember(m, threshold, a, p);
      ComponentMember(m, threshold, b, p);
      if Connected(m, threshold, a, p) {
        ConnectedTrans(m, threshold, b, a, p);
      }
      if Connected(m, threshold, b, p) {
        ConnectedTrans(m, threshold, a, b, p);
      }
    }
  }

  /** A closed set that holds the first pixel of a path holds its last. */
  lemma {:induction false} ClosedPath(m: AlphaMask, threshold: int, s: set<Point>, path: seq<Point>)
    requires m.Valid() && Closed(m, threshold, s)
    requires IsPath(m, threshold, path) && path[0] in s
    ensures path[|path| - 1] in s
  {
    if |path| > 1 {
      var prefix := path[..|path| - 1];
      assert IsPath(m, threshold, prefix);
      ClosedPath(m, threshold, s, prefix);
      var p, q := path[|path| - 2], path[|path| - 1];
      assert m.Transparent(threshold, p) && m.Transparent(threshold, q);
      assert Adjacent(p, q);
    }
  }

  /** A closed set that holds one pixel of a region holds every pixel connected to it. */
  lemma ClosedConnected(m: AlphaMask, threshold: int, s: set<Point>, a: Point, b: Point)
    requires m.Valid() && Closed(m, threshold, s)
    requires a in s && Connected(m, threshold, a, b)
    ensures b in s
  {
    var path :| IsPath(m, threshold, path) && path[0] == a && path[|path| - 1] == b;
    ClosedPath(m, threshold, s, path);
  }

  /** Two bounding boxes of the same set are the same box. */
  lemma BoundingBoxUnique(b1: Slot, b2: Slot, ps: set<Point>)
    requires IsBoundingBox(b1, ps) && IsBoundingBox(b2, ps)
    ensures b1 == b2
  {
    var p1 :| p1 in ps && p1.x == b1.x;
    var p2 :| p2 in ps && p2.x == b2.x;
    var p3 :| p3 in ps && p3.x == b1.x + b1.width - 1;
    var p4 :| p4 in ps && p4.x == b2.x + b2.width - 1;
    var p5 :| p5 in ps && p5.y == b1.y;
    var p6 :| p6 in ps && p6.y == b2.y;
    var p7 :| p7 in ps && p7.y == b1.y + b1.height - 1;
    var p8 :| p8 in ps && p8.y == b2.y + b2.height - 1;
  }
}
