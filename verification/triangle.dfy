/** Delaunay triangles (Delaunay/Triangle.cs). */
module Triangles {
  import opened Wrappers
  import opened Geom

  /**
   * A triangle of three sites, each identified by its coordinate. The list is `None` once
   * the triangle has been disposed (the C# list is cleared and detached); nothing else
   * changes it.
   */
  datatype Triangle = Triangle(sites: Option<seq<Point>>)

  /** The constructor: exactly the three sites, in argument order. */
  function NewTriangle(a: Point, b: Point, c: Point): (t: Triangle)
    ensures t.sites.Some? && |t.sites.value| == 3
    ensures t.sites.value[0] == a && t.sites.value[1] == b && t.sites.value[2] == c
  {
    Triangle(Some([a, b, c]))
  }

  /** `Dispose`: the site list is detached. */
  function Dispose(t: Triangle): (r: Triangle)
    ensures r.sites.None?
  {
    Triangle(None)
  }
}
