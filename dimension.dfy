/**
 * The integer width/height pair of org.jetuml.geom.Dimension: an immutable value whose
 * two components are never negative, with a join operation `Include`.
 */
module Dimensions {
  import opened Wrappers

  /** Java's `int`. */
  newtype int32 = x: int | -0x8000_0000 <= x < 0x8000_0000

  function Max(a: int32, b: int32): (m: int32)
    ensures m >= a && m >= b
    ensures m == a || m == b
  {
    if a >= b then a else b
  }

  /**
   * A width and a height. The Java constructor asserts that both are non-negative, so
   * every Dimension the program can build satisfies Valid().
   */
  datatype Dimension = Dimension(width: int32, height: int32) {

    /** The class invariant: both components are at least zero. */
    predicate Valid() {
      width >= 0 && height >= 0
    }

    /** This dimension is at least as wide and at least as high as `other`. */
    predicate Covers(other: Dimension) {
      width >= other.width && height >= other.height
    }

    /**
     * The smallest dimension that is at least this one and at least (w, h): the
     * component-wise maximum.
     */
    function Include(w: int32, h: int32): (r: Dimension)
      requires Valid()
      requires w >= 0 && h >= 0
      ensures r.Valid()
      ensures r.Covers(this) && r.width >= w && r.height >= h
      ensures r.width == width || r.width == w
      ensures r.height == height || r.height == h
    {
      Create(Max(width, w), Max(height, h))
    }

    /**
     * Java's `equals(Object)`: `None` stands for `null` or for an object of another
     * class; otherwise the two fields are compared. Comparing the fields is comparing the
     * values.
     */
    function Equals(obj: Option<Dimension>): (b: bool)
      ensures b <==> obj == Some(this)
    {
      match obj
      case None => false
      case Some(other) => width == other.width && height == other.height
    }
  }

  /** The constructor: it accepts only non-negative components and keeps both as given. */
  function Create(w: int32, h: int32): (d: Dimension)
    requires w >= 0 && h >= 0
    ensures d.Valid()
    ensures d.width == w && d.height == h
  {
    Dimension(w, h)
  }

  /** The dimension (0, 0). */
  const NULL: Dimension := Create(0, 0)

  lemma NullIsZero()
    ensures NULL.Valid() && NULL.width == 0 && NULL.height == 0
  {
  }

  /** Include is a join: any valid dimension that covers both inputs covers the result. */
  lemma IncludeIsLeastUpperBound(d: Dimension, w: int32, h: int32, u: Dimension)
    requires d.Valid() && w >= 0 && h >= 0
    requires u.Covers(d) && u.width >= w && u.height >= h
    ensures u.Covers(d.Include(w, h))
  {
  }

  /** Including the same size a second time changes nothing. */
  lemma IncludeIdempotent(d: Dimension, w: int32, h: int32)
    requires d.Valid() && w >= 0 && h >= 0
    ensures d.Include(w, h).Include(w, h) == d.Include(w, h)
  {
  }

  /** Including a size the dimension already covers, in particular its own size or (0, 0), returns it. */
  lemma IncludeCoveredIsIdentity(d: Dimension, w: int32, h: int32)
    requires d.Valid() && w >= 0 && h >= 0
    ensures d.Include(w, h) == d <==> d.width >= w && d.height >= h
    ensures d.Include(0, 0) == d
    ensures d.Include(d.width, d.height) == d
  {
  }

  /** Starting from NULL, Include builds exactly the requested dimension. */
  lemma NullIncludeIsCreate(w: int32, h: int32)
    requires w >= 0 && h >= 0
    ensures NULL.Include(w, h) == Create(w, h)
  {
  }

  /** The order in which sizes are included does not matter. */
  lemma IncludeCommutes(d: Dimension, w1: int32, h1: int32, w2: int32, h2: int32)
    requires d.Valid() && w1 >= 0 && h1 >= 0 && w2 >= 0 && h2 >= 0
    ensures d.Include(w1, h1).Include(w2, h2) == d.Include(w2, h2).Include(w1, h1)
  {
  }

  /** Include is monotone in its receiver. */
  lemma IncludeMonotone(d: Dimension, e: Dimension, w: int32, h: int32)
    requires d.Valid() && e.Valid() && w >= 0 && h >= 0
    requires e.Covers(d)
    ensures e.Include(w, h).Covers(d.Include(w, h))
  {
  }

  /**
   * Field-wise equality is exactly value equality; it is reflexive, symmetric and
   * transitive, and nothing equals null.
   */
  lemma EqualsIsValueEquality(a: Dimension, b: Dimension, c: Dimension)
    ensures a.Equals(Some(b)) <==> a == b
    ensures a.Equals(Some(a))
    ensures a.Equals(Some(b)) ==> b.Equals(Some(a))
    ensures a.Equals(Some(b)) && b.Equals(Some(c)) ==> a.Equals(Some(c))
    ensures !a.Equals(None)
  {
  }
}
