/**
 * The configuration part of the drawing classes derived from `graphw::Graph`.
 * A derived object is modelled as its own fields plus the `Graph` base
 * subobject it owns. The classes that declare their own constructor
 * initialise a private `directed_` of their own, which shadows the base's
 * flag: the base is default-constructed, so it is undirected whatever the
 * argument says.
 */
module Layouts {
  import opened GraphState
  import opened Graphw

  /** `ArcDiagram`: inherits the `Graph` constructor, so the flag reaches the base. */
  class ArcDiagram {
    const base: Graph

    constructor(newDirected: bool := false)
      ensures fresh(base) && base.Abs() == Empty(newDirected) && base.Valid()
    {
      base := new Graph(newDirected);
    }
  }

  /** `CircularLayout(new_directed_ = false, new_node_radius_ = 20)`. */
  class CircularLayout {
    const base: Graph
    /** The private `directed_` that shadows the base's flag; nothing reads it. */
    var shadowDirected: bool
    var nodeRadius: int

    constructor(newDirected: bool := false, newNodeRadius: int := 20)
      ensures fresh(base) && base.Abs() == Empty(false) && base.Valid()
      ensures shadowDirected == newDirected && nodeRadius == newNodeRadius
    {
      base := new Graph(false);
      shadowDirected := newDirected;
      nodeRadius := newNodeRadius;
    }

    method NodeRadius() returns (r: int)
      ensures r == nodeRadius
    {
      r := nodeRadius;
    }

    method SetNodeRadius(newNodeRadius: int)
      modifies this
      ensures nodeRadius == newNodeRadius && shadowDirected == old(shadowDirected)
    {
      nodeRadius := newNodeRadius;
    }
  }

  /** `RandomLayout(new_directed_ = false, new_node_radius_ = 20)`. */
  class RandomLayout {
    const base: Graph
    /** The private `directed_` that shadows the base's flag; nothing reads it. */
    var shadowDirected: bool
    var nodeRadius: int

    constructor(newDirected: bool := false, newNodeRadius: int := 20)
      ensures fresh(base) && base.Abs() == Empty(false) && base.Valid()
      ensures shadowDirected == newDirected && nodeRadius == newNodeRadius
    {
      base := new Graph(false);
      shadowDirected := newDirected;
      nodeRadius := newNodeRadius;
    }

    method NodeRadius() returns (r: int)
      ensures r == nodeRadius
    {
      r := nodeRadius;
    }

    method SetNodeRadius(newNodeRadius: int)
      modifies this
      ensures nodeRadius == newNodeRadius && shadowDirected == old(shadowDirected)
    {
      nodeRadius := newNodeRadius;
    }
  }

  /** `SpiralLayout(new_directed_ = false, new_node_radius_ = 10, new_resolution_ = 0.35, new_equidistant_ = false)`, without the resolution. */
  class SpiralLayout {
    const base: Graph
    /** The private `directed_` that shadows the base's flag; nothing reads it. */
    var shadowDirected: bool
    var nodeRadius: int
    var isEquidistant: bool

    constructor(newDirected: bool := false, newNodeRadius: int := 10, newEquidistant: bool := false)
      ensures fresh(base) && base.Abs() == Empty(false) && base.Valid()
      ensures shadowDirected == newDirected && nodeRadius == newNodeRadius && isEquidistant == newEquidistant
    {
      base := new Graph(false);
      shadowDirected := newDirected;
      nodeRadius := newNodeRadius;
      isEquidistant := newEquidistant;
    }

    method NodeRadius() returns (r: int)
      ensures r == nodeRadius
    {
      r := nodeRadius;
    }

    method SetNodeRadius(newNodeRadius: int)
      modifies this
      ensures nodeRadius == newNodeRadius && isEquidistant == old(isEquidistant) && shadowDirected == old(shadowDirected)
    {
      nodeRadius := newNodeRadius;
    }

    method Equidistant() returns (e: bool)
      ensures e == isEquidistant
    {
      e := isEquidistant;
    }

    method SetEquidistant(newEquidistant: bool)
      modifies this
      ensures isEquidistant == newEquidistant && nodeRadius == old(nodeRadius) && shadowDirected == old(shadowDirected)
    {
      isEquidistant := newEquidistant;
    }
  }

  /** A layout asked for a directed graph still draws an undirected one: the flag went to the shadow. */
  method ShadowedFlag() returns (d: bool)
    ensures !d
  {
    var layout := new CircularLayout(true);
    d := layout.base.Directed();
  }

  /** An arc diagram asked for a directed graph is directed. */
  method InheritedFlag() returns (d: bool)
    ensures d
  {
    var diagram := new ArcDiagram(true);
    d := diagram.base.Directed();
  }
}
