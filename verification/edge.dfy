/** The edge record of src/edge.py. The attribute map is reduced to the one
    attribute the algorithms read, the integer "WEIGHT". */
module Edges {

  /** The id of an edge: the ordered pair (source, target) it was built with. */
  type Key = (int, int)

  /** Edge(source, target, {"WEIGHT": weight}); the fields are set once. */
  datatype Edge = Edge(source: int, target: int, weight: int)
  {
    /** get_id */
    function Id(): (k: Key)
      ensures k.0 == source && k.1 == target
    {
      (source, target)
    }
  }
}
