/** Values the engine receives from its collaborators: the diff elements it is
    fed, the coordinates and way lists returned by the history API, and the
    result of a linear regression. None of these are computed by the core. */
module Osm {

  datatype Option<+T> = None | Some(value: T)

  /** A geographic position; only exact equality is ever used on it. */
  datatype Coord = Coord(lat: real, lon: real)

  /** A node as delivered by the diff. */
  datatype OsmNode = OsmNode(id: int, changeset: int, user: string, userId: int,
                             version: int, lat: real, lon: real)

  /** A way as delivered by the diff or by the API's node-to-ways query. */
  datatype OsmWay = OsmWay(id: int, changeset: int, user: string, userId: int,
                           version: int, nodeRefs: seq<int>)

  /** The core element carried by a change, tagged by its core type. */
  datatype Element =
    | NodeElement(node: OsmNode)
    | WayElement(way: OsmWay)
    | RelationElement(id: int, changeset: int)
    | InvalidElement

  datatype ChangeKind = Creation | Modification | Deletion

  datatype Change = Change(kind: ChangeKind, element: Element)

  /** The history API, replaced by oracles: the coordinates of a node at a
      given version, its latest coordinates, and the ways that reference it. */
  datatype HistoryApi = HistoryApi(
    nodeVersion: (int, int) -> Option<Coord>,
    latestNode: int -> Option<Coord>,
    nodeWays: int -> seq<OsmWay>)

  /** What a linear regression reports: the summed squared residual and the
      largest squared residual. */
  datatype Fit = Fit(sumSquares: real, maxSquare: real)
}
