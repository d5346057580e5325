/** The changeset-scoped snapshot of a node. Identity, owner, version and
    coordinates are fixed at construction; the only mutable part is the table
    of ways the node has been attached to. */
module NodeSnapshot {
  import opened Osm
  import opened WaySnapshot

  class Node {
    const id: int
    const userName: string
    const userId: int
    const version: int
    const lat: real
    const lon: real
    const inChangeset: bool
    /** Back-references to the ways holding this node, keyed by way id. */
    var ways: map<int, Way>

    constructor (id: int, userName: string, userId: int, version: int,
                 lat: real, lon: real, inChangeset: bool)
      ensures this.id == id && this.userName == userName && this.userId == userId
      ensures this.version == version && this.inChangeset == inChangeset
      ensures Position() == Coord(lat, lon)
      ensures ways == map[]
    {
      this.id := id;
      this.userName := userName;
      this.userId := userId;
      this.version := version;
      this.lat := lat;
      this.lon := lon;
      this.inChangeset := inChangeset;
      ways := map[];
    }

    /** The snapshot's coordinates as one value. */
    function Position(): Coord
    {
      Coord(lat, lon)
    }

    /** Records `w` as holding this node. A way id already present keeps the
        way recorded first; entries for other ids are unchanged. */
    method AttachTo(w: Way)
      modifies this`ways
      ensures ways.Keys == old(ways.Keys) + {w.id}
      ensures w.id in old(ways) ==> ways[w.id] == old(ways[w.id])
      ensures w.id !in old(ways) ==> ways[w.id] == w
      ensures forall k :: k in old(ways) ==> ways[k] == old(ways[k])
    {
      if w.id !in ways {
        ways := ways[w.id := w];
      }
    }
  }
}
