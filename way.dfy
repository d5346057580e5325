/** The changeset-scoped snapshot of a way: identity, owner and version fixed
    at construction, an ordered list of node references and a checked flag. */
module WaySnapshot {

  class Way {
    const id: int
    const userName: string
    const userId: int
    const version: int
    const inChangeset: bool
    var checked: bool
    var nodeRefs: seq<int>

    /** A new snapshot is not checked and references no node yet. */
    constructor (id: int, userName: string, userId: int, version: int, inChangeset: bool)
      ensures this.id == id && this.userName == userName && this.userId == userId
      ensures this.version == version && this.inChangeset == inChangeset
      ensures !IsChecked() && GetNodeRefs() == []
    {
      this.id := id;
      this.userName := userName;
      this.userId := userId;
      this.version := version;
      this.inChangeset := inChangeset;
      checked := false;
      nodeRefs := [];
    }

    function GetNodeRefs(): seq<int>
      reads this
    {
      nodeRefs
    }

    function IsChecked(): bool
      reads this
    {
      checked
    }

    /** Replaces the node list, keeping the order given; the flag is untouched. */
    method SetNodeRefs(refs: seq<int>)
      modifies this`nodeRefs
      ensures GetNodeRefs() == refs
      ensures IsChecked() == old(IsChecked())
    {
      nodeRefs := refs;
    }

    /** Marks the way checked; calling it again changes nothing. */
    method SetChecked()
      modifies this`checked
      ensures IsChecked()
      ensures old(IsChecked()) ==> checked == old(checked)
      ensures GetNodeRefs() == old(GetNodeRefs())
    {
      checked := true;
    }
  }
}
