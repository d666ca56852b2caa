// A peer's copy of the version list, filled from the leader's `doc_update`
// multicasts: each update writes one slot, padding any gap with empty lists.

module Peers {

  /** A decoded multicast datagram. */
  datatype Datagram =
    | DocUpdate(version: int, cid: string, vector: seq<string>)
    | OtherType(kind: string)

  /**
   * The list after storing `vector` at slot `version`: an existing slot is
   * replaced, otherwise the list is extended, with empty lists in the gap.
   */
  function Assign(versions: seq<seq<string>>, version: nat, vector: seq<string>): (r: seq<seq<string>>)
    ensures |r| == if version < |versions| then |versions| else version + 1
    ensures r[version] == vector
    ensures forall i :: 0 <= i < |versions| && i != version ==> r[i] == versions[i]
    ensures forall i :: |versions| <= i < version ==> r[i] == []
  {
    if version < |versions| then versions[version := vector]
    else versions + seq(version - |versions|, _ => []) + [vector]
  }

  /**
   * The list after receiving `d`: a `doc_update` with a non-negative version
   * is stored, anything else leaves the list as it was.
   */
  function Received(versions: seq<seq<string>>, d: Datagram): (r: seq<seq<string>>)
    ensures |versions| <= |r|
    ensures d.DocUpdate? && d.version >= 0 ==> d.version < |r| && r[d.version] == d.vector
    ensures !(d.DocUpdate? && d.version >= 0) ==> r == versions
  {
    match d
    case DocUpdate(version, _, vector) => if version >= 0 then Assign(versions, version, vector) else versions
    case OtherType(_) => versions
  }

  class PeerNode {
    const name: string
    var versions: seq<seq<string>>

    /** A peer starts with the empty version 0 only. */
    constructor (name: string)
      ensures this.name == name && versions == [[]]
    {
      this.name := name;
      versions := [[]];
    }

    /**
     * Stores a received `doc_update`. A negative version makes the list's
     * `set` throw; the receive loop catches it, so nothing changes.
     */
    method ApplyUpdate(version: int, vector: seq<string>)
      modifies this`versions
      ensures version < 0 ==> versions == old(versions)
      ensures version >= 0 ==> versions == Assign(old(versions), version, vector)
      ensures 0 <= version < |old(versions)| ==> versions == old(versions)[version := vector]
      ensures version == |old(versions)| ==> versions == old(versions) + [vector]
      ensures version > |old(versions)| ==>
                && |versions| == version + 1
                && versions[..|old(versions)|] == old(versions)
                && (forall i :: |old(versions)| <= i < version ==> versions[i] == [])
                && versions[version] == vector
    {
      if version <= |versions| - 1 {
        if version < 0 {
          // IndexOutOfBoundsException, caught by the receive loop
          return;
        }
        versions := versions[version := vector];
      } else if version == |versions| {
        versions := versions + [vector];
      } else {
        while |versions| <= version
          invariant old(versions) <= versions
          invariant |versions| <= version + 1
          invariant forall i :: |old(versions)| <= i < |versions| ==> versions[i] == []
          decreases version - |versions|
        {
          versions := versions + [[]];
        }
        versions := versions[version := vector];
      }
    }

    /** Only `doc_update` datagrams touch the version list. */
    method HandleDatagram(d: Datagram)
      modifies this`versions
      ensures versions == Received(old(versions), d)
    {
      match d
      case DocUpdate(version, _, vector) =>
        ApplyUpdate(version, vector);
      case OtherType(_) =>
    }
  }

  /** Storing the same update twice has the effect of storing it once. */
  lemma AssignIdempotent(versions: seq<seq<string>>, version: nat, vector: seq<string>)
    ensures Assign(Assign(versions, version, vector), version, vector) == Assign(versions, version, vector)
  {
    var once := Assign(versions, version, vector);
    var twice := Assign(once, version, vector);
    assert |twice| == |once|;
    forall i | 0 <= i < |once|
      ensures twice[i] == once[i]
    {
    }
  }

  /** Updates to different slots commute. */
  lemma AssignCommutes(versions: seq<seq<string>>, v1: nat, x1: seq<string>, v2: nat, x2: seq<string>)
    requires v1 != v2
    ensures Assign(Assign(versions, v1, x1), v2, x2) == Assign(Assign(versions, v2, x2), v1, x1)
  {
    var a := Assign(Assign(versions, v1, x1), v2, x2);
    var b := Assign(Assign(versions, v2, x2), v1, x1);
    assert |a| == |b|;
    forall i | 0 <= i < |a|
      ensures a[i] == b[i]
    {
    }
  }

  /**
   * There is no check that a received version is newer: an update for any
   * version the peer already holds, an earlier one included, overwrites that
   * slot and leaves the length and every other slot alone.
   */
  lemma StaleUpdateOverwrites(versions: seq<seq<string>>, version: nat, vector: seq<string>)
    requires version < |versions|
    ensures Assign(versions, version, vector) == versions[version := vector]
  {
    var r := Assign(versions, version, vector);
    assert |r| == |versions|;
    forall i | 0 <= i < |r|
      ensures r[i] == versions[version := vector][i]
    {
    }
  }
}
