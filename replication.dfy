// How a peer's version list relates to the leader's chain once the leader's
// `doc_update` multicasts reach it.

module Replication {
  import opened Documents
  import opened Peers

  /** The peer's list after receiving `ds` in order. */
  function Replay(versions: seq<seq<string>>, ds: seq<Datagram>): seq<seq<string>>
    decreases |ds|
  {
    if ds == [] then versions else Replay(Received(versions, ds[0]), ds[1..])
  }

  /**
   * A peer that holds versions 0..k-1 of the leader's list and then receives
   * the updates for versions k, k+1, ... in order ends with the leader's list.
   */
  lemma {:induction false} InOrderReplication(chain: seq<seq<string>>, k: nat, ds: seq<Datagram>)
    requires 1 <= k <= |chain|
    requires |ds| == |chain| - k
    requires forall j :: 0 <= j < |ds| ==> ds[j].DocUpdate? && ds[j].version == k + j && ds[j].vector == chain[k + j]
    ensures Replay(chain[..k], ds) == chain
    decreases |ds|
  {
    if ds == [] {
      assert chain[..k] == chain;
    } else {
      assert Received(chain[..k], ds[0]) == chain[..k + 1];
      InOrderReplication(chain, k + 1, ds[1..]);
    }
  }

  /** A fresh peer receiving every version of a chain in order ends with the chain. */
  lemma FreshPeerReplicatesChain(chain: seq<seq<string>>, ds: seq<Datagram>)
    requires IsChain(chain)
    requires |ds| == |chain| - 1
    requires forall j :: 0 <= j < |ds| ==> ds[j].DocUpdate? && ds[j].version == j + 1 && ds[j].vector == chain[j + 1]
    ensures Replay([[]], ds) == chain
  {
    assert chain[..1] == [[]];
    InOrderReplication(chain, 1, ds);
  }

  /** Every slot holds the leader's entry or an empty placeholder. */
  ghost predicate Sound(versions: seq<seq<string>>, chain: seq<seq<string>>)
  {
    && 1 <= |versions| <= |chain|
    && forall i :: 0 <= i < |versions| ==> versions[i] == chain[i] || versions[i] == []
  }

  /** Every datagram is an update the leader sent for `chain`. */
  ghost predicate FromChain(ds: seq<Datagram>, chain: seq<seq<string>>)
  {
    forall j :: 0 <= j < |ds| ==>
      ds[j].DocUpdate? && 0 <= ds[j].version < |chain| && ds[j].vector == chain[ds[j].version]
  }

  lemma {:induction false} ReplayStaysSound(versions: seq<seq<string>>, ds: seq<Datagram>, chain: seq<seq<string>>)
    requires Sound(versions, chain)
    requires FromChain(ds, chain)
    ensures Sound(Replay(versions, ds), chain)
    ensures |versions| <= |Replay(versions, ds)|
    ensures forall i :: 0 <= i < |versions| && versions[i] == chain[i] ==> Replay(versions, ds)[i] == chain[i]
    ensures forall j :: 0 <= j < |ds| ==>
              ds[j].version < |Replay(versions, ds)| && Replay(versions, ds)[ds[j].version] == chain[ds[j].version]
    decreases |ds|
  {
    if ds != [] {
      var next := Received(versions, ds[0]);
      assert next == Assign(versions, ds[0].version, ds[0].vector);
      assert FromChain(ds[1..], chain) by {
        forall j | 0 <= j < |ds[1..]|
          ensures ds[1..][j].DocUpdate? && 0 <= ds[1..][j].version < |chain| && ds[1..][j].vector == chain[ds[1..][j].version]
        {
          assert ds[1..][j] == ds[j + 1];
        }
      }
      ReplayStaysSound(next, ds[1..], chain);
      assert Replay(versions, ds) == Replay(next, ds[1..]);
      forall j | 0 <= j < |ds|
        ensures ds[j].version < |Replay(versions, ds)| && Replay(versions, ds)[ds[j].version] == chain[ds[j].version]
      {
        if j > 0 {
          assert ds[j] == ds[1..][j - 1];
        }
      }
    }
  }

  /** The versions that the datagrams `ds` carry. */
  function Delivered(ds: seq<Datagram>): set<int>
  {
    set j | 0 <= j < |ds| && ds[j].DocUpdate? :: ds[j].version
  }

  /**
   * A fresh peer that receives every version of the leader's chain at least
   * once, in any order and with repeats, ends with the leader's chain.
   */
  lemma AnyOrderReplication(chain: seq<seq<string>>, ds: seq<Datagram>)
    requires IsChain(chain)
    requires FromChain(ds, chain)
    requires forall v :: 1 <= v < |chain| ==> v in Delivered(ds)
    ensures Replay([[]], ds) == chain
  {
    ReplayStaysSound([[]], ds, chain);
    var r := Replay([[]], ds);
    forall v | 1 <= v < |chain|
      ensures v < |r| && r[v] == chain[v]
    {
      assert v in Delivered(ds);
      var j :| 0 <= j < |ds| && ds[j].DocUpdate? && ds[j].version == v;
    }
    if |chain| > 1 {
      var last := |chain| - 1;
      assert last in Delivered(ds);
      var j :| 0 <= j < |ds| && ds[j].DocUpdate? && ds[j].version == last;
      assert last < |r|;
    }
    assert |r| == |chain|;
    forall i | 0 <= i < |r|
      ensures r[i] == chain[i]
    {
      if i == 0 {
        assert [[]][0] == chain[0];
      }
    }
  }
}
