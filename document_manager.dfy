// The leader's append-only chain of versions: version v is the list of the
// content ids of the first v documents added.

module Documents {

  /** The last entry of a non-empty chain: the current document set. */
  function Latest(versions: seq<seq<string>>): seq<string>
    requires versions != []
  {
    versions[|versions| - 1]
  }

  /**
   * The chain invariant: version 0 is empty and every later version is the
   * one before it with exactly one content id appended.
   */
  ghost predicate IsChain(versions: seq<seq<string>>)
  {
    && versions != []
    && versions[0] == []
    && forall v :: 1 <= v < |versions| ==>
         |versions[v]| == |versions[v - 1]| + 1 && versions[v][..|versions[v - 1]|] == versions[v - 1]
  }

  /**
   * Equivalently, version v holds exactly v ids and is the first v ids of the
   * current document set.
   */
  ghost predicate PrefixesOfLatest(versions: seq<seq<string>>)
    requires versions != []
  {
    && |Latest(versions)| == |versions| - 1
    && forall v :: 0 <= v < |versions| ==> |versions[v]| == v && versions[v] == Latest(versions)[..v]
  }

  lemma {:induction false} ChainIsPrefixesOfLatest(versions: seq<seq<string>>)
    requires versions != []
    ensures IsChain(versions) <==> PrefixesOfLatest(versions)
  {
    if IsChain(versions) {
      ChainEntriesArePrefixes(versions);
    }
    if PrefixesOfLatest(versions) {
      var last := Latest(versions);
      forall v | 1 <= v < |versions|
        ensures |versions[v]| == |versions[v - 1]| + 1 && versions[v][..|versions[v - 1]|] == versions[v - 1]
      {
        assert versions[v] == last[..v] && versions[v - 1] == last[..v - 1];
        assert last[..v][..v - 1] == last[..v - 1];
      }
    }
  }

  lemma {:induction false} ChainEntriesArePrefixes(versions: seq<seq<string>>)
    requires IsChain(versions)
    ensures PrefixesOfLatest(versions)
    decreases |versions|
  {
    if |versions| > 1 {
      var shorter := versions[..|versions| - 1];
      assert IsChain(shorter) by {
        forall v | 1 <= v < |shorter|
          ensures |shorter[v]| == |shorter[v - 1]| + 1 && shorter[v][..|shorter[v - 1]|] == shorter[v - 1]
        {
          assert shorter[v] == versions[v] && shorter[v - 1] == versions[v - 1];
        }
      }
      ChainEntriesArePrefixes(shorter);
      var n := |versions| - 1;
      var last := Latest(versions);
      assert |last| == n;
      forall v | 0 <= v < |versions|
        ensures |versions[v]| == v && versions[v] == last[..v]
      {
        if v < n {
          assert versions[v] == shorter[v] && shorter[v] == Latest(shorter)[..v];
          assert Latest(shorter) == last[..n - 1];
          assert last[..n - 1][..v] == last[..v];
        } else {
          assert last[..v] == last;
        }
      }
    }
  }

  /** Appending the current set extended by one id keeps the chain invariant. */
  lemma {:induction false} AppendKeepsChain(versions: seq<seq<string>>, cid: string)
    requires IsChain(versions)
    ensures IsChain(versions + [Latest(versions) + [cid]])
  {
    var next := versions + [Latest(versions) + [cid]];
    forall v | 1 <= v < |next|
      ensures |next[v]| == |next[v - 1]| + 1 && next[v][..|next[v - 1]|] == next[v - 1]
    {
      if v == |versions| {
        assert next[v - 1] == Latest(versions);
        assert (Latest(versions) + [cid])[..|Latest(versions)|] == Latest(versions);
      } else {
        assert next[v] == versions[v] && next[v - 1] == versions[v - 1];
      }
    }
  }

  class DocumentManager {
    /** versions[v] is the list of content ids of version v */
    var versions: seq<seq<string>>
    var versionCounter: int

    ghost predicate Valid()
      reads this
    {
      IsChain(versions) && versionCounter == |versions| - 1
    }

    /** The chain starts with the empty version 0. */
    constructor ()
      ensures Valid()
      ensures versions == [[]] && versionCounter == 0
    {
      versions := [[]];
      versionCounter := 0;
    }

    /**
     * The chain part of adding a stored document: a new version equal to the
     * current one with `cid` appended, numbered one past the previous counter.
     */
    method AddDocumentAndPropagate(cid: string) returns (newVersion: int)
      requires Valid()
      modifies this
      ensures Valid()
      ensures versions == old(versions) + [Latest(old(versions)) + [cid]]
      ensures versionCounter == old(versionCounter) + 1
      ensures newVersion == versionCounter && 0 < newVersion < |versions|
      ensures versions[newVersion] == Latest(old(versions)) + [cid]
    {
      AppendKeepsChain(versions, cid);
      var base := versions[|versions| - 1] + [cid];
      versions := versions + [base];
      versionCounter := versionCounter + 1;
      newVersion := versionCounter;
    }

    /**
     * A shallow copy of the history. The source's version-0 entry is a
     * mutable list shared with the caller; the model treats entries as values.
     */
    method GetVersions() returns (r: seq<seq<string>>)
      requires Valid()
      ensures r == versions
      ensures IsChain(r) && PrefixesOfLatest(r)
    {
      ChainEntriesArePrefixes(versions);
      r := versions;
    }
  }
}
