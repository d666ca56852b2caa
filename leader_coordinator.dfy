// The leader's half of the two-phase update: it records prepare responses
// (votes) per version, waits on a per-version countdown, and commits a
// version only when one hash reaches the majority threshold.

module Coordination {
  import opened Tally

  /** What the leader publishes on the update topic. */
  datatype Message = UpdateRequest(version: int, cid: string) | Commit(version: int)

  /** Java's `n / 2` on an int: division truncating toward zero. */
  function Half(n: int): (h: int)
    ensures n >= 0 ==> 2 * h <= n < 2 * h + 2
    ensures n < 0 ==> 2 * h - 2 < n <= 2 * h
  {
    if n >= 0 then n / 2 else -((-n) / 2)
  }

  /** Votes needed to commit: `totalPeers / 2 + 1`. */
  function MajorityThreshold(totalPeers: int): (t: int)
    ensures 2 * t > totalPeers
    ensures totalPeers >= 0 ==> 2 * (t - 1) <= totalPeers
    ensures totalPeers >= 1 ==> 1 <= t <= totalPeers
    ensures t >= 0 <==> totalPeers >= -3
  {
    Half(totalPeers) + 1
  }

  /**
   * A strict majority is unique: when no more votes were recorded than there
   * are peers, at most one hash can reach the threshold.
   */
  lemma MajorityIsUnique(hashes: seq<string>, totalPeers: int, a: string, b: string)
    requires |hashes| <= totalPeers
    requires Occurrences(hashes, a) >= MajorityThreshold(totalPeers)
    requires Occurrences(hashes, b) >= MajorityThreshold(totalPeers)
    ensures a == b
  {
    if a != b {
      OccurrencesOfTwo(hashes, a, b);
    }
  }

  /** The votes recorded for `version`; an absent list reads as empty. */
  function VotesFor(responses: map<int, seq<string>>, version: int): seq<string>
  {
    if version in responses then responses[version] else []
  }

  /** `CountDownLatch.countDown`: one less, but never below zero. */
  function CountDown(remaining: nat): (r: nat)
    ensures remaining > 0 ==> r + 1 == remaining
    ensures remaining == 0 ==> r == 0
  {
    if remaining == 0 then 0 else remaining - 1
  }

  class LeaderCoordinator {
    const totalPeers: int
    const majorityThreshold: int
    /** version -> hashes reported by prepare responses, duplicates kept */
    var prepareResponses: map<int, seq<string>>
    /** version -> remaining count of the latch a round waits on */
    var versionLatches: map<int, nat>
    /** messages published on the update topic, oldest first */
    var published: seq<Message>

    constructor (totalPeers: int)
      ensures this.totalPeers == totalPeers
      ensures majorityThreshold == MajorityThreshold(totalPeers)
      ensures prepareResponses == map[] && versionLatches == map[] && published == []
    {
      this.totalPeers := totalPeers;
      majorityThreshold := Half(totalPeers) + 1;
      prepareResponses := map[];
      versionLatches := map[];
      published := [];
    }

    /**
     * A prepare response for `version` reporting `hash`: the hash is appended
     * to that version's list (created if absent), and the version's latch,
     * if a round registered one, is counted down.
     */
    method HandlePrepareResponse(version: int, hash: string)
      modifies this`prepareResponses, this`versionLatches
      ensures prepareResponses == old(prepareResponses)[version := VotesFor(old(prepareResponses), version) + [hash]]
      ensures version in old(versionLatches) ==>
                versionLatches == old(versionLatches)[version := CountDown(old(versionLatches)[version])]
      ensures version !in old(versionLatches) ==> versionLatches == old(versionLatches)
    {
      var list := if version in prepareResponses then prepareResponses[version] else [];
      prepareResponses := prepareResponses[version := list + [hash]];
      if version in versionLatches {
        versionLatches := versionLatches[version := CountDown(versionLatches[version])];
      }
    }

    /** Drops the round bookkeeping of `version` and nothing else. */
    method Cleanup(version: int)
      modifies this`prepareResponses, this`versionLatches
      ensures prepareResponses == old(prepareResponses) - {version}
      ensures versionLatches == old(versionLatches) - {version}
      ensures forall v :: v != version && v in old(prepareResponses) ==>
                v in prepareResponses && prepareResponses[v] == old(prepareResponses)[v]
      ensures forall v :: v != version && v in old(versionLatches) ==>
                v in versionLatches && versionLatches[v] == old(versionLatches)[v]
    {
      prepareResponses := prepareResponses - {version};
      versionLatches := versionLatches - {version};
    }

    /**
     * One round for `version`. The environment supplies what the code cannot
     * decide by itself: whether publishing the update request succeeds
     * (`requestSent`), the votes for `version` that the subscriber delivers
     * while the leader waits (`votesDuringWait`), what the bounded wait
     * returns (`receivedMajority`), whether a vote for `version` is added
     * to the list while the tally loop iterates over it, so that the
     * iteration throws (`tallyRaced`), and whether publishing the commit
     * succeeds (`commitSent`).
     */
    method CoordinateUpdate(version: int, cid: string, requestSent: bool,
                            votesDuringWait: seq<string>, receivedMajority: bool,
                            tallyRaced: bool, commitSent: bool)
      returns (ok: bool)
      modifies this`prepareResponses, this`versionLatches, this`published
      ensures prepareResponses == old(prepareResponses) - {version}
      ensures versionLatches == old(versionLatches) - {version}
      ensures ok <==> requestSent && majorityThreshold >= 0 && receivedMajority && !tallyRaced && commitSent &&
                      HasMajority(VotesFor(old(prepareResponses), version) + votesDuringWait, majorityThreshold)
      ensures published == old(published)
                           + (if requestSent then [UpdateRequest(version, cid)] else [])
                           + (if ok then [Commit(version)] else [])
    {
      if !requestSent {
        // publishUpdateRequest threw
        Cleanup(version);
        return false;
      }
      published := published + [UpdateRequest(version, cid)];
      if majorityThreshold < 0 {
        // a CountDownLatch with a negative count cannot be created
        Cleanup(version);
        return false;
      }
      versionLatches := versionLatches[version := majorityThreshold];

      ghost var before := VotesFor(old(prepareResponses), version);
      ghost var othersVotes := old(prepareResponses) - {version};
      ghost var othersLatches := old(versionLatches) - {version};
      var i := 0;
      while i < |votesDuringWait|
        invariant 0 <= i <= |votesDuringWait|
        invariant VotesFor(prepareResponses, version) == before + votesDuringWait[..i]
        invariant prepareResponses - {version} == othersVotes
        invariant version in versionLatches
        invariant versionLatches - {version} == othersLatches
        invariant published == old(published) + [UpdateRequest(version, cid)]
      {
        HandlePrepareResponse(version, votesDuringWait[i]);
        assert votesDuringWait[..i + 1] == votesDuringWait[..i] + [votesDuringWait[i]];
        i := i + 1;
      }
      assert votesDuringWait[..i] == votesDuringWait;

      if !receivedMajority {
        Cleanup(version);
        return false;
      }
      var hashes := VotesFor(prepareResponses, version);
      if hashes != [] && tallyRaced {
        // the list changed under the tally loop; the catch path runs
        Cleanup(version);
        return false;
      }
      var winner := TallyVotes(hashes, majorityThreshold);
      if winner.None? || !commitSent {
        // no hash reached the threshold, or publishCommit threw
        Cleanup(version);
        return false;
      }
      published := published + [Commit(version)];
      Cleanup(version);
      ok := true;
    }
  }

  /**
   * Quorum safety: when a round commits, some recorded hash was reported by
   * more than `totalPeers / 2` of the recorded vote messages. Messages carry
   * no peer identity, so this counts messages, not distinct peers. That only
   * one hash can do so when there are no more messages than peers is
   * `MajorityIsUnique`.
   */
  lemma CommitHasMajorityHash(hashes: seq<string>, totalPeers: int)
    requires HasMajority(hashes, MajorityThreshold(totalPeers))
    ensures exists h :: h in hashes && 2 * Occurrences(hashes, h) > totalPeers
  {
    var i :| 0 <= i < |hashes| && Occurrences(hashes, hashes[i]) >= MajorityThreshold(totalPeers);
    assert hashes[i] in hashes;
  }
}
