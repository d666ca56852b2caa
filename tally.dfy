// Counting prepare-response votes by hash, as the leader does before it
// decides whether a round commits.

module Tally {

  datatype Option<T> = None | Some(value: T)

  /** Number of votes in `hashes` that report `h`. */
  function Occurrences(hashes: seq<string>, h: string): (n: nat)
    ensures n <= |hashes|
    ensures n > 0 <==> h in hashes
  {
    if hashes == [] then 0
    else Occurrences(hashes[..|hashes| - 1], h) + (if hashes[|hashes| - 1] == h then 1 else 0)
  }

  /** Number of votes in `hashes` whose hash is one of `keys`. */
  function OccurrencesIn(hashes: seq<string>, keys: set<string>): nat
  {
    if hashes == [] then 0
    else OccurrencesIn(hashes[..|hashes| - 1], keys) + (if hashes[|hashes| - 1] in keys then 1 else 0)
  }

  /** Builds the hash -> count map of a vote list, one vote at a time. */
  method CountHashes(hashes: seq<string>) returns (counts: map<string, nat>)
    ensures counts.Keys == set h | h in hashes
    ensures forall h :: h in counts ==> counts[h] == Occurrences(hashes, h)
  {
    counts := map[];
    for i := 0 to |hashes|
      invariant counts.Keys == set h | h in hashes[..i]
      invariant forall h :: h in counts ==> counts[h] == Occurrences(hashes[..i], h)
    {
      var hash := hashes[i];
      assert hashes[..i + 1][..i] == hashes[..i];
      var prior := if hash in counts then counts[hash] else 0;
      counts := counts[hash := prior + 1];
    }
    assert hashes[..|hashes|] == hashes;
  }

  /**
   * The first candidate, in the order given, whose count reaches `threshold`.
   * The source takes the first such entry of a hash map, whose order is
   * unspecified; the contract below does not depend on the order.
   */
  function MajorityHash(counts: map<string, nat>, candidates: seq<string>, threshold: int): (r: Option<string>)
    ensures r.Some? ==> r.value in candidates && r.value in counts && counts[r.value] >= threshold
    ensures r.None? <==> forall i :: 0 <= i < |candidates| && candidates[i] in counts ==> counts[candidates[i]] < threshold
  {
    if candidates == [] then None
    else if candidates[0] in counts && counts[candidates[0]] >= threshold then Some(candidates[0])
    else MajorityHash(counts, candidates[1..], threshold)
  }

  /** Some recorded vote's hash is reported at least `threshold` times. */
  ghost predicate HasMajority(hashes: seq<string>, threshold: int)
  {
    exists i :: 0 <= i < |hashes| && Occurrences(hashes, hashes[i]) >= threshold
  }

  /**
   * The decision part of a round: no winner for an empty list, otherwise
   * count the votes and pick a hash whose count reaches the threshold.
   */
  method TallyVotes(hashes: seq<string>, threshold: int) returns (winner: Option<string>)
    ensures winner.None? <==> !HasMajority(hashes, threshold)
    ensures winner.Some? ==> winner.value in hashes && Occurrences(hashes, winner.value) >= threshold
  {
    if hashes == [] {
      return None;
    }
    var counts := CountHashes(hashes);
    winner := MajorityHash(counts, hashes, threshold);
    if winner.None? {
      forall i | 0 <= i < |hashes|
        ensures Occurrences(hashes, hashes[i]) < threshold
      {
        assert hashes[i] in counts;
      }
    }
  }

  // ---------------------------------------------------------------------
  // The counts of a tally add up to the number of votes.

  ghost function Pick(keys: set<string>): (k: string)
    requires keys != {}
    ensures k in keys
  {
    var k :| k in keys; k
  }

  /** Sum of `counts[k]` over `keys`. */
  ghost function SumOver(counts: map<string, nat>, keys: set<string>): nat
    requires keys <= counts.Keys
    decreases keys
  {
    if keys == {} then 0
    else
      var k := Pick(keys);
      counts[k] + SumOver(counts, keys - {k})
  }

  lemma {:induction false} OccurrencesInSplit(hashes: seq<string>, keys: set<string>, k: string)
    requires k in keys
    ensures OccurrencesIn(hashes, keys) == Occurrences(hashes, k) + OccurrencesIn(hashes, keys - {k})
  {
    if hashes != [] {
      OccurrencesInSplit(hashes[..|hashes| - 1], keys, k);
    }
  }

  lemma {:induction false} OccurrencesInAll(hashes: seq<string>, keys: set<string>)
    requires forall i :: 0 <= i < |hashes| ==> hashes[i] in keys
    ensures OccurrencesIn(hashes, keys) == |hashes|
  {
    if hashes != [] {
      OccurrencesInAll(hashes[..|hashes| - 1], keys);
    }
  }

  lemma {:induction false} SumOverCounts(hashes: seq<string>, counts: map<string, nat>, keys: set<string>)
    requires keys <= counts.Keys
    requires forall h :: h in keys ==> counts[h] == Occurrences(hashes, h)
    ensures SumOver(counts, keys) == OccurrencesIn(hashes, keys)
    decreases keys
  {
    if keys == {} {
      OccurrencesInEmpty(hashes, keys);
    } else {
      var k := Pick(keys);
      SumOverCounts(hashes, counts, keys - {k});
      OccurrencesInSplit(hashes, keys, k);
    }
  }

  lemma {:induction false} OccurrencesInEmpty(hashes: seq<string>, keys: set<string>)
    requires keys == {}
    ensures OccurrencesIn(hashes, keys) == 0
  {
    if hashes != [] {
      OccurrencesInEmpty(hashes[..|hashes| - 1], keys);
    }
  }

  /** The counts built by the tally loop sum to the number of recorded votes. */
  lemma CountsSumToLength(hashes: seq<string>, counts: map<string, nat>)
    requires counts.Keys == set h | h in hashes
    requires forall h :: h in counts ==> counts[h] == Occurrences(hashes, h)
    ensures SumOver(counts, counts.Keys) == |hashes|
  {
    SumOverCounts(hashes, counts, counts.Keys);
    OccurrencesInAll(hashes, counts.Keys);
  }

  /** Two different hashes together cannot be reported more often than there are votes. */
  lemma {:induction false} OccurrencesOfTwo(hashes: seq<string>, a: string, b: string)
    requires a != b
    ensures Occurrences(hashes, a) + Occurrences(hashes, b) <= |hashes|
  {
    if hashes != [] {
      OccurrencesOfTwo(hashes[..|hashes| - 1], a, b);
    }
  }
}
