/** The ranking operation: score every candidate in batch order, sort the
    scores by overall score, highest first, keeping batch order among equal
    scores (Python's `sorted` is stable), and number the results from 1. */
module Ranker {
  import opened Anonymizer
  import opened Scoring

  /** One entry of the `scores` list: the batch index and the candidate's score. */
  datatype Scored = Scored(candidateIndex: nat, score: CandidateScore)

  datatype RankedResult = RankedResult(candidateIndex: nat, score: CandidateScore, rankPosition: nat)

  /** The semantic similarity the embedder and cosine similarity would supply,
      given the job description and the anonymized resume text. */
  type Similarity = (string, string) -> real

  /** `_score_candidate` for candidate `k` of the batch. */
  function ScoreOf(jobDescription: string, candidate: Profile, similarity: Similarity): CandidateScore
  {
    ScoreCandidate(jobDescription, candidate, similarity(jobDescription, Anonymize(candidate.rawText)))
  }

  /** Scoring as a function of the candidate alone, for one posting. */
  function Scorer(jobDescription: string, similarity: Similarity): Profile -> CandidateScore
  {
    candidate => ScoreOf(jobDescription, candidate, similarity)
  }

  /** Each candidate paired with its batch index and its score. */
  function Enumerate(candidates: seq<Profile>, score: Profile -> CandidateScore): (r: seq<Scored>)
    ensures |r| == |candidates|
    ensures forall k :: 0 <= k < |r| ==> r[k] == Scored(k, score(candidates[k]))
  {
    seq(|candidates|, k requires 0 <= k < |candidates| => Scored(k, score(candidates[k])))
  }

  /** The `scores` list built by the enumerating loop, in batch order. */
  function ScoreAll(jobDescription: string, candidates: seq<Profile>, similarity: Similarity): (r: seq<Scored>)
    ensures |r| == |candidates|
    ensures forall k :: 0 <= k < |r| ==> r[k] == Scored(k, ScoreOf(jobDescription, candidates[k], similarity))
  {
    Enumerate(candidates, Scorer(jobDescription, similarity))
  }

  /** The similarity only ever sees resume text that contains no e-mail: two
      similarity functions that agree on all such texts give every candidate
      the same score. */
  lemma ScoreSeesNoEmail(jobDescription: string, candidate: Profile, similarity: Similarity, other: Similarity)
    requires forall t :: !ContainsEmail(t) ==> similarity(jobDescription, t) == other(jobDescription, t)
    ensures ScoreOf(jobDescription, candidate, similarity) == ScoreOf(jobDescription, candidate, other)
  {
    NoEmailRemains(candidate.rawText);
  }

  /** `x` comes before `y` in the sorted list: a higher overall score, or an
      equal one and an earlier batch index. */
  predicate RanksAhead(x: Scored, y: Scored)
  {
    x.score.overallScore > y.score.overallScore
    || (x.score.overallScore == y.score.overallScore && x.candidateIndex < y.candidateIndex)
  }

  predicate RankedOrder(s: seq<Scored>)
  {
    forall i, j :: 0 <= i < j < |s| ==> RanksAhead(s[i], s[j])
  }

  /** Batch indices strictly increase along the list. */
  predicate BatchOrder(s: seq<Scored>)
  {
    forall i, j :: 0 <= i < j < |s| ==> s[i].candidateIndex < s[j].candidateIndex
  }

  /** Ranking order is a strict order that decides between any two entries
      with different batch indices. */
  lemma RanksAheadStrictTotal(x: Scored, y: Scored)
    ensures !(RanksAhead(x, y) && RanksAhead(y, x))
    ensures x.candidateIndex != y.candidateIndex ==> RanksAhead(x, y) || RanksAhead(y, x)
  {
  }

  /** Ranking order is transitive. */
  lemma RanksAheadTransitive(x: Scored, y: Scored, z: Scored)
    requires RanksAhead(x, y) && RanksAhead(y, z)
    ensures RanksAhead(x, z)
  {
  }

  /** Neighbouring entries among the first `n` are in ranked order. */
  ghost predicate SortedPrefix(s: seq<Scored>, n: nat)
  {
    forall p :: 0 < p < n && p < |s| ==> RanksAhead(s[p - 1], s[p])
  }

  /** A sorted prefix is in ranked order pair by pair. */
  lemma {:induction false} SortedPrefixRanked(s: seq<Scored>, n: nat)
    requires n <= |s| && SortedPrefix(s, n)
    ensures forall p, q :: 0 <= p < q < n ==> RanksAhead(s[p], s[q])
    decreases n
  {
    if n > 1 {
      SortedPrefixRanked(s, n - 1);
      forall p | 0 <= p < n - 1 ensures RanksAhead(s[p], s[n - 1]) {
        if p < n - 2 {
          RanksAheadTransitive(s[p], s[n - 2], s[n - 1]);
        }
      }
    }
  }

  /** Every batch index among the first `n` entries is below that of entry `n`. */
  ghost predicate IndicesBelow(s: seq<Scored>, n: nat)
  {
    n < |s| ==> forall p :: 0 <= p < n ==> s[p].candidateIndex < s[n].candidateIndex
  }

  /** The state of one insertion pass: entry `x` sits at `j`; ignoring it, the
      first `i + 1` entries are in ranked order; everything it has moved past
      scores strictly lower; and every other entry among them has an earlier
      batch index. */
  ghost predicate Inserting(s: seq<Scored>, i: nat, j: nat, x: Scored)
  {
    && j <= i < |s|
    && s[j] == x
    && (forall p :: 0 < p <= i && p != j && p != j + 1 ==> RanksAhead(s[p - 1], s[p]))
    && (0 < j < i ==> RanksAhead(s[j - 1], s[j + 1]))
    && (forall q :: j < q <= i ==> s[q].score.overallScore < x.score.overallScore)
    && (forall p :: 0 <= p <= i && p != j ==> s[p].candidateIndex < x.candidateIndex)
  }

  lemma InsertingStart(s: seq<Scored>, i: nat)
    requires 0 < i < |s| && SortedPrefix(s, i) && IndicesBelow(s, i)
    ensures Inserting(s, i, i, s[i])
  {
  }

  lemma InsertingStep(s: seq<Scored>, i: nat, j: nat, x: Scored)
    requires Inserting(s, i, j, x) && 0 < j
    requires s[j - 1].score.overallScore < x.score.overallScore
    ensures Inserting(s[j - 1 := x][j := s[j - 1]], i, j - 1, x)
  {
    var t := s[j - 1 := x][j := s[j - 1]];
    forall p | 0 < p <= i && p != j - 1 && p != j ensures RanksAhead(t[p - 1], t[p]) {
      if p == j + 1 {
        assert t[p - 1] == s[j - 1] && t[p] == s[j + 1];
      } else {
        assert t[p - 1] == s[p - 1] && t[p] == s[p];
      }
    }
    if 0 < j - 1 {
      assert t[j - 2] == s[j - 2] && t[j] == s[j - 1];
    }
  }

  lemma InsertingDone(s: seq<Scored>, i: nat, j: nat, x: Scored)
    requires Inserting(s, i, j, x)
    requires j == 0 || s[j - 1].score.overallScore >= x.score.overallScore
    requires i + 1 < |s| ==> x.candidateIndex < s[i + 1].candidateIndex
    ensures SortedPrefix(s, i + 1) && IndicesBelow(s, i + 1)
  {
  }

  /** Exchanging two neighbours keeps the multiset of entries. */
  lemma SwapKeepsMultiset(s: seq<Scored>, j: nat)
    requires 0 < j < |s|
    ensures multiset(s[j - 1 := s[j]][j := s[j - 1]]) == multiset(s)
  {
  }

  /** One pass of the insertion sort: the entry at `i` moves left past every
      entry with a strictly lower score, and stops behind an equal one. */
  method InsertAt(a: array<Scored>, i: nat)
    requires 0 < i < a.Length
    requires SortedPrefix(a[..], i) && IndicesBelow(a[..], i)
    requires i + 1 < a.Length ==> a[i].candidateIndex < a[i + 1].candidateIndex
    modifies a
    ensures multiset(a[..]) == old(multiset(a[..]))
    ensures SortedPrefix(a[..], i + 1) && IndicesBelow(a[..], i + 1)
    ensures forall q :: i < q < a.Length ==> a[q] == old(a[q])
  {
    ghost var x := a[i];
    InsertingStart(a[..], i);
    var j := i;
    while j > 0 && a[j - 1].score.overallScore < a[j].score.overallScore
      invariant Inserting(a[..], i, j, x)
      invariant multiset(a[..]) == old(multiset(a[..]))
      invariant forall q :: i < q < a.Length ==> a[q] == old(a[q])
    {
      ghost var s := a[..];
      InsertingStep(s, i, j, x);
      SwapKeepsMultiset(s, j);
      a[j - 1], a[j] := a[j], a[j - 1];
      assert a[..] == s[j - 1 := x][j := s[j - 1]];
      j := j - 1;
    }
    InsertingDone(a[..], i, j, x);
  }

  /** Stable insertion sort, highest overall score first. */
  method SortByScore(a: array<Scored>)
    requires BatchOrder(a[..])
    modifies a
    ensures multiset(a[..]) == old(multiset(a[..]))
    ensures RankedOrder(a[..])
  {
    if a.Length == 0 {
      return;
    }
    var i := 1;
    while i < a.Length
      invariant 1 <= i <= a.Length
      invariant multiset(a[..]) == old(multiset(a[..]))
      invariant SortedPrefix(a[..], i) && IndicesBelow(a[..], i)
      invariant forall q :: i <= q < a.Length ==> a[q] == old(a[q])
    {
      InsertAt(a, i);
      i := i + 1;
    }
    SortedPrefixRanked(a[..], a.Length);
  }

  /** The scored entries of a ranked list, without their positions. */
  function Unranked(results: seq<RankedResult>): (r: seq<Scored>)
    ensures |r| == |results|
    ensures forall i :: 0 <= i < |r| ==>
      r[i].candidateIndex == results[i].candidateIndex && r[i].score == results[i].score
  {
    seq(|results|, i requires 0 <= i < |results| => Scored(results[i].candidateIndex, results[i].score))
  }

  /** The enumerating loop of `rank`: score each candidate, in batch order. */
  method ScoreBatch(candidates: seq<Profile>, score: Profile -> CandidateScore) returns (scores: seq<Scored>)
    ensures scores == Enumerate(candidates, score)
  {
    scores := [];
    var idx := 0;
    while idx < |candidates|
      invariant 0 <= idx <= |candidates|
      invariant |scores| == idx
      invariant forall k :: 0 <= k < idx ==> scores[k] == Scored(k, score(candidates[k]))
    {
      scores := scores + [Scored(idx, score(candidates[idx]))];
      idx := idx + 1;
    }
  }

  /** The sort and the numbering of `rank`: the results are the given entries,
      reordered so that overall scores never increase and equal scores keep
      batch order, and the i-th result has rank position i + 1. */
  method RankScores(scores: seq<Scored>) returns (results: seq<RankedResult>)
    requires BatchOrder(scores)
    ensures |results| == |scores|
    ensures multiset(Unranked(results)) == multiset(scores)
    ensures RankedOrder(Unranked(results))
    ensures forall i :: 0 <= i < |results| ==> results[i].rankPosition == i + 1
  {
    var a := new Scored[|scores|](k requires 0 <= k < |scores| => scores[k]);
    assert a[..] == scores;
    SortByScore(a);

    results := [];
    var i := 0;
    while i < a.Length
      invariant 0 <= i <= a.Length
      invariant |results| == i
      invariant forall k :: 0 <= k < i ==> results[k] == RankedResult(a[k].candidateIndex, a[k].score, k + 1)
    {
      results := results + [RankedResult(a[i].candidateIndex, a[i].score, i + 1)];
      i := i + 1;
    }
    assert Unranked(results) == a[..];
  }

  /** `rank`: score the batch, then sort and number the scores. Overall scores
      never increase along the results, equal scores keep batch order, and the
      i-th result has rank position i + 1. */
  method Rank(jobDescription: string, candidates: seq<Profile>, similarity: Similarity)
    returns (results: seq<RankedResult>)
    ensures |results| == |candidates|
    ensures multiset(Unranked(results)) == multiset(ScoreAll(jobDescription, candidates, similarity))
    ensures forall i, j :: 0 <= i < j < |results| ==>
      results[i].score.overallScore >= results[j].score.overallScore
    ensures forall i, j :: 0 <= i < j < |results| && results[i].score.overallScore == results[j].score.overallScore ==>
      results[i].candidateIndex < results[j].candidateIndex
    ensures forall i :: 0 <= i < |results| ==> results[i].rankPosition == i + 1
  {
    var scores := ScoreBatch(candidates, Scorer(jobDescription, similarity));
    results := RankScores(scores);
    assert forall i, j :: 0 <= i < j < |results| ==> RanksAhead(Unranked(results)[i], Unranked(results)[j]);
  }

  // ---------------------------------------------------------------------------
  // What the contract of Rank implies.

  lemma {:induction false} MultiplicityOfDistinct(s: seq<Scored>, x: Scored)
    requires BatchOrder(s)
    ensures multiset(s)[x] <= 1
    decreases |s|
  {
    if |s| > 0 {
      var init := s[..|s| - 1];
      assert s == init + [s[|s| - 1]];
      MultiplicityOfDistinct(init, x);
      if x == s[|s| - 1] {
        assert x !in init by {
          forall k | 0 <= k < |init| ensures init[k] != x {
            assert init[k].candidateIndex < s[|s| - 1].candidateIndex;
          }
        }
      }
    }
  }

  lemma TwoPositions(s: seq<Scored>, i: nat, j: nat)
    requires i < j < |s| && s[i] == s[j]
    ensures multiset(s)[s[i]] >= 2
  {
    assert s == s[..j] + [s[j]] + s[j + 1..];
    assert s[..j][i] == s[i];
    assert s[i] in multiset(s[..j]);
  }

  /** The batch indices appearing in a list of entries. */
  function IndicesOf(s: seq<Scored>): set<nat>
  {
    set i | 0 <= i < |s| :: s[i].candidateIndex
  }

  /** Entry `k` of the list is candidate `k`'s. */
  predicate Enumerated(all: seq<Scored>)
  {
    forall k :: 0 <= k < |all| ==> all[k].candidateIndex == k
  }

  /** A permutation of the enumerated scores holds every candidate exactly
      once, each with its own score: the batch indices are exactly 0 .. N-1. */
  lemma PermutationOfScores(all: seq<Scored>, s: seq<Scored>)
    requires Enumerated(all)
    requires multiset(s) == multiset(all)
    ensures |s| == |all|
    ensures forall i :: 0 <= i < |s| ==> s[i].candidateIndex < |all| && s[i] == all[s[i].candidateIndex]
    ensures forall k :: 0 <= k < |all| ==> all[k] in s
    ensures forall k :: k in IndicesOf(s) <==> 0 <= k < |all|
    ensures forall i, j :: 0 <= i < j < |s| ==> s[i].candidateIndex != s[j].candidateIndex
  {
    assert |s| == |multiset(s)| == |all|;
    forall i | 0 <= i < |s| ensures s[i].candidateIndex < |all| && s[i] == all[s[i].candidateIndex] {
      assert s[i] in multiset(all);
      var k :| 0 <= k < |all| && all[k] == s[i];
    }
    forall k | 0 <= k < |all| ensures all[k] in s && k in IndicesOf(s) {
      assert all[k] in multiset(s);
      var i :| 0 <= i < |s| && s[i] == all[k];
    }
    forall i, j | 0 <= i < j < |s| ensures s[i].candidateIndex != s[j].candidateIndex {
      if s[i].candidateIndex == s[j].candidateIndex {
        TwoPositions(s, i, j);
        assert BatchOrder(all);
        MultiplicityOfDistinct(all, s[i]);
      }
    }
  }

  /** The rank positions appearing in a list of results. */
  function PositionsOf(results: seq<RankedResult>): set<nat>
  {
    set i | 0 <= i < |results| :: results[i].rankPosition
  }

  /** The rank positions of a ranked batch of N are exactly 1 .. N, each used once. */
  lemma RankPositionsContiguous(results: seq<RankedResult>)
    requires forall i :: 0 <= i < |results| ==> results[i].rankPosition == i + 1
    ensures forall p :: p in PositionsOf(results) <==> 1 <= p <= |results|
    ensures forall i, j :: 0 <= i < j < |results| ==> results[i].rankPosition != results[j].rankPosition
  {
    forall p | 1 <= p <= |results| ensures p in PositionsOf(results) {
      assert results[p - 1].rankPosition == p;
    }
  }

  /** Ranked order and the multiset of entries determine the list: the ranking
      of a batch is unique, whatever algorithm produced it. */
  lemma RankedOrderHead(s: seq<Scored>, t: seq<Scored>)
    requires RankedOrder(s) && RankedOrder(t)
    requires multiset(s) == multiset(t) && |s| > 0
    ensures |t| > 0 && s[0] == t[0]
  {
    assert s[0] in multiset(t);
    var m :| 0 <= m < |t| && t[m] == s[0];
    assert t[0] in multiset(s);
    var k :| 0 <= k < |s| && s[k] == t[0];
    assert m == 0 || k == 0;
  }

  lemma {:induction false} RankedOrderUnique(s: seq<Scored>, t: seq<Scored>)
    requires RankedOrder(s) && RankedOrder(t)
    requires multiset(s) == multiset(t)
    ensures s == t
    decreases |s|
  {
    assert |s| == |multiset(s)| == |t|;
    if |s| > 0 {
      RankedOrderHead(s, t);
      assert s == [s[0]] + s[1..] && t == [t[0]] + t[1..];
      assert multiset(s[1..]) == multiset(s) - multiset{s[0]};
      assert multiset(t[1..]) == multiset(t) - multiset{t[0]};
      RankedOrderUnique(s[1..], t[1..]);
    }
  }

  /** Three candidates scoring 0.2, 0.9 and 0.9 in batch order rank as the
      second, the third, then the first. */
  lemma TieKeepsBatchOrder(a: CandidateScore, b: CandidateScore, c: CandidateScore, out: seq<Scored>)
    requires a.overallScore == 0.2 && b.overallScore == 0.9 && c.overallScore == 0.9
    requires multiset(out) == multiset([Scored(0, a), Scored(1, b), Scored(2, c)])
    requires RankedOrder(out)
    ensures out == [Scored(1, b), Scored(2, c), Scored(0, a)]
  {
    var expected := [Scored(1, b), Scored(2, c), Scored(0, a)];
    assert multiset(expected) == multiset([Scored(0, a), Scored(1, b), Scored(2, c)]);
    RankedOrderUnique(out, expected);
  }
}
