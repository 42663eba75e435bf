/**
 Class ranking of assessment results: competition ranking over a stable sort, with the
 last score and last rank carried along the walk. A score may be absent; the sort then
 counts it as zero, while the walk compares scores as they are.
 */
module Ranking {
  import opened Common

  datatype StudentResult = StudentResult(id: string, studentId: string, score: Option<real>, rankInClass: Option<nat>)

  function Key(r: StudentResult): real {
    if r.score.Some? then r.score.value else 0.0
  }

  // ----- The sort: descending by key, stable -----

  function Insert(sorted: seq<StudentResult>, r: StudentResult): seq<StudentResult> {
    if sorted == [] || Key(sorted[|sorted| - 1]) >= Key(r) then sorted + [r]
    else Insert(sorted[..|sorted| - 1], r) + [sorted[|sorted| - 1]]
  }

  function Sorted(results: seq<StudentResult>): seq<StudentResult> {
    if results == [] then [] else Insert(Sorted(results[..|results| - 1]), results[|results| - 1])
  }

  ghost predicate Descending(s: seq<StudentResult>) {
    forall i, j | 0 <= i < j < |s| :: Key(s[i]) >= Key(s[j])
  }

  /** The results of one key, in order. */
  function WithKey(s: seq<StudentResult>, key: real): seq<StudentResult> {
    if s == [] then []
    else WithKey(s[..|s| - 1], key) + if Key(s[|s| - 1]) == key then [s[|s| - 1]] else []
  }

  lemma {:induction false} InsertAdds(s: seq<StudentResult>, r: StudentResult)
    ensures multiset(Insert(s, r)) == multiset(s) + multiset{r}
    decreases |s|
  {
    if s != [] {
      var front, last := s[..|s| - 1], s[|s| - 1];
      assert s == front + [last];
      InsertAdds(front, r);
    }
  }

  lemma {:induction false} InsertSorts(s: seq<StudentResult>, r: StudentResult)
    requires Descending(s)
    ensures Descending(Insert(s, r))
    decreases |s|
  {
    if s != [] && Key(s[|s| - 1]) < Key(r) {
      var front, last := s[..|s| - 1], s[|s| - 1];
      InsertSorts(front, r);
      InsertAdds(front, r);
      var t := Insert(front, r);
      forall i | 0 <= i < |t|
        ensures Key(t[i]) >= Key(last)
      {
        assert t[i] in multiset(t);
        assert t[i] == r || t[i] in multiset(front);
      }
    }
  }

  lemma {:induction false} InsertIsStable(s: seq<StudentResult>, r: StudentResult, key: real)
    ensures WithKey(Insert(s, r), key) == WithKey(s, key) + if Key(r) == key then [r] else []
    decreases |s|
  {
    if s == [] || Key(s[|s| - 1]) >= Key(r) {
      assert (s + [r])[..|s|] == s;
    } else {
      var front, last := s[..|s| - 1], s[|s| - 1];
      InsertIsStable(front, r, key);
      var t := Insert(front, r);
      assert (t + [last])[..|t|] == t;
    }
  }

  /** The sort is a stable permutation into descending order. */
  lemma {:induction false} SortIsStable(results: seq<StudentResult>, key: real)
    ensures Descending(Sorted(results)) && multiset(Sorted(results)) == multiset(results)
    ensures WithKey(Sorted(results), key) == WithKey(results, key)
    decreases |results|
  {
    if results != [] {
      var front := results[..|results| - 1];
      assert results == front + [results[|results| - 1]];
      SortIsStable(front, key);
      InsertAdds(Sorted(front), results[|results| - 1]);
      InsertSorts(Sorted(front), results[|results| - 1]);
      InsertIsStable(Sorted(front), results[|results| - 1], key);
    }
  }

  // ----- The walk -----

  /** The rank the walk gives to position `j`. */
  function WalkRank(s: seq<StudentResult>, j: nat): nat
    requires j < |s|
  {
    if s[j].score == (if j == 0 then None else s[j - 1].score) then (if j == 0 then 0 else WalkRank(s, j - 1)) else j + 1
  }

  function Ranked(results: seq<StudentResult>): (out: seq<StudentResult>) {
    Walked(Sorted(results), |Sorted(results)|)
  }

  /** The first `n` results of a sorted list, with the ranks of the walk. */
  function Walked(s: seq<StudentResult>, n: nat): (out: seq<StudentResult>)
    requires n <= |s|
    ensures |out| == n
  {
    if n == 0 then [] else Walked(s, n - 1) + [WithRank(s, n - 1)]
  }

  lemma {:induction false} WalkedAt(s: seq<StudentResult>, n: nat, j: nat)
    requires j < n <= |s|
    ensures Walked(s, n)[j] == WithRank(s, j)
    decreases n
  {
    if j < n - 1 {
      WalkedAt(s, n - 1, j);
    }
  }

  function WithRank(s: seq<StudentResult>, j: nat): StudentResult
    requires j < |s|
  {
    s[j].(rankInClass := Some(WalkRank(s, j)))
  }

  method ComputeRanking(results: seq<StudentResult>) returns (out: seq<StudentResult>)
    ensures out == Ranked(results)
  {
    var sorted := Sorted(results);
    var lastScore: Option<real> := None;
    var lastRank := 0;
    out := [];
    for idx := 0 to |sorted|
      invariant out == Walked(sorted, idx)
      invariant lastScore == if idx == 0 then None else sorted[idx - 1].score
      invariant lastRank == if idx == 0 then 0 else WalkRank(sorted, idx - 1)
    {
      var r := sorted[idx];
      var currentRank := if r.score == lastScore then lastRank else idx + 1;
      lastScore := r.score;
      lastRank := currentRank;
      out := out + [r.(rankInClass := Some(currentRank))];
    }
  }

  // ----- What a rank means -----

  /** The number of results with a key strictly above `key`. */
  function CountAbove(s: seq<StudentResult>, key: real): nat {
    if s == [] then 0 else CountAbove(s[..|s| - 1], key) + if Key(s[|s| - 1]) > key then 1 else 0
  }

  lemma {:induction false} CountAboveOfPrefix(s: seq<StudentResult>, key: real, j: nat)
    requires j <= |s|
    requires forall i | 0 <= i < |s| :: Key(s[i]) > key <==> i < j
    ensures CountAbove(s, key) == j
    decreases |s|
  {
    if s != [] {
      CountAboveOfPrefix(s[..|s| - 1], key, if j == |s| then j - 1 else j);
    }
  }

  lemma {:induction false} CountAboveRemove(s: seq<StudentResult>, key: real, i: nat)
    requires i < |s|
    ensures CountAbove(s, key) == CountAbove(s[..i] + s[i + 1..], key) + if Key(s[i]) > key then 1 else 0
    decreases |s|
  {
    var front := s[..|s| - 1];
    if i == |s| - 1 {
      assert s[..i] + s[i + 1..] == front;
    } else {
      CountAboveRemove(front, key, i);
      assert (s[..i] + s[i + 1..])[..|s| - 2] == front[..i] + front[i + 1..];
    }
  }

  lemma RemoveOne(front: seq<StudentResult>, last: StudentResult, t: seq<StudentResult>, i: nat)
    requires multiset(front + [last]) == multiset(t) && i < |t| && t[i] == last
    ensures multiset(front) == multiset(t[..i] + t[i + 1..])
  {
    var rest := t[..i] + t[i + 1..];
    assert t == t[..i] + [last] + t[i + 1..];
    assert multiset(front) + multiset{last} == multiset(rest) + multiset{last};
    assert multiset(front) == multiset(front) + multiset{last} - multiset{last};
    assert multiset(rest) == multiset(rest) + multiset{last} - multiset{last};
  }

  lemma {:induction false} CountAboveOfPermutation(s: seq<StudentResult>, t: seq<StudentResult>, key: real)
    requires multiset(s) == multiset(t)
    ensures CountAbove(s, key) == CountAbove(t, key)
    decreases |s|
  {
    if s == [] {
      assert |multiset(t)| == 0;
    } else {
      var front, last := s[..|s| - 1], s[|s| - 1];
      assert s == front + [last];
      assert last in multiset(t);
      var i :| 0 <= i < |t| && t[i] == last;
      RemoveOne(front, last, t, i);
      CountAboveRemove(t, key, i);
      CountAboveOfPermutation(front, t[..i] + t[i + 1..], key);
    }
  }

  predicate CompetitionAt(results: seq<StudentResult>, r: StudentResult) {
    r.rankInClass == Some(1 + CountAbove(results, Key(r)))
  }

  /** A result's rank is one more than the number of strictly better results. */
  ghost predicate CompetitionRanks(results: seq<StudentResult>, out: seq<StudentResult>) {
    forall j: nat | j < |out| :: CompetitionAt(results, out[j])
  }

  /** No unscored result is mixed with one scored zero, and none leads the list. */
  predicate WellScored(results: seq<StudentResult>) {
    && (forall r, q | r in results && q in results :: r.score == None ==> q.score != Some(0.0))
    && ((exists r <- results :: r.score == None) ==> exists q <- results :: Key(q) > 0.0)
  }

  predicate AllScored(results: seq<StudentResult>) {
    forall r <- results :: r.score.Some?
  }

  lemma SameMembers(s: seq<StudentResult>, t: seq<StudentResult>)
    requires multiset(s) == multiset(t)
    ensures forall r :: r in s <==> r in t
  {
    forall r
      ensures r in s <==> r in t
    {
      assert r in s <==> r in multiset(s);
    }
  }

  predicate RightAt(s: seq<StudentResult>, j: nat)
    requires j < |s|
  {
    WalkRank(s, j) == 1 + CountAbove(s, Key(s[j]))
  }

  /** In a descending list the walk is right at `j` if it is right before and tells equal
      keys by equal scores. */
  lemma WalkRankStep(s: seq<StudentResult>, j: nat)
    requires Descending(s) && j < |s|
    ensures (j == 0 || Key(s[j - 1]) > Key(s[j])) ==> CountAbove(s, Key(s[j])) == j
    ensures j > 0 ==> CountAbove(s, Key(s[j])) <= j
    ensures (j > 0 && Key(s[j - 1]) == Key(s[j])) ==> CountAbove(s, Key(s[j])) < j
  {
    var first: nat := j;
    while first > 0 && Key(s[first - 1]) == Key(s[j])
      invariant 0 <= first <= j
      invariant forall i | first <= i <= j :: Key(s[i]) == Key(s[j])
    {
      first := first - 1;
    }
    CountAboveOfPrefix(s, Key(s[j]), first);
  }

  lemma {:induction false} WalkRankRight(s: seq<StudentResult>, j: nat)
    requires Descending(s) && WellScored(s) && j < |s|
    ensures RightAt(s, j)
  {
    WalkRankStep(s, j);
    if j > 0 {
      assert s[j - 1] in s && s[j] in s;
      if Key(s[j - 1]) == Key(s[j]) {
        assert s[j - 1].score == s[j].score;
        WalkRankRight(s, j - 1);
      }
    }
  }

  lemma {:induction false} ScoreChange(s: seq<StudentResult>, i: nat, j: nat) returns (p: nat)
    requires i < j < |s| && s[i].score != s[j].score
    ensures i < p <= j && s[p - 1].score != s[p].score
    decreases j - i
  {
    if s[j - 1].score != s[j].score {
      p := j;
    } else {
      p := ScoreChange(s, i, j - 1);
    }
  }

  lemma NotWellScoredGoesWrong(s: seq<StudentResult>)
    requires Descending(s) && !WellScored(s)
    ensures exists j | 0 <= j < |s| :: !RightAt(s, j)
  {
    assert s != [];
    if s[0].score == None {
      assert WalkRank(s, 0) == 0;
      assert !RightAt(s, 0);
    } else {
      var i, j := MixedPair(s);
      var p := ScoreChange(s, i, j);
      WalkRankStep(s, p);
      assert WalkRank(s, p) == p + 1;
      assert Key(s[p - 1]) == Key(s[p]) == 0.0;
      assert !RightAt(s, p);
    }
  }

  lemma MixedPair(s: seq<StudentResult>) returns (i: nat, j: nat)
    requires Descending(s) && !WellScored(s) && s[0].score != None
    ensures i < j < |s| && s[i].score != s[j].score && Key(s[i]) == Key(s[j]) == 0.0
  {
    if s[0].score == Some(0.0) {
      var r :| r in s && r.score == None;
      i := 0;
      j :| 0 <= j < |s| && s[j] == r;
    } else {
      var r, q :| r in s && q in s && r.score == None && q.score == Some(0.0);
      var a :| 0 <= a < |s| && s[a] == r;
      var b :| 0 <= b < |s| && s[b] == q;
      i, j := if a < b then a else b, if a < b then b else a;
    }
  }

  ghost predicate RightEverywhere(s: seq<StudentResult>) {
    forall j | 0 <= j < |s| :: RightAt(s, j)
  }

  lemma CompetesWhenRight(s: seq<StudentResult>, results: seq<StudentResult>, j: nat, r: StudentResult)
    requires j < |s| && CountAbove(s, Key(s[j])) == CountAbove(results, Key(s[j]))
    requires r == WithRank(s, j)
    ensures CompetitionAt(results, r) <==> RightAt(s, j)
  {
  }

  lemma WalkCompetes(s: seq<StudentResult>, results: seq<StudentResult>)
    requires multiset(s) == multiset(results)
    ensures CompetitionRanks(results, Walked(s, |s|)) <==> RightEverywhere(s)
  {
    var out := Walked(s, |s|);
    forall j: nat | j < |s|
      ensures CompetitionAt(results, out[j]) <==> RightAt(s, j)
    {
      CountAboveOfPermutation(s, results, Key(s[j]));
      WalkedAt(s, |s|, j);
      CompetesWhenRight(s, results, j, out[j]);
    }
  }

  /** The ranks are competition ranks, whatever the input order, exactly for the lists that
      are well scored: every list with all scores present, and those where the unscored
      come after a positive score and meet no zero. */
  lemma RanksRightExactly(results: seq<StudentResult>)
    ensures CompetitionRanks(results, Ranked(results)) <==> WellScored(results)
    ensures AllScored(results) ==> WellScored(results)
  {
    var s := Sorted(results);
    SortIsStable(results, 0.0);
    SameMembers(s, results);
    WellScoredMembers(s, results);
    WalkCompetes(s, results);
    if WellScored(s) {
      forall j | 0 <= j < |s|
        ensures RightAt(s, j)
      {
        WalkRankRight(s, j);
      }
    } else {
      NotWellScoredGoesWrong(s);
    }
  }

  lemma WellScoredMembers(s: seq<StudentResult>, t: seq<StudentResult>)
    requires forall r :: r in s <==> r in t
    ensures WellScored(s) == WellScored(t)
  {
  }

  /** Ranking only reorders and fills in ranks: the output is the sorted input, position by
      position, but for the rank. */
  lemma RankingKeepsResults(results: seq<StudentResult>)
    ensures var s, out := Sorted(results), Ranked(results);
            && multiset(s) == multiset(results) && Descending(s) && |out| == |s|
            && forall j: nat | j < |s| :: out[j].(rankInClass := s[j].rankInClass) == s[j]
  {
    var s := Sorted(results);
    SortIsStable(results, 0.0);
    forall j: nat | j < |s|
      ensures Walked(s, |s|)[j].(rankInClass := s[j].rankInClass) == s[j]
    {
      WalkedAt(s, |s|, j);
    }
  }

  /** The list of one unscored result is ranked wrong: it gets rank 0. */
  lemma UnscoredRanksZero(r: StudentResult)
    requires r.score.None?
    ensures Ranked([r]) == [r.(rankInClass := Some(0))] && !CompetitionRanks([r], Ranked([r]))
  {
    assert Sorted([r]) == [r];
    assert !CompetitionAt([r], Ranked([r])[0]);
  }

  // ----- Independence of the input order -----

  /** An unscored result and one scored zero tie in the sort but not in the walk. */
  predicate Mixed(results: seq<StudentResult>) {
    exists r, q | r in results && q in results :: r.score == None && q.score == Some(0.0)
  }

  /** However the results come, equal scores get equal ranks. */
  ghost predicate OrderFree(results: seq<StudentResult>) {
    forall s, t | multiset(s) == multiset(results) && multiset(t) == multiset(results) :: SameRanks(Ranked(s), Ranked(t))
  }

  ghost predicate SameRanks(s: seq<StudentResult>, t: seq<StudentResult>) {
    forall r, q | r in s && q in t && r.score == q.score :: r.rankInClass == q.rankInClass
  }

  /** The rank of a score when scores are not mixed: the unscored that lead the list get 0. */
  function UnmixedRank(results: seq<StudentResult>, score: Option<real>): nat {
    if score.None? && CountAbove(results, 0.0) == 0 then 0
    else 1 + CountAbove(results, if score.Some? then score.value else 0.0)
  }

  lemma {:induction false} UnmixedWalkRank(s: seq<StudentResult>, j: nat)
    requires Descending(s) && !Mixed(s) && j < |s|
    ensures WalkRank(s, j) == UnmixedRank(s, s[j].score)
  {
    WalkRankStep(s, j);
    if j > 0 {
      assert s[j - 1] in s && s[j] in s;
      if Key(s[j - 1]) == Key(s[j]) {
        assert s[j - 1].score == s[j].score;
        UnmixedWalkRank(s, j - 1);
      }
    }
  }

  lemma UnmixedMembers(s: seq<StudentResult>, t: seq<StudentResult>)
    requires multiset(s) == multiset(t) && !Mixed(t)
    ensures !Mixed(s)
  {
    SameMembers(s, t);
  }

  lemma UnmixedRankStays(s: seq<StudentResult>, t: seq<StudentResult>, score: Option<real>)
    requires multiset(s) == multiset(t)
    ensures UnmixedRank(s, score) == UnmixedRank(t, score)
  {
    CountAboveOfPermutation(s, t, 0.0);
    CountAboveOfPermutation(s, t, if score.Some? then score.value else 0.0);
  }

  lemma UnmixedRankOf(results: seq<StudentResult>, shuffled: seq<StudentResult>, r: StudentResult)
    requires multiset(shuffled) == multiset(results) && !Mixed(results) && r in Ranked(shuffled)
    ensures r.rankInClass == Some(UnmixedRank(results, r.score))
  {
    var s := Sorted(shuffled);
    SortIsStable(shuffled, 0.0);
    UnmixedMembers(s, results);
    var j := PlaceOf(s, r);
    UnmixedWalkRank(s, j);
    UnmixedRankStays(s, results, s[j].score);
  }

  lemma PlaceOf(s: seq<StudentResult>, r: StudentResult) returns (j: nat)
    requires r in Walked(s, |s|)
    ensures j < |s| && r == WithRank(s, j)
  {
    j :| j < |s| && Walked(s, |s|)[j] == r;
    WalkedAt(s, |s|, j);
  }

  lemma {:induction false} WithKeyHead(s: seq<StudentResult>, key: real)
    requires s != [] && Key(s[0]) == key
    ensures WithKey(s, key) != [] && WithKey(s, key)[0] == s[0]
    decreases |s|
  {
    if |s| > 1 {
      WithKeyHead(s[..|s| - 1], key);
    }
  }

  lemma {:induction false} WithoutKey(s: seq<StudentResult>, key: real)
    requires WithKey(s, key) == [] && forall i | 0 <= i < |s| :: Key(s[i]) >= key
    ensures CountAbove(s, key) == |s|
    decreases |s|
  {
    if s != [] {
      WithoutKey(s[..|s| - 1], key);
    }
  }

  /** In a descending list the first result of a key follows exactly the better ones. */
  lemma {:induction false} FirstOfKey(s: seq<StudentResult>, key: real)
    requires Descending(s) && WithKey(s, key) != []
    ensures CountAbove(s, key) < |s| && s[CountAbove(s, key)] == WithKey(s, key)[0] && Key(WithKey(s, key)[0]) == key
    decreases |s|
  {
    var front, last := s[..|s| - 1], s[|s| - 1];
    if WithKey(front, key) != [] {
      FirstOfKey(front, key);
    } else {
      WithoutKey(front, key);
    }
  }

  /** The result moved to the front, and the list it leaves behind it. */
  function Fronted(results: seq<StudentResult>, i: nat): seq<StudentResult>
    requires i < |results|
  {
    [results[i]] + results[..i] + results[i + 1..]
  }

  lemma FrontedSame(results: seq<StudentResult>, i: nat)
    requires i < |results|
    ensures multiset(Fronted(results, i)) == multiset(results)
  {
    assert results == results[..i] + [results[i]] + results[i + 1..];
  }

  /** Moved to the front, a result of key zero leads its key after the sort. */
  lemma FrontedLeads(results: seq<StudentResult>, i: nat)
    requires i < |results| && Key(results[i]) == 0.0
    ensures var s, n := Sorted(Fronted(results, i)), CountAbove(results, 0.0);
            Descending(s) && n < |s| && s[n] == results[i]
            && (n > 0 ==> Key(s[n - 1]) > 0.0)
  {
    var t := Fronted(results, i);
    FrontedSame(results, i);
    SortIsStable(t, 0.0);
    HeadLeads(Sorted(t), t, 0.0);
    CountAboveOfPermutation(Sorted(t), results, 0.0);
    BetterBefore(Sorted(t), CountAbove(results, 0.0));
  }

  lemma HeadLeads(s: seq<StudentResult>, t: seq<StudentResult>, key: real)
    requires t != [] && Key(t[0]) == key && Descending(s) && WithKey(s, key) == WithKey(t, key)
    ensures CountAbove(s, key) < |s| && s[CountAbove(s, key)] == t[0]
  {
    WithKeyHead(t, key);
    FirstOfKey(s, key);
  }

  lemma BetterBefore(s: seq<StudentResult>, n: nat)
    requires Descending(s) && n < |s| && Key(s[n]) == 0.0 && CountAbove(s, 0.0) == n
    ensures n > 0 ==> Key(s[n - 1]) > 0.0
  {
    WalkRankStep(s, n);
  }

  /** Behind an unscored result of the same key, the first zero ranks too low. */
  lemma FirstZero(s: seq<StudentResult>, n: nat, z: nat) returns (j: nat)
    requires Descending(s) && n < z < |s| && s[n].score == None && s[z].score == Some(0.0)
    ensures n < j < |s| && s[j].score == Some(0.0) && WalkRank(s, j) == j + 1
  {
    j := z;
    while s[j - 1].score == Some(0.0)
      invariant n < j < |s| && s[j].score == Some(0.0)
      decreases j
    {
      j := j - 1;
    }
  }

  lemma InRanked(results: seq<StudentResult>, j: nat)
    requires j < |Sorted(results)|
    ensures WithRank(Sorted(results), j) in Ranked(results)
  {
    WalkedAt(Sorted(results), |Sorted(results)|, j);
  }

  lemma ZeroBehind(s: seq<StudentResult>, n: nat, z: nat)
    requires Descending(s) && n < |s| && z < |s| && s[n].score == None && s[z].score == Some(0.0)
    requires n > 0 ==> Key(s[n - 1]) > 0.0
    ensures n < z
  {
  }

  lemma LeadingZero(t: seq<StudentResult>, n: nat)
    requires n < |t| && t[n].score == Some(0.0) && (n > 0 ==> Key(t[n - 1]) > 0.0)
    ensures WalkRank(t, n) == n + 1
  {
  }

  lemma RanksDiffer(s: seq<StudentResult>, t: seq<StudentResult>, r: StudentResult, q: StudentResult)
    requires r in s && q in t && r.score == q.score && r.rankInClass != q.rankInClass
    ensures !SameRanks(s, t)
  {
  }

  /** With an unscored result moved to the front, some zero ranks below all that tie with it. */
  lemma RankBehind(results: seq<StudentResult>, a: nat, b: nat) returns (r: StudentResult)
    requires a < |results| && b < |results| && results[a].score == None && results[b].score == Some(0.0)
    ensures r in Ranked(Fronted(results, a)) && r.score == Some(0.0)
    ensures r.rankInClass.Some? && r.rankInClass.value > CountAbove(results, 0.0) + 1
  {
    var s, n := Sorted(Fronted(results, a)), CountAbove(results, 0.0);
    FrontedLeads(results, a);
    var z := PlaceAfterSort(results, a, b);
    ZeroBehind(s, n, z);
    var j := FirstZero(s, n, z);
    InRanked(Fronted(results, a), j);
    r := WithRank(s, j);
  }

  /** With a zero moved to the front, that zero ranks right. */
  lemma RankLeading(results: seq<StudentResult>, b: nat) returns (q: StudentResult)
    requires b < |results| && results[b].score == Some(0.0)
    ensures q in Ranked(Fronted(results, b)) && q.score == Some(0.0)
    ensures q.rankInClass == Some(CountAbove(results, 0.0) + 1)
  {
    var t, n := Sorted(Fronted(results, b)), CountAbove(results, 0.0);
    FrontedLeads(results, b);
    LeadingZero(t, n);
    InRanked(Fronted(results, b), n);
    q := WithRank(t, n);
  }

  lemma PlaceAfterSort(results: seq<StudentResult>, a: nat, b: nat) returns (z: nat)
    requires a < |results| && b < |results|
    ensures z < |Sorted(Fronted(results, a))| && Sorted(Fronted(results, a))[z] == results[b]
  {
    var s := Sorted(Fronted(results, a));
    FrontedSame(results, a);
    SortIsStable(Fronted(results, a), 0.0);
    SameMembers(s, results);
    assert results[b] in s;
    z :| z < |s| && s[z] == results[b];
  }

  lemma MixedDependsOnOrder(results: seq<StudentResult>)
    requires Mixed(results)
    ensures !OrderFree(results)
  {
    var r, q :| r in results && q in results && r.score == None && q.score == Some(0.0);
    var a: nat :| a < |results| && results[a] == r;
    var b: nat :| b < |results| && results[b] == q;
    FrontedSame(results, a);
    FrontedSame(results, b);
    var behind := RankBehind(results, a, b);
    var leading := RankLeading(results, b);
    RanksDiffer(Ranked(Fronted(results, a)), Ranked(Fronted(results, b)), behind, leading);
  }

  /** Ranks do not depend on the order in which the results come exactly when no unscored
      result is mixed with one scored zero; all fully scored lists are such. */
  lemma RanksIgnoreOrder(results: seq<StudentResult>)
    ensures OrderFree(results) <==> !Mixed(results)
    ensures AllScored(results) ==> !Mixed(results)
  {
    if Mixed(results) {
      MixedDependsOnOrder(results);
    } else {
      forall s, t, r, q | multiset(s) == multiset(results) && multiset(t) == multiset(results)
                          && r in Ranked(s) && q in Ranked(t) && r.score == q.score
        ensures r.rankInClass == q.rankInClass
      {
        UnmixedRankOf(results, s, r);
        UnmixedRankOf(results, t, q);
      }
    }
  }
}
