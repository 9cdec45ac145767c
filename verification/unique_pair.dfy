/** Selection of the two best-scoring, textually distinct candidate nodes
    from an insertion-ordered node-to-score map. */
module UniquePair {
  import opened Wrappers
  import opened DomTree
  import opened TwoMax
  import opened Filtering

  /** One entry of the score map: a node of the arena and its score. */
  datatype Scored = Scored(node: nat, score: real)

  /** The map's entries in iteration order: nodes of the tree, each key once. */
  predicate ValidScores(t: Tree, s: seq<Scored>)
  {
    && (forall i | 0 <= i < |s| :: s[i].node < |t|)
    && (forall i, j | 0 <= i < j < |s| :: s[i].node != s[j].node)
  }

  function Keys(s: seq<Scored>): (ks: seq<nat>)
    ensures |ks| == |s| && forall i | 0 <= i < |s| :: ks[i] == s[i].node
  {
    seq(|s|, i requires 0 <= i < |s| => s[i].node)
  }

  function Scores(s: seq<Scored>): (xs: seq<real>)
    ensures |xs| == |s| && forall i | 0 <= i < |s| :: xs[i] == s[i].score
  {
    seq(|s|, i requires 0 <= i < |s| => s[i].score)
  }

  /** `distinctBy` on rendered text: keeps each key whose text is neither in
      `seen` nor the text of an earlier key. */
  function DistinctByText(t: Tree, keys: seq<nat>, seen: set<string>): (r: seq<nat>)
    requires forall i | 0 <= i < |keys| :: keys[i] < |t|
    ensures forall i | 0 <= i < |r| :: r[i] in keys && r[i] < |t| && t[r[i]].text !in seen
    ensures forall i, j | 0 <= i < j < |r| :: t[r[i]].text != t[r[j]].text
    decreases |keys|
  {
    if keys == [] then []
    else if t[keys[0]].text in seen then DistinctByText(t, keys[1..], seen)
    else [keys[0]] + DistinctByText(t, keys[1..], seen + {t[keys[0]].text})
  }

  /** Among distinct keys, `distinctBy` keeps exactly the first key of each text. */
  lemma {:induction false} DistinctByTextKeepsFirst(t: Tree, keys: seq<nat>, seen: set<string>, i: nat)
    requires forall k | 0 <= k < |keys| :: keys[k] < |t|
    requires forall a, b | 0 <= a < b < |keys| :: keys[a] != keys[b]
    requires i < |keys|
    ensures keys[i] in DistinctByText(t, keys, seen) <==>
      t[keys[i]].text !in seen && forall j | 0 <= j < i :: t[keys[j]].text != t[keys[i]].text
    decreases |keys|
  {
    var text0 := t[keys[0]].text;
    var seen' := if text0 in seen then seen else seen + {text0};
    if i == 0 {
      assert forall q | 0 <= q < |keys| - 1 :: keys[1..][q] != keys[0];
    } else {
      DistinctByTextKeepsFirst(t, keys[1..], seen', i - 1);
      assert keys[1..][i - 1] == keys[i];
      assert keys[i] != keys[0];
      assert forall j | 0 <= j < i - 1 :: keys[1..][j] == keys[j + 1];
    }
  }

  function InKeys(keys: seq<nat>): Scored -> bool
  {
    (e: Scored) => e.node in keys
  }

  function AtLeastScore(bar: real): Scored -> bool
  {
    (e: Scored) => e.score >= bar
  }

  function UniqueKeys(t: Tree, s: seq<Scored>): seq<nat>
    requires ValidScores(t, s)
  {
    DistinctByText(t, Keys(s), {})
  }

  /** The map restricted to the text-unique keys (`filterKeys`), in iteration order. */
  function UniqueEntries(t: Tree, s: seq<Scored>): seq<Scored>
    requires ValidScores(t, s)
  {
    Filter(s, InKeys(UniqueKeys(t, s)))
  }

  /** Entry `i` is the first entry in iteration order with its rendered text. */
  predicate FirstOfText(t: Tree, s: seq<Scored>, i: nat)
    requires ValidScores(t, s) && i < |s|
  {
    forall j | 0 <= j < i :: t[s[j].node].text != t[s[i].node].text
  }

  /** The second maximum of the deduplicated scores, the selection threshold. */
  function Threshold(t: Tree, s: seq<Scored>): real
    requires ValidScores(t, s)
  {
    SecondMax0(Scores(UniqueEntries(t, s)))
  }

  /** Entry `i` survives deduplication and the threshold filter. */
  predicate Chosen(t: Tree, s: seq<Scored>, i: nat)
    requires ValidScores(t, s) && i < |s|
  {
    FirstOfText(t, s, i) && s[i].score >= Threshold(t, s)
  }

  function Qualifying(t: Tree, s: seq<Scored>): Scored -> bool
    requires ValidScores(t, s)
  {
    (e: Scored) => e.node in UniqueKeys(t, s) && e.score >= Threshold(t, s)
  }

  lemma QualifyingIsChosen(t: Tree, s: seq<Scored>, k: nat)
    requires ValidScores(t, s) && k < |s|
    ensures Qualifying(t, s)(s[k]) <==> Chosen(t, s, k)
  {
    DistinctByTextKeepsFirst(t, Keys(s), {}, k);
  }

  /** Deduplicating and then filtering by the threshold keeps exactly the chosen entries. */
  lemma FilteredAreQualifying(t: Tree, s: seq<Scored>)
    requires ValidScores(t, s)
    ensures Filter(UniqueEntries(t, s), AtLeastScore(Threshold(t, s))) == Filter(s, Qualifying(t, s))
  {
    FilterTwice(s, InKeys(UniqueKeys(t, s)), AtLeastScore(Threshold(t, s)), Qualifying(t, s));
  }

  /** Two entries are chosen. */
  predicate HasChosenPair(t: Tree, s: seq<Scored>)
    requires ValidScores(t, s)
  {
    exists i, j | 0 <= i < j < |s| :: Chosen(t, s, i) && Chosen(t, s, j)
  }

  /** Entries `i` and `j` are the first two chosen entries in iteration order. */
  predicate IsFirstChosenPair(t: Tree, s: seq<Scored>, i: nat, j: nat)
    requires ValidScores(t, s)
  {
    && i < j < |s|
    && Chosen(t, s, i) && Chosen(t, s, j)
    && forall k | 0 <= k < j && k != i :: !Chosen(t, s, k)
  }

  /** With two qualifying entries, the first two kept are the first two chosen. */
  lemma ChosenPairOfFilter(t: Tree, s: seq<Scored>) returns (i: nat, j: nat)
    requires ValidScores(t, s) && |Filter(s, Qualifying(t, s))| >= 2
    ensures i < j < |s|
    ensures Filter(s, Qualifying(t, s))[0] == s[i] && Filter(s, Qualifying(t, s))[1] == s[j]
    ensures IsFirstChosenPair(t, s, i, j)
  {
    i, j := FilterFirstTwo(s, Qualifying(t, s));
    QualifyingIsChosen(t, s, i);
    QualifyingIsChosen(t, s, j);
    forall k | 0 <= k < j && k != i
      ensures !Chosen(t, s, k)
    {
      QualifyingIsChosen(t, s, k);
    }
  }

  /** With fewer than two qualifying entries, no two entries are chosen. */
  lemma NoChosenPairOfFilter(t: Tree, s: seq<Scored>)
    requires ValidScores(t, s) && |Filter(s, Qualifying(t, s))| < 2
    ensures !HasChosenPair(t, s)
  {
    FilterFewerThanTwo(s, Qualifying(t, s));
    forall i, j | 0 <= i < j < |s|
      ensures !(Chosen(t, s, i) && Chosen(t, s, j))
    {
      QualifyingIsChosen(t, s, i);
      QualifyingIsChosen(t, s, j);
    }
  }

  datatype SelectionError = FewerThanTwoCandidates

  /** `findTwoUniqueEntries`: the first two entries, in iteration order, that
      are first of their text and score at least the second maximum. */
  method FindTwoUniqueEntries(t: Tree, scored: seq<Scored>) returns (r: Result<(nat, nat), SelectionError>)
    requires ValidScores(t, scored)
    ensures r.Ok? ==> exists i: nat, j: nat ::
      IsFirstChosenPair(t, scored, i, j) && r.value == (scored[i].node, scored[j].node)
    ensures r.Err? <==> !HasChosenPair(t, scored)
    ensures r.Ok? ==> r.value.0 < |t| && r.value.1 < |t| && t[r.value.0].text != t[r.value.1].text
  {
    var uniqueKeys := DistinctByText(t, Keys(scored), {});
    var mapWithUniqueKeys := Filter(scored, InKeys(uniqueKeys));
    var highest, secondHighestScore := FindTwoMaxNumbers(Scores(mapWithUniqueKeys));
    var filtered := Filter(mapWithUniqueKeys, AtLeastScore(secondHighestScore));
    var firstTwo := if |filtered| <= 2 then filtered else filtered[..2];
    FilteredAreQualifying(t, scored);
    assert filtered == Filter(scored, Qualifying(t, scored));
    if |firstTwo| < 2 {
      NoChosenPairOfFilter(t, scored);
      return Err(FewerThanTwoCandidates);
    }
    var i, j := ChosenPairOfFilter(t, scored);
    assert firstTwo[0] == scored[i] && firstTwo[1] == scored[j];
    r := Ok((firstTwo[0].node, firstTwo[1].node));
  }

  /** Two text-unique entries have a non-negative score. */
  predicate HasTwoNonNegative(t: Tree, s: seq<Scored>)
    requires ValidScores(t, s)
  {
    exists i, j | 0 <= i < j < |s| ::
      FirstOfText(t, s, i) && FirstOfText(t, s, j) && s[i].score >= 0.0 && s[j].score >= 0.0
  }

  /** With two non-negative text-unique entries, a positive threshold is met
      by two deduplicated entries. */
  lemma PositiveThresholdHasPair(t: Tree, s: seq<Scored>)
    requires ValidScores(t, s) && Threshold(t, s) > 0.0
    ensures HasChosenPair(t, s)
  {
    var m2 := Threshold(t, s);
    var u := UniqueEntries(t, s);
    var vals := Scores(u);
    ReferenceIsTopTwo(vals);
    var a, b :| 0 <= a < |vals| && 0 <= b < |vals| && a != b && vals[a] == Max0(vals) && vals[b] == m2;
    if a < b {
      FilterKeepsTwo(u, AtLeastScore(m2), a, b);
    } else {
      FilterKeepsTwo(u, AtLeastScore(m2), b, a);
    }
    FilteredAreQualifying(t, s);
    var i, j := ChosenPairOfFilter(t, s);
  }

  /** Because of the 0.0 floor, the selection succeeds exactly when two
      text-unique entries have a non-negative score. */
  lemma SelectionNeedsTwoNonNegative(t: Tree, s: seq<Scored>)
    requires ValidScores(t, s)
    ensures HasChosenPair(t, s) <==> HasTwoNonNegative(t, s)
  {
    if HasTwoNonNegative(t, s) {
      if Threshold(t, s) > 0.0 {
        PositiveThresholdHasPair(t, s);
      } else {
        var i, j :| 0 <= i < j < |s| &&
          FirstOfText(t, s, i) && FirstOfText(t, s, j) && s[i].score >= 0.0 && s[j].score >= 0.0;
        assert Chosen(t, s, i) && Chosen(t, s, j);
      }
    }
  }
}
