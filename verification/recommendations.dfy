/** The recommendation rule of the `/recommendations` endpoint
    (app.py:35-49): find the first row with the requested id, rank every row
    by its similarity to that row, keep sorted positions 1 and 2, and return
    those rows' id, title and description. */
module Recommendations {
  import opened Results
  import opened Catalog
  import opened Ranking

  /** The similarity matrix has one row and one column per course, in
      catalog order. */
  predicate SquareMatrix(sim: seq<seq<real>>, n: nat)
  {
    |sim| == n && forall i :: 0 <= i < n ==> |sim[i]| == n
  }

  /** `courses[courses["id"] == course_id].index[0]`: the first row whose id
      matches, or nothing when the selection is empty (app.py:35-40). */
  function Lookup(catalog: seq<Course>, id: int): (r: Option<nat>)
    ensures r.Some? ==> r.value < |catalog| && catalog[r.value].id == id
    ensures r.Some? ==> forall j :: 0 <= j < r.value ==> catalog[j].id != id
    ensures r.None? <==> forall j :: 0 <= j < |catalog| ==> catalog[j].id != id
  {
    if catalog == [] then None
    else if catalog[0].id == id then Some(0)
    else
      match Lookup(catalog[1..], id)
      case None => None
      case Some(k) => Some(k + 1)
  }

  /** The only failure of the rule itself: no row has the requested id. */
  datatype RecommendError = CourseNotFound

  /** The rows the kept pairs point at (app.py:45-49). */
  function Project(catalog: seq<Course>, picks: seq<Scored>): (recs: seq<Course>)
    requires forall k :: 0 <= k < |picks| ==> picks[k].index < |catalog|
    ensures |recs| == |picks|
    ensures forall k :: 0 <= k < |picks| ==> recs[k] == catalog[picks[k].index]
  {
    if picks == [] then [] else [catalog[picks[0].index]] + Project(catalog, picks[1..])
  }

  /** Recommendations for the course with id `id`. */
  function Recommend(catalog: seq<Course>, sim: seq<seq<real>>, id: int): (r: Result<seq<Course>, RecommendError>)
    requires SquareMatrix(sim, |catalog|)
    ensures r.Failure? <==> forall j :: 0 <= j < |catalog| ==> catalog[j].id != id
    ensures r.Success? ==> |r.value| == if |catalog| == 1 then 0 else if |catalog| == 2 then 1 else 2
  {
    match Lookup(catalog, id)
    case None => Failure(CourseNotFound)
    case Some(idx) =>
      var row := sim[idx];
      TopPicksWellFormed(row);
      Success(Project(catalog, TopPicks(row)))
  }

  /** A found course is recommended the rows at sorted positions 1 and 2 of
      the ranking of its own similarity row, whatever sits at position 0. */
  lemma RecommendIsRankedPositions(catalog: seq<Course>, sim: seq<seq<real>>, id: int, idx: nat)
    requires SquareMatrix(sim, |catalog|)
    requires Lookup(catalog, id) == Some(idx)
    ensures Recommend(catalog, sim, id).Success?
    ensures var recs := Recommend(catalog, sim, id).value;
            forall k :: 0 <= k < |recs| ==>
              k + 1 < |RankRow(sim[idx])| && RankRow(sim[idx])[k + 1].index < |catalog|
              && recs[k] == catalog[RankRow(sim[idx])[k + 1].index]
  {
    var row := sim[idx];
    TopPicksWellFormed(row);
  }

  /** No two courses share an id (assumed by the catalog's design). */
  predicate UniqueIds(catalog: seq<Course>)
  {
    forall i, j :: 0 <= i < j < |catalog| ==> catalog[i].id != catalog[j].id
  }

  /** With unique ids, a course whose similarity to itself strictly exceeds
      its similarity to every other course is never recommended to itself. */
  lemma StrictSelfMaximumNotRecommended(catalog: seq<Course>, sim: seq<seq<real>>, id: int, idx: nat)
    requires SquareMatrix(sim, |catalog|) && UniqueIds(catalog)
    requires Lookup(catalog, id) == Some(idx)
    requires forall j :: 0 <= j < |catalog| && j != idx ==> sim[idx][j] < sim[idx][idx]
    ensures Recommend(catalog, sim, id).Success?
    ensures forall c :: c in Recommend(catalog, sim, id).value ==> c.id != id
  {
    var row := sim[idx];
    StrictMaximumNotPicked(row, idx);
    TopPicksWellFormed(row);
    var picks := TopPicks(row);
    var recs := Recommend(catalog, sim, id).value;
    forall c | c in recs ensures c.id != id {
      var k :| 0 <= k < |recs| && recs[k] == c;
      var j := picks[k].index;
      assert c == catalog[j] && j != idx;
      if j < idx {
        assert catalog[j].id != catalog[idx].id;
      } else {
        assert catalog[idx].id != catalog[j].id;
      }
    }
  }

  /** Two picks at known rows give the courses of those rows. */
  lemma RecommendTwoPicks(catalog: seq<Course>, sim: seq<seq<real>>, id: int, idx: nat, a: nat, b: nat)
    requires SquareMatrix(sim, |catalog|)
    requires Lookup(catalog, id) == Some(idx)
    requires a < |catalog| && b < |catalog|
    requires |TopPicks(sim[idx])| == 2 && TopPicks(sim[idx])[0].index == a && TopPicks(sim[idx])[1].index == b
    ensures Recommend(catalog, sim, id) == Success([catalog[a], catalog[b]])
  {
    var recs := Recommend(catalog, sim, id).value;
    assert |recs| == 2 && recs[0] == catalog[a] && recs[1] == catalog[b];
    assert recs == [catalog[a], catalog[b]];
  }

  const Scenario := [Course(1, "A", "machine learning basics"),
                      Course(2, "B", "machine learning advanced"),
                      Course(3, "C", "cooking recipes")]

  /** Course 1's row in the scenario below: distinct scores rank the rows
      by score, and the picks are the two rows after course 1 itself. */
  lemma SharedVocabularyRowPicks()
    ensures TopPicks([1.0, 0.5, 0.0]) == [Scored(1, 0.5), Scored(2, 0.0)]
  {
    var row := [1.0, 0.5, 0.0];
    var ranked := [Scored(0, 1.0), Scored(1, 0.5), Scored(2, 0.0)];
    assert Enumerate(row) == ranked;
    RankingIsTheRankedArrangement(row, ranked);
  }

  /** The three-course scenario. Course 1 shares vocabulary with course 2
      only; the similarity scores below are assumed to reflect that (they
      are chosen, not computed, since the vectorisation is not part of this
      model). With course 2 scoring above course 3 in course 1's row,
      course 2 is recommended before course 3. */
  lemma ScenarioRanksSharedVocabularyFirst()
    ensures Recommend(Scenario, [[1.0, 0.5, 0.0], [0.5, 1.0, 0.0], [0.0, 0.0, 1.0]], 1)
            == Success([Scenario[1], Scenario[2]])
  {
    assert Lookup(Scenario, 1) == Some(0);
    SharedVocabularyRowPicks();
    RecommendTwoPicks(Scenario, [[1.0, 0.5, 0.0], [0.5, 1.0, 0.0], [0.0, 0.0, 1.0]], 1, 0, 1, 2);
  }

  /** An id that no course has finds nothing. */
  lemma ScenarioUnknownIdNotFound(sim: seq<seq<real>>)
    requires SquareMatrix(sim, |Scenario|)
    ensures Recommend(Scenario, sim, 99) == Failure(CourseNotFound)
  {
  }

  /** A tie at the top, on a hypothetical matrix: the scores are chosen,
      not computed, and TF-IDF would not give these three descriptions
      similarity 1.0 to one another. Course 2 is as similar to course 1 as
      to itself, the tie puts row 0 first, and course 2 is recommended to
      itself. Two identical descriptions give such a tie in the real
      matrix. */
  lemma TieRecommendsRequestedCourse()
    ensures Recommend(Scenario, [[1.0, 1.0, 0.0], [1.0, 1.0, 0.0], [0.0, 0.0, 1.0]], 2)
            == Success([Scenario[1], Scenario[2]])
  {
    assert Lookup(Scenario, 2) == Some(1);
    TieCanPickRequestedRow();
    RecommendTwoPicks(Scenario, [[1.0, 1.0, 0.0], [1.0, 1.0, 0.0], [0.0, 0.0, 1.0]], 2, 1, 1, 2);
  }
}
