/**
 * What one play-through does to the registry. `PlayGame` returns the list
 * of rounds it played, and its effect on the registry is `ApplyRounds` of
 * that list; the lemmas here are the promises of the session rules.
 */
module Session {
  import opened QuestionBank
  import opened Drawing
  import opened Registry

  /** How a round ended. */
  datatype Outcome =
    | Completed   // every question committed
    | Aborted     // the player confirmed q on a question screen
    | Stalled     // the input ran out on a question screen

  /**
   * One round: the category chosen, the ids drawn, the points committed,
   * how it ended, and (for a completed round) whether the player retried.
   */
  datatype Round = Round(category: Category, asked: seq<int>, gained: int, outcome: Outcome, retried: bool)

  /** A round's effect on player `u`'s records. */
  function ApplyRound(ps: Players, u: string, r: Round): (res: Players)
    requires u in ps && HasAllCategories(ps[u])
    ensures u in res && HasAllCategories(res[u])
    ensures SameExcept(ps, res, u, r.category)
  {
    var played := AddToSession(ps, u, r.category, r.gained);
    if r.outcome != Completed then played
    else
      var folded := FoldBest(played, u, r.category);
      if r.retried then ResetSession(folded, u, r.category) else folded
  }

  /** The effect of a list of rounds, played in order. */
  function ApplyRounds(ps: Players, u: string, rs: seq<Round>): (res: Players)
    requires u in ps && HasAllCategories(ps[u])
    ensures u in res && HasAllCategories(res[u])
    ensures res.Keys == ps.Keys
    ensures forall v :: v in ps && v != u ==> res[v] == ps[v]
  {
    if rs == [] then ps
    else ApplyRound(ApplyRounds(ps, u, rs[..|rs| - 1]), u, rs[|rs| - 1])
  }

  lemma ApplyRoundsAppend(ps: Players, u: string, rs: seq<Round>, r: Round)
    requires u in ps && HasAllCategories(ps[u])
    ensures ApplyRounds(ps, u, rs + [r]) == ApplyRound(ApplyRounds(ps, u, rs), u, r)
  {
    assert (rs + [r])[..|rs|] == rs;
  }

  /**
   * An aborted or stalled round keeps the points it committed in the
   * current-session slot and leaves every best slot as it was.
   */
  lemma IncompleteRoundKeepsBest(ps: Players, u: string, r: Round)
    requires u in ps && HasAllCategories(ps[u])
    requires r.outcome != Completed
    ensures forall c: Category :: ApplyRound(ps, u, r)[u][c].best == ps[u][c].best
    ensures ApplyRound(ps, u, r)[u][r.category].current == ps[u][r.category].current + r.gained
  {
  }

  /**
   * A completed round sets the best slot to the larger of the old best and
   * the final session total; only a retry resets the session slot.
   */
  lemma CompletedRoundBest(ps: Players, u: string, r: Round)
    requires u in ps && HasAllCategories(ps[u])
    requires r.outcome == Completed
    ensures var old_ := ps[u][r.category]; var total := old_.current + r.gained;
      && ApplyRound(ps, u, r)[u][r.category].best == (if old_.best < total then total else old_.best)
      && ApplyRound(ps, u, r)[u][r.category].current == (if r.retried then 0 else total)
  {
  }

  /** No sequence of rounds lowers a best slot. */
  lemma {:induction false} BestNeverDecreases(ps: Players, u: string, rs: seq<Round>, c: Category)
    requires u in ps && HasAllCategories(ps[u])
    ensures ApplyRounds(ps, u, rs)[u][c].best >= ps[u][c].best
  {
    if rs != [] {
      var init := rs[..|rs| - 1];
      BestNeverDecreases(ps, u, init, c);
      var mid := ApplyRounds(ps, u, init);
      var r := rs[|rs| - 1];
      if c != r.category {
        assert ApplyRound(mid, u, r)[u][c] == mid[u][c];
      }
    }
  }

  /**
   * A round that starts from an empty session slot and scores at most 2
   * points per question leaves the best slot within that maximum, unless it
   * already exceeded it.
   */
  lemma FreshRoundWithinMaximum(ps: Players, u: string, r: Round, n: int)
    requires u in ps && HasAllCategories(ps[u])
    requires ps[u][r.category].current == 0 && r.gained <= 2 * n
    ensures ApplyRound(ps, u, r)[u][r.category].best <= if ps[u][r.category].best < 2 * n then 2 * n else ps[u][r.category].best
  {
  }

  /**
   * The session slot is not reset after an abort, so the next completed
   * round in that category starts from the leftover points: with ten
   * questions (see `BanksWellFormed`), 2 leftover points and a perfect 20
   * give a best of 22, above the maximum of 2 * 10 printed at the end of
   * the session.
   */
  lemma LeftoverPointsExceedMaximum()
    ensures var u := "Ada Lovelace";
      var first := Round(ComputerScience, [1, 2], 2, Aborted, false);
      var second := Round(ComputerScience, [1, 2, 3, 4, 5, 6, 7, 8, 9, 10], 20, Completed, false);
      ApplyRounds(map[u := NewScores()], u, [first, second])[u][ComputerScience].best == 22
  {
    var u := "Ada Lovelace";
    var ps := map[u := NewScores()];
    var first := Round(ComputerScience, [1, 2], 2, Aborted, false);
    var second := Round(ComputerScience, [1, 2, 3, 4, 5, 6, 7, 8, 9, 10], 20, Completed, false);
    ApplyRoundsAppend(ps, u, [], first);
    ApplyRoundsAppend(ps, u, [first], second);
    assert [first] + [second] == [first, second];
    var afterAbort := ApplyRound(ps, u, first);
    assert afterAbort[u][ComputerScience] == Record(2, 0);
    assert ApplyRound(afterAbort, u, second)[u][ComputerScience].best == 22;
  }
}
