/**
 * The game's mutable state and the operations that change it: login,
 * logout, committing an answer, one question screen, one session, and the
 * play loop with its retries.
 */
module Game {
  import opened Optional
  import opened QuestionBank
  import opened Drawing
  import opened Registry
  import opened Session

  /** A key accepted on a question screen: an answer 1..4, or q. */
  datatype Key = Pick(position: int) | Quit

  /** One pass of a question screen: the key pressed and the Y/N answer to "Are you sure?". */
  datatype Move = Move(key: Key, confirm: bool)

  /** The key filter only lets the answers 1..4 through. */
  predicate ValidMoves(moves: seq<Move>) {
    forall i :: 0 <= i < |moves| ==> moves[i].key.Pick? ==> 1 <= moves[i].key.position <= 4
  }

  /** The first confirmed move at or after `from`, or |moves| if there is none. */
  function FirstConfirmed(moves: seq<Move>, from: nat): (k: nat)
    requires from <= |moves|
    ensures from <= k <= |moves|
    ensures k < |moves| ==> moves[k].confirm
    ensures forall j :: from <= j < k ==> !moves[j].confirm
    decreases |moves| - from
  {
    if from == |moves| then from
    else if moves[from].confirm then from
    else FirstConfirmed(moves, from + 1)
  }

  /** How a question screen was left. */
  datatype Step =
    | Committed(position: int)   // an answer was confirmed
    | Abort                      // q was confirmed
    | Exhausted                  // the input ran out

  /**
   * `step` and `next` are how a question screen reading the moves from
   * `from` is left: its first confirmed move decides the step and the
   * next screen reads after it; with none, the input ran out.
   */
  predicate ScreenRead(moves: seq<Move>, from: nat, step: Step, next: nat)
    requires from <= |moves|
  {
    var k := FirstConfirmed(moves, from);
    && (step.Exhausted? <==> k == |moves|)
    && (step.Exhausted? ==> next == |moves|)
    && (!step.Exhausted? ==> next == k + 1)
    && (step.Abort? ==> moves[k].key == Quit)
    && (step.Committed? ==> moves[k].key == Pick(step.position))
  }

  /** What the moves make of a session: how it ends, the answers committed in order, and the next unread move. */
  datatype Screened = Screened(outcome: Outcome, positions: seq<int>, next: nat)

  /**
   * The session the moves from `from` on play over `n` more questions,
   * after the answers `done` were committed: each screen ends at its first
   * confirmed move; a confirmed answer is committed and the next screen
   * starts after it, a confirmed q aborts, and running out of moves stalls.
   */
  function Screens(moves: seq<Move>, from: nat, n: nat, done: seq<int>): (s: Screened)
    requires from <= |moves| && ValidMoves(moves)
    ensures from <= s.next <= |moves|
    ensures |done| <= |s.positions| <= |done| + n
    ensures s.outcome == Completed ==> |s.positions| == |done| + n
    decreases n
  {
    if n == 0 then Screened(Completed, done, from)
    else
      var k := FirstConfirmed(moves, from);
      if k == |moves| then Screened(Stalled, done, |moves|)
      else match moves[k].key
        case Quit => Screened(Aborted, done, k + 1)
        case Pick(position) =>
          Screens(moves, k + 1, n - 1, done + [position])
  }

  /** Declining the confirmation leaves nothing behind: the session goes on as if the move had not been made. */
  lemma DeclinedMoveIgnored(moves: seq<Move>, from: nat, n: nat, done: seq<int>)
    requires from < |moves| && ValidMoves(moves) && n > 0 && !moves[from].confirm
    ensures Screens(moves, from, n, done) == Screens(moves, from + 1, n, done)
  {
  }

  /**
   * Moves that are all confirmed answers complete a session: the first n
   * of them are committed, in order, and nothing else is read.
   */
  lemma {:induction false} ConfirmedPicksComplete(moves: seq<Move>, from: nat, n: nat, done: seq<int>)
    requires from + n <= |moves| && ValidMoves(moves)
    requires forall j :: from <= j < from + n ==> moves[j].confirm && moves[j].key.Pick?
    ensures var s := Screens(moves, from, n, done);
      && s.outcome == Completed && s.next == from + n
      && s.positions == done + seq(n, k requires 0 <= k < n => moves[from + k].key.position)
    decreases n
  {
    if n > 0 {
      var p := moves[from].key.position;
      ConfirmedPicksComplete(moves, from + 1, n - 1, done + [p]);
      assert (done + [p]) + seq(n - 1, k requires 0 <= k < n - 1 => moves[from + 1 + k].key.position)
          == done + seq(n, k requires 0 <= k < n => moves[from + k].key.position);
    }
  }

  /** A confirmed q on a screen ends the session there as aborted, with the answers committed before it. */
  lemma {:induction false} ConfirmedQuitAborts(moves: seq<Move>, from: nat, n: nat, done: seq<int>, i: nat)
    requires from + i < |moves| && ValidMoves(moves) && i < n
    requires forall j :: from <= j < from + i ==> moves[j].confirm && moves[j].key.Pick?
    requires moves[from + i] == Move(Quit, true)
    ensures var s := Screens(moves, from, n, done);
      && s.outcome == Aborted && s.next == from + i + 1
      && s.positions == done + seq(i, k requires 0 <= k < i => moves[from + k].key.position)
    decreases i
  {
    if i > 0 {
      var p := moves[from].key.position;
      ConfirmedQuitAborts(moves, from + 1, n - 1, done + [p], i - 1);
      assert (done + [p]) + seq(i - 1, k requires 0 <= k < i - 1 => moves[from + 1 + k].key.position)
          == done + seq(i, k requires 0 <= k < i => moves[from + k].key.position);
    } else {
      assert done + [] == done;
    }
  }

  /**
   * One screen of a session, after the answers `done`: a committed answer
   * joins them and the session goes on from the next move; an abort or
   * running out of moves ends it with `done`.
   */
  lemma ScreenStep(moves: seq<Move>, screen: nat, m: nat, m': nat, done: seq<int>, done': seq<int>, step: Step, next: nat)
    requires screen <= |moves| && ValidMoves(moves) && m > 0 && m' == m - 1
    requires done' == if step.Committed? then done + [step.position] else done
    requires ScreenRead(moves, screen, step, next)
    ensures next <= |moves|
    ensures !step.Committed? ==>
      Screens(moves, screen, m, done) == Screened(if step.Abort? then Aborted else Stalled, done, next)
    ensures step.Committed? ==>
      Screens(moves, screen, m, done) == Screens(moves, next, m', done')
  {
  }

  /** The (question id, answer) pairs of the first |positions| ids and the answers given to them. */
  function Pairs(ids: seq<int>, positions: seq<int>): (r: seq<(int, int)>)
    requires |positions| <= |ids|
    ensures |r| == |positions|
    ensures forall k :: 0 <= k < |r| ==> r[k] == (ids[k], positions[k])
  {
    seq(|positions|, k requires 0 <= k < |positions| => (ids[k], positions[k]))
  }


  class GoldenBrain {
    var players: Players
    var questions: Bank
    var currentUser: Option<string>

    /** Every player has a record per category, the loaded bank is well formed, the user is registered. */
    ghost predicate Valid()
      reads this
    {
      && WellFormedPlayers(players)
      && WellFormedBank(questions)
      && (currentUser.Some? ==> currentUser.value in players)
    }

    /** The state `Game` starts from: no players, no bank loaded, nobody logged in. */
    constructor ()
      ensures Valid()
      ensures players == map[] && questions == map[] && currentUser == None
    {
      players := map[];
      questions := map[];
      currentUser := None;
    }

    /**
     * `LogIn`: with a user logged in, nothing happens; otherwise the first
     * valid line names the user, who is registered if new.
     */
    method LogIn(lines: seq<Option<string>>)
      requires Valid()
      requires currentUser.Some? || exists i :: 0 <= i < |lines| && ValidName(lines[i])
      modifies this
      ensures Valid() && questions == old(questions)
      ensures old(currentUser).Some? ==> currentUser == old(currentUser) && players == old(players)
      ensures old(currentUser).None? ==>
        var k := FirstValid(lines);
        && k < |lines| && lines[k].Some?
        && currentUser == lines[k]
        && players == Register(old(players), lines[k].value)
    {
      if currentUser.Some? {
        return;
      }
      var user, k := ReadName(lines);
      players := Register(players, user);
      currentUser := Some(user);
    }

    /** `Logout`: nobody is logged in afterwards; the registry is kept. */
    method Logout()
      requires Valid()
      modifies this
      ensures Valid()
      ensures currentUser == None
      ensures players == old(players) && questions == old(questions)
    {
      if currentUser.Some? {
        currentUser := None;
      }
    }

    /**
     * `IsAnswered`: on a confirmation the chosen answer's score is added to
     * the user's current-session slot for `category`; otherwise nothing
     * changes.
     */
    method IsAnswered(category: Category, randomQ: int, question: int, confirm: bool) returns (answered: bool)
      requires Valid() && currentUser.Some?
      requires randomQ in questions && 1 <= question <= 4
      modifies this
      ensures Valid()
      ensures questions == old(questions) && currentUser == old(currentUser)
      ensures answered == confirm
      ensures players == if confirm
        then AddToSession(old(players), currentUser.value, category, ScoreOf(questions[randomQ], question))
        else old(players)
    {
      if confirm {
        var u := currentUser.value;
        assert category in players[u];
        players := AddToSession(players, u, category, ScoreOf(questions[randomQ], question));
        return true;
      }
      return false;
    }

    /**
     * One question screen (the `while (!answered)` loop): moves are read
     * until one is confirmed. A confirmed answer is committed, a confirmed
     * q aborts, and unconfirmed moves show the same question again.
     */
    method AskQuestion(category: Category, randomQ: int, moves: seq<Move>, from: nat) returns (step: Step, next: nat)
      requires Valid() && currentUser.Some? && randomQ in questions
      requires from <= |moves| && ValidMoves(moves)
      modifies this
      ensures Valid()
      ensures questions == old(questions) && currentUser == old(currentUser)
      ensures ScreenRead(moves, from, step, next)
      ensures step.Committed? ==> 1 <= step.position <= 4
      ensures players == if step.Committed?
        then AddToSession(old(players), currentUser.value, category, ScoreOf(questions[randomQ], step.position))
        else old(players)
    {
      next := from;
      var answered := false;
      while !answered
        invariant from <= next <= |moves|
        invariant Valid() && questions == old(questions) && currentUser == old(currentUser)
        invariant !answered ==> players == old(players) && forall j :: from <= j < next ==> !moves[j].confirm
        invariant answered ==>
          && next > from && moves[next - 1].confirm && moves[next - 1].key.Pick?
          && (forall j :: from <= j < next - 1 ==> !moves[j].confirm)
          && players == AddToSession(old(players), currentUser.value, category,
                                     ScoreOf(questions[randomQ], moves[next - 1].key.position))
        decreases |moves| - next, !answered
      {
        if next == |moves| {
          step := Exhausted;
          return;
        }
        var move := moves[next];
        next := next + 1;
        match move.key
        case Pick(position) =>
          answered := IsAnswered(category, randomQ, position, move.confirm);
        case Quit =>
          if move.confirm {
            step := Abort;
            return;
          }
      }
      step := Committed(moves[next - 1].key.position);
    }

    /**
     * One pass of the session loop: an id not asked yet is drawn and its
     * question is shown until an answer is committed, q is confirmed, or
     * the input runs out.
     */
    method PlayQuestion(category: Category, asked: seq<int>, moves: seq<Move>, from: nat)
      returns (randomQ: int, step: Step, next: nat)
      requires Valid() && currentUser.Some?
      requires Distinct(asked) && InRange(asked, |questions|) && |asked| < |questions|
      requires from <= |moves| && ValidMoves(moves)
      modifies this
      ensures Valid() && questions == old(questions) && currentUser == old(currentUser)
      ensures 1 <= randomQ <= |questions| && randomQ !in asked && randomQ in questions
      ensures Distinct(asked + [randomQ]) && InRange(asked + [randomQ], |questions|)
      ensures ScreenRead(moves, from, step, next)
      ensures step.Committed? ==> ValidChoice(questions, (randomQ, step.position))
      ensures players == if step.Committed?
        then AddToSession(old(players), currentUser.value, category, ScoreOf(questions[randomQ], step.position))
        else old(players)
    {
      randomQ := Draw(asked, |questions|);
      step, next := AskQuestion(category, randomQ, moves, from);
      assert WellFormedQuestion(questions[randomQ]);
    }

    /**
     * One pass of the session loop, with its bookkeeping: an unasked id is
     * drawn and its question shown until a move is confirmed. The screen
     * is left as `ScreenRead` says; a committed answer joins `committed`
     * (the pairs of `asked` and `done`) and its points the current-session
     * slot, and nothing is recorded otherwise.
     */
    method SessionScreen(category: Category, moves: seq<Move>, ghost start: Players,
                         asked: seq<int>, committed: seq<(int, int)>, ghost done: seq<int>, screen: nat)
      returns (step: Step, asked': seq<int>, committed': seq<(int, int)>, ghost done': seq<int>, next: nat)
      requires Valid() && currentUser.Some? && ValidMoves(moves)
      requires currentUser.value in start && category in start[currentUser.value]
      requires |asked| < |questions| && |done| == |asked| && |committed| == |asked|
      requires forall k :: 0 <= k < |committed| ==> committed[k] == (asked[k], done[k])
      requires Distinct(asked) && InRange(asked, |questions|)
      requires forall k :: 0 <= k < |committed| ==> ValidChoice(questions, committed[k])
      requires screen <= |moves|
      requires players == AddToSession(start, currentUser.value, category, TotalScore(questions, committed))
      modifies this
      ensures Valid() && questions == old(questions) && currentUser == old(currentUser)
      ensures screen <= next <= |moves|
      ensures |asked'| == |asked| + 1 && Distinct(asked') && InRange(asked', |questions|)
      ensures |done'| == |committed'|
      ensures |committed'| <= |asked'|
      ensures forall k :: 0 <= k < |committed'| ==> committed'[k] == (asked'[k], done'[k])
      ensures forall k :: 0 <= k < |committed'| ==> ValidChoice(questions, committed'[k])
      ensures players == AddToSession(start, currentUser.value, category, TotalScore(questions, committed'))
      ensures ScreenRead(moves, screen, step, next)
      ensures done' == if step.Committed? then done + [step.position] else done
      ensures step.Committed? ==> |committed'| == |asked'|
      ensures !step.Committed? ==> committed' == committed
    {
      var u := currentUser.value;
      ghost var before := players;
      var randomQ;
      randomQ, step, next := PlayQuestion(category, asked, moves, screen);
      asked' := asked + [randomQ];
      if !step.Committed? {
        committed', done' := committed, done;
        return;
      }
      CommitAnswer(start, before, players, u, category, questions, committed, (randomQ, step.position));
      committed' := committed + [(randomQ, step.position)];
      done' := done + [step.position];
    }

    /**
     * One session over the loaded bank (the `for` loop of `PlayGame`):
     * each question id is drawn among those not asked yet and shown until
     * an answer is committed. How the session ends, the answers committed
     * and the next unread move are what `Screens` makes of the moves. The
     * committed points accumulate in the current-session slot; the best
     * slot is not touched.
     */
    method PlaySession(category: Category, moves: seq<Move>, from: nat)
      returns (outcome: Outcome, asked: seq<int>, committed: seq<(int, int)>, next: nat)
      requires Valid() && currentUser.Some?
      requires from <= |moves| && ValidMoves(moves)
      modifies this
      ensures Valid()
      ensures questions == old(questions) && currentUser == old(currentUser)
      ensures from <= next <= |moves|
      ensures Distinct(asked) && InRange(asked, |questions|)
      ensures |asked| <= |questions|
      ensures outcome == Completed ==> IsDrawOrder(asked, |questions|) && |committed| == |asked|
      ensures outcome != Completed ==> |committed| == |asked| - 1
      ensures var s := Screens(moves, from, |questions|, []);
        && outcome == s.outcome && next == s.next && |committed| == |s.positions|
        && forall k :: 0 <= k < |committed| ==> committed[k] == (asked[k], s.positions[k])
      ensures forall k :: 0 <= k < |committed| ==> ValidChoice(questions, committed[k])
      ensures 0 <= TotalScore(questions, committed) <= 2 * |questions|
      ensures players == AddToSession(old(players), currentUser.value, category, TotalScore(questions, committed))
    {
      var u := currentUser.value;
      var n := |questions|;
      asked, committed, next := [], [], from;
      ghost var done: seq<int> := [];
      ghost var whole := Screens(moves, from, n, []);
      assert category in players[u];
      AddToSessionZero(players, u, category);
      for i := 0 to n
        invariant |asked| == i && |done| == i && |committed| == i
        invariant forall k :: 0 <= k < i ==> committed[k] == (asked[k], done[k])
        invariant Distinct(asked) && InRange(asked, n)
        invariant forall k :: 0 <= k < i ==> ValidChoice(questions, committed[k])
        invariant from <= next <= |moves|
        invariant Valid() && questions == old(questions) && currentUser == old(currentUser)
        invariant whole == Screens(moves, next, n - |asked|, done)
        invariant players == AddToSession(old(players), u, category, TotalScore(questions, committed))
      {
        ghost var screen, before := next, done;
        var step;
        step, asked, committed, done, next := SessionScreen(category, moves, old(players), asked, committed, done, next);
        ScreenStep(moves, screen, n - i, n - |asked|, before, done, step, next);
        if !step.Committed? {
          outcome := if step.Abort? then Aborted else Stalled;
          TotalScoreBounds(questions, committed);
          return;
        }
      }
      outcome := Completed;
      TotalScoreBounds(questions, committed);
    }

    /** `Questions = Get...Questions()`: the bank of the chosen category is loaded. */
    method LoadQuestions(bank: Bank)
      requires Valid() && WellFormedBank(bank)
      modifies this
      ensures Valid() && questions == bank
      ensures players == old(players) && currentUser == old(currentUser)
    {
      questions := bank;
    }

    /**
     * The end of a completed session: the best slot takes the session
     * total if that is higher, and a retry resets the session slot to 0.
     */
    method EndSession(category: Category, retry: bool)
      requires Valid() && currentUser.Some?
      modifies this
      ensures Valid() && questions == old(questions) && currentUser == old(currentUser)
      ensures var folded := FoldBest(old(players), currentUser.value, category);
        players == if retry then ResetSession(folded, currentUser.value, category) else folded
    {
      var u := currentUser.value;
      assert category in players[u];
      players := FoldBest(players, u, category);
      if retry {
        players := ResetSession(players, u, category);
      }
    }

    /**
     * One pass of the `while (isPlaying)` body for a chosen category: its
     * bank is loaded and a session is played; a completed session folds the
     * session slot into the best slot and, on a retry, resets the session
     * slot. The retry answer is only consulted after a completed session.
     */
    method PlayRound(category: Category, moves: seq<Move>, from: nat, retryAnswer: bool) returns (round: Round, next: nat)
      requires Valid() && currentUser.Some?
      requires from <= |moves| && ValidMoves(moves)
      modifies this
      ensures Valid() && currentUser == old(currentUser)
      ensures from <= next <= |moves|
      ensures questions == BankFor(category)
      ensures round.category == category
      ensures round.retried == (round.outcome == Completed && retryAnswer)
      ensures RoundFits(round)
      ensures Follows(round, Screens(moves, from, BankSize, [])) && next == Screens(moves, from, BankSize, []).next
      ensures players == ApplyRound(old(players), currentUser.value, round)
    {
      var u := currentUser.value;
      var bank := BankFor(category);
      BanksWellFormed(category);
      LoadQuestions(bank);
      var outcome, asked, committed;
      outcome, asked, committed, next := PlaySession(category, moves, from);
      assert committed == Pairs(asked, Screens(moves, from, BankSize, []).positions);
      var gained := TotalScore(questions, committed);
      TotalScoreBounds(questions, committed);
      if outcome == Completed {
        EndSession(category, retryAnswer);
      }
      round := Round(category, asked, gained, outcome, outcome == Completed && retryAnswer);
    }

    /**
     * `PlayGame`: categories are chosen from the menu until q, and a round
     * is played for each; the game goes on to the next menu choice only
     * after a completed round the player chose to retry. The k-th retry
     * answer belongs to the k-th round, and each round reads the moves
     * from where the previous one stopped.
     */
    method PlayGame(menu: seq<Option<Category>>, moves: seq<Move>, retries: seq<bool>) returns (rounds: seq<Round>)
      requires Valid() && currentUser.Some? && ValidMoves(moves)
      modifies this
      ensures Valid() && currentUser == old(currentUser)
      ensures players == ApplyRounds(old(players), currentUser.value, rounds)
      ensures PlayedAsMenuSays(menu, moves, retries, rounds)
      ensures rounds == [] ==> questions == old(questions)
    {
      var u := currentUser.value;
      rounds := [];
      var m, nextMove, playing := 0, 0, true;
      ProgressStart(menu, retries);
      while playing && m < |menu|
        invariant MovesAfter(moves, rounds) == Some(nextMove)
        invariant Progress(menu, retries, rounds, m, playing)
        invariant Valid() && currentUser == old(currentUser)
        invariant players == ApplyRounds(old(players), u, rounds)
        invariant rounds == [] ==> questions == old(questions)
        decreases |menu| - m
      {
        var choice := menu[m];
        if choice.None? {
          ProgressCancel(menu, retries, rounds, m);
          playing := false;
        } else {
          var round;
          round, nextMove := PlayRound(choice.value, moves, nextMove, m < |retries| && retries[m]);
          ProgressRound(menu, retries, rounds, m, round);
          MovesAfterAppend(moves, rounds, round);
          ApplyRoundsAppend(old(players), u, rounds, round);
          rounds := rounds + [round];
          playing := round.retried;
        }
        m := m + 1;
      }
      ProgressDone(menu, moves, retries, rounds, m, playing);
    }
  }

  /** Committing one more answer keeps the session slot equal to the old slot plus the committed total. */
  lemma CommitAnswer(ps: Players, mid: Players, after: Players, u: string, c: Category, b: Bank,
                     committed: seq<(int, int)>, choice: (int, int))
    requires u in ps && c in ps[u]
    requires forall k :: 0 <= k < |committed| ==> ValidChoice(b, committed[k])
    requires ValidChoice(b, choice)
    requires mid == AddToSession(ps, u, c, TotalScore(b, committed))
    requires after == AddToSession(mid, u, c, ScoreOf(b[choice.0], choice.1))
    ensures forall k :: 0 <= k < |committed| + 1 ==> ValidChoice(b, (committed + [choice])[k])
    ensures after == AddToSession(ps, u, c, TotalScore(b, committed + [choice]))
  {
    var all := committed + [choice];
    assert forall k :: 0 <= k < |all| ==> ValidChoice(b, all[k]) by {
      assert forall k :: 0 <= k < |committed| ==> all[k] == committed[k];
    }
    TotalScoreAppend(b, committed, choice);
    AddToSessionTwice(ps, u, c, TotalScore(b, committed), ScoreOf(b[choice.0], choice.1));
  }

  /**
   * What every round of `PlayGame` satisfies: its points lie between 0 and
   * 2 per question of its bank, its ids are distinct and in range, and a
   * completed round asked every question exactly once.
   */
  predicate RoundFits(r: Round) {
    && 0 <= r.gained <= 2 * BankSize
    && Distinct(r.asked) && InRange(r.asked, BankSize)
    && (r.outcome == Completed ==> IsDrawOrder(r.asked, BankSize))
    && (r.outcome != Completed ==> !r.retried)
  }

  /**
   * A round is what the screens `s` made of the moves: it ended as they
   * did, and it gained the points of the answers they committed to the
   * ids it drew, in order.
   */
  predicate Follows(r: Round, s: Screened) {
    && r.outcome == s.outcome
    && |s.positions| <= |r.asked|
    && (forall k :: 0 <= k < |s.positions| ==> ValidChoice(BankFor(r.category), (r.asked[k], s.positions[k])))
    && r.gained == TotalScore(BankFor(r.category), Pairs(r.asked, s.positions))
  }

  /**
   * Where the moves stand after `rounds`, each round reading the moves
   * from where the previous one stopped; None if some round is not what
   * its screens made of the moves.
   */
  function MovesAfter(moves: seq<Move>, rounds: seq<Round>): (r: Option<nat>)
    requires ValidMoves(moves)
    ensures r.Some? ==> r.value <= |moves|
  {
    if rounds == [] then Some(0)
    else
      var before := MovesAfter(moves, rounds[..|rounds| - 1]);
      if before.None? then None
      else
        var s := Screens(moves, before.value, BankSize, []);
        if Follows(rounds[|rounds| - 1], s) then Some(s.next) else None
  }

  lemma MovesAfterAppend(moves: seq<Move>, rounds: seq<Round>, r: Round)
    requires ValidMoves(moves) && MovesAfter(moves, rounds).Some?
    ensures var s := Screens(moves, MovesAfter(moves, rounds).value, BankSize, []);
      MovesAfter(moves, rounds + [r]) == if Follows(r, s) then Some(s.next) else None
  {
    assert (rounds + [r])[..|rounds|] == rounds;
  }

  /**
   * What `PlayGame` promises about the rounds it played: the k-th round is
   * the k-th menu choice and fits its bank; the rounds are what their
   * screens made of the moves, read one after the other; every round
   * before the last was completed and retried on a yes; the last one was
   * retried exactly when it was completed and its answer was yes; and the
   * game stops with menu input left only because the player chose q or
   * declined to go on.
   */
  predicate PlayedAsMenuSays(menu: seq<Option<Category>>, moves: seq<Move>, retries: seq<bool>, rounds: seq<Round>)
    requires ValidMoves(moves)
  {
    && |rounds| <= |menu|
    && MovesAfter(moves, rounds).Some?
    && (forall k :: 0 <= k < |rounds| ==> menu[k] == Some(rounds[k].category) && RoundFits(rounds[k]))
    && (forall k :: 0 <= k < |rounds| - 1 ==>
          rounds[k].outcome == Completed && k < |retries| && retries[k] && rounds[k].retried)
    && (rounds != [] ==> var k := |rounds| - 1;
          rounds[k].retried == (rounds[k].outcome == Completed && k < |retries| && retries[k]))
    && (|rounds| < |menu| && (rounds == [] || rounds[|rounds| - 1].retried) ==> menu[|rounds|].None?)
  }

  /** The loop state of `PlayGame` after reading `m` menu entries. */
  ghost predicate Progress(menu: seq<Option<Category>>, retries: seq<bool>, rounds: seq<Round>, m: nat, playing: bool) {
    && m <= |menu|
    && (if playing then m == |rounds| else m == |rounds| || m == |rounds| + 1)
    && (forall k :: 0 <= k < |rounds| ==> menu[k] == Some(rounds[k].category) && RoundFits(rounds[k]))
    && (forall k :: 0 <= k < |rounds| - 1 ==>
          rounds[k].outcome == Completed && k < |retries| && retries[k] && rounds[k].retried)
    && (rounds != [] ==> var k := |rounds| - 1;
          rounds[k].retried == (rounds[k].outcome == Completed && k < |retries| && retries[k]))
    && (playing ==> rounds == [] || rounds[|rounds| - 1].retried)
    && (!playing && (rounds == [] || rounds[|rounds| - 1].retried) ==> m == |rounds| + 1 && menu[|rounds|].None?)
  }

  lemma ProgressStart(menu: seq<Option<Category>>, retries: seq<bool>)
    ensures Progress(menu, retries, [], 0, true)
  {
  }

  lemma ProgressCancel(menu: seq<Option<Category>>, retries: seq<bool>, rounds: seq<Round>, m: nat)
    requires Progress(menu, retries, rounds, m, true) && m < |menu| && menu[m].None?
    ensures Progress(menu, retries, rounds, m + 1, false)
  {
  }

  lemma ProgressRound(menu: seq<Option<Category>>, retries: seq<bool>, rounds: seq<Round>, m: nat, round: Round)
    requires Progress(menu, retries, rounds, m, true) && m < |menu| && menu[m] == Some(round.category)
    requires RoundFits(round) && round.retried == (round.outcome == Completed && m < |retries| && retries[m])
    ensures Progress(menu, retries, rounds + [round], m + 1, round.retried)
  {
  }

  lemma ProgressDone(menu: seq<Option<Category>>, moves: seq<Move>, retries: seq<bool>, rounds: seq<Round>, m: nat, playing: bool)
    requires Progress(menu, retries, rounds, m, playing) && !(playing && m < |menu|)
    requires ValidMoves(moves) && MovesAfter(moves, rounds).Some?
    ensures PlayedAsMenuSays(menu, moves, retries, rounds)
  {
  }
}
