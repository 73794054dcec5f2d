/**
 * The question bank: categories, questions reduced to their four
 * (number, score) answer pairs, the three static banks, and the scoring
 * rules that read them.
 */
module QuestionBank {
  import opened Optional
  import opened Drawing

  /** The categories, in the order the enumeration declares them. */
  datatype Category = ComputerScience | Cars | Animals

  /** The order in which the leaderboard walks the categories. */
  const AllCategories: seq<Category> := [ComputerScience, Cars, Animals]

  /** An answer option: its 1-based position and the points it awards. */
  datatype Answer = Answer(number: int, score: int)

  datatype Question = Question(answers: seq<Answer>)

  /** A bank maps 1-based question ids to questions. */
  type Bank = map<int, Question>

  /** The number of answers in `answers` that award exactly `s` points. */
  function CountScore(answers: seq<Answer>, s: int): (n: nat)
    ensures n <= |answers|
  {
    if answers == [] then 0
    else (if answers[0].score == s then 1 else 0) + CountScore(answers[1..], s)
  }

  /**
   * A question as the rules describe it: four answers numbered 1 to 4 in
   * order, each worth 0, 1 or 2 points, exactly one of them worth 2.
   */
  predicate WellFormedQuestion(q: Question) {
    && |q.answers| == 4
    && (forall i :: 0 <= i < 4 ==> q.answers[i].number == i + 1 && 0 <= q.answers[i].score <= 2)
    && CountScore(q.answers, 2) == 1
  }

  /** A bank whose ids are exactly 1..|b| and whose questions are well formed. */
  predicate WellFormedBank(b: Bank) {
    && (forall k :: k in b ==> 1 <= k <= |b|)
    && (forall k :: 1 <= k <= |b| ==> k in b)
    && (forall k :: k in b ==> WellFormedQuestion(b[k]))
  }

  /** The score of the answer at 1-based `position`: `Answers[position - 1].Score`. */
  function ScoreOf(q: Question, position: int): (r: int)
    requires 1 <= position <= |q.answers|
    ensures WellFormedQuestion(q) ==> 0 <= r <= 2
    ensures WellFormedQuestion(q) ==> q.answers[position - 1].number == position
  {
    q.answers[position - 1].score
  }

  /** The first answer in `answers` worth `s` points, if any (`FirstOrDefault`). */
  function FirstWithScore(answers: seq<Answer>, s: int): (r: Option<Answer>)
    ensures r.Some? ==> r.value in answers && r.value.score == s
    ensures r.None? <==> CountScore(answers, s) == 0
    ensures r.Some? ==> exists i :: 0 <= i < |answers| && answers[i] == r.value
                           && forall j :: 0 <= j < i ==> answers[j].score != s
  {
    if answers == [] then None
    else if answers[0].score == s then Some(answers[0])
    else
      var rest := FirstWithScore(answers[1..], s);
      if rest.Some? then
        var i :| 0 <= i < |answers[1..]| && answers[1..][i] == rest.value
                  && forall j :: 0 <= j < i ==> answers[1..][j].score != s;
        assert answers[i + 1] == rest.value;
        rest
      else rest
  }

  /** The answer shown in the answer key after a session: the first worth 2 points. */
  function TopAnswer(q: Question): Option<Answer> {
    FirstWithScore(q.answers, 2)
  }

  /** Two different answers worth `s` make the count at least two. */
  lemma {:induction false} CountScoreAtLeastTwo(answers: seq<Answer>, s: int, i: int, j: int)
    requires 0 <= i < j < |answers|
    requires answers[i].score == s && answers[j].score == s
    ensures CountScore(answers, s) >= 2
  {
    if i == 0 {
      CountScoreAtLeastOne(answers[1..], s, j - 1);
    } else {
      CountScoreAtLeastTwo(answers[1..], s, i - 1, j - 1);
    }
  }

  lemma {:induction false} CountScoreAtLeastOne(answers: seq<Answer>, s: int, i: int)
    requires 0 <= i < |answers| && answers[i].score == s
    ensures CountScore(answers, s) >= 1
  {
    if i > 0 {
      CountScoreAtLeastOne(answers[1..], s, i - 1);
    }
  }

  /**
   * The answer-key lookup never falls back to the default: a well-formed
   * question has a 2-point answer, it is the only one, and no answer is
   * worth more.
   */
  lemma TopAnswerIsUniquePerfect(q: Question)
    requires WellFormedQuestion(q)
    ensures TopAnswer(q).Some?
    ensures TopAnswer(q).value.score == 2
    ensures forall i :: 0 <= i < 4 ==> q.answers[i].score <= TopAnswer(q).value.score
    ensures forall i :: 0 <= i < 4 && q.answers[i].score == 2 ==> q.answers[i] == TopAnswer(q).value
  {
    var top := TopAnswer(q).value;
    var k :| 0 <= k < |q.answers| && q.answers[k] == top;
    forall i | 0 <= i < 4 && q.answers[i].score == 2
      ensures q.answers[i] == top
    {
      if i < k {
        CountScoreAtLeastTwo(q.answers, 2, i, k);
      } else if k < i {
        CountScoreAtLeastTwo(q.answers, 2, k, i);
      }
    }
  }

  /**
   * The points collected by committing, in order, the answers
   * `committed[k].1` to the questions with ids `committed[k].0`.
   */
  function TotalScore(b: Bank, committed: seq<(int, int)>): int
    requires forall k :: 0 <= k < |committed| ==> ValidChoice(b, committed[k])
  {
    if committed == [] then 0
    else
      var last := committed[|committed| - 1];
      assert ValidChoice(b, last);
      TotalScore(b, committed[..|committed| - 1]) + ScoreOf(b[last.0], last.1)
  }

  /** A (question id, answer position) pair the bank can score. */
  predicate ValidChoice(b: Bank, choice: (int, int)) {
    choice.0 in b && 1 <= choice.1 <= |b[choice.0].answers|
  }

  /** Each committed answer is worth 0 to 2 points, so n answers are worth at most 2n. */
  lemma {:induction false} TotalScoreBounds(b: Bank, committed: seq<(int, int)>)
    requires WellFormedBank(b)
    requires forall k :: 0 <= k < |committed| ==> ValidChoice(b, committed[k])
    ensures 0 <= TotalScore(b, committed) <= 2 * |committed|
  {
    if committed != [] {
      var last := committed[|committed| - 1];
      assert ValidChoice(b, last);
      assert last.0 in b;
      assert forall k :: k in b ==> WellFormedQuestion(b[k]);
      var q := b[last.0];
      assert WellFormedQuestion(q);
      TotalScoreBounds(b, committed[..|committed| - 1]);
    }
  }

  /** Committing one more answer adds exactly that answer's score. */
  lemma TotalScoreAppend(b: Bank, committed: seq<(int, int)>, choice: (int, int))
    requires forall k :: 0 <= k < |committed| ==> ValidChoice(b, committed[k])
    requires ValidChoice(b, choice)
    ensures TotalScore(b, committed + [choice]) == TotalScore(b, committed) + ScoreOf(b[choice.0], choice.1)
  {
    assert (committed + [choice])[..|committed|] == committed;
  }

  /** The number of entries each bank constructor puts in its dictionary. */
  const BankSize := 10

  /** A question whose answers, numbered 1 to 4, award the four given points. */
  function Scored(points: (int, int, int, int)): Question {
    Question([Answer(1, points.0), Answer(2, points.1), Answer(3, points.2), Answer(4, points.3)])
  }

  /** Four scores in 0..2, exactly one of them 2. */
  predicate ValidPoints(points: (int, int, int, int)) {
    && 0 <= points.0 <= 2 && 0 <= points.1 <= 2 && 0 <= points.2 <= 2 && 0 <= points.3 <= 2
    && (if points.0 == 2 then 1 else 0) + (if points.1 == 2 then 1 else 0)
       + (if points.2 == 2 then 1 else 0) + (if points.3 == 2 then 1 else 0) == 1
  }

  lemma ScoredWellFormed(points: (int, int, int, int))
    requires ValidPoints(points)
    ensures WellFormedQuestion(Scored(points))
  {
    var answers := Scored(points).answers;
    assert answers[1..][1..][1..][1..] == [];
  }

  /** The scores of the answers `GetComputerScienceQuestions` stores under `id`. */
  function ComputerSciencePoints(id: int): (int, int, int, int)
    requires 1 <= id <= BankSize
  {
    if id == 1 then (2, 1, 1, 0)
    else if id == 2 then (1, 2, 0, 0)
    else if id == 3 then (1, 0, 0, 2)
    else if id == 4 then (1, 0, 2, 0)
    else if id == 5 then (1, 2, 0, 0)
    else if id == 6 then (1, 2, 0, 0)
    else if id == 7 then (0, 0, 2, 1)
    else if id == 8 then (2, 0, 0, 0)
    else if id == 9 then (1, 2, 0, 0)
    else (0, 0, 1, 2)
  }

  /** The scores of the answers `GetCarQuestions` stores under `id`. */
  function CarPoints(id: int): (int, int, int, int)
    requires 1 <= id <= BankSize
  {
    if id == 1 then (0, 1, 2, 0)
    else if id == 2 then (0, 0, 2, 1)
    else if id == 3 then (1, 2, 0, 0)
    else if id == 4 then (1, 0, 0, 2)
    else if id == 5 then (2, 0, 0, 1)
    else if id == 6 then (2, 0, 0, 1)
    else if id == 7 then (0, 1, 2, 0)
    else if id == 8 then (1, 2, 0, 0)
    else if id == 9 then (1, 0, 2, 0)
    else (0, 0, 2, 1)
  }

  /** The scores of the answers `GetAnimalQuestions` stores under `id`. */
  function AnimalPoints(id: int): (int, int, int, int)
    requires 1 <= id <= BankSize
  {
    if id == 1 then (1, 2, 0, 0)
    else if id == 2 then (1, 2, 0, 0)
    else if id == 3 then (2, 0, 1, 0)
    else if id == 4 then (1, 0, 2, 0)
    else if id == 5 then (2, 0, 0, 1)
    else if id == 6 then (0, 0, 2, 1)
    else if id == 7 then (1, 0, 2, 0)
    else if id == 8 then (2, 0, 0, 1)
    else if id == 9 then (2, 0, 1, 0)
    else (0, 0, 2, 1)
  }

  /** The points of question `id` in the bank of category `c`. */
  function PointsFor(c: Category, id: int): (int, int, int, int)
    requires 1 <= id <= BankSize
  {
    match c
    case ComputerScience => ComputerSciencePoints(id)
    case Cars => CarPoints(id)
    case Animals => AnimalPoints(id)
  }

  /** The dictionary the bank constructor of `c` builds: the ids 1..10 and their questions. */
  function BankFor(c: Category): Bank {
    map id | 1 <= id <= BankSize :: Scored(PointsFor(c, id))
  }

  /** The bank of `c` holds exactly the ids 1..10, each under its listed question. */
  lemma BankForEntries(c: Category)
    ensures forall id :: id in BankFor(c) <==> 1 <= id <= BankSize
    ensures forall id :: id in BankFor(c) ==> BankFor(c)[id] == Scored(PointsFor(c, id))
  {
  }

  /** Every question of every bank has four scores in 0..2 with exactly one 2. */
  lemma {:induction false} PointsValid(c: Category, id: int)
    requires 1 <= id <= BankSize
    ensures ValidPoints(PointsFor(c, id))
  {
    assert id == 1 || id == 2 || id == 3 || id == 4 || id == 5 || id == 6 || id == 7 || id == 8 || id == 9 || id == 10;
  }

  /** A map whose keys are exactly 1..n has n entries. */
  lemma KeysSize(b: Bank, n: nat)
    requires forall id :: id in b <==> 1 <= id <= n
    ensures |b| == n
  {
    assert b.Keys == IdRange(n);
  }

  /** Every bank holds ten questions with ids 1..10, each well formed. */
  lemma BanksWellFormed(c: Category)
    ensures |BankFor(c)| == BankSize
    ensures WellFormedBank(BankFor(c))
  {
    var b := BankFor(c);
    BankForEntries(c);
    KeysSize(b, BankSize);
    forall id | id in b
      ensures WellFormedQuestion(b[id])
    {
      PointsValid(c, id);
      ScoredWellFormed(PointsFor(c, id));
    }
  }
}
