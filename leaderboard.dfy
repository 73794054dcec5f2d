/**
 * The two leaderboard views: the per-category top list with competition
 * ranks and star markers, and each player's categories by best score.
 * The orders `OrderByDescending` produces are inputs, described by what
 * they must satisfy; ties may come in any order.
 */
module Leaderboard {
  import opened Optional
  import opened QuestionBank
  import opened Registry

  /** The sort key of the ranking: the best slot, or 0 for a player without the category. */
  function BestOf<N(==)>(ps: map<N, Scores>, c: Category, name: N): int {
    if name in ps && c in ps[name] then ps[name][c].best else 0
  }

  /**
   * The registry's shape as the boards need it. The boards never look
   * inside a name, so they are stated for any name type; the game's
   * registry is the instance with full names as strings.
   */
  predicate WellFormedRegistry<N(==)>(ps: map<N, Scores>) {
    forall u :: u in ps ==> WellFormedScores(ps[u])
  }

  /** An arrangement of every registered player, highest best first. */
  predicate IsRankingOrder<N(==)>(ps: map<N, Scores>, c: Category, order: seq<N>) {
    && |order| == |ps|
    && multiset(order) == multiset(ps.Keys)
    && Descending(ps, c, order)
  }

  predicate Descending<N(==)>(ps: map<N, Scores>, c: Category, order: seq<N>) {
    forall i, j :: 0 <= i < j < |order| ==> BestOf(ps, c, order[i]) >= BestOf(ps, c, order[j])
  }

  /** No player in `order` has a negative best. */
  predicate NonNegative<N(==)>(ps: map<N, Scores>, c: Category, order: seq<N>) {
    forall i :: 0 <= i < |order| ==> BestOf(ps, c, order[i]) >= 0
  }

  /** Every name in a ranking order is a registered player, so no best in it is negative. */
  lemma OrderMembers<N>(ps: map<N, Scores>, c: Category, order: seq<N>)
    requires WellFormedRegistry(ps) && IsRankingOrder(ps, c, order)
    ensures forall i :: 0 <= i < |order| ==> order[i] in ps
    ensures NonNegative(ps, c, order)
  {
    forall i | 0 <= i < |order|
      ensures order[i] in ps
    {
      assert order[i] in multiset(order);
    }
  }

  /** The names of `names` that have a non-zero best, in order: the players a board lists. */
  function Shown<N(==)>(ps: map<N, Scores>, c: Category, names: seq<N>): (r: seq<N>)
    ensures |r| <= |names|
  {
    if names == [] then []
    else
      var init := Shown(ps, c, names[..|names| - 1]);
      var last := names[|names| - 1];
      if BestOf(ps, c, last) != 0 then init + [last] else init
  }

  lemma ShownAppend<N>(ps: map<N, Scores>, c: Category, names: seq<N>, name: N)
    ensures Shown(ps, c, names + [name]) == Shown(ps, c, names) + (if BestOf(ps, c, name) != 0 then [name] else [])
  {
    assert (names + [name])[..|names|] == names;
  }

  function Bests<N(==)>(ps: map<N, Scores>, c: Category, names: seq<N>): (r: seq<int>)
    ensures |r| == |names|
  {
    if names == [] then [] else Bests(ps, c, names[..|names| - 1]) + [BestOf(ps, c, names[|names| - 1])]
  }

  lemma {:induction false} BestsMeaning<N>(ps: map<N, Scores>, c: Category, names: seq<N>)
    ensures forall k :: 0 <= k < |names| ==> Bests(ps, c, names)[k] == BestOf(ps, c, names[k])
  {
    if names != [] {
      BestsMeaning(ps, c, names[..|names| - 1]);
    }
  }

  lemma BestsAppend<N>(ps: map<N, Scores>, c: Category, names: seq<N>, name: N)
    ensures Bests(ps, c, names + [name]) == Bests(ps, c, names) + [BestOf(ps, c, name)]
  {
    assert (names + [name])[..|names|] == names;
  }

  /** How many elements of `s` exceed `v`. */
  function CountAbove(s: seq<int>, v: int): (n: nat)
    ensures n <= |s|
  {
    if s == [] then 0 else CountAbove(s[..|s| - 1], v) + (if s[|s| - 1] > v then 1 else 0)
  }

  /**
   * Competition ranking: each score's rank is one more than the number of
   * scores before it that are strictly higher.
   */
  function Ranks(s: seq<int>): (r: seq<int>)
    ensures |r| == |s|
  {
    if s == [] then [] else Ranks(s[..|s| - 1]) + [1 + CountAbove(s[..|s| - 1], s[|s| - 1])]
  }

  lemma {:induction false} RankAt(s: seq<int>, j: int)
    requires 0 <= j < |s|
    ensures Ranks(s)[j] == 1 + CountAbove(s[..j], s[j])
    decreases |s|
  {
    var init := s[..|s| - 1];
    if j < |init| {
      RankAt(init, j);
      assert init[..j] == s[..j];
    }
  }

  lemma RanksMeaning(s: seq<int>)
    ensures forall j {:trigger Ranks(s)[j]} :: 0 <= j < |s| ==> Ranks(s)[j] == 1 + CountAbove(s[..j], s[j])
  {
    forall j | 0 <= j < |s|
      ensures Ranks(s)[j] == 1 + CountAbove(s[..j], s[j])
    {
      RankAt(s, j);
    }
  }

  /** The placement a rank earns: the three podium places, or none. */
  datatype Placement = Gold | Silver | Bronze | Unplaced

  function Marker(rank: int): (p: Placement)
    ensures p == Gold <==> rank == 1
    ensures p == Silver <==> rank == 2
    ensures p == Bronze <==> rank == 3
  {
    if rank == 1 then Gold else if rank == 2 then Silver else if rank == 3 then Bronze else Unplaced
  }

  /** The text printed for a placement: one star per podium place, nothing below it. */
  function MarkerText(p: Placement): (m: string)
    ensures |m| == match p case Gold => 1 case Silver => 2 case Bronze => 3 case Unplaced => 0
    ensures forall i :: 0 <= i < |m| ==> m[i] == '*'
  {
    match p
    case Gold => "*"
    case Silver => "**"
    case Bronze => "***"
    case Unplaced => ""
  }

  /** One line of a board. */
  datatype Entry<N> = Entry(name: N, rank: int, marker: Placement)

  /** A category's board, and whether the "only N players" notice was printed before it. */
  datatype Board<N> = Board(category: Category, shortage: bool, entries: seq<Entry<N>>)

  /** How many of `names` have a best above `v`. */
  function Above<N(==)>(ps: map<N, Scores>, c: Category, names: seq<N>, v: int): (n: nat)
    ensures n <= |names|
  {
    if names == [] then 0
    else Above(ps, c, names[..|names| - 1], v) + (if BestOf(ps, c, names[|names| - 1]) > v then 1 else 0)
  }

  /**
   * The board lines of the listed players `shown`, in order: each player's
   * rank is one more than the number of players listed before it with a
   * strictly higher best.
   */
  function Rankings<N(==)>(ps: map<N, Scores>, c: Category, shown: seq<N>): (r: seq<Entry<N>>)
    ensures |r| == |shown|
  {
    if shown == [] then []
    else
      var init := shown[..|shown| - 1];
      var last := shown[|shown| - 1];
      var rank := 1 + Above(ps, c, init, BestOf(ps, c, last));
      Rankings(ps, c, init) + [Entry(last, rank, Marker(rank))]
  }

  lemma RankingsAppend<N>(ps: map<N, Scores>, c: Category, shown: seq<N>, name: N)
    ensures var rank := 1 + Above(ps, c, shown, BestOf(ps, c, name));
      Rankings(ps, c, shown + [name]) == Rankings(ps, c, shown) + [Entry(name, rank, Marker(rank))]
  {
    assert (shown + [name])[..|shown|] == shown;
  }

  lemma {:induction false} RankingAt<N>(ps: map<N, Scores>, c: Category, shown: seq<N>, j: int)
    requires 0 <= j < |shown|
    ensures var rank := 1 + Above(ps, c, shown[..j], BestOf(ps, c, shown[j]));
      Rankings(ps, c, shown)[j] == Entry(shown[j], rank, Marker(rank))
    decreases |shown|
  {
    var init := shown[..|shown| - 1];
    if j < |init| {
      RankingAt(ps, c, init, j);
      assert init[..j] == shown[..j];
    }
  }

  /** Line `j` of a board names the `j`-th listed player with its competition rank. */
  lemma RankingsMeaning<N>(ps: map<N, Scores>, c: Category, shown: seq<N>)
    ensures forall j {:trigger Rankings(ps, c, shown)[j]} :: 0 <= j < |shown| ==>
      var rank := 1 + Above(ps, c, shown[..j], BestOf(ps, c, shown[j]));
      Rankings(ps, c, shown)[j] == Entry(shown[j], rank, Marker(rank))
  {
    forall j | 0 <= j < |shown|
      ensures var rank := 1 + Above(ps, c, shown[..j], BestOf(ps, c, shown[j]));
        Rankings(ps, c, shown)[j] == Entry(shown[j], rank, Marker(rank))
    {
      RankingAt(ps, c, shown, j);
    }
  }

  /** Counting over names is counting over their bests. */
  lemma {:induction false} AboveIsCountAbove<N>(ps: map<N, Scores>, c: Category, names: seq<N>, v: int)
    ensures Above(ps, c, names, v) == CountAbove(Bests(ps, c, names), v)
  {
    if names != [] {
      var init := names[..|names| - 1];
      AboveIsCountAbove(ps, c, init, v);
      var bests := Bests(ps, c, names);
      assert bests[..|init|] == Bests(ps, c, init);
    }
  }

  /** The board's ranks are the competition ranks of the listed bests. */
  lemma RankingsRanks<N>(ps: map<N, Scores>, c: Category, shown: seq<N>)
    ensures forall j :: 0 <= j < |shown| ==> Rankings(ps, c, shown)[j].rank == Ranks(Bests(ps, c, shown))[j]
  {
    var bests := Bests(ps, c, shown);
    RankingsMeaning(ps, c, shown);
    RanksMeaning(bests);
    BestsMeaning(ps, c, shown);
    forall j | 0 <= j < |shown|
      ensures Rankings(ps, c, shown)[j].rank == Ranks(bests)[j]
    {
      AboveIsCountAbove(ps, c, shown[..j], bests[j]);
      BestsPrefix(ps, c, shown, j);
    }
  }

  lemma BestsPrefix<N>(ps: map<N, Scores>, c: Category, names: seq<N>, j: int)
    requires 0 <= j <= |names|
    ensures Bests(ps, c, names)[..j] == Bests(ps, c, names[..j])
  {
    BestsMeaning(ps, c, names);
    BestsMeaning(ps, c, names[..j]);
  }

  predicate NonIncreasing(s: seq<int>) {
    forall a, b :: 0 <= a < b < |s| ==> s[a] >= s[b]
  }

  /** A prefix of a non-increasing sequence is non-increasing. */
  lemma NonIncreasingPrefix(s: seq<int>, j: int)
    requires NonIncreasing(s) && 0 <= j <= |s|
    ensures NonIncreasing(s[..j])
  {
    assert forall a :: 0 <= a < j ==> s[..j][a] == s[a];
  }

  /** Every element of a non-increasing sequence whose last element exceeds `v` exceeds `v`. */
  lemma {:induction false} CountAboveAll(s: seq<int>, v: int)
    requires NonIncreasing(s) && (s != [] ==> s[|s| - 1] > v)
    ensures CountAbove(s, v) == |s|
  {
    if s != [] {
      var init := s[..|s| - 1];
      if init != [] {
        assert init[|init| - 1] >= s[|s| - 1];
      }
      CountAboveAll(init, v);
    }
  }

  /**
   * The rank of the next score after a non-increasing run: the rank of
   * the last one on a tie, one past the run otherwise.
   */
  lemma NextRank(s: seq<int>, v: int)
    requires NonIncreasing(s) && (s != [] ==> s[|s| - 1] >= v)
    ensures s != [] && s[|s| - 1] == v ==> CountAbove(s, v) == CountAbove(s[..|s| - 1], s[|s| - 1])
    ensures (s == [] || s[|s| - 1] != v) ==> CountAbove(s, v) == |s|
  {
    if s == [] || s[|s| - 1] != v {
      CountAboveAll(s, v);
    }
  }

  /** Every listed player in a non-increasing run whose last best exceeds `v` is above `v`. */
  lemma {:induction false} AboveAll<N>(ps: map<N, Scores>, c: Category, names: seq<N>, v: int)
    requires Descending(ps, c, names) && (names != [] ==> BestOf(ps, c, names[|names| - 1]) > v)
    ensures Above(ps, c, names, v) == |names|
  {
    if names != [] {
      var init := names[..|names| - 1];
      assert Descending(ps, c, init);
      if init != [] {
        assert BestOf(ps, c, init[|init| - 1]) >= BestOf(ps, c, names[|names| - 1]);
      }
      AboveAll(ps, c, init, v);
    }
  }

  /**
   * The rank the next listed player earns after a run in non-increasing
   * order: the rank of the last one on a tie, one past the run otherwise.
   */
  lemma NextListed<N>(ps: map<N, Scores>, c: Category, shown: seq<N>, v: int)
    requires Descending(ps, c, shown) && (shown != [] ==> BestOf(ps, c, shown[|shown| - 1]) >= v)
    ensures shown != [] && BestOf(ps, c, shown[|shown| - 1]) == v ==>
      Above(ps, c, shown, v) == Above(ps, c, shown[..|shown| - 1], BestOf(ps, c, shown[|shown| - 1]))
    ensures (shown == [] || BestOf(ps, c, shown[|shown| - 1]) != v) ==> Above(ps, c, shown, v) == |shown|
  {
    if shown == [] || BestOf(ps, c, shown[|shown| - 1]) != v {
      AboveAll(ps, c, shown, v);
    }
  }

  lemma DescendingAppend<N>(ps: map<N, Scores>, c: Category, names: seq<N>, name: N)
    requires Descending(ps, c, names)
    requires names != [] ==> BestOf(ps, c, names[|names| - 1]) >= BestOf(ps, c, name)
    ensures Descending(ps, c, names + [name])
  {
    var s := names + [name];
    forall a, b | 0 <= a < b < |s|
      ensures BestOf(ps, c, s[a]) >= BestOf(ps, c, s[b])
    {
      if b == |names| && a < |names| - 1 {
        assert BestOf(ps, c, names[a]) >= BestOf(ps, c, names[|names| - 1]);
      }
    }
  }

  /**
   * The state of the ranking walk after `index` names of `order`: the
   * players listed so far and their board lines, `showRank` one past the
   * number listed, `lastRank` the last listed best (-1 before any) and
   * `rank` the last listed rank.
   */
  ghost predicate Walked<N>(ps: map<N, Scores>, c: Category, order: seq<N>, index: int, shown: seq<N>,
                         entries: seq<Entry<N>>, rank: int, showRank: int, lastRank: int)
  {
    && 0 <= index <= |order|
    && shown == Shown(ps, c, order[..index])
    && entries == Rankings(ps, c, shown)
    && showRank == |shown| + 1
    && Descending(ps, c, shown)
    && (shown == [] ==> lastRank == -1)
    && (shown != [] ==> lastRank == BestOf(ps, c, shown[|shown| - 1])
                        && rank == 1 + Above(ps, c, shown[..|shown| - 1], lastRank))
    && (shown != [] ==> forall i :: index <= i < |order| ==> lastRank >= BestOf(ps, c, order[i]))
  }

  lemma WalkStart<N>(ps: map<N, Scores>, c: Category, order: seq<N>)
    ensures Walked(ps, c, order, 0, [], [], 1, 1, -1)
  {
    assert order[..0] == [];
  }

  /** A player with a zero best is skipped: the walk advances and nothing else changes. */
  lemma WalkSkip<N>(ps: map<N, Scores>, c: Category, order: seq<N>, index: int, shown: seq<N>,
                 entries: seq<Entry<N>>, rank: int, showRank: int, lastRank: int)
    requires Walked(ps, c, order, index, shown, entries, rank, showRank, lastRank) && index < |order|
    requires BestOf(ps, c, order[index]) == 0
    ensures Walked(ps, c, order, index + 1, shown, entries, rank, showRank, lastRank)
  {
    assert order[..index + 1] == order[..index] + [order[index]];
    ShownAppend(ps, c, order[..index], order[index]);
  }

  /**
   * A player with a non-zero best is listed: on a tie with the previous
   * listed best it keeps `rank`, otherwise it takes `showRank`.
   */
  lemma WalkList<N>(ps: map<N, Scores>, c: Category, order: seq<N>, index: int, shown: seq<N>,
                 entries: seq<Entry<N>>, rank: int, showRank: int, lastRank: int,
                 shown': seq<N>, entries': seq<Entry<N>>, rank': int, showRank': int, lastRank': int)
    requires Descending(ps, c, order) && NonNegative(ps, c, order)
    requires Walked(ps, c, order, index, shown, entries, rank, showRank, lastRank) && index < |order|
    requires BestOf(ps, c, order[index]) != 0
    requires rank' == if BestOf(ps, c, order[index]) != lastRank then showRank else rank
    requires shown' == shown + [order[index]] && entries' == entries + [Entry(order[index], rank', Marker(rank'))]
    requires showRank' == showRank + 1 && lastRank' == BestOf(ps, c, order[index])
    ensures Walked(ps, c, order, index + 1, shown', entries', rank', showRank', lastRank')
  {
    var name := order[index];
    var best := BestOf(ps, c, name);
    assert order[..index + 1] == order[..index] + [name];
    ShownAppend(ps, c, order[..index], name);
    NextListed(ps, c, shown, best);
    assert rank' == 1 + Above(ps, c, shown, best);
    assert (shown + [name])[..|shown|] == shown;
    ListedEntry(ps, c, shown, entries, name, rank');
    DescendingAppend(ps, c, shown, name);
  }

  /** The board line a listed player adds, given its rank. */
  lemma ListedEntry<N>(ps: map<N, Scores>, c: Category, shown: seq<N>, entries: seq<Entry<N>>, name: N, rank: int)
    requires entries == Rankings(ps, c, shown)
    requires rank == 1 + Above(ps, c, shown, BestOf(ps, c, name))
    ensures entries + [Entry(name, rank, Marker(rank))] == Rankings(ps, c, shown + [name])
  {
    RankingsAppend(ps, c, shown, name);
  }

  /**
   * The inner loop of `DisplayRankScores` for one category: walks the
   * first `count` players of the ranking order, skips zero bests, and
   * gives each listed player the rank `rank` carries, which moves to
   * `showRank` whenever the best differs from the previous listed one.
   */
  method RankCategory<N(==)>(ps: map<N, Scores>, c: Category, order: seq<N>, count: int) returns (entries: seq<Entry<N>>)
    requires WellFormedRegistry(ps) && IsRankingOrder(ps, c, order)
    requires count <= |order|
    ensures var shown := Shown(ps, c, order[..if count < 0 then 0 else count]);
      && entries == Rankings(ps, c, shown)
      && Descending(ps, c, shown)
  {
    OrderMembers(ps, c, order);
    var rank, showRank, lastRank := 1, 1, -1;
    entries := [];
    ghost var shown: seq<N> := [];
    WalkStart(ps, c, order);
    var index := 0;
    while index < count
      invariant 0 <= index <= (if count < 0 then 0 else count)
      invariant Walked(ps, c, order, index, shown, entries, rank, showRank, lastRank)
    {
      var name := order[index];
      var best := ps[name][c].best;
      assert best == BestOf(ps, c, name);
      if best == 0 {
        WalkSkip(ps, c, order, index, shown, entries, rank, showRank, lastRank);
      } else {
        ghost var previous := (shown, entries, rank, showRank, lastRank);
        if best != lastRank {
          rank := showRank;
        }
        entries := entries + [Entry(name, rank, Marker(rank))];
        shown := shown + [name];
        lastRank := best;
        showRank := showRank + 1;
        WalkList(ps, c, order, index, previous.0, previous.1, previous.2, previous.3, previous.4,
                 shown, entries, rank, showRank, lastRank);
      }
      index := index + 1;
    }
    assert index == if count < 0 then 0 else count;
  }

  /** How many players a board walks: `count` clamped to the number of registered players. */
  function TopCount(count: int, players: nat): (n: nat)
    ensures n <= players
    ensures 0 <= count <= players ==> n == count
  {
    if count > players then players else if count < 0 then 0 else count
  }

  /**
   * `DisplayRankScores`: one board per category in declaration order. A
   * `count` above the number of registered players is clamped, with the
   * notice, on the first category; the clamp persists, so the later
   * categories neither repeat the notice nor use the original count.
   */
  method RankScores<N(==)>(ps: map<N, Scores>, count: int, orders: seq<seq<N>>) returns (boards: seq<Board<N>>)
    requires WellFormedRegistry(ps)
    requires |orders| == |AllCategories|
    requires forall i :: 0 <= i < |orders| ==> IsRankingOrder(ps, AllCategories[i], orders[i])
    ensures |boards| == |AllCategories|
    ensures forall i :: 0 <= i < |orders| ==>
      && boards[i].category == AllCategories[i]
      && boards[i].shortage == (i == 0 && count > |ps|)
      && boards[i].entries == Rankings(ps, AllCategories[i], Shown(ps, AllCategories[i], orders[i][..TopCount(count, |orders[i]|)]))
  {
    var top := count;
    boards := [];
    for i := 0 to |AllCategories|
      invariant |boards| == i
      invariant top == if i == 0 then count else if count > |ps| then |ps| else count
      invariant forall k :: 0 <= k < i ==>
        && boards[k].category == AllCategories[k]
        && boards[k].shortage == (k == 0 && count > |ps|)
        && boards[k].entries == Rankings(ps, AllCategories[k], Shown(ps, AllCategories[k], orders[k][..TopCount(count, |orders[k]|)]))
    {
      var category := AllCategories[i];
      var sortedUsers := orders[i];
      assert IsRankingOrder(ps, category, sortedUsers);
      var shortage := false;
      if top > |sortedUsers| {
        top := |sortedUsers|;
        shortage := true;
      }
      var entries := RankCategory(ps, category, sortedUsers, top);
      boards := boards + [Board(category, shortage, entries)];
    }
  }

  /** Ranks of scores in non-increasing order: ties share a rank, a lower score takes its position. */
  lemma RanksOfNonIncreasing(s: seq<int>)
    requires NonIncreasing(s)
    ensures s != [] ==> Ranks(s)[0] == 1
    ensures forall j :: 0 < j < |s| && s[j] == s[j - 1] ==> Ranks(s)[j] == Ranks(s)[j - 1]
    ensures forall j :: 0 < j < |s| && s[j] < s[j - 1] ==> Ranks(s)[j] == j + 1
  {
    RanksMeaning(s);
    if s != [] {
      assert s[..0] == [];
    }
    forall j | 0 < j < |s|
      ensures s[j] == s[j - 1] ==> Ranks(s)[j] == Ranks(s)[j - 1]
      ensures s[j] < s[j - 1] ==> Ranks(s)[j] == j + 1
    {
      RankAfter(s, j);
    }
  }

  lemma RankAfter(s: seq<int>, j: int)
    requires NonIncreasing(s) && 0 < j < |s|
    ensures s[j] == s[j - 1] ==> Ranks(s)[j] == Ranks(s)[j - 1]
    ensures s[j] < s[j - 1] ==> Ranks(s)[j] == j + 1
  {
    var pre := s[..j];
    assert pre[..j - 1] == s[..j - 1];
    assert pre[j - 1] == s[j - 1];
    NonIncreasingPrefix(s, j);
    NextRank(pre, s[j]);
    RankAt(s, j);
    RankAt(s, j - 1);
  }

  /**
   * On a board the first listed player is ranked 1 with the gold marker,
   * players tied with the one above share its rank, and a player below
   * the one above is ranked by position.
   */
  lemma BoardRanks<N>(ps: map<N, Scores>, c: Category, shown: seq<N>)
    requires Descending(ps, c, shown)
    ensures var e := Rankings(ps, c, shown);
      && (e != [] ==> e[0].rank == 1 && e[0].marker == Gold)
      && (forall j :: 0 < j < |e| && BestOf(ps, c, e[j].name) == BestOf(ps, c, e[j - 1].name) ==> e[j].rank == e[j - 1].rank)
      && (forall j :: 0 < j < |e| && BestOf(ps, c, e[j].name) < BestOf(ps, c, e[j - 1].name) ==> e[j].rank == j + 1)
  {
    var e := Rankings(ps, c, shown);
    if shown != [] {
      RankingAt(ps, c, shown, 0);
      assert shown[..0] == [];
    }
    forall j | 0 < j < |e|
      ensures BestOf(ps, c, e[j].name) == BestOf(ps, c, e[j - 1].name) ==> e[j].rank == e[j - 1].rank
      ensures BestOf(ps, c, e[j].name) < BestOf(ps, c, e[j - 1].name) ==> e[j].rank == j + 1
    {
      BoardRankAt(ps, c, shown, j);
    }
  }

  lemma BoardRankAt<N>(ps: map<N, Scores>, c: Category, shown: seq<N>, j: int)
    requires Descending(ps, c, shown) && 0 < j < |shown|
    ensures var e := Rankings(ps, c, shown);
      && (BestOf(ps, c, e[j].name) == BestOf(ps, c, e[j - 1].name) ==> e[j].rank == e[j - 1].rank)
      && (BestOf(ps, c, e[j].name) < BestOf(ps, c, e[j - 1].name) ==> e[j].rank == j + 1)
  {
    RankingAt(ps, c, shown, j);
    RankingAt(ps, c, shown, j - 1);
    var pre := shown[..j];
    assert Descending(ps, c, pre);
    NextListed(ps, c, pre, BestOf(ps, c, shown[j]));
  }

  /**
   * Two players tied for first, two tied below them, one last: ranks
   * 1, 1, 3, 3, 5, shown as one star, one star, three stars, three stars
   * and no marker.
   */
  lemma RanksExample()
    ensures Ranks([10, 10, 8, 8, 5]) == [1, 1, 3, 3, 5]
    ensures var r := Ranks([10, 10, 8, 8, 5]);
      [MarkerText(Marker(r[0])), MarkerText(Marker(r[1])), MarkerText(Marker(r[2])),
       MarkerText(Marker(r[3])), MarkerText(Marker(r[4]))] == ["*", "*", "***", "***", ""]
  {
    var s := [10, 10, 8, 8, 5];
    RanksOfNonIncreasing(s);
    assert s[..0] == [];
  }

  /** The scores of one player's categories as `DisplayFullScores` lists them: None for "not played yet". */
  function PlayerScores(rec: Scores, order: seq<Category>): (rows: seq<(Category, Option<int>)>)
    ensures |rows| == |order|
    ensures forall i :: 0 <= i < |rows| ==> rows[i].0 == order[i]
    ensures forall i :: 0 <= i < |rows| ==>
      (rows[i].1.None? <==> (order[i] !in rec || rec[order[i]].best == 0))
    ensures forall i :: 0 <= i < |rows| && rows[i].1.Some? ==> rows[i].1.value == rec[order[i]].best
  {
    if order == [] then []
    else
      var c := order[|order| - 1];
      var row := if c in rec && rec[c].best != 0 then (c, Some(rec[c].best)) else (c, None);
      PlayerScores(rec, order[..|order| - 1]) + [row]
  }

  function BestIn(rec: Scores, c: Category): int {
    if c in rec then rec[c].best else 0
  }

  /** An arrangement of the three categories, highest best first. */
  predicate IsCategoryOrder(rec: Scores, order: seq<Category>) {
    && multiset(order) == multiset(AllCategories)
    && forall i, j :: 0 <= i < j < |order| ==> BestIn(rec, order[i]) >= BestIn(rec, order[j])
  }

  /**
   * In a player's listing every category appears, and the played
   * categories come first, in non-increasing order of best score.
   */
  lemma PlayedCategoriesFirst(rec: Scores, order: seq<Category>)
    requires WellFormedScores(rec) && IsCategoryOrder(rec, order)
    ensures forall c: Category :: c in order
    ensures var rows := PlayerScores(rec, order);
      forall i, j :: 0 <= i < j < |rows| && rows[j].1.Some? ==>
        rows[i].1.Some? && rows[i].1.value >= rows[j].1.value
  {
    forall c: Category
      ensures c in order
    {
      CategoryCases(c);
      assert c in multiset(AllCategories);
    }
    var rows := PlayerScores(rec, order);
    forall i, j | 0 <= i < j < |rows| && rows[j].1.Some?
      ensures rows[i].1.Some? && rows[i].1.value >= rows[j].1.value
    {
      assert BestIn(rec, order[i]) >= BestIn(rec, order[j]);
    }
  }

  predicate SortedBy<T>(s: seq<T>, key: T -> int) {
    forall i, j :: 0 <= i < j < |s| ==> key(s[i]) >= key(s[j])
  }

  /** Inserting before the first element with a smaller key. */
  function InsertDesc<T>(x: T, s: seq<T>, key: T -> int): (r: seq<T>)
    ensures multiset(r) == multiset(s) + multiset{x}
  {
    if s == [] || key(x) >= key(s[0]) then [x] + s
    else
      assert s == [s[0]] + s[1..];
      [s[0]] + InsertDesc(x, s[1..], key)
  }

  lemma {:induction false} InsertDescSorted<T>(x: T, s: seq<T>, key: T -> int)
    requires SortedBy(s, key)
    ensures SortedBy(InsertDesc(x, s, key), key)
  {
    if s != [] && key(x) < key(s[0]) {
      var rest := InsertDesc(x, s[1..], key);
      assert SortedBy(s[1..], key);
      InsertDescSorted(x, s[1..], key);
      forall i | 0 <= i < |rest|
        ensures key(s[0]) >= key(rest[i])
      {
        assert rest[i] in multiset(rest);
        if rest[i] != x {
          assert rest[i] in multiset(s[1..]);
          var k :| 0 <= k < |s[1..]| && s[1..][k] == rest[i];
          assert s[k + 1] == rest[i];
        }
      }
    }
  }

  /** Insertion sort, highest key first. */
  function SortDesc<T>(s: seq<T>, key: T -> int): (r: seq<T>)
    ensures multiset(r) == multiset(s)
  {
    if s == [] then [] else
      assert s == [s[0]] + s[1..];
      InsertDesc(s[0], SortDesc(s[1..], key), key)
  }

  lemma {:induction false} SortDescSorted<T>(s: seq<T>, key: T -> int)
    ensures SortedBy(SortDesc(s, key), key)
  {
    if s != [] {
      SortDescSorted(s[1..], key);
      InsertDescSorted(s[0], SortDesc(s[1..], key), key);
    }
  }

  /** Some list holds each element of a finite set once. */
  ghost function Enumerate<N>(s: set<N>): (r: seq<N>)
    ensures multiset(r) == multiset(s)
  {
    if s == {} then []
    else
      var x :| x in s;
      assert multiset(s) == multiset(s - {x}) + multiset{x};
      Enumerate(s - {x}) + [x]
  }

  /** Every registry has a ranking order for every category, so `RankScores` can always be called. */
  lemma RankingOrderExists<N>(ps: map<N, Scores>, c: Category)
    ensures exists order :: IsRankingOrder(ps, c, order)
  {
    var key := (name: N) => BestOf(ps, c, name);
    var order := SortDesc(Enumerate(ps.Keys), key);
    SortDescSorted(Enumerate(ps.Keys), key);
    assert |order| == |ps| by {
      assert |multiset(order)| == |multiset(ps.Keys)|;
    }
    assert forall i :: 0 <= i < |order| ==> key(order[i]) == BestOf(ps, c, order[i]);
    assert IsRankingOrder(ps, c, order);
  }

  /** Every player's records have a category order. */
  lemma CategoryOrderExists(rec: Scores)
    ensures exists order :: IsCategoryOrder(rec, order)
  {
    var key := (c: Category) => BestIn(rec, c);
    var order := SortDesc(AllCategories, key);
    SortDescSorted(AllCategories, key);
    assert forall i :: 0 <= i < |order| ==> key(order[i]) == BestIn(rec, order[i]);
    assert IsCategoryOrder(rec, order);
  }
}
