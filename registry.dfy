/**
 * The player registry: the name check of the login loop, the record a
 * first login creates, and the three ways a session changes a player's
 * `[current, best]` slots.
 */
module Registry {
  import opened Optional
  import opened QuestionBank

  /** The two slots `[current, best]` a player holds for one category. */
  datatype Record = Record(current: int, best: int)

  /** A player's records, one per category. */
  type Scores = map<Category, Record>

  /** The registry: full name to records. */
  type Players = map<string, Scores>

  /** A record for every category. */
  predicate HasAllCategories(s: Scores) {
    forall c: Category :: c in s
  }

  /** The characters .NET's `char.IsWhiteSpace` accepts. */
  predicate IsWhiteSpace(ch: char) {
    || ch == ' ' || ('\t' <= ch <= '\r') || ch == '\U{0085}' || ch == '\U{00A0}'
    || ch == '\U{1680}' || ('\U{2000}' <= ch <= '\U{200A}') || ch == '\U{2028}'
    || ch == '\U{2029}' || ch == '\U{202F}' || ch == '\U{205F}' || ch == '\U{3000}'
  }

  function AllWhiteSpace(s: string): bool {
    if s == [] then true else IsWhiteSpace(s[0]) && AllWhiteSpace(s[1..])
  }

  /** `string.IsNullOrWhiteSpace`: no line at all, an empty line, or only white space. */
  function IsNullOrWhiteSpace(line: Option<string>): bool {
    line.None? || AllWhiteSpace(line.value)
  }

  /** `Contains(" ")`: an ordinal search for the space character. */
  function ContainsSpace(s: string): bool {
    if s == [] then false else s[0] == ' ' || ContainsSpace(s[1..])
  }

  /** A line the login loop accepts: the negation of its guard. */
  predicate ValidName(line: Option<string>) {
    !IsNullOrWhiteSpace(line) && ContainsSpace(line.value)
  }

  lemma {:induction false} AllWhiteSpaceMeaning(s: string)
    ensures AllWhiteSpace(s) <==> forall i :: 0 <= i < |s| ==> IsWhiteSpace(s[i])
  {
    if s != [] {
      AllWhiteSpaceMeaning(s[1..]);
      assert forall i :: 1 <= i < |s| ==> s[i] == s[1..][i - 1];
    }
  }

  lemma {:induction false} ContainsSpaceMeaning(s: string)
    ensures ContainsSpace(s) <==> exists i :: 0 <= i < |s| && s[i] == ' '
  {
    if s != [] {
      ContainsSpaceMeaning(s[1..]);
      if ContainsSpace(s[1..]) {
        var i :| 0 <= i < |s[1..]| && s[1..][i] == ' ';
        assert s[i + 1] == ' ';
      }
      if exists i :: 0 <= i < |s| && s[i] == ' ' {
        var i :| 0 <= i < |s| && s[i] == ' ';
        if i > 0 {
          assert s[1..][i - 1] == ' ';
        }
      }
    }
  }

  /**
   * A name is accepted exactly when a line was read, it holds a space, and
   * it holds some character that is not white space. Two non-empty tokens
   * are not required.
   */
  lemma ValidNameMeaning(line: Option<string>)
    ensures ValidName(line) <==>
      && line.Some?
      && (exists i :: 0 <= i < |line.value| && line.value[i] == ' ')
      && (exists j :: 0 <= j < |line.value| && !IsWhiteSpace(line.value[j]))
  {
    if line.Some? {
      AllWhiteSpaceMeaning(line.value);
      ContainsSpaceMeaning(line.value);
    }
  }

  /** Names the login loop accepts and rejects, including a single token followed by a space. */
  lemma ValidNameExamples()
    ensures ValidName(Some("Ada Lovelace"))
    ensures ValidName(Some("Ada "))
    ensures !ValidName(Some("Ada"))
    ensures !ValidName(Some("   "))
    ensures !ValidName(Some(""))
    ensures !ValidName(None)
  {
    ValidNameMeaning(Some("Ada "));
    assert "Ada "[3] == ' ' && !IsWhiteSpace("Ada "[0]);
    ValidNameMeaning(Some("Ada Lovelace"));
    assert "Ada Lovelace"[3] == ' ' && !IsWhiteSpace("Ada Lovelace"[0]);
  }

  /** The index of the line the login loop stops at: the first valid one, or |lines| if none is. */
  function FirstValid(lines: seq<Option<string>>): (k: nat)
    ensures k <= |lines|
    ensures k < |lines| ==> ValidName(lines[k])
    ensures forall j :: 0 <= j < k ==> !ValidName(lines[j])
  {
    if lines == [] then 0
    else if ValidName(lines[0]) then 0
    else 1 + FirstValid(lines[1..])
  }

  /**
   * The login loop: reads lines until one passes the name check. The
   * input must eventually hold a valid line; otherwise the source keeps
   * prompting forever.
   */
  method ReadName(lines: seq<Option<string>>) returns (name: string, k: nat)
    requires exists i :: 0 <= i < |lines| && ValidName(lines[i])
    ensures k == FirstValid(lines) && k < |lines|
    ensures lines[k] == Some(name) && ValidName(Some(name))
  {
    k := 0;
    var line := lines[0];
    while IsNullOrWhiteSpace(line) || !ContainsSpace(line.value)
      invariant 0 <= k < |lines| && line == lines[k]
      invariant forall j :: 0 <= j < k ==> !ValidName(lines[j])
      invariant exists i :: k <= i < |lines| && ValidName(lines[i])
      decreases |lines| - k
    {
      k := k + 1;
      line := lines[k];
    }
    name := line.value;
  }

  lemma CategoryCases(c: Category)
    ensures c == ComputerScience || c == Cars || c == Animals
  {
  }

  /** The record a first login creates: every category at `[0, 0]`. */
  function NewScores(): (s: Scores)
    ensures HasAllCategories(s) && |s| == 3
    ensures forall c :: c in s ==> s[c] == Record(0, 0)
  {
    var s := map[ComputerScience := Record(0, 0), Cars := Record(0, 0), Animals := Record(0, 0)];
    assert HasAllCategories(s) by {
      forall c: Category
        ensures c in s
      {
        CategoryCases(c);
      }
    }
    s
  }

  /** A player's records: one per category, no slot negative. */
  predicate WellFormedScores(s: Scores) {
    && HasAllCategories(s)
    && forall c :: c in s ==> 0 <= s[c].current && 0 <= s[c].best
  }

  predicate WellFormedPlayers(ps: Players) {
    forall u :: u in ps ==> WellFormedScores(ps[u])
  }

  /** `r` differs from `ps` at most in player `u`'s record for category `c`. */
  predicate SameExcept(ps: Players, r: Players, u: string, c: Category)
    requires u in ps && c in ps[u]
  {
    && r.Keys == ps.Keys
    && (forall v :: v in ps && v != u ==> r[v] == ps[v])
    && r[u].Keys == ps[u].Keys
    && (forall d :: d in ps[u] && d != c ==> r[u][d] == ps[u][d])
  }

  /**
   * The registry after a login with `name`: a new name gains the zeroed
   * record, a known name leaves the registry as it was.
   */
  function Register(ps: Players, name: string): (r: Players)
    ensures r.Keys == ps.Keys + {name}
    ensures name in ps ==> r == ps
    ensures name !in ps ==> r[name] == NewScores() && forall u :: u in ps ==> r[u] == ps[u]
    ensures WellFormedPlayers(ps) ==> WellFormedPlayers(r)
  {
    if name in ps then ps else ps[name := NewScores()]
  }

  /** Logging in twice with the same name changes the registry no more than once. */
  lemma RegisterIdempotent(ps: Players, name: string)
    ensures Register(Register(ps, name), name) == Register(ps, name)
  {
  }

  /** A committed answer: `points` added to the current-session slot. */
  function AddToSession(ps: Players, u: string, c: Category, points: int): (r: Players)
    requires u in ps && c in ps[u]
    ensures u in r && c in r[u] && SameExcept(ps, r, u, c)
    ensures r[u][c] == Record(ps[u][c].current + points, ps[u][c].best)
    ensures WellFormedPlayers(ps) && points >= 0 ==> WellFormedPlayers(r)
  {
    var rec := ps[u][c];
    ps[u := ps[u][c := rec.(current := rec.current + points)]]
  }

  /** Adding nothing changes nothing. */
  lemma AddToSessionZero(ps: Players, u: string, c: Category)
    requires u in ps && c in ps[u]
    ensures AddToSession(ps, u, c, 0) == ps
  {
    assert ps[u][c := ps[u][c]] == ps[u];
  }

  /** Adding twice is adding the sum. */
  lemma AddToSessionTwice(ps: Players, u: string, c: Category, a: int, b: int)
    requires u in ps && c in ps[u]
    ensures AddToSession(AddToSession(ps, u, c, a), u, c, b) == AddToSession(ps, u, c, a + b)
  {
    var left, right := AddToSession(AddToSession(ps, u, c, a), u, c, b), AddToSession(ps, u, c, a + b);
    assert left[u] == right[u];
  }

  /** A completed session: the best slot becomes the larger of best and current. */
  function FoldBest(ps: Players, u: string, c: Category): (r: Players)
    requires u in ps && c in ps[u]
    ensures u in r && c in r[u] && SameExcept(ps, r, u, c)
    ensures r[u][c].current == ps[u][c].current
    ensures r[u][c].best >= ps[u][c].best && r[u][c].best >= ps[u][c].current
    ensures r[u][c].best == ps[u][c].best || r[u][c].best == ps[u][c].current
    ensures WellFormedPlayers(ps) ==> WellFormedPlayers(r)
  {
    var rec := ps[u][c];
    if rec.best < rec.current then ps[u := ps[u][c := rec.(best := rec.current)]] else ps
  }

  /** A retry: the current-session slot goes back to 0. */
  function ResetSession(ps: Players, u: string, c: Category): (r: Players)
    requires u in ps && c in ps[u]
    ensures u in r && c in r[u] && SameExcept(ps, r, u, c)
    ensures r[u][c] == Record(0, ps[u][c].best)
    ensures WellFormedPlayers(ps) ==> WellFormedPlayers(r)
  {
    ps[u := ps[u][c := ps[u][c].(current := 0)]]
  }
}
