/**
  The game record of server/models/Game.js and the queries over it that the
  game service performs (the first entry of a user, whether a user has answered,
  how many players share a score, the winner search), with the unique-maximum
  winner rule and the user statistics it credits.
*/
module GameModel {
  import opened Wrappers
  import MathService

  type UserId = string
  type GameId = string

  datatype Status = Waiting | Active | Completed

  datatype Player = Player(userId: UserId, username: string, score: nat)

  /** One answer on one problem, as stored: the schema's Number field holds
      only a number, so a response always carries an integer answer.
      `responseTime` is None when the game has no start time, which a well
      formed active game never lacks. */
  datatype Response = Response(userId: UserId, answer: int, correct: bool, responseTime: Option<int>)

  /** An entry of the game's problem list: a generated problem and its responses. */
  datatype ProblemEntry = ProblemEntry(problem: MathService.Problem, responses: seq<Response>)

  /** Times are milliseconds; `duration` is in seconds. */
  datatype Game = Game(
    gameId: GameId,
    createdBy: UserId,
    players: seq<Player>,
    duration: int,
    status: Status,
    winner: Option<UserId>,
    problems: seq<ProblemEntry>,
    startedAt: Option<int>,
    endedAt: Option<int>,
    createdAt: int)

  datatype UserStats = UserStats(username: string, gamesPlayed: nat, gamesWon: nat)

  /** The values the schema admits for `duration`. */
  const Durations: set<int> := {60, 120, 300}

  // ---------------------------------------------------------------------------
  // Queries

  /** The index of the first player with this id, or -1 when there is none. */
  function IndexOfPlayer(players: seq<Player>, userId: UserId): (i: int)
    ensures -1 <= i < |players|
    ensures i == -1 <==> forall j :: 0 <= j < |players| ==> players[j].userId != userId
    ensures 0 <= i ==> players[i].userId == userId && forall j :: 0 <= j < i ==> players[j].userId != userId
  {
    if |players| == 0 then -1
    else if players[0].userId == userId then 0
    else
      var k := IndexOfPlayer(players[1..], userId);
      if k == -1 then -1 else k + 1
  }

  /** The index of the first player whose id differs from this one, or -1 when
      there is none: the loser endGame looks up. */
  function IndexOfOtherPlayer(players: seq<Player>, userId: UserId): (i: int)
    ensures -1 <= i < |players|
    ensures i == -1 <==> forall j :: 0 <= j < |players| ==> players[j].userId == userId
    ensures 0 <= i ==> players[i].userId != userId && forall j :: 0 <= j < i ==> players[j].userId == userId
  {
    if |players| == 0 then -1
    else if players[0].userId != userId then 0
    else
      var k := IndexOfOtherPlayer(players[1..], userId);
      if k == -1 then -1 else k + 1
  }

  /** No two player entries carry the same user id. */
  predicate DistinctPlayers(players: seq<Player>) {
    forall i, j :: 0 <= i < j < |players| ==> players[i].userId != players[j].userId
  }

  /** Some response on the list comes from this user. */
  predicate HasResponded(responses: seq<Response>, userId: UserId) {
    exists i :: 0 <= i < |responses| && responses[i].userId == userId
  }

  /** The number of players with exactly this score. */
  function CountWithScore(players: seq<Player>, score: nat): nat {
    if |players| == 0 then 0
    else (if players[0].score == score then 1 else 0) + CountWithScore(players[1..], score)
  }

  /** The number of entries of `players` that carry `userId`. */
  function Occurrences(players: seq<Player>, userId: UserId): nat {
    if |players| == 0 then 0
    else Occurrences(players[..|players| - 1], userId) + (if players[|players| - 1].userId == userId then 1 else 0)
  }

  /** Milliseconds since the start, or None (NaN) when the game has no start time. */
  function Elapsed(startedAt: Option<int>, now: int): Option<int> {
    if startedAt.Some? then Some(now - startedAt.value) else None
  }

  // ---------------------------------------------------------------------------
  // Invariants of a stored game

  /** At most one response per user on a problem. */
  predicate ResponsesUnique(responses: seq<Response>) {
    forall i, j :: 0 <= i < j < |responses| ==> responses[i].userId != responses[j].userId
  }

  /** A problem entry came from the generator, and every response was graded against its answer. */
  predicate WellFormedEntry(e: ProblemEntry) {
    && MathService.WellFormed(e.problem)
    && ResponsesUnique(e.responses)
    && forall i :: 0 <= i < |e.responses| ==>
         e.responses[i].correct == (e.responses[i].answer == e.problem.answer)
  }

  predicate WellFormedGame(id: GameId, g: Game) {
    && g.gameId == id
    && 1 <= |g.players| <= 2
    && g.duration in Durations
    && (g.status == Waiting ==> g.problems == [] && g.winner == None && g.startedAt == None && g.endedAt == None)
    && (g.status != Waiting ==>
          |g.players| == 2 && g.startedAt.Some? && g.endedAt == Some(g.startedAt.value + g.duration * 1000))
    && forall k :: 0 <= k < |g.problems| ==> WellFormedEntry(g.problems[k])
  }

  /** What no operation undoes: identity, players already present and their
      scores, problems already posed and the responses already recorded. */
  ghost predicate Progresses(g0: Game, g1: Game) {
    && g1.gameId == g0.gameId && g1.createdBy == g0.createdBy && g1.duration == g0.duration
    && |g0.players| <= |g1.players|
    && (forall i :: 0 <= i < |g0.players| ==>
          && g1.players[i].userId == g0.players[i].userId
          && g1.players[i].username == g0.players[i].username
          && g0.players[i].score <= g1.players[i].score)
    && |g0.problems| <= |g1.problems|
    && (forall k :: 0 <= k < |g0.problems| ==>
          g1.problems[k].problem == g0.problems[k].problem && g0.problems[k].responses <= g1.problems[k].responses)
  }

  // ---------------------------------------------------------------------------
  // Answering

  /** The game after `userId` answers its current (last) problem: the response
      is graded against the problem's answer and, when correct, the first player
      entry with that id gains one point. */
  function RecordResponse(g: Game, userId: UserId, answer: int, now: int): (g': Game)
    requires g.problems != []
    ensures var n := |g.problems| - 1;
      var correct := answer == g.problems[n].problem.answer;
      && g' == g.(players := g'.players, problems := g'.problems)
      && |g'.problems| == |g.problems|
      && g'.problems[..n] == g.problems[..n]
      && g'.problems[n].problem == g.problems[n].problem
      && g'.problems[n].responses == g.problems[n].responses + [Response(userId, answer, correct, Elapsed(g.startedAt, now))]
      && |g'.players| == |g.players|
      && forall i :: 0 <= i < |g.players| ==>
           && g'.players[i].userId == g.players[i].userId
           && g'.players[i].username == g.players[i].username
           && g'.players[i].score == g.players[i].score + (if correct && i == IndexOfPlayer(g.players, userId) then 1 else 0)
  {
    var n := |g.problems| - 1;
    var current := g.problems[n];
    var correct := answer == current.problem.answer;
    var response := Response(userId, answer, correct, Elapsed(g.startedAt, now));
    var i := IndexOfPlayer(g.players, userId);
    g.(problems := g.problems[n := current.(responses := current.responses + [response])],
       players := if correct && i != -1 then g.players[i := g.players[i].(score := g.players[i].score + 1)] else g.players)
  }

  /** A first answer by a user keeps the stored game well formed (at most one
      response per user per problem), and the game only progresses. */
  lemma RecordResponseKeepsInvariant(id: GameId, g: Game, userId: UserId, answer: int, now: int)
    requires WellFormedGame(id, g) && g.problems != []
    requires !HasResponded(g.problems[|g.problems| - 1].responses, userId)
    ensures WellFormedGame(id, RecordResponse(g, userId, answer, now))
    ensures Progresses(g, RecordResponse(g, userId, answer, now))
  {
    var g' := RecordResponse(g, userId, answer, now);
    var n := |g.problems| - 1;
    forall k | 0 <= k < |g'.problems|
      ensures WellFormedEntry(g'.problems[k])
    {
      if k < n {
        assert g'.problems[k] == g'.problems[..n][k];
      } else {
        var rs := g'.problems[n].responses;
        assert rs[..|rs| - 1] == g.problems[n].responses;
        forall i, j | 0 <= i < j < |rs|
          ensures rs[i].userId != rs[j].userId
        {
          if j == |rs| - 1 {
            assert g.problems[n].responses[i] == rs[i];
          } else {
            assert WellFormedEntry(g.problems[n]);
            assert g.problems[n].responses[i] == rs[i] && g.problems[n].responses[j] == rs[j];
          }
        }
      }
    }
    forall k | 0 <= k < |g.problems|
      ensures g'.problems[k].problem == g.problems[k].problem && g.problems[k].responses <= g'.problems[k].responses
    {
      if k < n {
        assert g'.problems[k] == g'.problems[..n][k];
      }
    }
  }

  // ---------------------------------------------------------------------------
  // The winner

  /** Player i alone holds the highest score. */
  predicate IsUniqueTop(players: seq<Player>, i: int) {
    0 <= i < |players| && forall j :: 0 <= j < |players| && j != i ==> players[j].score < players[i].score
  }

  /** The winner rule: the one player whose score is strictly above every
      other's, if there is such a player; none on a tie for the top. */
  ghost function WinnerRule(players: seq<Player>): (w: Option<UserId>)
    ensures w.Some? <==> exists i :: IsUniqueTop(players, i)
    ensures forall i :: IsUniqueTop(players, i) ==> w == Some(players[i].userId)
  {
    if exists i :: IsUniqueTop(players, i) then
      var i :| IsUniqueTop(players, i);
      Some(players[i].userId)
    else None
  }

  /** The winner rule on final scores: 3 to 3 is a tie, 5 to 2 is won by the
      player with 5, and 1 to 0 is won by the player with 1. */
  lemma WinnerRuleExamples(a: UserId, b: UserId)
    ensures WinnerRule([Player(a, "A", 3), Player(b, "B", 3)]) == None
    ensures WinnerRule([Player(a, "A", 5), Player(b, "B", 2)]) == Some(a)
    ensures WinnerRule([Player(a, "A", 1), Player(b, "B", 0)]) == Some(a)
  {
    var tie := [Player(a, "A", 3), Player(b, "B", 3)];
    assert !IsUniqueTop(tie, 0) && !IsUniqueTop(tie, 1);
    assert IsUniqueTop([Player(a, "A", 5), Player(b, "B", 2)], 0);
    assert IsUniqueTop([Player(a, "A", 1), Player(b, "B", 0)], 0);
  }

  /** The winner search loop of endGame: the first index holding the highest score. */
  method FindHighestScorer(players: seq<Player>) returns (winnerIndex: nat, highestScore: nat)
    requires |players| > 0
    ensures winnerIndex < |players| && players[winnerIndex].score == highestScore
    ensures forall j :: 0 <= j < |players| ==> players[j].score <= highestScore
    ensures forall j :: 0 <= j < winnerIndex ==> players[j].score < highestScore
  {
    winnerIndex := 0;
    highestScore := players[0].score;
    for i := 1 to |players|
      invariant winnerIndex < i && players[winnerIndex].score == highestScore
      invariant forall j :: 0 <= j < i ==> players[j].score <= highestScore
      invariant forall j :: 0 <= j < winnerIndex ==> players[j].score < highestScore
    {
      if players[i].score > highestScore {
        highestScore := players[i].score;
        winnerIndex := i;
      }
    }
  }

  lemma {:induction false} CountNone(players: seq<Player>, score: nat)
    requires forall j :: 0 <= j < |players| ==> players[j].score != score
    ensures CountWithScore(players, score) == 0
  {
    if |players| > 0 {
      CountNone(players[1..], score);
    }
  }

  lemma {:induction false} CountSome(players: seq<Player>, score: nat, i: int)
    requires 0 <= i < |players| && players[i].score == score
    ensures CountWithScore(players, score) >= 1
  {
    if i > 0 {
      CountSome(players[1..], score, i - 1);
    }
  }

  lemma {:induction false} CountOnly(players: seq<Player>, score: nat, i: int)
    requires 0 <= i < |players| && players[i].score == score
    requires forall j :: 0 <= j < |players| && j != i ==> players[j].score != score
    ensures CountWithScore(players, score) == 1
  {
    if i == 0 {
      CountNone(players[1..], score);
    } else {
      CountOnly(players[1..], score, i - 1);
    }
  }

  lemma {:induction false} CountTwo(players: seq<Player>, score: nat, i: int, j: int)
    requires 0 <= i < j < |players| && players[i].score == score && players[j].score == score
    ensures CountWithScore(players, score) >= 2
  {
    if i == 0 {
      CountSome(players[1..], score, j - 1);
    } else {
      CountTwo(players[1..], score, i - 1, j - 1);
    }
  }

  /** endGame's test "exactly one player has the highest score" (a
      count) is the winner rule: it holds exactly when the highest scorer is
      alone at the top. */
  lemma CountOneIsUniqueTop(players: seq<Player>, w: int)
    requires 0 <= w < |players|
    requires forall j :: 0 <= j < |players| ==> players[j].score <= players[w].score
    ensures CountWithScore(players, players[w].score) == 1 <==> IsUniqueTop(players, w)
  {
    var s := players[w].score;
    if IsUniqueTop(players, w) {
      CountOnly(players, s, w);
    } else {
      var j :| 0 <= j < |players| && j != w && players[j].score >= s;
      if j < w {
        CountTwo(players, s, j, w);
      } else {
        CountTwo(players, s, w, j);
      }
    }
  }

  // ---------------------------------------------------------------------------
  // User statistics

  /** Adds `played` and `won` to one user's counters; an unknown user changes nothing. */
  function Credit(users: map<UserId, UserStats>, userId: UserId, played: nat, won: nat): map<UserId, UserStats> {
    if userId in users then
      users[userId := users[userId].(gamesPlayed := users[userId].gamesPlayed + played,
                                     gamesWon := users[userId].gamesWon + won)]
    else users
  }

  /** The tie branch of endGame: one played game per player entry, in order. */
  function CreditEach(users: map<UserId, UserStats>, players: seq<Player>): map<UserId, UserStats> {
    if |players| == 0 then users
    else Credit(CreditEach(users, players[..|players| - 1]), players[|players| - 1].userId, 1, 0)
  }

  /** Statistics only grow: same users, same names, counts never lower. */
  ghost predicate StatsProgress(u0: map<UserId, UserStats>, u1: map<UserId, UserStats>) {
    && u1.Keys == u0.Keys
    && forall u :: u in u0 ==>
         && u1[u].username == u0[u].username
         && u0[u].gamesPlayed <= u1[u].gamesPlayed
         && u0[u].gamesWon <= u1[u].gamesWon
  }

  /** Crediting a played game per player entry: each user gains one played game
      per entry carrying its id, and nothing else changes. */
  lemma {:induction false} CreditEachCounts(users: map<UserId, UserStats>, players: seq<Player>)
    ensures var u1 := CreditEach(users, players);
      && u1.Keys == users.Keys
      && forall u :: u in users ==>
           u1[u] == users[u].(gamesPlayed := users[u].gamesPlayed + Occurrences(players, u))
  {
    if |players| > 0 {
      CreditEachCounts(users, players[..|players| - 1]);
    }
  }

  /** endGame's crediting for a two-player game with distinct players: both play
      one more game, the winner (if any) wins one more, nobody else changes. */
  lemma TwoPlayerStats(users: map<UserId, UserStats>, players: seq<Player>, winner: Option<UserId>)
    requires |players| == 2 && players[0].userId != players[1].userId
    requires winner == None || winner == Some(players[0].userId) || winner == Some(players[1].userId)
    ensures var u1 := if winner.Some? then
                        Credit(Credit(users, winner.value, 1, 1), players[IndexOfOtherPlayer(players, winner.value)].userId, 1, 0)
                      else CreditEach(users, players);
      && u1.Keys == users.Keys
      && forall u :: u in users ==>
           && u1[u].username == users[u].username
           && u1[u].gamesPlayed == users[u].gamesPlayed + (if u == players[0].userId || u == players[1].userId then 1 else 0)
           && u1[u].gamesWon == users[u].gamesWon + (if winner == Some(u) then 1 else 0)
  {
    if winner.None? {
      CreditEachCounts(users, players);
      assert players[..1][..0] == [];
      forall u | u in users
        ensures Occurrences(players, u) == if u == players[0].userId || u == players[1].userId then 1 else 0
      {
        assert Occurrences(players[..1], u) == if u == players[0].userId then 1 else 0;
      }
    } else {
      var k := IndexOfOtherPlayer(players, winner.value);
      assert k == 0 || k == 1;
      assert players[k].userId != winner.value;
    }
  }
}
