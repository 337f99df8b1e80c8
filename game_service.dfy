/**
  The game service of server/services/gameService.js: the match state machine
  (create, join, start, answer, next problem, end) over the stored games, and
  the module-level FIFO queue of players waiting for a random match.

  The storage is an in-memory map from game id to game record and from user id
  to statistics; the clock is the integer `now` (milliseconds); each new game's
  id is a parameter; the problem generator's random draws are a parameter.
*/
module GameService {
  import opened Wrappers
  import MathService
  import opened GameModel

  /** The errors the service throws, named after their messages. */
  datatype Error =
    | UserNotFound        // 'User not found'
    | GameNotFound        // 'Game not found'
    | GameNotWaiting      // 'Game already started or completed'
    | GameFull            // 'Game is full'
    | NotCreator          // 'Only the game creator can start the game'
    | NeedTwoPlayers      // 'Need two players to start'
    | ActiveGameNotFound  // 'Active game not found'
    | NoActiveProblem     // 'No active problem'
    | AlreadyAnswered     // 'Already answered this problem'
    | InvalidDuration     // the schema rejects a duration outside 60, 120, 300 on save
    | DuplicateGameId     // the schema's unique index on gameId rejects the save
    | OpponentNotFound    // endGame finds no player with an id other than the winner's
    | AnswerNotANumber    // the schema's Number cast rejects a NaN answer on save

  datatype QueueEntry = QueueEntry(userId: UserId, socketId: string, username: string, joinedAt: int)

  datatype Match = Match(player1: QueueEntry, player2: QueueEntry)

  // ---------------------------------------------------------------------------
  // The waiting queue

  /** The index of the first queue entry of this user, or -1 when there is none. */
  function IndexOfEntry(queue: seq<QueueEntry>, userId: UserId): (i: int)
    ensures -1 <= i < |queue|
    ensures i == -1 <==> forall j :: 0 <= j < |queue| ==> queue[j].userId != userId
    ensures 0 <= i ==> queue[i].userId == userId && forall j :: 0 <= j < i ==> queue[j].userId != userId
  {
    if |queue| == 0 then -1
    else if queue[0].userId == userId then 0
    else
      var k := IndexOfEntry(queue[1..], userId);
      if k == -1 then -1 else k + 1
  }

  /** At most one entry per user. */
  predicate DistinctUsers(queue: seq<QueueEntry>) {
    forall i, j :: 0 <= i < j < |queue| ==> queue[i].userId != queue[j].userId
  }

  /** The queue after removeFromWaitingQueue(userId): the entry of that user
      is gone, the others keep their order, and an absent user changes nothing. */
  function WithoutUser(queue: seq<QueueEntry>, userId: UserId): (q: seq<QueueEntry>)
    ensures IndexOfEntry(queue, userId) == -1 ==> q == queue
    ensures IndexOfEntry(queue, userId) != -1 ==>
      var i := IndexOfEntry(queue, userId);
      |q| == |queue| - 1 && q[..i] == queue[..i] && q[i..] == queue[i + 1..]
    ensures DistinctUsers(queue) ==> DistinctUsers(q) && forall j :: 0 <= j < |q| ==> q[j].userId != userId
  {
    var i := IndexOfEntry(queue, userId);
    if i == -1 then queue
    else
      var q := queue[..i] + queue[i + 1..];
      assert forall j :: 0 <= j < |q| ==> q[j] == if j < i then queue[j] else queue[j + 1];
      q
  }

  // ---------------------------------------------------------------------------
  // Specifications of the transitions that other operations also perform

  predicate IsActive(games: map<GameId, Game>, gameId: GameId) {
    gameId in games && games[gameId].status == Active
  }

  /** generateNextProblem's test: the clock has reached the end time
      (a comparison with a missing end time is false). */
  predicate TimeIsUp(g: Game, now: int) {
    g.endedAt.Some? && now >= g.endedAt.value
  }

  /** endGame(gameId) takes the stores (games0, users0) to (games1, users1) with result r. */
  ghost predicate EndGameSpec(games0: map<GameId, Game>, users0: map<UserId, UserStats>,
                              games1: map<GameId, Game>, users1: map<UserId, UserStats>,
                              gameId: GameId, r: Result<Game, Error>)
  {
    if !IsActive(games0, gameId) then
      r == Failure(ActiveGameNotFound) && games1 == games0 && users1 == users0
    else
      var g0 := games0[gameId];
      var w := WinnerRule(g0.players);
      if w.Some? && IndexOfOtherPlayer(g0.players, w.value) == -1 then
        // the winner has been credited when the lookup of the loser fails
        r == Failure(OpponentNotFound) && games1 == games0 && users1 == Credit(users0, w.value, 1, 1)
      else
        var g1 := g0.(status := Completed, winner := if w.Some? then w else g0.winner);
        && r == Success(g1)
        && games1 == games0[gameId := g1]
        && users1 == if w.Some? then
                       Credit(Credit(users0, w.value, 1, 1), g0.players[IndexOfOtherPlayer(g0.players, w.value)].userId, 1, 0)
                     else CreditEach(users0, g0.players)
  }

  /** generateNextProblem(gameId): end the game when its time is up, otherwise
      append exactly one freshly generated problem with no responses. */
  ghost predicate NextProblemSpec(games0: map<GameId, Game>, users0: map<UserId, UserStats>,
                                  games1: map<GameId, Game>, users1: map<UserId, UserStats>,
                                  gameId: GameId, now: int, draws: MathService.Draws, r: Result<Game, Error>)
  {
    if !IsActive(games0, gameId) then
      r == Failure(ActiveGameNotFound) && games1 == games0 && users1 == users0
    else if TimeIsUp(games0[gameId], now) then
      EndGameSpec(games0, users0, games1, users1, gameId, r)
    else
      var g0 := games0[gameId];
      var g1 := g0.(problems := g0.problems + [ProblemEntry(MathService.GenerateProblem(draws), [])]);
      r == Success(g1) && games1 == games0[gameId := g1] && users1 == users0
  }

  /** Every stored game only progresses, and no game disappears. */
  ghost predicate GamesProgress(games0: map<GameId, Game>, games1: map<GameId, Game>) {
    && games0.Keys <= games1.Keys
    && forall id :: id in games0 ==> Progresses(games0[id], games1[id])
  }

  /** Storing the answered game keeps every stored game well formed, and the store only progresses. */
  lemma StoreAnswered(games: map<GameId, Game>, gameId: GameId, userId: UserId, answer: int, now: int)
    requires forall id :: id in games ==> WellFormedGame(id, games[id])
    requires CanAnswer(games, gameId, userId)
    ensures var games' := games[gameId := RecordResponse(games[gameId], userId, answer, now)];
      && (forall id :: id in games' ==> WellFormedGame(id, games'[id]))
      && GamesProgress(games, games')
  {
    RecordResponseKeepsInvariant(gameId, games[gameId], userId, answer, now);
  }

  lemma GamesProgressTransitive(games0: map<GameId, Game>, games1: map<GameId, Game>, games2: map<GameId, Game>)
    requires GamesProgress(games0, games1) && GamesProgress(games1, games2)
    ensures GamesProgress(games0, games2)
  {
    forall id | id in games0
      ensures Progresses(games0[id], games2[id])
    {
      var g0, g1, g2 := games0[id], games1[id], games2[id];
      forall k | 0 <= k < |g0.problems|
        ensures g0.problems[k].responses <= g2.problems[k].responses
      {
        var a, b, c := g0.problems[k].responses, g1.problems[k].responses, g2.problems[k].responses;
        assert a == b[..|a|] && b == c[..|b|];
        assert c[..|b|][..|a|] == c[..|a|];
      }
    }
  }

  /** submitAnswer may proceed: an active game with a current problem the user has not answered. */
  predicate CanAnswer(games: map<GameId, Game>, gameId: GameId, userId: UserId) {
    && IsActive(games, gameId)
    && games[gameId].problems != []
    && !HasResponded(games[gameId].problems[|games[gameId].problems| - 1].responses, userId)
  }

  /** endGame credits at most one played and one won game per user, and never takes any away. */
  lemma EndGameStatsProgress(users0: map<UserId, UserStats>, g0: Game)
    requires WellFormedGame(g0.gameId, g0) && g0.status == Active
    ensures var w := WinnerRule(g0.players);
      && (w.Some? ==> StatsProgress(users0, Credit(users0, w.value, 1, 1)))
      && (w.Some? && IndexOfOtherPlayer(g0.players, w.value) != -1 ==>
            StatsProgress(users0, Credit(Credit(users0, w.value, 1, 1), g0.players[IndexOfOtherPlayer(g0.players, w.value)].userId, 1, 0)))
      && (w.None? ==> StatsProgress(users0, CreditEach(users0, g0.players)))
  {
    var w := WinnerRule(g0.players);
    if w.Some? {
      var i :| IsUniqueTop(g0.players, i);
      var k := IndexOfOtherPlayer(g0.players, w.value);
      if k != -1 {
        assert g0.players[0].userId != g0.players[1].userId by {
          assert g0.players[k].userId != g0.players[i].userId;
        }
        TwoPlayerStats(users0, g0.players, w);
      }
    } else {
      CreditEachCounts(users0, g0.players);
    }
  }

  lemma EndGameKeepsInvariant(games0: map<GameId, Game>, users0: map<UserId, UserStats>,
                              games1: map<GameId, Game>, users1: map<UserId, UserStats>,
                              gameId: GameId, r: Result<Game, Error>)
    requires forall id :: id in games0 ==> WellFormedGame(id, games0[id])
    requires EndGameSpec(games0, users0, games1, users1, gameId, r)
    ensures forall id :: id in games1 ==> WellFormedGame(id, games1[id])
    ensures GamesProgress(games0, games1) && StatsProgress(users0, users1)
  {
    if IsActive(games0, gameId) {
      var g0 := games0[gameId];
      EndGameStatsProgress(users0, g0);
      if r.Success? {
        assert WellFormedGame(gameId, games1[gameId]);
        assert Progresses(g0, games1[gameId]);
      }
    }
  }

  /** endGame is not idempotent: once it has completed a game, a second call
      finds no active game, fails, and changes nothing. */
  lemma EndGameNotRepeatable(games0: map<GameId, Game>, users0: map<UserId, UserStats>,
                             games1: map<GameId, Game>, users1: map<UserId, UserStats>,
                             games2: map<GameId, Game>, users2: map<UserId, UserStats>,
                             gameId: GameId, r1: Result<Game, Error>, r2: Result<Game, Error>)
    requires EndGameSpec(games0, users0, games1, users1, gameId, r1) && r1.Success?
    requires EndGameSpec(games1, users1, games2, users2, gameId, r2)
    ensures r2 == Failure(ActiveGameNotFound) && games2 == games1 && users2 == users1
  {
  }

  // ---------------------------------------------------------------------------
  // The service

  class GameService {
    var games: map<GameId, Game>
    var users: map<UserId, UserStats>
    var waitingQueue: seq<QueueEntry>

    ghost predicate Valid()
      reads this
    {
      && (forall id :: id in games ==> WellFormedGame(id, games[id]))
      && DistinctUsers(waitingQueue)
    }

    constructor (users: map<UserId, UserStats>)
      ensures Valid()
      ensures games == map[] && this.users == users && waitingQueue == []
    {
      games := map[];
      this.users := users;
      waitingQueue := [];
    }

    /** createGame(userId, duration): a waiting game whose only player is the
        creator, with the duration converted from minutes to seconds. */
    method CreateGame(gameId: GameId, userId: UserId, minutes: Option<int>, now: int) returns (r: Result<Game, Error>)
      requires Valid()
      modifies this
      ensures Valid() && users == old(users) && waitingQueue == old(waitingQueue)
      ensures userId !in users ==> r == Failure(UserNotFound)
      ensures userId in users && !(minutes.Some? && minutes.value * 60 in Durations) ==> r == Failure(InvalidDuration)
      ensures userId in users && minutes.Some? && minutes.value * 60 in Durations && gameId in old(games) ==>
                r == Failure(DuplicateGameId)
      ensures r.Failure? ==> games == old(games)
      ensures r.Success? <==> userId in users && minutes.Some? && minutes.value * 60 in Durations && gameId !in old(games)
      ensures r.Success? ==>
                && userId in users && gameId !in old(games) && minutes.Some?
                && minutes.value in {1, 2, 5}
                && r.value.gameId == gameId && r.value.createdBy == userId
                && r.value.status == Waiting && r.value.problems == [] && r.value.winner == None
                && r.value.players == [Player(userId, users[userId].username, 0)]
                && r.value.duration == minutes.value * 60 && r.value.duration in Durations
                && games == old(games)[gameId := r.value]
    {
      if userId !in users {
        return Failure(UserNotFound);
      }
      var duration: Option<int> := if minutes.Some? then Some(minutes.value * 60) else None;
      var game := Game(gameId, userId, [Player(userId, users[userId].username, 0)],
                       if duration.Some? then duration.value else 0,
                       Waiting, None, [], None, None, now);
      // save(): schema validation, then the unique index
      if !(duration.Some? && duration.value in Durations) {
        return Failure(InvalidDuration);
      }
      if gameId in games {
        return Failure(DuplicateGameId);
      }
      games := games[gameId := game];
      r := Success(game);
    }

    /** joinGame(gameId, userId): append the user as a player with score 0. */
    method JoinGame(gameId: GameId, userId: UserId) returns (r: Result<Game, Error>)
      requires Valid()
      modifies this
      ensures Valid() && users == old(users) && waitingQueue == old(waitingQueue)
      ensures GamesProgress(old(games), games)
      ensures gameId !in old(games) ==> r == Failure(GameNotFound)
      ensures gameId in old(games) && old(games)[gameId].status != Waiting ==> r == Failure(GameNotWaiting)
      ensures gameId in old(games) && old(games)[gameId].status == Waiting && |old(games)[gameId].players| >= 2 ==>
                r == Failure(GameFull)
      ensures gameId in old(games) && old(games)[gameId].status == Waiting && |old(games)[gameId].players| < 2 && userId !in users ==>
                r == Failure(UserNotFound)
      ensures r.Failure? ==> games == old(games)
      ensures r.Success? <==>
                gameId in old(games) && old(games)[gameId].status == Waiting && |old(games)[gameId].players| < 2 && userId in users
      ensures r.Success? ==>
                && gameId in old(games) && userId in users
                && var g0 := old(games)[gameId];
                && g0.status == Waiting && |g0.players| < 2
                && r.value == g0.(players := g0.players + [Player(userId, users[userId].username, 0)])
                && games == old(games)[gameId := r.value]
    {
      if gameId !in games {
        return Failure(GameNotFound);
      }
      var game := games[gameId];
      if game.status != Waiting {
        return Failure(GameNotWaiting);
      }
      if |game.players| >= 2 {
        return Failure(GameFull);
      }
      if userId !in users {
        return Failure(UserNotFound);
      }
      game := game.(players := game.players + [Player(userId, users[userId].username, 0)]);
      games := games[gameId := game];
      r := Success(game);
    }

    /** startGame(gameId, userId): the creator starts a game that has two
        players; it becomes active and its end time is `duration` seconds
        after its start. The status it had before is not checked. */
    method StartGame(gameId: GameId, userId: UserId, now: int) returns (r: Result<Game, Error>)
      requires Valid()
      modifies this
      ensures Valid() && users == old(users) && waitingQueue == old(waitingQueue)
      ensures GamesProgress(old(games), games)
      ensures gameId !in old(games) ==> r == Failure(GameNotFound)
      ensures gameId in old(games) && old(games)[gameId].createdBy != userId ==> r == Failure(NotCreator)
      ensures gameId in old(games) && old(games)[gameId].createdBy == userId && |old(games)[gameId].players| < 2 ==>
                r == Failure(NeedTwoPlayers)
      ensures r.Failure? ==> games == old(games)
      ensures r.Success? <==> gameId in old(games) && old(games)[gameId].createdBy == userId && |old(games)[gameId].players| >= 2
      ensures r.Success? ==>
                && gameId in old(games)
                && var g0 := old(games)[gameId];
                && g0.createdBy == userId && |g0.players| == 2
                && r.value == g0.(status := Active, startedAt := Some(now), endedAt := Some(now + g0.duration * 1000))
                && games == old(games)[gameId := r.value]
    {
      if gameId !in games {
        return Failure(GameNotFound);
      }
      var game := games[gameId];
      if game.createdBy != userId {
        return Failure(NotCreator);
      }
      if |game.players| < 2 {
        return Failure(NeedTwoPlayers);
      }
      game := game.(status := Active);
      game := game.(startedAt := Some(now));
      game := game.(endedAt := Some(now + game.duration * 1000));
      games := games[gameId := game];
      r := Success(game);
    }

    /** submitAnswer(gameId, userId, answer): record the user's one response to
        the current problem, award a point when it is correct, and hand over to
        generateNextProblem once that problem has two responses. */
    method SubmitAnswer(gameId: GameId, userId: UserId, answer: Option<int>, now: int, draws: MathService.Draws)
      returns (r: Result<Game, Error>)
      requires Valid()
      modifies this
      ensures Valid() && waitingQueue == old(waitingQueue)
      ensures GamesProgress(old(games), games) && StatsProgress(old(users), users)
      ensures !IsActive(old(games), gameId) ==>
                r == Failure(ActiveGameNotFound) && games == old(games) && users == old(users)
      ensures IsActive(old(games), gameId) && old(games)[gameId].problems == [] ==>
                r == Failure(NoActiveProblem) && games == old(games) && users == old(users)
      ensures IsActive(old(games), gameId) && old(games)[gameId].problems != [] && !CanAnswer(old(games), gameId, userId) ==>
                r == Failure(AlreadyAnswered) && games == old(games) && users == old(users)
      ensures CanAnswer(old(games), gameId, userId) && answer.None? ==>
                r == Failure(AnswerNotANumber) && games == old(games) && users == old(users)
      ensures CanAnswer(old(games), gameId, userId) && answer.Some? ==>
                var g1 := RecordResponse(old(games)[gameId], userId, answer.value, now);
                var answered := old(games)[gameId := g1];
                if |g1.problems[|g1.problems| - 1].responses| >= 2 then
                  NextProblemSpec(answered, old(users), games, users, gameId, now, draws, r)
                else
                  r == Success(g1) && games == answered && users == old(users)
    {
      if !(gameId in games && games[gameId].status == Active) {
        return Failure(ActiveGameNotFound);
      }
      var game := games[gameId];
      if game.problems == [] {
        return Failure(NoActiveProblem);
      }
      var n := |game.problems| - 1;
      var current := game.problems[n];
      if HasResponded(current.responses, userId) {
        return Failure(AlreadyAnswered);
      }
      if answer.None? {
        // parseInt gave NaN: the schema's Number cast rejects the response, so the save fails
        return Failure(AnswerNotANumber);
      }
      ghost var g0 := game;
      var isCorrect := answer.value == current.problem.answer;
      current := current.(responses := current.responses + [Response(userId, answer.value, isCorrect, Elapsed(game.startedAt, now))]);
      game := game.(problems := game.problems[n := current]);
      if isCorrect {
        var playerIndex := IndexOfPlayer(game.players, userId);
        if playerIndex != -1 {
          game := game.(players := game.players[playerIndex := game.players[playerIndex].(score := game.players[playerIndex].score + 1)]);
        }
      }
      assert game == RecordResponse(g0, userId, answer.value, now);
      StoreAnswered(games, gameId, userId, answer.value, now);
      games := games[gameId := game];
      if |current.responses| >= 2 {
        ghost var answered := games;
        r := GenerateNextProblem(gameId, now, draws);
        GamesProgressTransitive(old(games), answered, games);
        return;
      }
      r := Success(game);
    }

    /** generateNextProblem(gameId): end the game when its time is up,
        otherwise append exactly one new problem. */
    method GenerateNextProblem(gameId: GameId, now: int, draws: MathService.Draws) returns (r: Result<Game, Error>)
      requires Valid()
      modifies this
      ensures Valid() && waitingQueue == old(waitingQueue)
      ensures GamesProgress(old(games), games) && StatsProgress(old(users), users)
      ensures NextProblemSpec(old(games), old(users), games, users, gameId, now, draws, r)
    {
      if !(gameId in games && games[gameId].status == Active) {
        return Failure(ActiveGameNotFound);
      }
      var game := games[gameId];
      if game.endedAt.Some? && now >= game.endedAt.value {
        r := EndGame(gameId);
        return;
      }
      var problem := MathService.GenerateProblem(draws);
      game := game.(problems := game.problems + [ProblemEntry(problem, [])]);
      games := games[gameId := game];
      r := Success(game);
    }

    /** endGame(gameId): complete an active game, set the winner when exactly
        one player has the highest score, and credit the players' statistics. */
    method EndGame(gameId: GameId) returns (r: Result<Game, Error>)
      requires Valid()
      modifies this
      ensures Valid() && waitingQueue == old(waitingQueue)
      ensures GamesProgress(old(games), games) && StatsProgress(old(users), users)
      ensures EndGameSpec(old(games), old(users), games, users, gameId, r)
      ensures r.Success? ==> gameId in games && games[gameId] == r.value && r.value.status == Completed
    {
      if !(gameId in games && games[gameId].status == Active) {
        return Failure(ActiveGameNotFound);
      }
      var game := games[gameId];
      ghost var g0 := game;
      game := game.(status := Completed);
      var winnerIndex, highestScore := FindHighestScorer(game.players);
      CountOneIsUniqueTop(game.players, winnerIndex);
      if CountWithScore(game.players, highestScore) == 1 {
        var winner := game.players[winnerIndex].userId;
        assert WinnerRule(g0.players) == Some(winner);
        game := game.(winner := Some(winner));
        users := Credit(users, winner, 1, 1);
        var loserIndex := IndexOfOtherPlayer(game.players, winner);
        if loserIndex == -1 {
          r := Failure(OpponentNotFound);
          EndGameKeepsInvariant(old(games), old(users), games, users, gameId, r);
          return;
        }
        users := Credit(users, game.players[loserIndex].userId, 1, 0);
      } else {
        assert forall i :: !IsUniqueTop(g0.players, i);
        for i := 0 to |game.players|
          invariant games == old(games) && waitingQueue == old(waitingQueue)
          invariant users == CreditEach(old(users), game.players[..i])
        {
          assert game.players[..i + 1][..i] == game.players[..i];
          users := Credit(users, game.players[i].userId, 1, 0);
        }
        assert game.players[..|game.players|] == game.players;
      }
      games := games[gameId := game];
      r := Success(game);
      EndGameKeepsInvariant(old(games), old(users), games, users, gameId, r);
    }

    /** createRandomGame(player1, player2): a waiting one-minute game for two
        matched players, created by the first. */
    method CreateRandomGame(gameId: GameId, player1: QueueEntry, player2: QueueEntry, now: int)
      returns (r: Result<Game, Error>)
      requires Valid()
      modifies this
      ensures Valid() && users == old(users) && waitingQueue == old(waitingQueue)
      ensures gameId in old(games) ==> r == Failure(DuplicateGameId) && games == old(games)
      ensures gameId !in old(games) ==>
                && r.Success?
                && r.value.gameId == gameId && r.value.createdBy == player1.userId
                && r.value.status == Waiting && r.value.duration == 60
                && r.value.players == [Player(player1.userId, player1.username, 0), Player(player2.userId, player2.username, 0)]
                && r.value.problems == [] && r.value.winner == None
                && games == old(games)[gameId := r.value]
    {
      var duration := 60;
      var game := Game(gameId, player1.userId,
                       [Player(player1.userId, player1.username, 0), Player(player2.userId, player2.username, 0)],
                       duration, Waiting, None, [], None, None, now);
      if gameId in games {
        return Failure(DuplicateGameId);
      }
      games := games[gameId := game];
      r := Success(game);
    }

    /** addToWaitingQueue: drop any earlier entry of the user, join at the back,
        then try to match the two longest-waiting players. */
    method AddToWaitingQueue(userId: UserId, socketId: string, username: string, now: int) returns (m: Option<Match>)
      requires Valid()
      modifies this
      ensures Valid() && games == old(games) && users == old(users)
      ensures var q := WithoutUser(old(waitingQueue), userId) + [QueueEntry(userId, socketId, username, now)];
        if |q| < 2 then m == None && waitingQueue == q
        else m == Some(Match(q[0], q[1])) && waitingQueue == q[2..]
      ensures |old(waitingQueue)| <= 1 ==> |waitingQueue| <= 1
    {
      RemoveFromWaitingQueue(userId);
      waitingQueue := waitingQueue + [QueueEntry(userId, socketId, username, now)];
      m := MatchPlayers();
    }

    /** removeFromWaitingQueue: splice out the user's entry, if there is one. */
    method RemoveFromWaitingQueue(userId: UserId)
      requires Valid()
      modifies this
      ensures Valid() && games == old(games) && users == old(users)
      ensures waitingQueue == WithoutUser(old(waitingQueue), userId)
      ensures forall j :: 0 <= j < |waitingQueue| ==> waitingQueue[j].userId != userId
    {
      var index := IndexOfEntry(waitingQueue, userId);
      if index != -1 {
        waitingQueue := waitingQueue[..index] + waitingQueue[index + 1..];
      }
    }

    /** matchPlayers: with two or more waiting, take the two at the front in order. */
    method MatchPlayers() returns (m: Option<Match>)
      requires Valid()
      modifies this
      ensures Valid() && games == old(games) && users == old(users)
      ensures |old(waitingQueue)| < 2 ==> m == None && waitingQueue == old(waitingQueue)
      ensures |old(waitingQueue)| >= 2 ==>
                && m == Some(Match(old(waitingQueue)[0], old(waitingQueue)[1]))
                && waitingQueue == old(waitingQueue)[2..]
      ensures m.Some? ==> m.value.player1.userId != m.value.player2.userId
    {
      if |waitingQueue| < 2 {
        return None;
      }
      var player1 := waitingQueue[0];
      waitingQueue := waitingQueue[1..];
      var player2 := waitingQueue[0];
      waitingQueue := waitingQueue[1..];
      m := Some(Match(player1, player2));
    }

    /** getWaitingQueueSize */
    method GetWaitingQueueSize() returns (n: nat)
      ensures n == |waitingQueue|
    {
      n := |waitingQueue|;
    }
  }
}
