/**
  Two handlers of server/socket/gameSocket.js, as sequential wrappers around
  the game service: 'join-game' joins only a user who is not yet a player,
  and 'start-game' starts the game and then poses its first problem.
  Rooms, broadcasts and the end-of-game timer are not modelled.
*/
module GameSocket {
  import opened Wrappers
  import MathService
  import opened GameModel
  import GameService

  /** 'join-game': for an existing game, join it unless the user is already
      one of its players, then report the stored game. None: no such game,
      and nothing is reported. */
  method JoinIfNotMember(service: GameService.GameService, gameId: GameId, userId: UserId)
    returns (r: Option<Result<Game, GameService.Error>>)
    requires service.Valid()
    modifies service
    ensures service.Valid()
    ensures service.users == old(service.users) && service.waitingQueue == old(service.waitingQueue)
    ensures GameService.GamesProgress(old(service.games), service.games)
    ensures gameId !in old(service.games) ==> r == None && service.games == old(service.games)
    ensures gameId in old(service.games) && IndexOfPlayer(old(service.games)[gameId].players, userId) != -1 ==>
              r == Some(Success(old(service.games)[gameId])) && service.games == old(service.games)
    ensures gameId in old(service.games) && IndexOfPlayer(old(service.games)[gameId].players, userId) == -1 ==>
              && r.Some?
              && (r.value.Success? <==>
                    && old(service.games)[gameId].status == Waiting
                    && |old(service.games)[gameId].players| < 2
                    && userId in service.users)
              && (r.value.Failure? ==> service.games == old(service.games))
              && (r.value.Success? ==>
                    && userId in service.users
                    && var g0 := old(service.games)[gameId];
                    && r.value.value == g0.(players := g0.players + [Player(userId, service.users[userId].username, 0)])
                    && service.games == old(service.games)[gameId := r.value.value])
    // unlike a bare joinGame, joining through this handler never repeats a player
    ensures forall id :: id in old(service.games) && DistinctPlayers(old(service.games)[id].players) ==>
              DistinctPlayers(service.games[id].players)
  {
    if gameId !in service.games {
      return None;
    }
    var game := service.games[gameId];
    var isAlreadyJoined := IndexOfPlayer(game.players, userId) != -1;
    if !isAlreadyJoined {
      var joined := service.JoinGame(gameId, userId);
      if joined.Failure? {
        return Some(Failure(joined.error));
      }
    }
    r := Some(Success(service.games[gameId]));
  }

  /** 'start-game': start the game, then generate its first problem. The first
      problem is always posed, since the game ends at least a minute later. */
  method StartWithFirstProblem(service: GameService.GameService, gameId: GameId, userId: UserId, now: int,
                               draws: MathService.Draws)
    returns (r: Result<Game, GameService.Error>)
    requires service.Valid()
    modifies service
    ensures service.Valid()
    ensures service.users == old(service.users) && service.waitingQueue == old(service.waitingQueue)
    ensures GameService.GamesProgress(old(service.games), service.games)
    ensures r.Failure? ==> service.games == old(service.games)
    ensures gameId !in old(service.games) ==> r == Failure(GameService.GameNotFound)
    ensures gameId in old(service.games) && old(service.games)[gameId].createdBy != userId ==>
              r == Failure(GameService.NotCreator)
    ensures gameId in old(service.games) && old(service.games)[gameId].createdBy == userId ==>
              (r.Success? <==> |old(service.games)[gameId].players| >= 2)
    ensures r.Success? ==>
              && gameId in old(service.games)
              && var g0 := old(service.games)[gameId];
              && r.value == g0.(status := Active, startedAt := Some(now), endedAt := Some(now + g0.duration * 1000),
                                problems := g0.problems + [ProblemEntry(MathService.GenerateProblem(draws), [])])
              && service.games == old(service.games)[gameId := r.value]
  {
    var started := service.StartGame(gameId, userId, now);
    if started.Failure? {
      return Failure(started.error);
    }
    ghost var startedGames := service.games;
    assert started.value.duration in Durations;
    assert !GameService.TimeIsUp(startedGames[gameId], now);
    r := service.GenerateNextProblem(gameId, now, draws);
    GameService.GamesProgressTransitive(old(service.games), startedGames, service.games);
  }
}
