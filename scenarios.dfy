/**
  Client code of the service, showing what its contracts alone let a caller
  conclude: a full two-player game, and the order in which the waiting queue
  pairs players.
*/
module Scenarios {
  import opened Wrappers
  import MathService
  import opened GameModel
  import GameService
  import GameSocket

  /** A creates a one-minute game, B joins, A starts it; A answers the first
      problem correctly and B wrongly, which scores 1 to 0 and poses a second
      problem; once the minute is over the game ends with A as the winner. */
  method TwoPlayerGame(a: UserId, b: UserId, draws: MathService.Draws, wrong: int)
    requires a != b
    requires wrong != MathService.GenerateProblem(draws).answer
  {
    var service := new GameService.GameService(map[a := UserStats("A", 0, 0), b := UserStats("B", 0, 0)]);
    var created := service.CreateGame("g1", a, Some(1), 0);
    assert created.Success? && created.value.duration == 60;
    ghost var g := service.games["g1"];
    assert IndexOfPlayer(g.players, b) == -1;
    var joined := GameSocket.JoinIfNotMember(service, "g1", b);
    g := service.games["g1"];
    assert g.players == [Player(a, "A", 0), Player(b, "B", 0)];
    var started := GameSocket.StartWithFirstProblem(service, "g1", a, 1000, draws);
    var first := MathService.GenerateProblem(draws);
    g := service.games["g1"];
    assert g.status == Active && g.endedAt == Some(61000) && g.problems == [ProblemEntry(first, [])];
    AnswerRound(service, a, b, first, wrong, draws);
    g := service.games["g1"];
    assert IsUniqueTop(g.players, 0);
    assert WinnerRule(g.players) == Some(a);
    assert IndexOfOtherPlayer(g.players, a) == 1;
    var ended := service.EndGame("g1");
    assert ended.Success? && ended.value.winner == Some(a);
    assert service.users[a] == UserStats("A", 1, 1) && service.users[b] == UserStats("B", 1, 0);
    var again := service.EndGame("g1");
    assert again == Failure(GameService.ActiveGameNotFound);
  }

  /** The first round of TwoPlayerGame: A answers correctly, then B wrongly. */
  method AnswerRound(service: GameService.GameService, a: UserId, b: UserId, first: MathService.Problem, wrong: int,
                     draws: MathService.Draws)
    requires a != b && service.Valid()
    requires "g1" in service.games
    requires var g := service.games["g1"];
      && g.status == Active && g.endedAt == Some(61000)
      && g.players == [Player(a, "A", 0), Player(b, "B", 0)]
      && g.problems == [ProblemEntry(first, [])]
    requires wrong != first.answer
    modifies service
    ensures service.Valid() && service.users == old(service.users)
    ensures "g1" in service.games
    ensures var g := service.games["g1"];
      g.status == Active && |g.problems| == 2 && g.players == [Player(a, "A", 1), Player(b, "B", 0)]
  {
    FirstAnswer(service, a, b, first, draws);
    SecondAnswer(service, a, b, first, wrong, draws);
  }

  method FirstAnswer(service: GameService.GameService, a: UserId, b: UserId, first: MathService.Problem,
                     draws: MathService.Draws)
    requires a != b && service.Valid()
    requires "g1" in service.games
    requires var g := service.games["g1"];
      && g.status == Active && g.endedAt == Some(61000)
      && g.players == [Player(a, "A", 0), Player(b, "B", 0)]
      && g.problems == [ProblemEntry(first, [])]
    modifies service
    ensures service.Valid() && service.users == old(service.users)
    ensures "g1" in service.games
    ensures var g := service.games["g1"];
      && g.status == Active && g.endedAt == Some(61000)
      && g.players == [Player(a, "A", 1), Player(b, "B", 0)]
      && |g.problems| == 1 && g.problems[0].problem == first && |g.problems[0].responses| == 1
      && g.problems[0].responses[0].userId == a
  {
    ghost var g := service.games["g1"];
    assert GameService.CanAnswer(service.games, "g1", a) by {
      assert !HasResponded([], a);
    }
    assert IndexOfPlayer(g.players, a) == 0;
    var answered := service.SubmitAnswer("g1", a, Some(first.answer), 2000, draws);
  }

  method SecondAnswer(service: GameService.GameService, a: UserId, b: UserId, first: MathService.Problem, wrong: int,
                      draws: MathService.Draws)
    requires a != b && service.Valid()
    requires "g1" in service.games
    requires var g := service.games["g1"];
      && g.status == Active && g.endedAt == Some(61000)
      && g.players == [Player(a, "A", 1), Player(b, "B", 0)]
      && |g.problems| == 1 && g.problems[0].problem == first && |g.problems[0].responses| == 1
      && g.problems[0].responses[0].userId == a
    requires wrong != first.answer
    modifies service
    ensures service.Valid() && service.users == old(service.users)
    ensures "g1" in service.games
    ensures var g := service.games["g1"];
      g.status == Active && |g.problems| == 2 && g.players == [Player(a, "A", 1), Player(b, "B", 0)]
  {
    ghost var g := service.games["g1"];
    assert GameService.CanAnswer(service.games, "g1", b);
    assert IndexOfPlayer(g.players, b) == 1;
    var answered := service.SubmitAnswer("g1", b, Some(wrong), 3000, draws);
  }

  /** U1, U2 and U3 look for an opponent in that order: U2's arrival pairs
      (U1, U2), and U3 is left waiting alone. */
  method QueueFairness(u1: UserId, u2: UserId, u3: UserId)
    requires u1 != u2 && u2 != u3 && u1 != u3
  {
    var service := new GameService.GameService(map[]);
    var m := service.AddToWaitingQueue(u1, "s1", "U1", 0);
    assert m == None;
    m := service.AddToWaitingQueue(u2, "s2", "U2", 1);
    assert m.Some? && m.value.player1.userId == u1 && m.value.player2.userId == u2;
    m := service.AddToWaitingQueue(u3, "s3", "U3", 2);
    assert m == None && service.waitingQueue == [GameService.QueueEntry(u3, "s3", "U3", 2)];
    var size := service.GetWaitingQueueSize();
    assert size == 1;
  }
}
