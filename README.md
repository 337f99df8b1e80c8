# Mathletes game service in Dafny

A model of the server-side game logic of Mathletes, a two-player timed
arithmetic duel. Two components are modelled:

- **The problem generator** (`MathService`, `math_service.dfy`). It picks one of
  addition, subtraction, multiplication and division, then draws operands so
  that the answer is an exact integer. A division is built backwards as
  `operand1 = operand2 * answer`. Each `Math.random()` value is a fraction
  `num/den` with `0 <= num < den`, so `Math.floor(Math.random() * n)` is the
  integer `num * n / den`. The generator is then a total pure function of its
  three draws.
- **The game service** (`GameService`, `game_service.dfy`, over the records of
  `GameModel`, `game_model.dfy`). A class holds three fields: the stored games
  (a map from game id to game record), the users' statistics (a map from user
  id to games played and won), and the FIFO `waitingQueue` of players looking
  for a random opponent. Each operation is a method that loads one record,
  checks its guards, updates the record step by step, and stores it back. On a
  failed guard it returns one of the errors the source throws, as a `Result`.
  Every method keeps the object invariant `Valid()`. It says that every stored
  game is well formed:
  - one or two players;
  - a duration of 60, 120 or 300 seconds;
  - a started game has two players and ends `duration` seconds after it started;
  - a waiting game has no problems;
  - every problem satisfies the generator's ranges;
  - at most one response per user on every problem, each graded against the
    problem's answer;
  - at most one queue entry per user.

  Every method also keeps `GamesProgress`: no game disappears; players, scores,
  problems and responses are only ever added to; statistics only grow.
- **Two socket handlers** (`GameSocket`, `game_socket.dfy`) are modelled as
  sequential wrappers. One is the join handler, which joins only a user who is
  not yet a player. The other is the start handler, which starts the game and
  then poses its first problem.
- `scenarios.dfy` holds client code that uses only the contracts. It plays a
  full game: create, join, start, one right and one wrong answer giving 1 to
  0, end with A winning, and a second end that fails. It also shows the queue
  pairing U1 with U2 and leaving U3 waiting.

External effects become parameters. The game id is given by the caller,
where the source uses a uuid. The clock is an integer `now` in milliseconds.
The parsed answer is an `Option<int>`, with `None` for `NaN`. The generator's
draws are a `Draws` value. Storage lookups become map lookups.

Some behaviours of the code are easy to miss, and a reader might expect otherwise.
The model follows the code in each of them:

- `startGame` does not check that the game is waiting. The creator can restart
  an active game, or reopen a completed one, which then becomes active again.
  `GameService.GameService.StartGame` succeeds exactly when the game exists,
  the requester is its creator and it has two players.
- `joinGame` is not idempotent. A second join by the creator adds the creator
  a second time. The "already a player, skip" check lives in the join handler
  (`GameSocket.JoinIfNotMember`), which keeps player ids distinct.
- `endGame` is not idempotent. A second call finds no active game and fails
  (`GameService.EndGameNotRepeatable`).
- `submitAnswer` does not check that the user is a player. Any user's response
  is recorded and counts towards the two responses that advance the round.
  Only a player's score can change.
- Subtraction draws `operand1` from 50 to 99 and `operand2` from 0 to
  `operand1 - 1`. It does not use two operands from 1 to 50.
- When the only top scorer has no opponent with a different id, `endGame`
  credits the winner and then fails on the loser lookup (a `TypeError`),
  without saving the game. This is `Failure(OpponentNotFound)` in the model.
  It needs two player entries with the same id. A bare `joinGame` by the
  creator creates them. So does `createRandomGame` when both of its arguments
  carry the same user id, because it does not compare them. Its only intended
  caller pairs the queue's two front entries, which always belong to two
  different users (`GameService.GameService.MatchPlayers`).
- An answer that `parseInt` turns into `NaN` is not recorded. The schema's
  Number field cannot hold `NaN`, so saving the response fails. The user can
  answer again and the round does not advance. This is
  `Failure(AnswerNotANumber)` in the model.
- `createRandomGame` passes an `isRandomMatch` flag, but the schema declares
  no such field, so the stored game does not keep it. A random-match game is
  stored like any other game; only its fixed 60-second duration and its two
  players at creation set it apart.
- The duration is checked twice: by the HTTP controller, which accepts 1, 2 or
  5 minutes, and by the schema's enum on save. The model checks it in
  `CreateGame` and returns `InvalidDuration`.

## Model

| member | source | states |
|---|---|---|
| `MathService.Pick` | server/services/mathService.js:5 | `Math.floor(Math.random() * n)` is an index in `0 .. n-1` (and 0 when `n` is 0) |
| `MathService.GenerateProblem` | server/services/mathService.js:3-38 | the kind is the one the first draw selects among the four; the operands and answer are in the generator's ranges for that kind (addition 1..50 each, subtraction 50..99 and 0..operand1-1, multiplication 1..12 each, division divisor and answer 1..10 with `operand1 = divisor * answer`) |
| `MathService.DivisionExact` | server/services/mathService.js:25-29 | a division problem divides exactly: `operand1 % operand2 == 0` and `operand1 / operand2 == answer` |
| `MathService.WellFormedIsExact` | server/services/mathService.js:9-30 | for any problem within the generator's ranges, applying its kind's operation to the operands gives exactly its answer |
| `MathService.GeneratedIsExact` | server/services/mathService.js:3-38 | every generated problem's answer is exactly its operation applied to its operands |
| `MathService.WellFormedIsReachable` | server/services/mathService.js:10-29 | the ranges are tight: every problem within them is produced by some draws, so every kind and every operand value in range can be generated |
| `GameModel.IndexOfPlayer` | server/services/gameService.js:140-141 | `findIndex` by user id: -1 exactly when no player has the id, otherwise the first index that has it |
| `GameModel.IndexOfOtherPlayer` | server/services/gameService.js:226-227 | the player `find` picks as loser: the first index whose id differs from the winner's, -1 exactly when every entry has the winner's id |
| `GameModel.RecordResponse` | server/services/gameService.js:126-147 | answering the current problem appends one response graded `correct = (answer == problem.answer)` with `responseTime = now - startedAt`; the first player entry with that id gains 1 point iff correct; all other players, scores, earlier problems and fields are unchanged |
| `GameModel.RecordResponseKeepsInvariant` | server/services/gameService.js:117-136 | a response from a user who has not yet answered the current problem keeps at most one response per user per problem, keeps every response graded, and only adds to the game |
| `GameModel.WinnerRule` | server/services/gameService.js:216-218 | there is a winner iff exactly one player's score is strictly above every other's, and the winner is that player |
| `GameModel.WinnerRuleExamples` | server/services/gameService.js:205-218 | final scores 3 to 3 give no winner; 5 to 2 and 1 to 0 give the first player |
| `GameModel.FindHighestScorer` | server/services/gameService.js:206-214 | the winner search loop returns the highest score and the first index that holds it |
| `GameModel.CountOneIsUniqueTop` | server/services/gameService.js:217 | with the highest score in hand, "exactly one player has it" (the filter count) holds iff that player is alone at the top |
| `GameModel.CreditEachCounts` | server/services/gameService.js:232-238 | the tie branch credits each user one played game per player entry with its id, and changes nothing else |
| `GameModel.TwoPlayerStats` | server/services/gameService.js:216-239 | for two distinct players, both play one more game, the winner (if any) wins one more, and no other user changes |
| `GameService.IndexOfEntry` | server/services/gameService.js:269 | `findIndex` on the waiting queue: -1 exactly when the user has no entry, otherwise the first entry of that user |
| `GameService.WithoutUser` | server/services/gameService.js:268-274 | removing a user splices out that user's entry and keeps the others in order; an absent user changes nothing; a queue with one entry per user keeps that property and no longer holds the user |
| `GameService.EndGameStatsProgress` | server/services/gameService.js:216-239 | the statistics endGame writes (winner credited, then loser, or every player on a tie) never lower a count and keep names and users |
| `GameService.EndGameKeepsInvariant` | server/services/gameService.js:198-246 | ending a game keeps every stored game well formed, only progresses the games, and only raises statistics |
| `GameService.StoreAnswered` | server/services/gameService.js:126-149 | storing an answered game keeps the store well formed and only progressing |
| `GameService.EndGameNotRepeatable` | server/services/gameService.js:198-203 | after endGame has completed a game, a second endGame fails with "Active game not found" and changes nothing |
| `GameService.GameService.constructor` | server/services/gameService.js:7-8 | a service starts with no games, the given users and an empty waiting queue |
| `GameService.GameService.CreateGame` | server/services/gameService.js:11-35 | fails for an unknown user, a duration that is not 1, 2 or 5 minutes, or a used id, and then stores nothing; otherwise stores a waiting game created by the user, whose only player is the user with score 0 and whose duration is minutes × 60 |
| `GameService.GameService.JoinGame` | server/services/gameService.js:37-61 | fails, in order, for a missing game, a game not waiting, a game with two or more players, an unknown user, and then changes nothing; otherwise appends exactly one player with score 0 and leaves the rest of the game unchanged |
| `GameService.GameService.StartGame` | server/services/gameService.js:63-98 | fails for a missing game, a requester who is not the creator, or fewer than two players; otherwise the game becomes active with `startedAt = now` and `endedAt = now + duration × 1000`, whatever its status was |
| `GameService.GameService.SubmitAnswer` | server/services/gameService.js:100-163 | fails and changes nothing when there is no active game, no problem, the user has already answered the current problem, or the answer is not a number; otherwise records the graded response (RecordResponse); once the current problem has two responses it continues as generateNextProblem |
| `GameService.GameService.GenerateNextProblem` | server/services/gameService.js:165-196 | fails without an active game; when `now >= endedAt` it ends the game without adding a problem; otherwise it appends exactly one generated problem with no responses |
| `GameService.GameService.EndGame` | server/services/gameService.js:198-246 | fails unless the game is active; otherwise completes it, sets the winner iff one player alone has the top score, and credits played and won games as the winner rule says |
| `GameService.GameService.CreateRandomGame` | server/services/gameService.js:295-327 | stores a waiting game of 60 seconds, created by player1, with both players at score 0; fails on a used id |
| `GameService.GameService.AddToWaitingQueue` | server/services/gameService.js:250-266 | removes the user's earlier entry, appends the new one at the back, then pairs the two front entries when there are two; the queue never holds more than one waiting entry |
| `GameService.GameService.RemoveFromWaitingQueue` | server/services/gameService.js:268-274 | the queue loses the user's entry, keeps the rest in order, and is unchanged when the user is absent |
| `GameService.GameService.MatchPlayers` | server/services/gameService.js:276-293 | with fewer than two entries, returns null and leaves the queue; otherwise returns the two front entries in FIFO order (two different users) and the queue shrinks by exactly those two |
| `GameService.GameService.GetWaitingQueueSize` | server/services/gameService.js:329-331 | reports the number of queued entries |
| `GameSocket.JoinIfNotMember` | server/socket/gameSocket.js:43-55 | does nothing for a missing game; returns the game unchanged when the user is already a player; otherwise joins exactly as joinGame; never creates two entries for one user |
| `GameSocket.StartWithFirstProblem` | server/socket/gameSocket.js:68-73 | fails as startGame does; when the start succeeds, the first problem is always appended, because the game ends at least a minute after it starts |

## Left out

- The socket.io layer: event dispatch, rooms, broadcasts and the authentication handshake. Only the two handler bodies above are modelled, as sequential wrappers.
- The end-of-game timer (`setTimeout` calling endGame when the time is up) is left out. It is asynchronous, and when the game has already ended its second endGame fails, as `EndGameNotRepeatable` states.
- The disconnect handler, which ends every active game of the leaving user, is left out with the rest of the socket layer.
- Concurrency: the model is sequential. Two answers cannot interleave, and the source has no locking.
- Persistence: storage lookups, `save`, `populate` and `findByIdAndUpdate` are map operations. A statistics update for an unknown user has no effect, as `findByIdAndUpdate` has none. User records are reduced to a name and two counters. Only three ways for `save` to fail are modelled: the duration enum (`InvalidDuration`), the unique game id (`DuplicateGameId`) and a `NaN` answer (`AnswerNotANumber`). Other validation and database failures are not.
- Ids and time: `uuidv4` is a game-id parameter. Each `new Date()` is the integer `now`. Two pairs of calls share one `now` where the source reads the clock separately: submitAnswer and the generateNextProblem it calls, and startGame and the generateNextProblem the start handler calls next. The promise of `GameSocket.StartWithFirstProblem` that the first problem is always appended rests on that shared `now`. With separate clock readings it holds unless a minute or more passes between the two calls.
- `Math.random()` floating point: each draw is an exact fraction in [0, 1).
- `parseInt` on strings: the parsed answer (and the parsed duration) is an `Option<int>` input.
- The generator's unused `difficulty` parameter, and all logging.
- Authentication and the HTTP controller and routes. Only the controller's duration check is kept, as the check in `CreateGame`. Also left out: the server bootstrap, the build configuration and all client code.
