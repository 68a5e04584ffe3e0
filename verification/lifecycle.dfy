/**
 * The bot's mutable state: the game record of the running round, the play channel's session,
 * and the timers the event loop holds. Timers are explicit: arming one records a callback with
 * the game record it captured, and the `On...` methods are the callbacks firing. Messages,
 * threads and embeds are not modelled; the callbacks return what they would show or say.
 */
module Lifecycle {
  import opened Wrappers
  import opened Text
  import opened WordStore
  import opened Hangman
  import opened Rotation

  /** The one channel the bot plays in. */
  const PLAY_CHANNEL_ID: string := "1420798484625231892"

  /** A timer handle, as `setTimeout` and `setInterval` return it. */
  type Handle = nat

  datatype TimerKind = RoundTimeout | Tick | HintAt(secondsLeft: int)

  /** A pending timer: which callback it runs, after how long, and the game record it captured. */
  datatype Timer = Timer(kind: TimerKind, delayMs: int, target: GameState)

  /** The delay of the hint given with `secondsLeft` seconds to go: the board then shows exactly that many seconds left. */
  function HintDelay(secondsLeft: int): (d: int)
    ensures 0 <= secondsLeft <= ROUND_TIME_MS / 1000 ==> 0 <= d <= ROUND_TIME_MS && SecsLeft(d, 0) == secondsLeft
  {
    ROUND_TIME_MS - secondsLeft * 1000
  }

  /** What the board of a round shows besides the fixed texts. */
  datatype Board = Board(stage: nat, shown: string, wrong: seq<string>, category: string, secondsLeft: int)

  datatype CommandError = WrongChannel | AlreadyActive | NoActiveGame

  /** The category a start command asks for: the option, or `"random"` when it is absent or empty, lower-cased. */
  function RequestedCategory(option: Option<string>): (cat: string)
    ensures option.None? || option.value == [] ==> cat == "random"
    ensures option.Some? && option.value != [] ==>
      |cat| == |option.value| && forall i :: 0 <= i < |cat| ==> cat[i] == LowerChar(option.value[i])
  {
    ToLower(if option.None? || option.value == [] then "random" else option.value)
  }

  /** A one-character message that passes the guess filter is always a letter guess. */
  lemma FilteredGuessIsLetter(content: string)
    ensures var input := Trim(ToLower(content));
      LooksLikeGuess(input) && |input| == 1 ==> IsGuessLetter(input[0])
  {
  }

  /** The game record of one round (`GameState`). */
  class GameState {
    const word: string
    const category: string
    const threadId: string
    const startedAt: int
    var masked: seq<char>
    var wrong: seq<string>
    var contributors: seq<UserId>
    var attempted: set<UserId>
    var roundStart: int
    var roundTimer: Option<Handle>
    var tickTimer: Option<Handle>
    var hintTimers: seq<Handle>

    /** The round the record holds. */
    function View(): Round
      reads this
    {
      Round(word, masked, wrong, contributors, attempted)
    }

    ghost predicate Valid()
      reads this
    {
      RoundInv(View())
    }

    /** The timer handles the record holds. */
    function Handles(): set<Handle>
      reads this
    {
      (if roundTimer.Some? then {roundTimer.value} else {})
      + (if tickTimer.Some? then {tickTimer.value} else {})
      + (set h | h in hintTimers)
    }

    /** The record holds handle `h`. */
    predicate Holds(h: Handle)
      reads this
    {
      roundTimer == Some(h) || tickTimer == Some(h) || h in hintTimers
    }

    /** A fresh record for a picked word, at time `now`. */
    constructor (word: string, category: string, threadId: string, now: int)
      ensures Valid()
      ensures View() == NewRound(word)
      ensures this.word == word && this.category == category && this.threadId == threadId
      ensures startedAt == now && roundStart == now && Handles() == {}
    {
      this.word := word;
      this.category := category;
      this.threadId := threadId;
      startedAt := now;
      masked := [];
      wrong := [];
      contributors := [];
      attempted := {};
      roundStart := now;
      roundTimer := None;
      tickTimer := None;
      hintTimers := [];
    }

    /** `collectGuessed`: the revealed letters that occur in the word, then every wrong guess. */
    method CollectGuessed() returns (guessed: set<string>)
      ensures guessed == Guessed(View())
    {
      guessed := {};
      for i := 0 to |word|
        invariant guessed == set c | c in word[..i] && c in masked :: [c]
      {
        if word[i] in masked {
          guessed := guessed + {[word[i]]};
        }
        assert word[..i + 1] == word[..i] + [word[i]];
      }
      assert word[..|word|] == word;
      ghost var letters := guessed;
      for i := 0 to |wrong|
        invariant guessed == letters + set w | w in wrong[..i]
      {
        guessed := guessed + {wrong[i]};
        assert wrong[..i + 1] == wrong[..i] + [wrong[i]];
      }
      assert wrong[..|wrong|] == wrong;
    }

    /** The state changes of `handleGuess` for a non-empty guess, and how it ended. */
    method ApplyGuess(input: string, user: UserId) returns (outcome: GuessOutcome)
      requires Valid() && |input| > 0
      modifies this
      ensures Valid()
      ensures (View(), outcome) == Guess(old(View()), input, user)
      ensures roundStart == old(roundStart) && roundTimer == old(roundTimer)
      ensures tickTimer == old(tickTimer) && hintTimers == old(hintTimers)
    {
      ghost var before := View();
      GuessKeepsInv(before, input, user);
      attempted := attempted + {user};
      if |input| > 1 {
        if Normalize(word) == Normalize(input) {
          contributors := AddUser(contributors, user);
          masked := AllLetters(word);
          return Solved;
        }
        if input !in wrong {
          wrong := wrong + [input];
        }
        return WordMiss;
      }
      var letter := input[0];
      if !IsGuessLetter(letter) {
        return NotALetter;
      }
      var guessed := CollectGuessed();
      if [letter] in guessed {
        return Repeated;
      }
      if letter in word {
        contributors := AddUser(contributors, user);
        masked := masked + [letter];
        if BULLET !in RenderMasked(word, MaskedSet(masked)) {
          outcome := Solved;
        } else {
          outcome := LetterHit;
        }
      } else {
        wrong := wrong + [[letter]];
        outcome := LetterMiss;
      }
    }

    /** The hint callback after its staleness check: draws a letter and reveals it. */
    method ApplyHint(roll: nat) returns (letter: Option<char>)
      requires Valid()
      modifies this
      ensures Valid()
      ensures (View(), letter) == HintStep(old(View()), roll)
      ensures roundStart == old(roundStart) && roundTimer == old(roundTimer)
      ensures tickTimer == old(tickTimer) && hintTimers == old(hintTimers)
    {
      HintKeepsInv(View(), roll);
      var guessed := CollectGuessed();
      letter := RevealHint(word, guessed, roll);
      if letter.None? {
        return;
      }
      if letter.value in word && letter.value !in masked {
        masked := masked + [letter.value];
      }
    }

    /** The variable parts of `buildBoardEmbed` at time `now`. */
    method BoardAt(now: int) returns (b: Board)
      ensures b.stage < |HANGMAN_PICS| && b.stage == StageIndex(|wrong|)
      ensures b.shown == RenderMasked(word, Guessed(View()))
      ensures Valid() ==> b.shown == RenderMasked(word, MaskedSet(masked))
      ensures b.wrong == wrong && b.category == category
      ensures b.secondsLeft == SecsLeft(now, roundStart)
    {
      var guessed := CollectGuessed();
      if Valid() {
        RenderIgnoresWrong(View());
      }
      b := Board(StageIndex(|wrong|), RenderMasked(word, guessed), wrong, category, SecsLeft(now, roundStart));
    }
  }

  /** `clearTimeout` on each listed handle: every listed timer leaves the pending ones. */
  method CancelAll(pending: map<Handle, Timer>, hints: seq<Handle>) returns (rest: map<Handle, Timer>)
    ensures rest == pending - set h | h in hints
  {
    rest := pending;
    for i := 0 to |hints|
      invariant rest == pending - set j | 0 <= j < i :: hints[j]
    {
      rest := rest - {hints[i]};
    }
    assert (set j | 0 <= j < |hints| :: hints[j]) == set h | h in hints;
  }

  /** The bot: the play channel's game and session, and the timers pending in the event loop. */
  class Bot {
    var game: GameState?
    var session: Option<Session>
    var timers: map<Handle, Timer>
    var nextHandle: nat

    /** The game records the pending timers captured. */
    ghost function Targets(): set<GameState>
      reads this
    {
      set h | h in timers :: timers[h].target
    }

    /**
     * The game holds a reachable round; the session keeps its invariant; each pending timer has a
     * handle below the next one and is recorded on the game record it captured.
     */
    ghost predicate Valid()
      reads this, game, Targets()
    {
      && (game != null ==> game.Valid())
      && (session.Some? ==> SessionInv(session.value))
      && (forall h :: h in timers ==> h < nextHandle)
      && (forall h :: h in timers ==> timers[h].target.Holds(h))
    }

    constructor ()
      ensures Valid() && game == null && session.None? && timers == map[]
    {
      game := null;
      session := None;
      timers := map[];
      nextHandle := 0;
    }

    /** `setTimeout` or `setInterval`: a new pending timer under a fresh handle. */
    method Arm(kind: TimerKind, delayMs: int, target: GameState) returns (h: Handle)
      requires forall h :: h in timers ==> h < nextHandle
      modifies this
      ensures h !in old(timers) && h == old(nextHandle) && nextHandle == h + 1
      ensures timers == old(timers)[h := Timer(kind, delayMs, target)]
      ensures game == old(game) && session == old(session)
    {
      h := nextHandle;
      nextHandle := nextHandle + 1;
      timers := timers[h := Timer(kind, delayMs, target)];
    }

    /** `clearRoundTimers`: cancels every timer the record holds and forgets their handles; nothing on `null`. */
    method ClearRoundTimers(g: GameState?)
      requires Valid()
      modifies this, g
      ensures Valid()
      ensures game == old(game) && session == old(session) && nextHandle == old(nextHandle)
      ensures g == null ==> timers == old(timers)
      ensures g != null ==>
        && g.roundTimer.None? && g.tickTimer.None? && g.hintTimers == []
        && g.View() == old(g.View()) && g.roundStart == old(g.roundStart)
        && timers == old(timers) - old(g.Handles())
        && (forall h :: h in timers ==> timers[h].target != g)
    {
      if g == null {
        return;
      }
      ghost var held := g.Handles();
      var cancelled: seq<Handle> := [];
      if g.roundTimer.Some? {
        cancelled := cancelled + [g.roundTimer.value];
      }
      if g.tickTimer.Some? {
        cancelled := cancelled + [g.tickTimer.value];
      }
      if |g.hintTimers| > 0 {
        cancelled := cancelled + g.hintTimers;
      }
      assert (set h | h in cancelled) == held;
      CancelTimers(g, cancelled);
      g.roundTimer, g.tickTimer, g.hintTimers := None, None, [];
    }

    /** Cancels the listed timers, which are every timer `g` holds. */
    method CancelTimers(g: GameState, cancelled: seq<Handle>)
      requires Valid() && (set h | h in cancelled) == g.Handles()
      modifies this
      ensures Valid()
      ensures game == old(game) && session == old(session) && nextHandle == old(nextHandle)
      ensures timers == old(timers) - g.Handles()
      ensures forall h :: h in timers ==> timers[h].target != g
    {
      forall h | h in timers && timers[h].target == g ensures h in g.Handles() {
        assert g.Holds(h);
      }
      timers := CancelAll(timers, cancelled);
    }

    /**
     * `startRoundTimers`: restarts the clock, cancels what the record held and arms, under the
     * next five handles, the round timeout, the board tick and the hints at 60, 40 and 20 seconds.
     */
    method StartRoundTimers(g: GameState, now: int)
      requires Valid()
      modifies this, g
      ensures Valid()
      ensures game == old(game) && session == old(session)
      ensures g.View() == old(g.View()) && g.roundStart == now
      ensures var n := old(nextHandle);
        && nextHandle == n + 5
        && g.roundTimer == Some(n) && g.tickTimer == Some(n + 1) && g.hintTimers == [n + 2, n + 3, n + 4]
        && timers == (old(timers) - old(g.Handles()))
          [n := Timer(RoundTimeout, 120000, g)]
          [n + 1 := Timer(Tick, 15000, g)]
          [n + 2 := Timer(HintAt(60), 60000, g)]
          [n + 3 := Timer(HintAt(40), 80000, g)]
          [n + 4 := Timer(HintAt(20), 100000, g)]
    {
      ClearRoundTimers(g);
      g.roundStart := now;
      ArmRound(g);
    }

    /** Arms the five timers of a round on a record that holds none. */
    method ArmRound(g: GameState)
      requires Valid() && g.roundTimer.None? && g.tickTimer.None? && g.hintTimers == []
      modifies this, g
      ensures Valid()
      ensures game == old(game) && session == old(session)
      ensures g.View() == old(g.View()) && g.roundStart == old(g.roundStart)
      ensures var n := old(nextHandle);
        && nextHandle == n + 5
        && g.roundTimer == Some(n) && g.tickTimer == Some(n + 1) && g.hintTimers == [n + 2, n + 3, n + 4]
        && timers == old(timers)
          [n := Timer(RoundTimeout, 120000, g)]
          [n + 1 := Timer(Tick, 15000, g)]
          [n + 2 := Timer(HintAt(60), 60000, g)]
          [n + 3 := Timer(HintAt(40), 80000, g)]
          [n + 4 := Timer(HintAt(20), 100000, g)]
    {
      var r := ArmFor(g, RoundTimeout, ROUND_TIME_MS);
      var t := ArmFor(g, Tick, TICK_MS);
      var h0 := ArmFor(g, HintAt(HINT_MILESTONES[0]), HintDelay(HINT_MILESTONES[0]));
      var h1 := ArmFor(g, HintAt(HINT_MILESTONES[1]), HintDelay(HINT_MILESTONES[1]));
      var h2 := ArmFor(g, HintAt(HINT_MILESTONES[2]), HintDelay(HINT_MILESTONES[2]));
    }

    /** Arms one timer of `g` and records its handle on `g`, in the slot its kind uses. */
    method ArmFor(g: GameState, kind: TimerKind, delayMs: int) returns (h: Handle)
      requires Valid()
      requires kind == RoundTimeout ==> g.roundTimer.None?
      requires kind == Tick ==> g.tickTimer.None?
      modifies this, g
      ensures Valid()
      ensures game == old(game) && session == old(session)
      ensures g.View() == old(g.View()) && g.roundStart == old(g.roundStart)
      ensures h == old(nextHandle) && nextHandle == h + 1
      ensures timers == old(timers)[h := Timer(kind, delayMs, g)]
      ensures kind == RoundTimeout ==> g.roundTimer == Some(h) && g.tickTimer == old(g.tickTimer) && g.hintTimers == old(g.hintTimers)
      ensures kind == Tick ==> g.tickTimer == Some(h) && g.roundTimer == old(g.roundTimer) && g.hintTimers == old(g.hintTimers)
      ensures kind.HintAt? ==> g.hintTimers == old(g.hintTimers) + [h] && g.roundTimer == old(g.roundTimer) && g.tickTimer == old(g.tickTimer)
    {
      h := Arm(kind, delayMs, g);
      match kind
      case RoundTimeout => g.roundTimer := Some(h);
      case Tick => g.tickTimer := Some(h);
      case HintAt(_) => g.hintTimers := g.hintTimers + [h];
    }

    /**
     * The delayed start of a round: pick a word from the catalogue; on success the new record
     * becomes the game, whatever was there, and its timers start. A failed pick changes nothing.
     */
    method BeginRound(category: string, catalog: Store, rollCategory: nat, rollWord: nat, now: int, threadId: string)
      returns (r: Result<Picked, CatalogError>)
      requires Valid()
      modifies this
      ensures Valid()
      ensures r == Pick(catalog, category, rollCategory, rollWord)
      ensures r.Failure? ==> game == old(game) && timers == old(timers) && nextHandle == old(nextHandle)
      ensures session == old(session)
      ensures r.Success? ==>
        && game != null && fresh(game)
        && game.word == r.value.word && game.category == r.value.category
        && game.View() == NewRound(r.value.word) && game.roundStart == now
      ensures r.Success? ==> var n := old(nextHandle);
        && nextHandle == n + 5
        && game.roundTimer == Some(n) && game.tickTimer == Some(n + 1) && game.hintTimers == [n + 2, n + 3, n + 4]
        && timers == old(timers)
          [n := Timer(RoundTimeout, 120000, game)]
          [n + 1 := Timer(Tick, 15000, game)]
          [n + 2 := Timer(HintAt(60), 60000, game)]
          [n + 3 := Timer(HintAt(40), 80000, game)]
          [n + 4 := Timer(HintAt(20), 100000, game)]
    {
      r := Pick(catalog, category, rollCategory, rollWord);
      if r.Failure? {
        return;
      }
      Launch(r.value, threadId, now);
    }

    /** A fresh record of the picked word becomes the game, and its timers start. */
    method Launch(picked: Picked, threadId: string, now: int)
      requires Valid()
      modifies this
      ensures Valid()
      ensures session == old(session)
      ensures game != null && fresh(game)
      ensures game.word == picked.word && game.category == picked.category
      ensures game.View() == NewRound(picked.word) && game.roundStart == now
      ensures var n := old(nextHandle);
        && nextHandle == n + 5
        && game.roundTimer == Some(n) && game.tickTimer == Some(n + 1) && game.hintTimers == [n + 2, n + 3, n + 4]
        && timers == old(timers)
          [n := Timer(RoundTimeout, 120000, game)]
          [n + 1 := Timer(Tick, 15000, game)]
          [n + 2 := Timer(HintAt(60), 60000, game)]
          [n + 3 := Timer(HintAt(40), 80000, game)]
          [n + 4 := Timer(HintAt(20), 100000, game)]
    {
      var g := new GameState(picked.word, picked.category, threadId, now);
      game := g;
      assert timers - g.Handles() == timers;
      StartRoundTimers(g, now);
    }

    /** The `start` command: refused outside the play channel and while a game exists; otherwise records the session. */
    method StartGame(channelId: string, option: Option<string>) returns (r: Result<string, CommandError>)
      requires Valid()
      modifies this
      ensures Valid()
      ensures game == old(game) && timers == old(timers) && nextHandle == old(nextHandle)
      ensures channelId != PLAY_CHANNEL_ID ==> r == Failure(WrongChannel) && session == old(session)
      ensures channelId == PLAY_CHANNEL_ID && old(game) != null ==> r == Failure(AlreadyActive) && session == old(session)
      ensures channelId == PLAY_CHANNEL_ID && old(game) == null ==>
        r == Success(RequestedCategory(option)) && session == Some(StartSession(r.value))
    {
      if channelId != PLAY_CHANNEL_ID {
        return Failure(WrongChannel);
      }
      if game != null {
        return Failure(AlreadyActive);
      }
      var requested := RequestedCategory(option);
      session := Some(StartSession(requested));
      r := Success(requested);
    }

    /** The `stop` command: refused outside the play channel and without a game; otherwise ends everything. */
    method StopGame(channelId: string) returns (r: Outcome<CommandError>)
      requires Valid()
      modifies this, game
      ensures Valid()
      ensures channelId != PLAY_CHANNEL_ID ==>
        r == Fail(WrongChannel) && unchanged(this) && (old(game) != null ==> unchanged(old(game)))
      ensures channelId == PLAY_CHANNEL_ID && old(game) == null ==> r == Fail(NoActiveGame) && unchanged(this)
      ensures channelId == PLAY_CHANNEL_ID && old(game) != null ==>
        && r == Pass && game == null && session.None? && nextHandle == old(nextHandle)
        && old(game).roundTimer.None? && old(game).tickTimer.None? && old(game).hintTimers == []
        && old(game).View() == old(game.View()) && old(game).roundStart == old(game.roundStart)
        && timers == old(timers) - old(game.Handles())
        && (forall h :: h in timers ==> timers[h].target != old(game))
    {
      if channelId != PLAY_CHANNEL_ID {
        return Fail(WrongChannel);
      }
      var state := game;
      if state == null {
        return Fail(NoActiveGame);
      }
      ClearRoundTimers(state);
      game := null;
      session := None;
      r := Pass;
    }

    /** `endRoundAndQueueNext`: cancels the round's timers and removes the game; the session stays. */
    method EndRoundAndQueueNext(g: GameState)
      requires Valid()
      modifies this, g
      ensures Valid()
      ensures game == null && session == old(session) && nextHandle == old(nextHandle)
      ensures g.View() == old(g.View())
      ensures timers == old(timers) - old(g.Handles())
      ensures forall h :: h in timers ==> timers[h].target != g
    {
      ClearRoundTimers(g);
      game := null;
    }

    /** The queued next round: begins a round in the category the session names. */
    method BeginNextRound(catalog: Store, rollCategory: nat, rollWord: nat, now: int, threadId: string)
      returns (r: Result<Picked, CatalogError>)
      requires Valid()
      modifies this
      ensures Valid()
      ensures r == Pick(catalog, NextRoundCategory(old(session)), rollCategory, rollWord)
      ensures r.Failure? ==> game == old(game) && timers == old(timers) && nextHandle == old(nextHandle)
      ensures session == old(session)
      ensures r.Success? ==>
        && game != null && fresh(game)
        && game.word == r.value.word && game.category == r.value.category
        && game.View() == NewRound(r.value.word) && game.roundStart == now
      ensures r.Success? ==> var n := old(nextHandle);
        && nextHandle == n + 5
        && game.roundTimer == Some(n) && game.tickTimer == Some(n + 1) && game.hintTimers == [n + 2, n + 3, n + 4]
        && timers == old(timers)
          [n := Timer(RoundTimeout, 120000, game)]
          [n + 1 := Timer(Tick, 15000, game)]
          [n + 2 := Timer(HintAt(60), 60000, game)]
          [n + 3 := Timer(HintAt(40), 80000, game)]
          [n + 4 := Timer(HintAt(20), 100000, game)]
    {
      r := BeginRound(NextRoundCategory(session), catalog, rollCategory, rollWord, now, threadId);
    }

    /** `decideNextCategoryAndAnnounce`, the category list read from the catalogue. */
    method DecideNextCategoryAndAnnounce(catalog: Store, roll: nat) returns (note: Announcement)
      requires Valid()
      modifies this
      ensures Valid()
      ensures (session, note) == DecideNext(old(session), GetCategories(catalog), roll)
      ensures game == old(game) && timers == old(timers) && nextHandle == old(nextHandle)
    {
      if session.Some? {
        DecideKeepsInv(session.value, GetCategories(catalog), roll);
      }
      var res := DecideNext(session, GetCategories(catalog), roll);
      session := res.0;
      note := res.1;
    }

    /** `handleGuess` on the current game; a win decides the next category and ends the round. */
    method HandleGuess(g: GameState, input: string, user: UserId, catalog: Store, roll: nat) returns (outcome: GuessOutcome)
      requires Valid() && g == game && |input| > 0
      modifies this, g
      ensures Valid()
      ensures (g.View(), outcome) == Guess(old(g.View()), input, user)
      ensures outcome != Solved ==> game == g && session == old(session) && timers == old(timers)
      ensures outcome != Solved ==> g.roundStart == old(g.roundStart) && g.roundTimer == old(g.roundTimer)
      ensures outcome != Solved ==> g.tickTimer == old(g.tickTimer) && g.hintTimers == old(g.hintTimers)
      ensures nextHandle == old(nextHandle)
      ensures outcome == Solved ==>
        && game == null
        && session == DecideNext(old(session), GetCategories(catalog), roll).0
        && timers == old(timers) - old(g.Handles())
    {
      outcome := g.ApplyGuess(input, user);
      if outcome == Solved {
        var _ := FinishRound(g, catalog, roll);
      }
    }

    /**
     * The message handler: bots are ignored, and so is every channel but the game's thread;
     * there the message, lower-cased and trimmed, is a guess when it passes the filter.
     */
    method OnMessage(fromBot: bool, channelId: string, content: string, user: UserId, catalog: Store, roll: nat)
      returns (outcome: Option<GuessOutcome>)
      requires Valid()
      modifies this, game
      ensures Valid()
      ensures outcome.Some? <==>
        !fromBot && old(game) != null && channelId == old(game).threadId && LooksLikeGuess(Trim(ToLower(content)))
      ensures outcome.Some? ==> outcome == Some(Guess(old(game.View()), Trim(ToLower(content)), user).1)
      ensures outcome.None? ==> game == old(game) && session == old(session) && timers == old(timers)
      ensures outcome.None? && game != null ==> game.View() == old(game.View())
      ensures outcome.None? && old(game) != null ==> unchanged(old(game))
      ensures outcome.Some? && outcome.value != Solved ==>
        && old(game).roundStart == old(game.roundStart) && old(game).roundTimer == old(game.roundTimer)
        && old(game).tickTimer == old(game.tickTimer) && old(game).hintTimers == old(game.hintTimers)
      ensures nextHandle == old(nextHandle)
      ensures outcome.Some? ==> old(game).View() == Guess(old(game.View()), Trim(ToLower(content)), user).0
      ensures outcome.Some? && outcome.value != Solved ==>
        game == old(game) && session == old(session) && timers == old(timers)
      ensures outcome == Some(Solved) ==>
        && game == null
        && session == DecideNext(old(session), GetCategories(catalog), roll).0
        && timers == old(timers) - old(game.Handles())
    {
      if fromBot {
        return None;
      }
      var state := game;
      if channelId != PLAY_CHANNEL_ID && (state == null || channelId != state.threadId) {
        return None;
      }
      if state != null && channelId == state.threadId {
        var input := Trim(ToLower(content));
        if input == [] {
          return None;
        }
        if LooksLikeGuess(input) {
          var o := HandleGuess(state, input, user, catalog, roll);
          return Some(o);
        }
      }
      return None;
    }

    /**
     * The round timeout firing. A timer that is no longer pending does nothing; one whose record
     * is no longer the game only leaves the event loop; otherwise the next category is decided
     * and the round ends. Returns the note the timeout message carries.
     */
    method OnTimeout(h: Handle, catalog: Store, roll: nat) returns (note: Option<Announcement>)
      requires Valid()
      modifies this, game
      ensures Valid()
      ensures note.Some? <==>
        h in old(timers) && old(timers)[h].kind == RoundTimeout && old(game) == old(timers)[h].target
      ensures note.None? ==> game == old(game) && session == old(session)
      ensures note.None? && game != null ==> game.View() == old(game.View())
      ensures note.None? && old(game) != null ==> unchanged(old(game))
      ensures note.Some? ==>
        && game == null
        && (session, note.value) == DecideNext(old(session), GetCategories(catalog), roll)
        && (forall k :: k in timers ==> timers[k].target != old(game))
        && timers == (old(timers) - {h}) - old(game.Handles())
      ensures nextHandle == old(nextHandle)
      ensures !(h in old(timers) && old(timers)[h].kind == RoundTimeout) ==> timers == old(timers)
      ensures h in old(timers) && old(timers)[h].kind == RoundTimeout && note.None? ==> timers == old(timers) - {h}
    {
      if h !in timers || timers[h].kind != RoundTimeout {
        return None;
      }
      var state := timers[h].target;
      Disarm(h);
      var current := game;
      if current == null || current != state {
        return None;
      }
      var n := FinishRound(state, catalog, roll);
      note := Some(n);
    }

    /** A fired `setTimeout` leaves the event loop. */
    method Disarm(h: Handle)
      requires Valid() && h in timers
      modifies this
      ensures Valid()
      ensures timers == old(timers) - {h}
      ensures game == old(game) && session == old(session) && nextHandle == old(nextHandle)
    {
      timers := timers - {h};
    }

    /** The end of a won or timed-out round: the next category is decided, then the round ends. */
    method FinishRound(g: GameState, catalog: Store, roll: nat) returns (note: Announcement)
      requires Valid() && g == game
      modifies this, g
      ensures Valid()
      ensures game == null && nextHandle == old(nextHandle)
      ensures (session, note) == DecideNext(old(session), GetCategories(catalog), roll)
      ensures g.View() == old(g.View())
      ensures timers == old(timers) - old(g.Handles())
      ensures forall k :: k in timers ==> timers[k].target != g
    {
      note := DecideNextCategoryAndAnnounce(catalog, roll);
      EndRoundAndQueueNext(g);
    }

    /**
     * A hint timer firing. It leaves the event loop; if its record is still the game, a hint
     * letter is drawn and revealed. Returns the letter announced.
     */
    method OnHint(h: Handle, roll: nat) returns (letter: Option<char>)
      requires Valid()
      modifies this, game
      ensures Valid()
      ensures game == old(game) && session == old(session)
      ensures old(game) != null && h in old(timers) && old(timers)[h].kind.HintAt? && old(timers)[h].target == old(game) ==>
        (game.View(), letter) == HintStep(old(game.View()), roll)
      ensures !(old(game) != null && h in old(timers) && old(timers)[h].kind.HintAt? && old(timers)[h].target == old(game)) ==>
        letter.None? && (game != null ==> game.View() == old(game.View()))
      ensures nextHandle == old(nextHandle)
      ensures game != null ==> game.roundStart == old(game.roundStart) && game.roundTimer == old(game.roundTimer)
      ensures game != null ==> game.tickTimer == old(game.tickTimer) && game.hintTimers == old(game.hintTimers)
      ensures h in old(timers) && old(timers)[h].kind.HintAt? ==> timers == old(timers) - {h}
      ensures !(h in old(timers) && old(timers)[h].kind.HintAt?) ==> timers == old(timers)
    {
      if h !in timers || !timers[h].kind.HintAt? {
        return None;
      }
      var state := timers[h].target;
      Disarm(h);
      var current := game;
      if current == null || current != state {
        return None;
      }
      letter := HintGame(state, roll);
    }

    /** The hint step on the current game: the round advances by `HintStep`, and nothing else changes. */
    method HintGame(g: GameState, roll: nat) returns (letter: Option<char>)
      requires Valid() && g == game
      modifies g
      ensures Valid()
      ensures (g.View(), letter) == HintStep(old(g.View()), roll)
      ensures g.roundStart == old(g.roundStart) && g.roundTimer == old(g.roundTimer)
      ensures g.tickTimer == old(g.tickTimer) && g.hintTimers == old(g.hintTimers)
    {
      letter := g.ApplyHint(roll);
    }

    /** The board tick: the interval stays pending and refreshes the board of the record it captured. */
    method OnTick(h: Handle, now: int) returns (b: Option<Board>)
      requires Valid()
      ensures b.Some? <==> h in timers && timers[h].kind == Tick
      ensures b.Some? ==> var g := timers[h].target;
        b.value.shown == RenderMasked(g.word, Guessed(g.View())) && b.value.secondsLeft == SecsLeft(now, g.roundStart)
        && b.value.stage == StageIndex(|g.wrong|)
        && b.value.wrong == g.wrong && b.value.category == g.category
    {
      if h !in timers || timers[h].kind != Tick {
        return None;
      }
      var board := timers[h].target.BoardAt(now);
      b := Some(board);
    }
  }
}
