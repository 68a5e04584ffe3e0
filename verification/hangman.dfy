/**
 * One round of the game as a value: the board rendering, the guessed-set helper, the timer
 * arithmetic, the automatic hint, and the guess evaluator of `handleGuess`. The mutable game
 * record applies these step functions to its own fields.
 */
module Hangman {
  import opened Wrappers
  import opened Text
  import opened Seqs

  type UserId = string

  const ROUND_TIME_MS: int := 120000
  const TICK_MS: int := 15000
  /** Seconds left at which an automatic hint is given. */
  const HINT_MILESTONES: seq<int> := [60, 40, 20]

  /** The seven gallows drawings, from the empty gallows to the full figure. */
  const HANGMAN_PICS: seq<string> := [
    "```\n +---+\n |   |\n     |\n     |\n     |\n     |\n========\n```",
    "```\n +---+\n |   |\n O   |\n     |\n     |\n     |\n========\n```",
    "```\n +---+\n |   |\n O   |\n |   |\n     |\n     |\n========\n```",
    "```\n +---+\n |   |\n O   |\n/|   |\n     |\n     |\n========\n```",
    "```\n +---+\n |   |\n O   |\n/|\\  |\n     |\n     |\n========\n```",
    "```\n +---+\n |   |\n O   |\n/|\\  |\n/    |\n     |\n========\n```",
    "```\n +---+\n |   |\n O   |\n/|\\  |\n/ \\  |\n     |\n========\n```"
  ]

  /** The placeholder of a hidden letter. */
  const BULLET: char := '\U{2022}'
  /** What the board shows for a missing word. */
  const EMPTY_WORD: string := "\U{2014}"

  // ----- rendering -----

  /** How one character of the word is shown: a blank for `-` and space, the letter once guessed, a bullet otherwise. */
  function MaskChar(c: char, guessed: set<string>): char
  {
    if c == '-' || c == ' ' then ' ' else if [c] in guessed then c else BULLET
  }

  /** The shown characters of a non-empty word, separated by single spaces. */
  function Cells(word: string, guessed: set<string>): (r: string)
    requires word != []
    ensures |r| == 2 * |word| - 1
    ensures forall i :: 0 <= i < |word| ==> r[2 * i] == MaskChar(word[i], guessed)
    ensures forall i :: 0 <= i < |word| - 1 ==> r[2 * i + 1] == ' '
  {
    if |word| == 1 then [MaskChar(word[0], guessed)]
    else
      var rest := Cells(word[1..], guessed);
      var r := [MaskChar(word[0], guessed), ' '] + rest;
      assert forall i :: 1 <= i < |word| ==> r[2 * i] == MaskChar(word[i], guessed) by {
        forall i | 1 <= i < |word| ensures r[2 * i] == MaskChar(word[i], guessed) {
          assert word[1..][i - 1] == word[i];
          assert r[2 * i] == rest[2 * (i - 1)];
        }
      }
      assert forall i :: 1 <= i < |word| - 1 ==> r[2 * i + 1] == ' ' by {
        forall i | 1 <= i < |word| - 1 ensures r[2 * i + 1] == ' ' {
          assert r[2 * i + 1] == rest[2 * (i - 1) + 1];
        }
      }
      r
  }

  /** `renderMasked`: the word as the board shows it. */
  function RenderMasked(word: string, guessed: set<string>): (r: string)
    ensures word == [] ==> r == EMPTY_WORD
    ensures word != [] ==> |r| == 2 * |word| - 1
    ensures forall i :: 0 <= i < |word| ==> r[2 * i] == MaskChar(word[i], guessed)
    ensures forall i :: 0 <= i < |word| - 1 ==> r[2 * i + 1] == ' '
  {
    if word == [] then EMPTY_WORD else Cells(word, guessed)
  }

  /** `new Set(masked)`, as the set of one-letter strings the renderer looks letters up in. */
  function MaskedSet(masked: seq<char>): set<string>
  {
    set c | c in masked :: [c]
  }

  /** A bullet is shown exactly when some character of the word shows as one. */
  lemma {:induction false} BulletShown(word: string, guessed: set<string>)
    ensures BULLET in RenderMasked(word, guessed) <==>
      exists i :: 0 <= i < |word| && MaskChar(word[i], guessed) == BULLET
  {
    if word != [] {
      var r := Cells(word, guessed);
      if BULLET in r {
        var k :| 0 <= k < |r| && r[k] == BULLET;
        assert r[2 * (k / 2)] == MaskChar(word[k / 2], guessed);
      }
      if exists i :: 0 <= i < |word| && MaskChar(word[i], guessed) == BULLET {
        var i :| 0 <= i < |word| && MaskChar(word[i], guessed) == BULLET;
        assert r[2 * i] == BULLET;
      }
    }
  }

  /**
   * The win check is exact: the board shows no bullet iff every character of the word other
   * than `-` and space has been revealed (and is not itself a bullet character).
   */
  lemma WinCheckExact(word: string, masked: seq<char>)
    ensures BULLET !in RenderMasked(word, MaskedSet(masked)) <==>
      forall i :: 0 <= i < |word| ==> word[i] == '-' || word[i] == ' ' || (word[i] in masked && word[i] != BULLET)
  {
    BulletShown(word, MaskedSet(masked));
    forall i | 0 <= i < |word| && word[i] in masked ensures [word[i]] in MaskedSet(masked) {
    }
    forall i | 0 <= i < |word| && [word[i]] in MaskedSet(masked) ensures word[i] in masked {
      var c :| c in masked && [c] == [word[i]];
      assert c == [c][0];
    }
  }

  // ----- the guessed set -----

  /** `collectGuessed`: the letters of the word already revealed, and every wrong guess. */
  function GuessedSet(word: string, masked: seq<char>, wrong: seq<string>): (g: set<string>)
    ensures forall w :: w in wrong ==> w in g
    ensures forall c :: c in word && c in masked ==> [c] in g
    ensures forall x :: x in g ==> x in wrong || (|x| == 1 && x[0] in word && x[0] in masked)
  {
    (set c | c in word && c in masked :: [c]) + (set w | w in wrong)
  }

  // ----- time -----

  /** `secsLeft`: whole seconds left in the round at time `now`, rounded up, never negative. */
  function SecsLeft(now: int, roundStart: int): (secs: int)
    ensures secs >= 0
    ensures secs == 0 <==> now - roundStart >= ROUND_TIME_MS
    ensures secs > 0 ==> (secs - 1) * 1000 < ROUND_TIME_MS - (now - roundStart) <= secs * 1000
  {
    var remaining := ROUND_TIME_MS - (now - roundStart);
    var left := -((-remaining) / 1000);
    if left < 0 then 0 else left
  }

  /** The clock only runs down: a later time never shows more seconds. */
  lemma SecsLeftMonotone(now: int, later: int, roundStart: int)
    requires now <= later
    ensures SecsLeft(later, roundStart) <= SecsLeft(now, roundStart)
  {
  }

  /** The drawing shown after `wrongCount` misses: one step per miss, up to the full figure. */
  function StageIndex(wrongCount: nat): (i: nat)
    ensures i < |HANGMAN_PICS|
  {
    if wrongCount < |HANGMAN_PICS| - 1 then wrongCount else |HANGMAN_PICS| - 1
  }

  /** Each miss advances the drawing by one until the last one, which then stays. */
  lemma StageAdvances(n: nat)
    ensures StageIndex(n) <= StageIndex(n + 1) <= StageIndex(n) + 1
    ensures StageIndex(n + 1) == StageIndex(n) <==> n >= |HANGMAN_PICS| - 1
  {
  }

  // ----- the winners line -----

  /** What the congratulation message says: who is credited, in order of their first hit, and in which grammatical number. */
  datatype Winners = Credited(names: seq<UserId>, plural: bool) | Uncredited

  /** `buildWinnersMessage` without its wording. */
  function WinnersOf(contributors: seq<UserId>): (w: Winners)
    ensures w.Uncredited? <==> contributors == []
    ensures w.Credited? ==> w.names == contributors && (w.plural <==> |contributors| >= 2)
  {
    if |contributors| == 1 then Credited(contributors, false)
    else if |contributors| >= 2 then Credited(contributors, true)
    else Uncredited
  }

  // ----- the automatic hint -----

  /** The distinct hint letters of the word, in order of first occurrence. */
  function HintLetters(word: string): (letters: seq<char>)
    ensures NoDup(letters)
    ensures forall c :: c in letters <==> c in word && IsHintLetter(c)
  {
    Dedup(Filter(IsHintLetter, word))
  }

  /**
   * `revealHint`: a distinct hint letter of the word not yet guessed, chosen by the roll among
   * the candidates; none when every hint letter has been guessed.
   */
  function RevealHint(word: string, guessed: set<string>, roll: nat): (r: Option<char>)
    ensures r.None? <==> forall c :: c in word && IsHintLetter(c) ==> [c] in guessed
    ensures r.Some? ==> r.value in word && IsHintLetter(r.value) && [r.value] !in guessed
  {
    var hidden := Filter((l: char) => [l] !in guessed, HintLetters(word));
    if |hidden| == 0 then None
    else
      assert hidden[roll % |hidden|] in hidden;
      Some(hidden[roll % |hidden|])
  }

  /** Every hint letter not yet guessed is the hint for some roll. */
  lemma HintReachesEveryHidden(word: string, guessed: set<string>, c: char)
    requires c in word && IsHintLetter(c) && [c] !in guessed
    ensures exists roll: nat :: RevealHint(word, guessed, roll) == Some(c)
  {
    var hidden := Filter((l: char) => [l] !in guessed, HintLetters(word));
    assert c in hidden;
    var k :| 0 <= k < |hidden| && hidden[k] == c;
    ModSmall(k, |hidden|);
    assert RevealHint(word, guessed, k) == Some(c);
  }

  // ----- the round -----

  /** The parts of the game record a guess or a hint can change, with the word. */
  datatype Round = Round(
    word: string,
    masked: seq<char>,          // the revealed letters, in order of revelation
    wrong: seq<string>,         // wrong letters and wrong whole words, in order
    contributors: seq<UserId>,  // users with a hit, in order of their first hit
    attempted: set<UserId>)

  /** A fresh round: nothing revealed, nothing wrong, nobody credited. */
  function NewRound(word: string): (r: Round)
    ensures RoundInv(r)
  {
    Round(word, [], [], [], {})
  }

  /** The guessed set of a round, as its board and the guess filter see it. */
  function Guessed(r: Round): set<string>
  {
    GuessedSet(r.word, r.masked, r.wrong)
  }

  /**
   * What every reachable round satisfies: revealed letters are distinct characters of the word
   * and never white space; wrong entries are distinct, and each is either a whole-word attempt
   * (longer than one character) or a single letter that does not occur in the word; each
   * contributor is credited once.
   */
  ghost predicate RoundInv(r: Round)
  {
    && NoDup(r.masked)
    && (forall i :: 0 <= i < |r.masked| ==> r.masked[i] in r.word && !IsWhitespace(r.masked[i]))
    && NoDup(r.wrong)
    && (forall i :: 0 <= i < |r.wrong| ==> |r.wrong[i]| > 1 || (|r.wrong[i]| == 1 && r.wrong[i][0] !in r.word))
    && NoDup(r.contributors)
  }

  /** Revealed letters and wrong single letters never overlap. */
  lemma MaskedWrongDisjoint(r: Round, c: char)
    requires RoundInv(r)
    ensures !(c in r.masked && [c] in r.wrong)
  {
  }

  /** The board shows the same word whether it looks letters up among all guesses or among the revealed ones only. */
  lemma {:induction false} RenderIgnoresWrong(r: Round)
    requires RoundInv(r)
    ensures RenderMasked(r.word, Guessed(r)) == RenderMasked(r.word, MaskedSet(r.masked))
  {
    forall i | 0 <= i < |r.word| ensures MaskChar(r.word[i], Guessed(r)) == MaskChar(r.word[i], MaskedSet(r.masked)) {
      var c := r.word[i];
      if [c] in MaskedSet(r.masked) {
        var d :| d in r.masked && [d] == [c];
        assert d == [d][0];
      }
    }
    RenderAgrees(r.word, Guessed(r), MaskedSet(r.masked));
  }

  /** The board depends only on how each character of the word is shown. */
  lemma RenderAgrees(word: string, g1: set<string>, g2: set<string>)
    requires forall i :: 0 <= i < |word| ==> MaskChar(word[i], g1) == MaskChar(word[i], g2)
    ensures RenderMasked(word, g1) == RenderMasked(word, g2)
  {
    var a, b := RenderMasked(word, g1), RenderMasked(word, g2);
    if word != [] {
      forall k | 0 <= k < |a| ensures a[k] == b[k] {
        if k % 2 == 0 {
          assert a[2 * (k / 2)] == b[2 * (k / 2)];
        } else {
          assert a[2 * (k / 2) + 1] == b[2 * (k / 2) + 1];
        }
      }
    }
  }

  /** How `handleGuess` ended. */
  datatype GuessOutcome =
    | NotALetter      // a one-character guess outside the letter class
    | Repeated        // a letter already revealed or already wrong
    | LetterHit       // a new letter of the word, the word not yet complete
    | LetterMiss      // a new letter that is not in the word
    | WordMiss        // a whole-word guess that is not the word
    | Solved          // the word is complete: the round is won

  /** `s.add(u)` on an insertion-ordered set. */
  function AddUser(s: seq<UserId>, u: UserId): (r: seq<UserId>)
    ensures forall x :: x in r <==> x in s || x == u
    ensures NoDup(s) ==> NoDup(r)
    ensures |s| <= |r| <= |s| + 1 && r[..|s|] == s
    ensures u in s <==> r == s
  {
    if u in s then s else s + [u]
  }

  /** The distinct non-white-space characters of the word: what a correct whole-word guess reveals. */
  function AllLetters(word: string): (letters: seq<char>)
    ensures NoDup(letters)
    ensures forall c :: c in letters <==> c in word && !IsWhitespace(c)
  {
    Dedup(Filter((c: char) => !IsWhitespace(c), word))
  }

  /**
   * `handleGuess` on the round's state, for a non-empty guess. A guess longer than one character
   * is a whole-word attempt, compared under `normalize`; otherwise its character is a letter guess.
   */
  function Guess(r: Round, input: string, user: UserId): (res: (Round, GuessOutcome))
    requires |input| > 0
    ensures res.0.word == r.word && res.0.attempted == r.attempted + {user}
  {
    var r1 := r.(attempted := r.attempted + {user});
    if |input| > 1 then
      if Normalize(r.word) == Normalize(input) then
        (r1.(contributors := AddUser(r.contributors, user), masked := AllLetters(r.word)), Solved)
      else
        (r1.(wrong := if input in r.wrong then r.wrong else r.wrong + [input]), WordMiss)
    else
      var letter := input[0];
      if !IsGuessLetter(letter) then (r1, NotALetter)
      else if [letter] in Guessed(r) then (r1, Repeated)
      else if letter in r.word then
        var masked := r.masked + [letter];
        var r2 := r1.(contributors := AddUser(r.contributors, user), masked := masked);
        (r2, if BULLET !in RenderMasked(r.word, MaskedSet(masked)) then Solved else LetterHit)
      else
        (r1.(wrong := r.wrong + [[letter]]), LetterMiss)
  }

  /** A letter already revealed or already wrong changes nothing but the set of users who tried. */
  lemma RepeatedLetterNoOp(r: Round, c: char, user: UserId)
    requires IsGuessLetter(c) && ((c in r.masked && c in r.word) || [c] in r.wrong)
    ensures Guess(r, [c], user) == (r.(attempted := r.attempted + {user}), Repeated)
  {
    assert [c] in Guessed(r);
  }

  /** A new letter of the word is revealed exactly once, its author credited, the wrong list untouched. */
  lemma LetterHitAppends(r: Round, c: char, user: UserId)
    requires RoundInv(r) && IsGuessLetter(c) && c in r.word && c !in r.masked
    ensures var (r', o) := Guess(r, [c], user);
      && r'.masked == r.masked + [c]
      && r'.wrong == r.wrong
      && r'.contributors == AddUser(r.contributors, user)
      && user in r'.contributors
      && (o == Solved || o == LetterHit)
  {
  }

  /** A new letter outside the word is recorded once as wrong; the revealed letters are untouched. */
  lemma LetterMissRecords(r: Round, c: char, user: UserId)
    requires IsGuessLetter(c) && c !in r.word && [c] !in r.wrong
    ensures var (r', o) := Guess(r, [c], user);
      r'.wrong == r.wrong + [[c]] && r'.masked == r.masked && r'.contributors == r.contributors && o == LetterMiss
  {
  }

  /** The win check after a letter hit says "won" exactly when the word is complete. */
  lemma LetterWinExact(r: Round, c: char, user: UserId)
    requires RoundInv(r) && IsGuessLetter(c) && c in r.word && c !in r.masked
    ensures var (r', o) := Guess(r, [c], user);
      o == Solved <==> forall i :: 0 <= i < |r.word| ==>
        r.word[i] == '-' || r.word[i] == ' ' || (r.word[i] in r'.masked && r.word[i] != BULLET)
  {
    LetterHitAppends(r, c, user);
    WinCheckExact(r.word, r.masked + [c]);
  }

  /** The word guessed under `normalize` wins the round, credits its author, and reveals every non-white-space character. */
  lemma WordGuessWins(r: Round, input: string, user: UserId)
    requires RoundInv(r) && |input| > 1 && Normalize(input) == Normalize(r.word)
    ensures var (r', o) := Guess(r, input, user);
      && o == Solved
      && r'.contributors == AddUser(r.contributors, user)
      && user in r'.contributors
      && r'.wrong == r.wrong
      && (forall c :: c in r'.masked <==> c in r.word && !IsWhitespace(c))
      && (forall c :: c in r.masked ==> c in r'.masked)
  {
  }

  /** A wrong whole word is appended once to the end of the wrong list, and nothing is revealed. */
  lemma WordMissRecords(r: Round, input: string, user: UserId)
    requires |input| > 1 && Normalize(input) != Normalize(r.word)
    ensures var (r', o) := Guess(r, input, user);
      && o == WordMiss && r'.masked == r.masked && r'.contributors == r.contributors
      && (forall w :: w in r'.wrong <==> w in r.wrong || w == input)
      && (input in r.wrong ==> r'.wrong == r.wrong)
      && (input !in r.wrong ==> r'.wrong == r.wrong + [input])
  {
  }

  /** Every guess keeps the round invariant, and revealed letters are never taken back. */
  lemma {:induction false} GuessKeepsInv(r: Round, input: string, user: UserId)
    requires RoundInv(r) && |input| > 0
    ensures RoundInv(Guess(r, input, user).0)
    ensures forall c :: c in r.masked ==> c in Guess(r, input, user).0.masked
    ensures forall u :: u in r.contributors ==> u in Guess(r, input, user).0.contributors
  {
    var r' := Guess(r, input, user).0;
    if |input| > 1 {
      if input !in r.wrong && Normalize(r.word) != Normalize(input) {
        assert r'.wrong == r.wrong + [input];
      }
    } else {
      var c := input[0];
      if IsGuessLetter(c) && [c] !in Guessed(r) {
        LetterClasses(c);
        if c in r.word {
          assert c !in r.masked;
        } else {
          assert [c] !in r.wrong;
          assert r'.wrong == r.wrong + [[c]];
          assert r'.wrong[|r.wrong|][0] == c;
        }
      }
    }
  }

  // ----- the hint step -----

  /**
   * The hint callback after its staleness check: draw a hint letter among the unguessed ones
   * and reveal it unless it is somehow already revealed; report the letter drawn.
   */
  function HintStep(r: Round, roll: nat): (res: (Round, Option<char>))
    ensures res.1 == RevealHint(r.word, Guessed(r), roll)
    ensures res.0 == r || (res.1.Some? && res.1.value !in r.masked && res.0 == r.(masked := r.masked + [res.1.value]))
  {
    var letter := RevealHint(r.word, Guessed(r), roll);
    if letter.None? then (r, None)
    else if letter.value in r.word && letter.value !in r.masked then
      (r.(masked := r.masked + [letter.value]), letter)
    else (r, letter)
  }

  /** On a reachable round a drawn hint is always revealed: the guard before the push never fails. */
  lemma HintAlwaysReveals(r: Round, roll: nat)
    requires RevealHint(r.word, Guessed(r), roll).Some?
    ensures var c := RevealHint(r.word, Guessed(r), roll).value;
      HintStep(r, roll).0 == r.(masked := r.masked + [c])
  {
  }

  /** A hint keeps the round invariant. */
  lemma HintKeepsInv(r: Round, roll: nat)
    requires RoundInv(r)
    ensures RoundInv(HintStep(r, roll).0)
  {
    var letter := RevealHint(r.word, Guessed(r), roll);
    if letter.Some? {
      LetterClasses(letter.value);
    }
  }
}
