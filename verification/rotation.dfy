/**
 * The channel session and its category rotation: a session started on a fixed category keeps
 * it for three rounds and then moves to another category; a random session never rotates.
 */
module Rotation {
  import opened Wrappers
  import opened Seqs

  datatype Mode = Fixed | RandomMode

  /** The session record the bot keeps for the play channel. */
  datatype Session = Session(mode: Mode, currentCategory: string, gamesInCategory: int, rotateAfter: int)

  /** Rounds played in one category before it rotates. */
  const ROTATE_AFTER: int := 3

  /** The session `startGame` records for the requested category (already lower-cased). */
  function StartSession(requested: string): (s: Session)
    ensures SessionInv(s)
    ensures s.gamesInCategory == 0 && s.rotateAfter == 3
    ensures s.mode == RandomMode <==> requested == "random"
    ensures s.mode == Fixed ==> s.currentCategory == requested
  {
    if requested == "random" then Session(RandomMode, "", 0, ROTATE_AFTER)
    else Session(Fixed, requested, 0, ROTATE_AFTER)
  }

  /** Every session the bot can hold: the round count stays below the rotation threshold of three. */
  predicate SessionInv(s: Session)
  {
    s.rotateAfter == ROTATE_AFTER && 0 <= s.gamesInCategory < s.rotateAfter
  }

  /** The note appended to the end-of-round message about the next round. */
  datatype Announcement =
    | NoNotice                 // no session
    | NextIsRandom             // random session
    | Rotating(category: string)
    | Staying(category: string)

  /** The categories the rotation may move to: every category but the current one. */
  function Candidates(cats: seq<string>, current: string): (cands: seq<string>)
    ensures forall c :: c in cands <==> c in cats && c != current
  {
    Filter((c: string) => c != current, cats)
  }

  /**
   * `decideNextCategoryAndAnnounce` with the category swap done before the note is written:
   * the session after the round, and a note naming the category the next round will use.
   * `cats` is the catalogue's category list and `roll` the random draw among the candidates.
   */
  function DecideNext(s: Option<Session>, cats: seq<string>, roll: nat): (res: (Option<Session>, Announcement))
    ensures s.None? ==> res == (None, NoNotice)
    ensures s.Some? && s.value.mode == RandomMode ==> res == (s, NextIsRandom)
    ensures s.Some? ==> res.0.Some? && res.0.value.mode == s.value.mode
    ensures s.Some? && s.value.mode == Fixed ==>
      && (res.1.Rotating? <==> s.value.gamesInCategory + 1 >= s.value.rotateAfter)
      && (res.1.Rotating? ==> res.1 == Rotating(res.0.value.currentCategory))
      && (!res.1.Rotating? ==> res.1 == Staying(s.value.currentCategory))
  {
    if s.None? then (None, NoNotice)
    else
      var session := s.value;
      if session.mode == RandomMode then (s, NextIsRandom)
      else
        assert session.mode == Fixed;
        var played := session.gamesInCategory + 1;
        if played >= session.rotateAfter then
          var cands := Candidates(cats, session.currentCategory);
          var next := if |cands| > 0 then cands[roll % |cands|] else session.currentCategory;
          (Some(Session(Fixed, next, 0, ROTATE_AFTER)), Rotating(next))
        else
          (Some(session.(gamesInCategory := played)), Staying(session.currentCategory))
  }

  /** The category the next round is picked from: `"random"` without a session or in random mode. */
  function NextRoundCategory(s: Option<Session>): (cat: string)
    ensures s.None? || s.value.mode == RandomMode ==> cat == "random"
    ensures s.Some? && s.value.mode == Fixed ==> cat == s.value.currentCategory
  {
    if s.Some? && s.value.mode == Fixed then s.value.currentCategory else "random"
  }

  /** Deciding keeps the session invariant. */
  lemma DecideKeepsInv(s: Session, cats: seq<string>, roll: nat)
    requires SessionInv(s)
    ensures var r := DecideNext(Some(s), cats, roll).0; r.Some? && SessionInv(r.value)
  {
  }

  /**
   * A fixed session counts the round; on reaching the threshold it resets the count and moves to
   * a different category whenever the catalogue has one, and otherwise keeps its category.
   */
  lemma FixedRotation(s: Session, cats: seq<string>, roll: nat)
    requires s.mode == Fixed
    ensures var r := DecideNext(Some(s), cats, roll).0.value;
      if s.gamesInCategory + 1 >= s.rotateAfter then
        && r.gamesInCategory == 0 && r.rotateAfter == ROTATE_AFTER
        && ((exists c :: c in cats && c != s.currentCategory) <==> r.currentCategory != s.currentCategory)
        && (r.currentCategory != s.currentCategory ==> r.currentCategory in cats)
      else
        r == s.(gamesInCategory := s.gamesInCategory + 1)
  {
    if s.gamesInCategory + 1 >= s.rotateAfter {
      var cands := Candidates(cats, s.currentCategory);
      if |cands| > 0 {
        assert cands[roll % |cands|] in cands;
      }
    }
  }

  /** Every other category can be the next one, for some roll. */
  lemma RotationReachesEveryOther(s: Session, cats: seq<string>, c: string)
    requires s.mode == Fixed && s.gamesInCategory + 1 >= s.rotateAfter
    requires c in cats && c != s.currentCategory
    ensures exists roll: nat :: DecideNext(Some(s), cats, roll).0 == Some(Session(Fixed, c, 0, ROTATE_AFTER))
  {
    var cands := Candidates(cats, s.currentCategory);
    var k :| 0 <= k < |cands| && cands[k] == c;
    ModSmall(k, |cands|);
    assert DecideNext(Some(s), cats, k).0 == Some(Session(Fixed, c, 0, ROTATE_AFTER));
  }

  /** The note names the category the next round will in fact be picked from. */
  lemma AnnouncementIsNextCategory(s: Option<Session>, cats: seq<string>, roll: nat)
    ensures var (s', note) := DecideNext(s, cats, roll);
      (note.Rotating? || note.Staying?) ==> note.category == NextRoundCategory(s')
  {
  }

  /**
   * A session started on a category plays it for three rounds: the first two ends keep it,
   * and the third moves to another category when the catalogue has one.
   */
  lemma {:induction false} ThreeRoundsThenRotate(requested: string, cats: seq<string>, r1: nat, r2: nat, r3: nat)
    requires requested != "random"
    ensures var s0 := Some(StartSession(requested));
      var (s1, n1) := DecideNext(s0, cats, r1);
      var (s2, n2) := DecideNext(s1, cats, r2);
      var (s3, n3) := DecideNext(s2, cats, r3);
      && n1 == Staying(requested) && n2 == Staying(requested) && n3.Rotating?
      && NextRoundCategory(s1) == requested && NextRoundCategory(s2) == requested
      && ((exists c :: c in cats && c != requested) ==> NextRoundCategory(s3) != requested)
  {
    var s0 := StartSession(requested);
    var s2 := Session(Fixed, requested, 2, ROTATE_AFTER);
    assert DecideNext(Some(s0), cats, r1).0 == Some(Session(Fixed, requested, 1, ROTATE_AFTER));
    assert DecideNext(Some(Session(Fixed, requested, 1, ROTATE_AFTER)), cats, r2).0 == Some(s2);
    FixedRotation(s2, cats, r3);
  }

  // ----- the note as written -----

  /**
   * The note exactly as the source builds it: the category swap runs in an asynchronous block
   * that first awaits the category list, so the note is written before the swap and names the
   * category of the round that just ended.
   */
  function AnnounceAsWritten(s: Option<Session>): (note: Announcement)
    ensures s.Some? && s.value.mode == Fixed && s.value.gamesInCategory + 1 >= s.value.rotateAfter ==>
      note == Rotating(s.value.currentCategory)
  {
    if s.None? then NoNotice
    else if s.value.mode == RandomMode then NextIsRandom
    else if s.value.gamesInCategory + 1 >= s.value.rotateAfter then Rotating(s.value.currentCategory)
    else Staying(s.value.currentCategory)
  }

  /**
   * The note as written announces the old category when the rotation moves to a new one:
   * after two rounds of "animale" with "fructe" also in the catalogue, it says the next round is
   * "animale" while the next round is picked from "fructe".
   */
  lemma RotationNoteNamesOldCategory()
    ensures var s := Some(Session(Fixed, "animale", 2, ROTATE_AFTER));
      var cats := ["animale", "fructe"];
      && AnnounceAsWritten(s) == Rotating("animale")
      && NextRoundCategory(DecideNext(s, cats, 0).0) == "fructe"
  {
    var cats := ["animale", "fructe"];
    assert Candidates(cats, "animale") == ["fructe"] by {
      var cands := Candidates(cats, "animale");
      assert "fructe" in cands;
      assert |cands| <= 1 by {
        assert Filter((c: string) => c != "animale", cats[1..]) == cands;
      }
    }
  }
}
