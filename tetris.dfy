/** The game object: the flags its control operations flip, the wake-ups
    they offer to the game loop, and the loop's own steps (one DOWN move,
    the falling phase, the landing of a piece, and the loop over pieces).
    Every method's new state is the corresponding Session transition of the
    old one, so the lemmas proved there hold of the object. */
module Tetris {
  import opened Figures
  import opened Session

  class Game {
    /** Width of the play area (AREA_WIDTH of the board). */
    const areaWidth: int
    /** Matrix width of a freshly created figure of each variant. */
    const widthOf: Variant -> nat

    var current: Figure
    var isStarted: bool
    var isPaused: bool
    var hasActor: bool
    var actorActive: bool
    var midFall: bool
    var offers: nat
    var board: seq<BoardOp>
    var awards: seq<Award>
    var view: seq<ViewEvent>

    /** The object's fields as a Session state. */
    function Snapshot(): State
      reads this
    {
      State(current, isStarted, isPaused, hasActor, actorActive, midFall, offers, board, awards, view)
    }

    ghost predicate Valid()
      reads this
    {
      Inv(Snapshot())
    }

    /** A new game: the board already holds the figure of table entry `first`. */
    constructor (areaWidth: int, widthOf: Variant -> nat, first: nat)
      requires first < |Catalog|
      ensures this.areaWidth == areaWidth && this.widthOf == widthOf
      ensures Snapshot() == Initial(Spawn(first, widthOf, areaWidth))
      ensures Valid()
    {
      this.areaWidth := areaWidth;
      this.widthOf := widthOf;
      current := Spawn(first, widthOf, areaWidth);
      isStarted, isPaused := false, false;
      hasActor, actorActive, midFall := false, false, false;
      offers := 0;
      board, awards, view := [], [], [];
      InitialInv(first, widthOf, areaWidth);
    }

    /** Starts a session; a second start while one is running fails and
        changes nothing. */
    method Start() returns (outcome: Outcome)
      requires Valid()
      modifies this
      ensures Valid()
      ensures outcome == if StartFails(old(Snapshot())) then Failed(StartedTwice) else Done
      ensures Snapshot() == if StartFails(old(Snapshot())) then old(Snapshot()) else Started(old(Snapshot()))
    {
      if isStarted {
        return Failed(StartedTwice);
      }
      ghost var s := Snapshot();
      isStarted := true;
      view := view + [ClearArea];
      awards := awards + [AwardStart];
      hasActor, actorActive, midFall := true, true, false;
      offers := offers + 1;
      outcome := Done;
      assert Snapshot() == Started(s);
      StartedKeepsInv(s);
    }

    /** Toggles the pause flag; resuming offers the loop a wake-up, and
        fails when no loop was ever created or the loop has ended. */
    method Pause() returns (outcome: Outcome)
      requires Valid()
      modifies this
      ensures Valid()
      ensures outcome == if PauseFails(old(Snapshot())) then Failed(OfferFailure(old(Snapshot()))) else Done
      ensures Snapshot() == Toggled(old(Snapshot()))
    {
      isPaused := !isPaused;
      outcome := Done;
      if !isPaused {
        if !hasActor {
          outcome := Failed(ActorNotInitialized);
        } else if !actorActive {
          outcome := Failed(ActorClosed);
        } else {
          offers := offers + 1;
        }
      }
      ToggledKeepsInv(old(Snapshot()));
    }

    /** The action the down key repeats: the speed-up bonus, then a wake-up
        for the loop (which fails when no loop was ever created or the loop
        has ended). */
    method SpeedUp() returns (outcome: Outcome)
      requires Valid()
      modifies this
      ensures Valid()
      ensures outcome == if SpeedUpFails(old(Snapshot())) then Failed(OfferFailure(old(Snapshot()))) else Done
      ensures Snapshot() == SpedUp(old(Snapshot()))
    {
      awards := awards + [AwardSpeedUp];
      if !hasActor {
        outcome := Failed(ActorNotInitialized);
      } else if !actorActive {
        outcome := Failed(ActorClosed);
      } else {
        offers := offers + 1;
        outcome := Done;
      }
      SpedUpKeepsInv(old(Snapshot()));
    }

    /** The action the left and right keys repeat; `moved` is the board's
        answer to the move. */
    method MoveSideways(dir: Direction, moved: bool)
      requires Valid()
      modifies this
      ensures Valid()
      ensures Snapshot() == Shifted(old(Snapshot()), dir, moved)
    {
      if moved {
        current := current.(position := current.position.(x := current.position.x + dir.Dx()));
      }
      ShiftedKeepsInv(old(Snapshot()), dir, moved);
    }

    /** One pass of the falling phase: whichever of signal and timer comes
        first, the figure is moved DOWN; the loop keeps falling exactly when
        the board accepted the move. */
    method Descend(moved: bool) returns (falling: bool)
      requires Valid() && midFall
      modifies this
      ensures Valid() && midFall
      ensures falling == moved
      ensures Snapshot() == Lowered(old(Snapshot()), if moved then 1 else 0)
    {
      if moved {
        current := current.(position := current.position.(y := current.position.y + 1));
      }
      falling := moved;
      LoweredKeepsInv(old(Snapshot()), if moved then 1 else 0);
    }

    /** The falling phase, fed with the board's answers to successive DOWN
        moves: the figure goes down once per accepted move, and the figure
        has landed when some move was refused. */
    method Fall(moves: seq<bool>) returns (landed: bool)
      requires Valid() && midFall
      modifies this
      ensures Valid() && midFall
      ensures landed == (LeadingMoves(moves) < |moves|)
      ensures Snapshot() == Lowered(old(Snapshot()), LeadingMoves(moves))
    {
      var falling := true;
      var i := 0;
      while falling && i < |moves|
        invariant 0 <= i <= |moves|
        invariant Valid() && midFall
        invariant !falling ==> 0 < i && !moves[i - 1]
        invariant forall j :: 0 <= j < (if falling then i else i - 1) ==> moves[j]
        invariant Snapshot() == Lowered(old(Snapshot()), if falling then i else i - 1)
      {
        falling := Descend(moves[i]);
        i := i + 1;
      }
      LeadingMovesUnique(moves, if falling then i else i - 1);
      landed := !falling;
    }

    /** What the loop does once the figure cannot descend: stop on game
        over, otherwise fix, wipe and award filled lines if there are any,
        and install the figure of table entry `next`. */
    method Land(filled: seq<int>, next: nat)
      requires Valid() && midFall && next < |Catalog|
      modifies this
      ensures Valid()
      ensures Snapshot() == Landed(old(Snapshot()), filled, next, widthOf, areaWidth)
    {
      ghost var s := Snapshot();
      if IsGameOver(current) {
        isStarted := false;
        actorActive := false;
        midFall := false;
        view := view + [ShowGameOver];
        assert Snapshot() == Landed(s, filled, next, widthOf, areaWidth);
      } else {
        board := board + [Fix(current)];
        if filled != [] {
          board := board + [Wipe(filled)];
          view := view + [WipeLines(filled)];
          awards := awards + [AwardLinesWipe(|filled|)];
        }
        current := Spawn(next, widthOf, areaWidth);
        midFall := false;
        assert Snapshot() == Landed(s, filled, next, widthOf, areaWidth);
      }
      LandedKeepsInv(s, filled, next, widthOf, areaWidth);
    }

    /** One turn of the running loop for a piece: draw the figure (unless
        it is already falling), let it fall, and land it when some DOWN move
        was refused. */
    method Turn(p: Piece) returns (landed: bool)
      requires Valid() && actorActive && p.next < |Catalog|
      modifies this
      ensures Valid()
      ensures landed == (LeadingMoves(p.moves) < |p.moves|)
      ensures Snapshot() == TurnOf(old(Snapshot()), p, widthOf, areaWidth)
    {
      ghost var s := Snapshot();
      if !midFall {
        view := view + [DrawFigure(current)];
        midFall := true;
      }
      DrawnKeepsInv(s);
      assert Snapshot() == Drawn(s);
      landed := Fall(p.moves);
      if landed {
        Land(p.filled, p.next);
      }
    }

    /** The game loop over the board's answers for successive pieces: while
        it is running, play one turn per piece; it stops at game over, and
        when a piece is still falling after the moves given for it. */
    method Run(pieces: seq<Piece>)
      requires Valid() && NextIndicesValid(pieces)
      modifies this
      ensures Valid()
      ensures Snapshot() == Play(old(Snapshot()), pieces, widthOf, areaWidth)
    {
      ghost var target := Play(Snapshot(), pieces, widthOf, areaWidth);
      var k := 0;
      assert pieces[k..] == pieces;
      while k < |pieces| && actorActive
        invariant 0 <= k <= |pieces|
        invariant Valid()
        invariant NextIndicesValid(pieces[k..])
        invariant Play(Snapshot(), pieces[k..], widthOf, areaWidth) == target
        decreases |pieces| - k
      {
        ghost var before := Snapshot();
        PlayAt(before, pieces, k, widthOf, areaWidth);
        var landed := Turn(pieces[k]);
        if !landed {
          // the piece is still falling after the moves given for it
          return;
        }
        k := k + 1;
      }
    }
  }
}
