/** The decision layer of a game session as values: the state the game
    object and its loop keep, the transition each control operation makes,
    the invariant they all keep, and what the loop does with the answers of
    the board. The board and the score are abstract: the board is the
    current figure plus the log of what was fixed and wiped, the score is
    the log of awards it was asked to make. */
module Session {
  import opened Figures

  /** A request to the score. */
  datatype Award = AwardStart | AwardSpeedUp | AwardLinesWipe(count: nat)

  /** A change the loop makes to the board's fixed cells. */
  datatype BoardOp = Fix(figure: Figure) | Wipe(lines: seq<int>)

  /** A request to the display. */
  datatype ViewEvent = ClearArea | DrawFigure(figure: Figure) | WipeLines(lines: seq<int>) | ShowGameOver

  /** A sideways key and the column change of its move. */
  datatype Direction = Left | Right
  {
    function Dx(): (dx: int)
      ensures dx == -1 || dx == 1
      ensures dx < 0 <==> this == Left
    {
      match this
      case Left => -1
      case Right => 1
    }
  }

  /** The exceptions an operation can raise: a second start, a wake-up
      offered before the first start created the loop, or one offered to a
      loop that has already ended (its channel is closed). */
  datatype Failure = StartedTwice | ActorNotInitialized | ActorClosed

  datatype Outcome = Done | Failed(failure: Failure)

  /** Everything the session keeps. `hasActor`: the loop has been created
      (by some start); `actorActive`: it is still running; `midFall`: it is
      inside its falling phase with the current figure drawn; `offers`: how
      many wake-up signals have been offered to it. */
  datatype State = State(
    current: Figure,
    isStarted: bool,
    isPaused: bool,
    hasActor: bool,
    actorActive: bool,
    midFall: bool,
    offers: nat,
    board: seq<BoardOp>,
    awards: seq<Award>,
    view: seq<ViewEvent>)

  /** One turn of the loop as the board answers it: the outcome of each
      DOWN move tried (the last tried one fails when the figure lands), the
      filled lines the board reports after fixing, and the table index drawn
      for the next figure. */
  datatype Piece = Piece(moves: seq<bool>, filled: seq<int>, next: nat)

  // ---------------------------------------------------------------------
  // Projections of the logs

  function WipedBy(op: BoardOp): seq<seq<int>>
  {
    match op
    case Wipe(lines) => [lines]
    case Fix(_) => []
  }

  /** The line sets wiped from the board, in order. */
  function Wiped(ops: seq<BoardOp>): seq<seq<int>>
  {
    if ops == [] then [] else Wiped(ops[..|ops| - 1]) + WipedBy(ops[|ops| - 1])
  }

  function LinesAwardedBy(a: Award): seq<nat>
  {
    match a
    case AwardLinesWipe(n) => [n]
    case _ => []
  }

  /** The line counts the score was awarded for, in order. */
  function LinesAwarded(awards: seq<Award>): seq<nat>
  {
    if awards == [] then [] else LinesAwarded(awards[..|awards| - 1]) + LinesAwardedBy(awards[|awards| - 1])
  }

  function ShownBy(e: ViewEvent): seq<seq<int>>
  {
    match e
    case WipeLines(lines) => [lines]
    case _ => []
  }

  /** The line sets the display was told to wipe, in order. */
  function ShownWipes(view: seq<ViewEvent>): seq<seq<int>>
  {
    if view == [] then [] else ShownWipes(view[..|view| - 1]) + ShownBy(view[|view| - 1])
  }

  lemma WipedSnoc(ops: seq<BoardOp>, op: BoardOp)
    ensures Wiped(ops + [op]) == Wiped(ops) + WipedBy(op)
  {
    assert (ops + [op])[..|ops|] == ops;
  }

  lemma LinesAwardedSnoc(awards: seq<Award>, a: Award)
    ensures LinesAwarded(awards + [a]) == LinesAwarded(awards) + LinesAwardedBy(a)
  {
    assert (awards + [a])[..|awards|] == awards;
  }

  lemma ShownWipesSnoc(view: seq<ViewEvent>, e: ViewEvent)
    ensures ShownWipes(view + [e]) == ShownWipes(view) + ShownBy(e)
  {
    assert (view + [e])[..|view|] == view;
  }

  // ---------------------------------------------------------------------
  // The session invariant

  /** Every wipe of the board directly follows the fix of a figure. */
  ghost predicate WipesFollowFixes(ops: seq<BoardOp>)
  {
    forall i :: 0 <= i < |ops| && ops[i].Wipe? ==> 0 < i && ops[i - 1].Fix?
  }

  /** Every wipe removed at least one line, the display was told of exactly
      the same wipes, and each was awarded with its number of lines. */
  ghost predicate WipesAwarded(s: State)
  {
    var wiped := Wiped(s.board);
    && ShownWipes(s.view) == wiped
    && |LinesAwarded(s.awards)| == |wiped|
    && forall i :: 0 <= i < |wiped| ==> wiped[i] != [] && LinesAwarded(s.awards)[i] == |wiped[i]|
  }

  ghost predicate Inv(s: State)
  {
    && s.current.position.y >= 0
    && (!s.midFall ==> s.current.position.y == 0)
    && (s.midFall ==> s.actorActive)
    && s.isStarted == s.actorActive
    && (s.actorActive ==> s.hasActor)
    && WipesFollowFixes(s.board)
    && WipesAwarded(s)
  }

  // ---------------------------------------------------------------------
  // Transitions

  /** A new game object: the first figure is already on the board. */
  function Initial(first: Figure): (r: State)
    ensures r.current == first && !r.isPaused && r.offers == 0
    // no loop exists yet
    ensures !r.hasActor && !r.actorActive && !r.midFall
    ensures r.board == [] && r.awards == [] && r.view == []
    // a new game can be started, and its down key raises until then
    ensures !StartFails(r) && SpeedUpFails(r)
  {
    State(first, false, false, false, false, false, 0, [], [], [])
  }

  lemma InitialInv(index: nat, widthOf: Variant -> nat, areaWidth: int)
    requires index < |Catalog|
    ensures Inv(Initial(Spawn(index, widthOf, areaWidth)))
  {
  }

  /** A start raises when the session is already started; under the
      invariant that is exactly while the loop is running. */
  predicate StartFails(s: State)
    ensures Inv(s) ==> (StartFails(s) <==> s.actorActive)
  {
    s.isStarted
  }

  /** Starting: clear the display, reset the score, create the loop and
      offer it one wake-up. */
  function Started(s: State): (r: State)
    requires !StartFails(s)
    ensures r.isStarted && r.actorActive && r.hasActor
    ensures r.offers == s.offers + 1
    ensures r.current == s.current && r.board == s.board && r.isPaused == s.isPaused
    ensures r.awards == s.awards + [AwardStart] && r.view == s.view + [ClearArea]
    // the new loop begins outside its falling phase
    ensures !r.midFall
  {
    s.(isStarted := true, hasActor := true, actorActive := true, midFall := false,
       offers := s.offers + 1, awards := s.awards + [AwardStart], view := s.view + [ClearArea])
  }

  lemma StartedKeepsInv(s: State)
    requires Inv(s) && !StartFails(s)
    ensures Inv(Started(s))
  {
    LinesAwardedSnoc(s.awards, AwardStart);
    ShownWipesSnoc(s.view, ClearArea);
  }

  /** A start succeeds exactly once in a row: right after it, a second
      one fails. It offers exactly one wake-up and leaves the board alone. */
  lemma StartOnlyOnce(s: State)
    requires !StartFails(s)
    ensures StartFails(Started(s))
    ensures Started(s).offers == s.offers + 1
    ensures Started(s).board == s.board && Started(s).current == s.current
  {
  }

  /** The loop takes an offered wake-up: it was created and has not ended. */
  predicate Accepts(s: State)
  {
    s.hasActor && s.actorActive
  }

  /** Why an offer to a loop that does not take it raises. */
  function OfferFailure(s: State): (f: Failure)
    requires !Accepts(s)
    ensures f == ActorNotInitialized <==> !s.hasActor
    ensures f == ActorNotInitialized || f == ActorClosed
  {
    if !s.hasActor then ActorNotInitialized else ActorClosed
  }

  /** Resuming raises an exception when the loop does not take the wake-up
      (the pause flag has already flipped by then); under the invariant
      that is exactly when the session is not started. */
  predicate PauseFails(s: State)
    ensures Inv(s) ==> (PauseFails(s) <==> s.isPaused && !s.isStarted)
    // a failing resume offers nothing
    ensures PauseFails(s) ==> Toggled(s).offers == s.offers
  {
    s.isPaused && !Accepts(s)
  }

  /** Pausing flips the pause flag; on the way back to running it offers
      the loop a wake-up. */
  function Toggled(s: State): (r: State)
    ensures r.isPaused == !s.isPaused
    // nothing but the flag and the wake-up count changes
    ensures r.(isPaused := s.isPaused, offers := s.offers) == s
  {
    if s.isPaused then
      s.(isPaused := false, offers := if Accepts(s) then s.offers + 1 else s.offers)
    else
      s.(isPaused := true)
  }

  lemma ToggledKeepsInv(s: State)
    requires Inv(s)
    ensures Inv(Toggled(s))
  {
  }

  /** Two toggles restore the pause flag and everything else, except for
      the single wake-up offered on the way back. */
  lemma PauseTwiceRestores(s: State)
    ensures Toggled(Toggled(s)) == s.(offers := if Accepts(s) then s.offers + 1 else s.offers)
  {
  }

  /** A toggle offers a wake-up exactly when it resumes a loop that is still
      running, and never more than one. */
  lemma PauseOffersOnlyOnResume(s: State)
    ensures Toggled(s).offers == s.offers || Toggled(s).offers == s.offers + 1
    ensures Toggled(s).offers == s.offers + 1 <==> s.isPaused && s.hasActor && s.actorActive
    ensures Toggled(s).isPaused != s.isPaused
  {
  }

  /** The down key's action fails when the loop does not take the wake-up
      (the bonus has already been recorded by then); under the invariant
      that is exactly when the session is not started. */
  predicate SpeedUpFails(s: State)
    ensures Inv(s) ==> (SpeedUpFails(s) <==> !s.isStarted)
    ensures SpeedUpFails(s) <==> SpedUp(s).offers == s.offers
  {
    !Accepts(s)
  }

  /** The down key's action: the speed-up bonus, then a wake-up for the loop. */
  function SpedUp(s: State): (r: State)
    ensures r.awards == s.awards + [AwardSpeedUp]
    ensures r.offers == s.offers + 1 <==> s.hasActor && s.actorActive
    ensures r.offers == s.offers || r.offers == s.offers + 1
    ensures r.(awards := s.awards, offers := s.offers) == s
  {
    s.(awards := s.awards + [AwardSpeedUp], offers := if Accepts(s) then s.offers + 1 else s.offers)
  }

  lemma SpedUpKeepsInv(s: State)
    requires Inv(s)
    ensures Inv(SpedUp(s))
  {
    LinesAwardedSnoc(s.awards, AwardSpeedUp);
  }

  /** A sideways move: the board's answer `moved` says whether the figure
      could go one column over. */
  function Shifted(s: State, dir: Direction, moved: bool): (r: State)
    ensures !moved ==> r == s
    ensures moved ==> r.current.position.x == s.current.position.x + dir.Dx()
    ensures r.current.position.y == s.current.position.y
    ensures r.current.variant == s.current.variant && r.current.width == s.current.width
    ensures r.(current := s.current) == s
  {
    if moved then
      s.(current := s.current.(position := s.current.position.(x := s.current.position.x + dir.Dx())))
    else
      s
  }

  lemma ShiftedKeepsInv(s: State, dir: Direction, moved: bool)
    requires Inv(s)
    ensures Inv(Shifted(s, dir, moved))
  {
  }

  /** The current figure after `rows` successful DOWN moves. */
  function Lowered(s: State, rows: nat): (r: State)
    ensures r.current.position.y == s.current.position.y + rows
    ensures r.current.position.x == s.current.position.x
    ensures r.current.variant == s.current.variant && r.current.width == s.current.width
    ensures r.(current := s.current) == s
  {
    s.(current := s.current.(position := s.current.position.(y := s.current.position.y + rows)))
  }

  lemma LoweredKeepsInv(s: State, rows: nat)
    requires Inv(s) && s.midFall
    ensures Inv(Lowered(s, rows))
  {
  }

  /** Entering the falling phase draws the current figure; a loop already
      inside it does not draw again. */
  function Drawn(s: State): (r: State)
    ensures r.midFall
    ensures r.(view := s.view, midFall := s.midFall) == s
    ensures s.midFall ==> r == s
    ensures !s.midFall ==> r.view == s.view + [DrawFigure(s.current)]
  {
    if s.midFall then s else s.(view := s.view + [DrawFigure(s.current)], midFall := true)
  }

  lemma DrawnKeepsInv(s: State)
    requires Inv(s) && s.actorActive
    ensures Inv(Drawn(s)) && Drawn(s).midFall
  {
    ShownWipesSnoc(s.view, DrawFigure(s.current));
  }

  /** The number of DOWN moves that succeed before the first one that fails
      (all of them when none fails). */
  function LeadingMoves(moves: seq<bool>): (n: nat)
    ensures n <= |moves|
    ensures forall i :: 0 <= i < n ==> moves[i]
    ensures n < |moves| ==> !moves[n]
  {
    if moves == [] || !moves[0] then 0 else 1 + LeadingMoves(moves[1..])
  }

  /** The three facts of LeadingMoves' contract determine it. */
  lemma LeadingMovesUnique(moves: seq<bool>, n: nat)
    requires n <= |moves|
    requires forall i :: 0 <= i < n ==> moves[i]
    requires n < |moves| ==> !moves[n]
    ensures LeadingMoves(moves) == n
  {
  }

  /** After the figure can no longer descend: on game over the loop stops
      and the session is no longer started; otherwise the figure is fixed,
      the filled lines are wiped and awarded when there are any, and the
      figure from table entry `next` becomes current. */
  function Landed(s: State, filled: seq<int>, next: nat, widthOf: Variant -> nat, areaWidth: int): (r: State)
    requires next < |Catalog|
    ensures !r.midFall
    ensures r.isPaused == s.isPaused && r.offers == s.offers && r.hasActor == s.hasActor
    ensures IsGameOver(s.current) ==>
      !r.isStarted && !r.actorActive && r.board == s.board && r.awards == s.awards && r.current == s.current
    ensures IsGameOver(s.current) ==> r.view == s.view + [ShowGameOver]
    // without filled lines a landing only fixes the figure
    ensures !IsGameOver(s.current) && filled == [] ==>
      r.board == s.board + [Fix(s.current)] && r.awards == s.awards && r.view == s.view
    ensures !IsGameOver(s.current) && filled != [] ==>
      && r.board == s.board + [Fix(s.current)] + [Wipe(filled)]
      && r.awards == s.awards + [AwardLinesWipe(|filled|)]
      && r.view == s.view + [WipeLines(filled)]
    ensures !IsGameOver(s.current) ==>
      && r.isStarted == s.isStarted && r.actorActive == s.actorActive
      && r.current == Spawn(next, widthOf, areaWidth)
      && |r.board| > |s.board| && r.board[|s.board|] == Fix(s.current)
  {
    if IsGameOver(s.current) then
      s.(isStarted := false, actorActive := false, midFall := false, view := s.view + [ShowGameOver])
    else if filled == [] then
      s.(board := s.board + [Fix(s.current)],
         current := Spawn(next, widthOf, areaWidth), midFall := false)
    else
      s.(board := s.board + [Fix(s.current)] + [Wipe(filled)],
         view := s.view + [WipeLines(filled)],
         awards := s.awards + [AwardLinesWipe(|filled|)],
         current := Spawn(next, widthOf, areaWidth), midFall := false)
  }

  lemma LandedKeepsInv(s: State, filled: seq<int>, next: nat, widthOf: Variant -> nat, areaWidth: int)
    requires Inv(s) && next < |Catalog|
    ensures Inv(Landed(s, filled, next, widthOf, areaWidth))
  {
    if IsGameOver(s.current) {
      LandedGameOverKeepsInv(s);
    } else if filled == [] {
      LandedFixKeepsInv(s, Spawn(next, widthOf, areaWidth));
    } else {
      LandedWipeKeepsInv(s, filled, Spawn(next, widthOf, areaWidth));
    }
  }

  /** The case of LandedKeepsInv where the game is over. */
  lemma LandedGameOverKeepsInv(s: State)
    requires Inv(s) && IsGameOver(s.current)
    ensures Inv(s.(isStarted := false, actorActive := false, midFall := false, view := s.view + [ShowGameOver]))
  {
    ShownWipesSnoc(s.view, ShowGameOver);
  }

  /** The case of LandedKeepsInv where no lines are wiped. */
  lemma LandedFixKeepsInv(s: State, spawned: Figure)
    requires Inv(s) && spawned.position.y == 0
    ensures Inv(s.(board := s.board + [Fix(s.current)], current := spawned, midFall := false))
  {
    WipedSnoc(s.board, Fix(s.current));
    FixKeepsWipesAfterFixes(s.board, s.current);
  }

  lemma FixKeepsWipesAfterFixes(ops: seq<BoardOp>, f: Figure)
    requires WipesFollowFixes(ops)
    ensures WipesFollowFixes(ops + [Fix(f)])
  {
    var ops' := ops + [Fix(f)];
    forall i | 0 <= i < |ops'| && ops'[i].Wipe?
      ensures 0 < i && ops'[i - 1].Fix?
    {
      assert ops'[i] == ops[i] && ops'[i - 1] == ops[i - 1];
    }
  }

  /** The case of LandedKeepsInv where lines are wiped. */
  lemma LandedWipeKeepsInv(s: State, filled: seq<int>, spawned: Figure)
    requires Inv(s) && filled != [] && spawned.position.y == 0
    ensures Inv(s.(board := s.board + [Fix(s.current)] + [Wipe(filled)],
                   view := s.view + [WipeLines(filled)],
                   awards := s.awards + [AwardLinesWipe(|filled|)],
                   current := spawned, midFall := false))
  {
    var r := s.(board := s.board + [Fix(s.current)] + [Wipe(filled)],
                view := s.view + [WipeLines(filled)],
                awards := s.awards + [AwardLinesWipe(|filled|)],
                current := spawned, midFall := false);
    WipeKeepsAwarded(s, filled, r);
    WipeFollowsFix(s.board, s.current, filled);
  }

  lemma WipeKeepsAwarded(s: State, filled: seq<int>, r: State)
    requires WipesAwarded(s) && filled != []
    requires r.board == s.board + [Fix(s.current)] + [Wipe(filled)]
    requires r.view == s.view + [WipeLines(filled)]
    requires r.awards == s.awards + [AwardLinesWipe(|filled|)]
    ensures WipesAwarded(r)
  {
    WipedSnoc(s.board, Fix(s.current));
    WipedSnoc(s.board + [Fix(s.current)], Wipe(filled));
    ShownWipesSnoc(s.view, WipeLines(filled));
    LinesAwardedSnoc(s.awards, AwardLinesWipe(|filled|));
    WipesExtend(Wiped(s.board), LinesAwarded(s.awards), filled);
  }

  lemma WipeFollowsFix(ops: seq<BoardOp>, f: Figure, filled: seq<int>)
    requires WipesFollowFixes(ops)
    ensures WipesFollowFixes(ops + [Fix(f)] + [Wipe(filled)])
  {
    var ops' := ops + [Fix(f)] + [Wipe(filled)];
    forall i | 0 <= i < |ops'| && ops'[i].Wipe?
      ensures 0 < i && ops'[i - 1].Fix?
    {
      if i < |ops| {
        assert ops'[i] == ops[i] && ops'[i - 1] == ops[i - 1];
      }
    }
  }

  lemma WipesExtend(wiped: seq<seq<int>>, counts: seq<nat>, filled: seq<int>)
    requires |counts| == |wiped| && forall i :: 0 <= i < |wiped| ==> wiped[i] != [] && counts[i] == |wiped[i]|
    requires filled != []
    ensures var wiped', counts' := wiped + [filled], counts + [|filled|];
      |counts'| == |wiped'| && forall i :: 0 <= i < |wiped'| ==> wiped'[i] != [] && counts'[i] == |wiped'[i]|
  {
  }

  /** A landing ends the session exactly when it is game over, and then
      neither fixes, wipes, awards nor replaces the figure; after it a
      start is allowed again. */
  lemma LandedStopsExactlyOnGameOver(s: State, filled: seq<int>, next: nat, widthOf: Variant -> nat, areaWidth: int)
    requires Inv(s) && s.actorActive && next < |Catalog|
    ensures var r := Landed(s, filled, next, widthOf, areaWidth);
      (!r.isStarted <==> IsGameOver(s.current)) &&
      (IsGameOver(s.current) ==>
         !StartFails(r) && r.board == s.board && r.awards == s.awards && r.current == s.current)
  {
  }

  /** A landing that is not game over installs a fresh figure on row 0,
      fixes the landed figure first, and wipes and awards only lines the
      board reported, counting them all. */
  lemma LandedSpawnsAfterFix(s: State, filled: seq<int>, next: nat, widthOf: Variant -> nat, areaWidth: int)
    requires next < |Catalog| && !IsGameOver(s.current)
    ensures var r := Landed(s, filled, next, widthOf, areaWidth);
      && r.current.position.y == 0 && r.current.variant == Catalog[next]
      && r.board[|s.board|] == Fix(s.current)
      && Wiped(r.board) == Wiped(s.board) + (if filled == [] then [] else [filled])
      && LinesAwarded(r.awards) == LinesAwarded(s.awards) + (if filled == [] then [] else [|filled|])
  {
    var spawned := Spawn(next, widthOf, areaWidth);
    if filled == [] {
      FixLogs(s.board, s.awards, s.current);
      assert Landed(s, filled, next, widthOf, areaWidth) ==
        s.(board := s.board + [Fix(s.current)], current := spawned, midFall := false);
    } else {
      FixWipeLogs(s.board, s.awards, s.current, filled);
      assert Landed(s, filled, next, widthOf, areaWidth) ==
        s.(board := s.board + [Fix(s.current)] + [Wipe(filled)],
           view := s.view + [WipeLines(filled)],
           awards := s.awards + [AwardLinesWipe(|filled|)],
           current := spawned, midFall := false);
    }
  }

  /** The projections after a fix without wipe. */
  lemma FixLogs(board: seq<BoardOp>, awards: seq<Award>, f: Figure)
    ensures (board + [Fix(f)])[|board|] == Fix(f)
    ensures Wiped(board + [Fix(f)]) == Wiped(board)
  {
    WipedSnoc(board, Fix(f));
  }

  /** The projections after a fix followed by a wipe. */
  lemma FixWipeLogs(board: seq<BoardOp>, awards: seq<Award>, f: Figure, filled: seq<int>)
    ensures (board + [Fix(f)] + [Wipe(filled)])[|board|] == Fix(f)
    ensures Wiped(board + [Fix(f)] + [Wipe(filled)]) == Wiped(board) + [filled]
    ensures LinesAwarded(awards + [AwardLinesWipe(|filled|)]) == LinesAwarded(awards) + [|filled|]
  {
    WipedFixWipe(board, f, filled);
    LinesAwardedSnoc(awards, AwardLinesWipe(|filled|));
  }

  lemma WipedFixWipe(ops: seq<BoardOp>, f: Figure, filled: seq<int>)
    ensures Wiped(ops + [Fix(f)] + [Wipe(filled)]) == Wiped(ops) + [filled]
  {
    WipedSnoc(ops, Fix(f));
    WipedSnoc(ops + [Fix(f)], Wipe(filled));
  }

  // ---------------------------------------------------------------------
  // The loop over several pieces

  predicate NextIndicesValid(pieces: seq<Piece>)
  {
    forall k :: 0 <= k < |pieces| ==> pieces[k].next < |Catalog|
  }

  /** One turn of the running loop for piece `p`: draw the figure unless it
      is already falling, let it fall by the leading accepted DOWN moves,
      and land it when one of the moves was refused. */
  function TurnOf(s: State, p: Piece, widthOf: Variant -> nat, areaWidth: int): (r: State)
    requires p.next < |Catalog|
    // the piece has landed exactly when the loop is out of its falling phase
    ensures r.midFall <==> LeadingMoves(p.moves) == |p.moves|
  {
    var fallen := Lowered(Drawn(s), LeadingMoves(p.moves));
    if LeadingMoves(p.moves) < |p.moves| then Landed(fallen, p.filled, p.next, widthOf, areaWidth) else fallen
  }

  /** The running loop fed with the board's answers for successive pieces:
      it stops when the loop is no longer running or when a piece is still
      falling after the moves given for it. */
  function Play(s: State, pieces: seq<Piece>, widthOf: Variant -> nat, areaWidth: int): (r: State)
    requires NextIndicesValid(pieces)
    // each piece fixes at most one figure and wipes at most once
    ensures |r.board| <= |s.board| + 2 * |pieces|
    ensures |r.awards| <= |s.awards| + |pieces|
    decreases |pieces|
  {
    if pieces == [] || !s.actorActive then s
    else
      var p := pieces[0];
      var r := TurnOf(s, p, widthOf, areaWidth);
      if LeadingMoves(p.moves) == |p.moves| then r
      else Play(r, pieces[1..], widthOf, areaWidth)
  }

  /** One turn of the running loop: draw, fall, and then either stop
      with the piece still falling or land it and go on with the rest. */
  lemma PlayUnfold(s: State, pieces: seq<Piece>, widthOf: Variant -> nat, areaWidth: int)
    requires NextIndicesValid(pieces) && pieces != [] && s.actorActive
    ensures var p := pieces[0];
      var r := TurnOf(s, p, widthOf, areaWidth);
      Play(s, pieces, widthOf, areaWidth) ==
        if LeadingMoves(p.moves) == |p.moves| then r else Play(r, pieces[1..], widthOf, areaWidth)
  {
  }

  /** The turn of piece `k` within the rest of the loop that starts at it. */
  lemma PlayAt(s: State, pieces: seq<Piece>, k: nat, widthOf: Variant -> nat, areaWidth: int)
    requires k < |pieces| && NextIndicesValid(pieces[k..]) && s.actorActive
    ensures pieces[k].next < |Catalog| && NextIndicesValid(pieces[k + 1..])
    ensures var p := pieces[k];
      var r := TurnOf(s, p, widthOf, areaWidth);
      Play(s, pieces[k..], widthOf, areaWidth) ==
        if LeadingMoves(p.moves) == |p.moves| then r else Play(r, pieces[k + 1..], widthOf, areaWidth)
  {
    assert pieces[k..][0] == pieces[k] && pieces[k..][1..] == pieces[k + 1..];
    PlayUnfold(s, pieces[k..], widthOf, areaWidth);
  }

  /** A loop that is not running does nothing. */
  lemma PlayIdleWhenStopped(s: State, pieces: seq<Piece>, widthOf: Variant -> nat, areaWidth: int)
    requires NextIndicesValid(pieces) && !s.actorActive
    ensures Play(s, pieces, widthOf, areaWidth) == s
  {
  }

  lemma {:induction false} PlayKeepsInv(s: State, pieces: seq<Piece>, widthOf: Variant -> nat, areaWidth: int)
    requires Inv(s) && NextIndicesValid(pieces)
    ensures Inv(Play(s, pieces, widthOf, areaWidth))
    decreases |pieces|
  {
    if pieces != [] && s.actorActive {
      var p := pieces[0];
      var n := LeadingMoves(p.moves);
      DrawnKeepsInv(s);
      LoweredKeepsInv(Drawn(s), n);
      var fallen := Lowered(Drawn(s), n);
      if n < |p.moves| {
        LandedKeepsInv(fallen, p.filled, p.next, widthOf, areaWidth);
        PlayKeepsInv(TurnOf(s, p, widthOf, areaWidth), pieces[1..], widthOf, areaWidth);
      }
    }
  }

  /** The loop only appends to the board, score and display logs, and
      touches neither the pause flag nor the wake-ups offered to it. */
  lemma {:induction false} PlayOnlyAppends(s: State, pieces: seq<Piece>, widthOf: Variant -> nat, areaWidth: int)
    requires NextIndicesValid(pieces)
    ensures var r := Play(s, pieces, widthOf, areaWidth);
      && s.board <= r.board && s.awards <= r.awards && s.view <= r.view
      && r.isPaused == s.isPaused && r.offers == s.offers && r.hasActor == s.hasActor
    decreases |pieces|
  {
    if pieces != [] && s.actorActive {
      var p := pieces[0];
      TurnOnlyAppends(s, p, widthOf, areaWidth);
      if LeadingMoves(p.moves) < |p.moves| {
        PlayOnlyAppends(TurnOf(s, p, widthOf, areaWidth), pieces[1..], widthOf, areaWidth);
      }
    }
  }

  /** One turn only appends to the logs and leaves the pause flag, the
      wake-ups and the actor flag alone. */
  lemma TurnOnlyAppends(s: State, p: Piece, widthOf: Variant -> nat, areaWidth: int)
    requires p.next < |Catalog|
    ensures var r := TurnOf(s, p, widthOf, areaWidth);
      && s.board <= r.board && s.awards <= r.awards && s.view <= r.view
      && r.isPaused == s.isPaused && r.offers == s.offers && r.hasActor == s.hasActor
  {
    var fallen := Lowered(Drawn(s), LeadingMoves(p.moves));
    assert fallen.board == s.board && fallen.awards == s.awards && s.view <= fallen.view;
    if LeadingMoves(p.moves) < |p.moves| {
      var r := Landed(fallen, p.filled, p.next, widthOf, areaWidth);
      assert fallen.board <= r.board && fallen.awards <= r.awards && fallen.view <= r.view;
    }
  }

  /** A piece that starts falling from its spawn row and lands ends the
      game exactly when its very first DOWN move fails. */
  lemma GameOverIffStuckAtSpawn(s: State, p: Piece, widthOf: Variant -> nat, areaWidth: int)
    requires Inv(s) && s.actorActive && !s.midFall
    requires p.next < |Catalog| && false in p.moves
    ensures Play(s, [p], widthOf, areaWidth).isStarted <==> p.moves[0]
  {
    var n := LeadingMoves(p.moves);
    var i :| 0 <= i < |p.moves| && !p.moves[i];
    assert n < |p.moves|;
    var fallen := Lowered(Drawn(s), n);
    assert fallen.current.position.y == n;
    assert n == 0 <==> !p.moves[0];
    assert Play(s, [p], widthOf, areaWidth) == Play(TurnOf(s, p, widthOf, areaWidth), [], widthOf, areaWidth);
  }
}
