/** The Go rules engine of `blocks/game/game.js`: the game state, `play`,
    `pass` and `endGame`. The scored copy of the engine reuses `Attempt`. */
module Engine {
  import opened Wrappers
  import opened Board
  import opened Groups

  /** The fields of a `Game` object. */
  datatype Game = Game(
    size: nat,
    board: Grid,
    current: Cell,
    lastMovePassed: bool,
    inAtari: bool,
    attemptedSuicide: bool,
    gameOver: bool)

  /** The shape every reachable game keeps: a `size` by `size` board and a
      player to move. */
  predicate Valid(g: Game) {
    |g.board| == g.size && Square(g.board) && g.current != Empty
  }

  /** What `play` throws: the game-over error, or the TypeError of reading
      `board[col][row]` for a column off the board, which is raised after the
      two flags have been cleared and so carries the game as it is left. */
  datatype GameError = GameAlreadyOver | NoSuchColumn(left: Game)

  /** What a `play` call leaves behind: the engine and the returned flag. */
  datatype Turn = Turn(game: Game, placed: bool)

  /** `new Game(size)`. */
  function NewGame(size: nat): (g: Game)
    ensures Valid(g) && g.size == size
    ensures forall p :: InBounds(size, p) ==> At(g.board, p) == Empty
    ensures g.current == Black
    ensures !g.gameOver && !g.lastMovePassed && !g.inAtari && !g.attemptedSuicide
  {
    Game(size, CreateBoard(size), Black, false, false, false, false)
  }

  /** `getStateByPos(col, row)` for a point of the board. */
  function GetStateByPos(g: Game, p: Pos): Cell
    requires Valid(g) && InBounds(g.size, p)
  {
    At(g.board, p)
  }

  /** A point holding a stone that is neither empty nor the mover's colour. */
  predicate Opposes(b: Grid, mover: Cell, n: Pos)
    requires Square(b) && InBounds(|b|, n)
  {
    At(b, n) != Empty && At(b, n) != mover
  }

  /** `grp` is what `_getGroup` yields for the stone at `n`. */
  ghost predicate IsGroupOf(b: Grid, grp: Group, n: Pos)
    requires Square(b)
  {
    && Distinct(grp.stones)
    && (forall q :: q in grp.stones <==> q in Component(b, n))
    && grp.liberties == LibertyCount(b, n)
  }

  /** The neighbours, in `_getAdjacentPoints` order, whose opposing group has no
      liberty: one entry per neighbour, so a group touching the played point on
      two sides appears twice. */
  ghost function CaptureSites(b: Grid, mover: Cell, ns: seq<Pos>): (r: seq<Pos>)
    requires Square(b) && forall n :: n in ns ==> InBounds(|b|, n)
    ensures forall n :: n in r <==> n in ns && Opposes(b, mover, n) && LibertyCount(b, n) == 0
  {
    if ns == [] then []
    else
      var rest := CaptureSites(b, mover, ns[1..]);
      if Opposes(b, mover, ns[0]) && LibertyCount(b, ns[0]) == 0 then [ns[0]] + rest else rest
  }

  /** What the neighbour loop of `play` collects. */
  datatype Scan = Scan(captured: seq<Group>, atari: bool)

  /** The `neighbors.forEach` loop of `play`: for every opposing neighbour,
      compute its group; push it on the capture list when it has no liberty,
      raise the atari flag when its liberty count is exactly one. */
  function ScanNeighbours(b: Grid, mover: Cell, ns: seq<Pos>): (r: Scan)
    requires Square(b) && forall n :: n in ns ==> InBounds(|b|, n)
    ensures |r.captured| == |CaptureSites(b, mover, ns)|
    ensures forall i, q :: 0 <= i < |r.captured| && q in r.captured[i].stones ==> InBounds(|b|, q)
  {
    if ns == [] then Scan([], false)
    else
      var rest := ScanNeighbours(b, mover, ns[1..]);
      var n := ns[0];
      if !Opposes(b, mover, n) then rest
      else
        var grp := GetGroup(b, n).value;
        if grp.liberties == 0 then Scan([grp] + rest.captured, rest.atari)
        else Scan(rest.captured, rest.atari || grp.liberties == 1)
  }

  /** Entry `i` of the capture list is the group `_getGroup` computes at
      capture site `i`. */
  lemma {:induction false} ScanGroups(b: Grid, mover: Cell, ns: seq<Pos>)
    requires Square(b) && forall n :: n in ns ==> InBounds(|b|, n)
    ensures var r := ScanNeighbours(b, mover, ns);
            forall i :: 0 <= i < |r.captured| ==> IsGroupOf(b, r.captured[i], CaptureSites(b, mover, ns)[i])
  {
    if ns != [] {
      ScanGroups(b, mover, ns[1..]);
      var r := ScanNeighbours(b, mover, ns);
      var rest := ScanNeighbours(b, mover, ns[1..]);
      var sites := CaptureSites(b, mover, ns);
      var later := CaptureSites(b, mover, ns[1..]);
      var n := ns[0];
      if Opposes(b, mover, n) && LibertyCount(b, n) == 0 {
        assert sites == [n] + later;
        assert r.captured == [GetGroup(b, n).value] + rest.captured;
        forall i | 0 <= i < |r.captured|
          ensures IsGroupOf(b, r.captured[i], sites[i])
        {
          if i > 0 {
            assert r.captured[i] == rest.captured[i - 1] && sites[i] == later[i - 1];
          }
        }
      } else {
        assert sites == later;
        assert r.captured == rest.captured;
      }
    }
  }

  /** The atari flag of the neighbour loop is raised exactly when some opposing
      neighbour's group has a liberty count, with multiplicity, of one. */
  lemma {:induction false} ScanAtari(b: Grid, mover: Cell, ns: seq<Pos>)
    requires Square(b) && forall n :: n in ns ==> InBounds(|b|, n)
    ensures ScanNeighbours(b, mover, ns).atari <==>
            exists n :: n in ns && Opposes(b, mover, n) && LibertyCount(b, n) == 1
  {
    if ns != [] {
      ScanAtari(b, mover, ns[1..]);
      assert forall m :: m in ns <==> m == ns[0] || m in ns[1..];
    }
  }

  /** `q` lies in some group of the list. */
  ghost predicate InSomeGroup(groups: seq<Group>, q: Pos) {
    exists i :: 0 <= i < |groups| && q in groups[i].stones
  }

  /** `group.stones.forEach(...)`: empty every listed point. */
  function ClearStones(b: Grid, stones: seq<Pos>): (r: Grid)
    requires Square(b) && forall q :: q in stones ==> InBounds(|b|, q)
    decreases |stones|
    ensures |r| == |b| && Square(r)
    ensures forall q :: InBounds(|b|, q) ==> At(r, q) == if q in stones then Empty else At(b, q)
  {
    if stones == [] then b
    else ClearStones(Put(b, stones[0], Empty), stones[1..])
  }

  /** `captured.forEach(...)`: empty every stone of every captured group. */
  function RemoveGroups(b: Grid, groups: seq<Group>): (r: Grid)
    requires Square(b)
    requires forall i, q :: 0 <= i < |groups| && q in groups[i].stones ==> InBounds(|b|, q)
    ensures |r| == |b| && Square(r)
    ensures forall q :: InBounds(|b|, q) ==> At(r, q) == if InSomeGroup(groups, q) then Empty else At(b, q)
    decreases |groups|
  {
    if groups == [] then b
    else
      var r := RemoveGroups(ClearStones(b, groups[0].stones), groups[1..]);
      assert forall q :: InSomeGroup(groups, q) <==> q in groups[0].stones || InSomeGroup(groups[1..], q) by {
        forall q ensures InSomeGroup(groups, q) <==> q in groups[0].stones || InSomeGroup(groups[1..], q) {
          if InSomeGroup(groups[1..], q) {
            var i :| 0 <= i < |groups[1..]| && q in groups[1..][i].stones;
            assert q in groups[i + 1].stones;
          }
        }
      }
      r
  }

  /** How a `play` on a free game ends, before the flags are written. */
  datatype Outcome =
    | Occupied
    | Suicide(reverted: Grid)
    | Placed(board: Grid, captured: seq<Group>, atari: bool)

  /** The board work of `play` after the game-over check: refuse an occupied
      point; otherwise place the mover's stone, scan the neighbours, undo a
      suicide, or remove the captured groups. */
  function Attempt(g: Game, p: Pos): (r: Outcome)
    requires Valid(g) && InBounds(g.size, p)
    ensures r.Occupied? <==> At(g.board, p) != Empty
    ensures r.Suicide? ==> r.reverted == g.board
    ensures r.Placed? ==> |r.board| == g.size && Square(r.board) && At(r.board, p) == g.current
  {
    if At(g.board, p) != Empty then Occupied
    else
      var b1 := Put(g.board, p, g.current);
      var scan := ScanNeighbours(b1, g.current, AdjacentPoints(g.size, p));
      if |scan.captured| == 0 && GetGroup(b1, p).value.liberties == 0 then
        PutRestores(g.board, p, g.current);
        Suicide(Put(b1, p, Empty))
      else
        CaptureListStones(b1, g.current, p);
        PlayedPointNotCaptured(b1, g.current, p);
        Placed(RemoveGroups(b1, scan.captured), scan.captured, scan.atari)
  }

  /** The board right after `this._board[col][row] = this._currentColor`. */
  function Tentative(g: Game, p: Pos): (b: Grid)
    requires Valid(g) && InBounds(g.size, p)
    ensures |b| == g.size && Square(b)
  {
    Put(g.board, p, g.current)
  }

  /** `play(col, row)`. A row off the board reads `undefined`, which is not
      `EMPTY`, so such a move is refused like one on an occupied point. */
  function Play(g: Game, p: Pos): (r: Result<Turn, GameError>)
    requires Valid(g)
    ensures r.Failure? <==> g.gameOver || !(0 <= p.col < g.size)
    ensures r.Failure? ==> (r.error == GameAlreadyOver <==> g.gameOver)
    ensures r.Failure? && r.error.NoSuchColumn? ==>
              && r.error.left.board == g.board && r.error.left.current == g.current
              && !r.error.left.inAtari && !r.error.left.attemptedSuicide
    ensures r.Success? ==> Valid(r.value.game) && r.value.game.size == g.size && !r.value.game.gameOver
    ensures r.Success? && (!InBounds(g.size, p) || At(g.board, p) != Empty) ==>
              && !r.value.placed
              && !r.value.game.attemptedSuicide
    ensures r.Success? && !r.value.placed ==>
              && r.value.game.board == g.board
              && r.value.game.current == g.current
              && r.value.game.lastMovePassed == g.lastMovePassed
              && !r.value.game.inAtari
              && (r.value.game.attemptedSuicide <==> InBounds(g.size, p) && At(g.board, p) == Empty)
    ensures r.Success? && r.value.placed ==>
              && InBounds(g.size, p)
              && At(g.board, p) == Empty
              && At(r.value.game.board, p) == g.current
              && r.value.game.current == Switch(g.current)
              && !r.value.game.lastMovePassed
              && !r.value.game.attemptedSuicide
  {
    if g.gameOver then Failure(GameAlreadyOver)
    else
      var cleared := g.(inAtari := false, attemptedSuicide := false);
      if !(0 <= p.col < g.size) then Failure(NoSuchColumn(cleared))
      else if !InBounds(g.size, p) then Success(Turn(cleared, false))
      else Success(PlayOnBoard(g, p))
  }

  /** `play(col, row)` on a free game and a point of the board: the flags
      written after `Attempt`. */
  function PlayOnBoard(g: Game, p: Pos): (t: Turn)
    requires Valid(g) && InBounds(g.size, p) && !g.gameOver
    ensures Valid(t.game) && t.game.size == g.size && !t.game.gameOver
    ensures !t.placed ==>
              && t.game.board == g.board && t.game.current == g.current
              && t.game.lastMovePassed == g.lastMovePassed && !t.game.inAtari
              && (t.game.attemptedSuicide <==> At(g.board, p) == Empty)
    ensures t.placed ==>
              && At(g.board, p) == Empty
              && At(t.game.board, p) == g.current
              && t.game.current == Switch(g.current)
              && !t.game.lastMovePassed && !t.game.attemptedSuicide
  {
    var cleared := g.(inAtari := false, attemptedSuicide := false);
    match Attempt(g, p)
    case Occupied => Turn(cleared, false)
    case Suicide(b) =>
      Turn(cleared.(board := b, attemptedSuicide := true), false)
    case Placed(b, _, atari) =>
      Turn(cleared.(board := b, inAtari := atari, lastMovePassed := false, current := Switch(g.current)), true)
  }

  /** A zero-liberty opposing group next to `p` contains `q`. */
  ghost predicate Captured(b: Grid, mover: Cell, p: Pos, q: Pos)
    requires Square(b) && InBounds(|b|, p)
  {
    exists n :: n in AdjacentPoints(|b|, p) && Opposes(b, mover, n) && LibertyCount(b, n) == 0 && q in Component(b, n)
  }

  /** The stones on the capture list are exactly the stones of the zero-liberty
      opposing groups around `p`. */
  lemma CaptureListStones(b: Grid, mover: Cell, p: Pos)
    requires Square(b) && InBounds(|b|, p)
    ensures var scan := ScanNeighbours(b, mover, AdjacentPoints(|b|, p));
            forall q :: InSomeGroup(scan.captured, q) <==> Captured(b, mover, p, q)
  {
    var ns := AdjacentPoints(|b|, p);
    var scan := ScanNeighbours(b, mover, ns);
    var sites := CaptureSites(b, mover, ns);
    ScanGroups(b, mover, ns);
    forall q
      ensures InSomeGroup(scan.captured, q) <==> Captured(b, mover, p, q)
    {
      if InSomeGroup(scan.captured, q) {
        var i :| 0 <= i < |scan.captured| && q in scan.captured[i].stones;
        assert sites[i] in sites;
      }
      if Captured(b, mover, p, q) {
        var n :| n in ns && Opposes(b, mover, n) && LibertyCount(b, n) == 0 && q in Component(b, n);
        assert n in sites;
        var i :| 0 <= i < |sites| && sites[i] == n;
        assert IsGroupOf(b, scan.captured[i], n);
      }
    }
  }

  /** The played point is never part of a captured group: those groups hold
      the other colour. */
  lemma PlayedPointNotCaptured(b: Grid, mover: Cell, p: Pos)
    requires Square(b) && InBounds(|b|, p) && At(b, p) == mover
    ensures !Captured(b, mover, p, p)
  {
    forall n | n in AdjacentPoints(|b|, p) && Opposes(b, mover, n)
      ensures p !in Component(b, n)
    {
      ComponentColour(b, n);
    }
  }

  /** A play that is not refused for an occupied point fails exactly when it
      captures nothing and the placed stone's own group is left without a
      liberty; the suicide flag then reports it. */
  lemma PlaySuicide(g: Game, p: Pos)
    requires Valid(g) && InBounds(g.size, p) && !g.gameOver && At(g.board, p) == Empty
    ensures var b1 := Tentative(g, p);
            !Play(g, p).value.placed <==>
              && (forall n :: n in AdjacentPoints(g.size, p) && Opposes(b1, g.current, n) ==> LibertyCount(b1, n) != 0)
              && LibertyCount(b1, p) == 0
    ensures !Play(g, p).value.placed ==> Play(g, p).value.game.attemptedSuicide
  {
    var b1 := Tentative(g, p);
    var ns := AdjacentPoints(g.size, p);
    var sites := CaptureSites(b1, g.current, ns);
    if |sites| != 0 {
      assert sites[0] in sites;
    }
  }

  /** The board after a successful play: the played point holds the mover's
      stone, every stone of a zero-liberty opposing group next to it is
      removed, and every other point keeps its state. */
  lemma PlayBoard(g: Game, p: Pos)
    requires Valid(g) && InBounds(g.size, p) && !g.gameOver && Play(g, p).value.placed
    ensures forall q :: InBounds(g.size, q) ==>
              At(Play(g, p).value.game.board, q) ==
                if q == p then g.current
                else if Captured(Tentative(g, p), g.current, p, q) then Empty
                else At(g.board, q)
  {
    var b1 := Tentative(g, p);
    CaptureListStones(b1, g.current, p);
    PlayedPointNotCaptured(b1, g.current, p);
  }

  /** Only opposing stones disappear: a point other than the played one that
      changes held the other player's stone and becomes empty. */
  lemma PlayRemovesOnlyOpponent(g: Game, p: Pos, q: Pos)
    requires Valid(g) && InBounds(g.size, p) && InBounds(g.size, q) && q != p
    requires !g.gameOver && Play(g, p).value.placed
    requires At(Play(g, p).value.game.board, q) != At(g.board, q)
    ensures At(g.board, q) == Switch(g.current)
    ensures At(Play(g, p).value.game.board, q) == Empty
  {
    var b1 := Tentative(g, p);
    PlayBoard(g, p);
    assert Captured(b1, g.current, p, q);
    var n :| n in AdjacentPoints(|b1|, p) && Opposes(b1, g.current, n) && LibertyCount(b1, n) == 0 && q in Component(b1, n);
    ComponentColour(b1, n);
  }

  /** After a successful play the atari flag is raised exactly when some
      opposing neighbour group has a liberty count, with multiplicity, of one. */
  lemma PlayAtari(g: Game, p: Pos)
    requires Valid(g) && InBounds(g.size, p) && !g.gameOver && Play(g, p).value.placed
    ensures Play(g, p).value.game.inAtari <==>
            exists n :: n in AdjacentPoints(g.size, p) && Opposes(Tentative(g, p), g.current, n) &&
                        LibertyCount(Tentative(g, p), n) == 1
  {
    var b1 := Tentative(g, p);
    var ns := AdjacentPoints(g.size, p);
    ScanAtari(b1, g.current, ns);
    var scan := ScanNeighbours(b1, g.current, ns);
    assert Attempt(g, p).atari == scan.atari;
    assert Play(g, p).value.game.inAtari == scan.atari;
  }

  /** `endGame()`. */
  function EndGame(g: Game): (r: Game)
    ensures r.gameOver
    ensures r.(gameOver := g.gameOver) == g
  {
    g.(gameOver := true)
  }

  /** `pass()`: a pass right after a pass ends the game; otherwise it records
      the pass and hands the turn over. */
  function Pass(g: Game): (r: Game)
    ensures r.size == g.size && r.board == g.board
    ensures r.inAtari == g.inAtari && r.attemptedSuicide == g.attemptedSuicide
    ensures r.lastMovePassed
    ensures g.lastMovePassed ==> r.gameOver && r.current == g.current
    ensures !g.lastMovePassed ==> r.gameOver == g.gameOver && r.current == Switch(g.current)
    ensures Valid(g) ==> Valid(r)
  {
    if g.lastMovePassed then EndGame(g)
    else g.(lastMovePassed := true, current := Switch(g.current))
  }

  /** Two passes in a row always end the game. */
  lemma TwoPassesEndGame(g: Game)
    ensures Pass(Pass(g)).gameOver
  {
  }

  /** From a fresh game one pass hands the turn to White without ending the
      game, and a second pass ends it. */
  lemma FreshGamePasses(size: nat)
    ensures !Pass(NewGame(size)).gameOver && Pass(NewGame(size)).current == White
    ensures Pass(Pass(NewGame(size))).gameOver
  {
  }

  /** Once over, a game stays over: `play` throws, `pass` and `endGame` keep
      it over. */
  lemma OverIsTerminal(g: Game, p: Pos)
    requires Valid(g) && InBounds(g.size, p) && g.gameOver
    ensures Play(g, p) == Failure(GameAlreadyOver)
    ensures Pass(g).gameOver && EndGame(g).gameOver
  {
  }
}
