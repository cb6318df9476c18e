/** The scored copy of the Go engine bundled at `_index.js`: the same board,
    colour and flag behaviour as `Engine`, plus a per-colour capture score. */
module ScoredEngine {
  import opened Wrappers
  import opened Board
  import opened Groups
  import opened Engine

  /** `_score`, indexed by colour: Black's captures and White's captures. */
  datatype Score = Score(black: nat, white: nat)

  /** The fields of the scored `Game` object. */
  datatype ScoredGame = ScoredGame(game: Game, score: Score)

  /** What a scored `play` call leaves behind. */
  datatype ScoredTurn = ScoredTurn(state: ScoredGame, placed: bool)

  /** `new Game(size)` in the scored copy. */
  function NewScoredGame(size: nat): (s: ScoredGame)
    ensures s.game == NewGame(size)
    ensures s.score.black == 0 && s.score.white == 0
  {
    ScoredGame(NewGame(size), Score(0, 0))
  }

  /** `getScore(color)`: the colour's count; `_score[EMPTY]` is undefined. */
  function GetScoreOf(s: ScoredGame, c: Cell): (r: Option<nat>)
    ensures r.None? <==> c == Empty
    ensures c == Black ==> r == Some(s.score.black)
    ensures c == White ==> r == Some(s.score.white)
  {
    match c
    case Black => Some(s.score.black)
    case White => Some(s.score.white)
    case Empty => None
  }

  /** `getScore()`: both counts. */
  function GetScore(s: ScoredGame): (r: Score)
    ensures GetScoreOf(s, Black) == Some(r.black) && GetScoreOf(s, White) == Some(r.white)
  {
    s.score
  }

  /** `this._score[color] += k`. */
  function AddTo(sc: Score, c: Cell, k: nat): (r: Score)
    requires c != Empty
    ensures c == Black ==> r.black == sc.black + k && r.white == sc.white
    ensures c == White ==> r.white == sc.white + k && r.black == sc.black
  {
    if c == Black then sc.(black := sc.black + k) else sc.(white := sc.white + k)
  }

  /** The total of `stones.length` over a capture list. */
  function StonesOnList(groups: seq<Group>): nat {
    if groups == [] then 0 else |groups[0].stones| + StonesOnList(groups[1..])
  }

  /** The sum of a sequence of counts. */
  function Total(w: seq<nat>): nat {
    if w == [] then 0 else w[0] + Total(w[1..])
  }

  /** Every entry contributes to the sum. */
  lemma {:induction false} TotalTerm(w: seq<nat>, j: int)
    requires 0 <= j < |w|
    ensures Total(w) >= w[j]
  {
    if j > 0 {
      TotalTerm(w[1..], j - 1);
    }
  }

  /** Two different entries both contribute to the sum, whatever their values. */
  lemma {:induction false} TotalTwoTerms(w: seq<nat>, i: int, j: int)
    requires 0 <= i < j < |w|
    ensures Total(w) >= w[i] + w[j]
  {
    if i == 0 {
      TotalTerm(w[1..], j - 1);
    } else {
      TotalTwoTerms(w[1..], i - 1, j - 1);
    }
  }

  /** The size of the group at each capture site, entry by entry: a group
      reached from two sites appears twice. */
  ghost function SiteSizes(b: Grid, sites: seq<Pos>): (w: seq<nat>)
    requires Square(b)
    ensures |w| == |sites|
  {
    seq(|sites|, k requires 0 <= k < |sites| => |Component(b, sites[k])|)
  }

  /** The sizes of the groups at the given capture sites, added up entry by
      entry. */
  ghost function SitesWeight(b: Grid, sites: seq<Pos>): nat
    requires Square(b)
  {
    Total(SiteSizes(b, sites))
  }

  /** The captured-stone count the capture list yields equals the component
      sizes at the capture sites. */
  lemma {:induction false} StonesOnListWeight(b: Grid, groups: seq<Group>, sites: seq<Pos>)
    requires Square(b) && |groups| == |sites|
    requires forall i :: 0 <= i < |groups| ==> IsGroupOf(b, groups[i], sites[i])
    ensures StonesOnList(groups) == SitesWeight(b, sites)
  {
    if groups != [] {
      StonesOnListWeight(b, groups[1..], sites[1..]);
      assert IsGroupOf(b, groups[0], sites[0]);
      DistinctCard(groups[0].stones);
      assert (set x | x in groups[0].stones) == Component(b, sites[0]);
      assert SiteSizes(b, sites)[1..] == SiteSizes(b, sites[1..]);
    }
  }

  /** Two different capture sites both contribute their group's size, even
      when they reach the same group. */
  lemma SitesWeightTwoTerms(b: Grid, sites: seq<Pos>, i: int, j: int)
    requires Square(b) && 0 <= i < j < |sites|
    ensures SitesWeight(b, sites) >= |Component(b, sites[i])| + |Component(b, sites[j])|
  {
    TotalTwoTerms(SiteSizes(b, sites), i, j);
  }

  /** `play(col, row)` of the scored copy: the board, colour and flag work of
      `Attempt`, and on success the mover's score grows by the stone count of
      every entry of the capture list. */
  function Play(s: ScoredGame, p: Pos): (r: Result<ScoredTurn, GameError>)
    requires Valid(s.game)
    ensures r.Failure? <==> s.game.gameOver || !(0 <= p.col < s.game.size)
    ensures r.Success? && !r.value.placed ==> r.value.state.score == s.score
  {
    var g := s.game;
    if g.gameOver then Failure(GameAlreadyOver)
    else
      var cleared := g.(inAtari := false, attemptedSuicide := false);
      if !(0 <= p.col < g.size) then Failure(NoSuchColumn(cleared))
      else if !InBounds(g.size, p) then Success(ScoredTurn(ScoredGame(cleared, s.score), false))
      else match Attempt(g, p)
      case Occupied => Success(ScoredTurn(ScoredGame(cleared, s.score), false))
      case Suicide(b) =>
        Success(ScoredTurn(ScoredGame(cleared.(board := b, attemptedSuicide := true), s.score), false))
      case Placed(b, captured, atari) =>
        var g' := cleared.(board := b, inAtari := atari, lastMovePassed := false, current := Switch(g.current));
        Success(ScoredTurn(ScoredGame(g', AddTo(s.score, g.current, StonesOnList(captured))), true))
  }

  /** Apart from the score, the scored `play` has exactly the effect of the
      unscored one. */
  lemma PlaySameAsUnscored(s: ScoredGame, p: Pos)
    requires Valid(s.game)
    ensures Play(s, p).Failure? ==> Play(s, p).error == Engine.Play(s.game, p).error
    ensures Play(s, p).Success? <==> Engine.Play(s.game, p).Success?
    ensures Play(s, p).Success? ==>
              && Play(s, p).value.state.game == Engine.Play(s.game, p).value.game
              && Play(s, p).value.placed == Engine.Play(s.game, p).value.placed
  {
  }

  /** On a successful play only the mover's score changes, and it grows by the
      sizes of the zero-liberty opposing groups around the played point, one
      term per neighbour that reaches such a group. */
  lemma PlayScore(s: ScoredGame, p: Pos)
    requires Valid(s.game) && InBounds(s.game.size, p) && !s.game.gameOver
    requires Play(s, p).value.placed
    ensures var gained := SitesWeight(Tentative(s.game, p),
                                      CaptureSites(Tentative(s.game, p), s.game.current,
                                                   AdjacentPoints(s.game.size, p)));
            var after := Play(s, p).value.state.score;
            && (s.game.current == Black ==> after == Score(s.score.black + gained, s.score.white))
            && (s.game.current == White ==> after == Score(s.score.black, s.score.white + gained))
  {
    var g := s.game;
    var b1 := Tentative(g, p);
    var ns := AdjacentPoints(g.size, p);
    var scan := ScanNeighbours(b1, g.current, ns);
    ScanGroups(b1, g.current, ns);
    StonesOnListWeight(b1, scan.captured, CaptureSites(b1, g.current, ns));
    assert Attempt(g, p).captured == scan.captured;
  }

  /** A captured group that touches the played point on two sides is scored
      twice: the mover gains at least twice its size. */
  lemma DoubleScoring(s: ScoredGame, p: Pos, x: Pos, y: Pos)
    requires Valid(s.game) && InBounds(s.game.size, p) && !s.game.gameOver
    requires Play(s, p).value.placed
    requires x != y
    requires x in CaptureSites(Tentative(s.game, p), s.game.current, AdjacentPoints(s.game.size, p))
    requires y in CaptureSites(Tentative(s.game, p), s.game.current, AdjacentPoints(s.game.size, p))
    requires y in Component(Tentative(s.game, p), x)
    ensures var gain := 2 * |Component(Tentative(s.game, p), x)|;
            var after := Play(s, p).value.state.score;
            && (s.game.current == Black ==> after.black >= s.score.black + gain)
            && (s.game.current == White ==> after.white >= s.score.white + gain)
  {
    var b1 := Tentative(s.game, p);
    var sites := CaptureSites(b1, s.game.current, AdjacentPoints(s.game.size, p));
    var i :| 0 <= i < |sites| && sites[i] == x;
    var j :| 0 <= j < |sites| && sites[j] == y;
    SameComponent(b1, x, y);
    if i < j {
      SitesWeightTwoTerms(b1, sites, i, j);
    } else {
      SitesWeightTwoTerms(b1, sites, j, i);
    }
    PlayScore(s, p);
  }

  /** `pass()` of the scored copy. */
  function Pass(s: ScoredGame): (r: ScoredGame)
    ensures r.game == Engine.Pass(s.game) && r.score == s.score
  {
    ScoredGame(Engine.Pass(s.game), s.score)
  }

  /** `endGame()` of the scored copy. */
  function EndGame(s: ScoredGame): (r: ScoredGame)
    ensures r.game == Engine.EndGame(s.game) && r.score == s.score
  {
    ScoredGame(Engine.EndGame(s.game), s.score)
  }

  /** No operation lowers either score. */
  lemma ScoresNeverDecrease(s: ScoredGame, p: Pos)
    requires Valid(s.game)
    ensures Play(s, p).Success? ==>
              Play(s, p).value.state.score.black >= s.score.black &&
              Play(s, p).value.state.score.white >= s.score.white
    ensures Pass(s).score == s.score && EndGame(s).score == s.score
  {
  }
}
