/** Groups and liberties: the flood fill of `_getGroup`, and the declarative
    notions (chains, connected components, liberty pairs) it is proved against. */
module Groups {
  import opened Wrappers
  import opened Board

  /** What `_getGroup` returns: the stones it visited, in visiting order, and
      its liberty counter. */
  datatype Group = Group(stones: seq<Pos>, liberties: nat)

  /** A non-empty walk over board points, each step to an orthogonal neighbour
      of the same colour. */
  ghost predicate IsChain(b: Grid, path: seq<Pos>)
    requires Square(b)
    decreases |path|
  {
    && |path| > 0
    && InBounds(|b|, path[0])
    && (|path| > 1 ==>
          && path[1] in AdjacentPoints(|b|, path[0])
          && At(b, path[1]) == At(b, path[0])
          && IsChain(b, path[1..]))
  }

  /** `q` is reached from `s` through points of the colour of `s`. */
  ghost predicate Connected(b: Grid, s: Pos, q: Pos)
    requires Square(b)
  {
    exists path :: IsChain(b, path) && path[0] == s && path[|path| - 1] == q
  }

  /** The same-colour orthogonally connected component of `s`. */
  ghost function Component(b: Grid, s: Pos): set<Pos>
    requires Square(b)
  {
    set q | q in AllPositions(|b|) && Connected(b, s, q)
  }

  /** Every (member, Empty neighbour) pair of a set of stones: the source counts
      a liberty once per such pair, not once per distinct empty point. */
  ghost function LibertyPairs(b: Grid, stones: set<Pos>): set<(Pos, Pos)>
    requires Square(b)
  {
    set s, n | s in stones && InBounds(|b|, s) && n in AdjacentPoints(|b|, s) && At(b, n) == Empty :: (s, n)
  }

  /** The liberty count, with multiplicity, of the group containing `p`. */
  ghost function LibertyCount(b: Grid, p: Pos): nat
    requires Square(b)
  {
    |LibertyPairs(b, Component(b, p))|
  }

  /** Every same-colour neighbour of a point of `inside` is in `inside` or still
      waiting in `pending`. */
  ghost predicate Closed(b: Grid, c: Cell, inside: set<Pos>, pending: seq<Pos>)
    requires Square(b)
  {
    forall v, n ::
      v in inside && InBounds(|b|, v) && n in AdjacentPoints(|b|, v) && At(b, n) == c ==>
        n in inside || n in pending
  }

  lemma ConnectedRefl(b: Grid, s: Pos)
    requires Square(b) && InBounds(|b|, s)
    ensures Connected(b, s, s)
  {
    assert IsChain(b, [s]);
  }

  /** A chain ends on a point of its first point's colour. */
  lemma {:induction false} ChainColour(b: Grid, path: seq<Pos>)
    requires Square(b) && IsChain(b, path)
    ensures InBounds(|b|, path[|path| - 1]) && At(b, path[|path| - 1]) == At(b, path[0])
    decreases |path|
  {
    if |path| > 1 {
      ChainColour(b, path[1..]);
    }
  }

  /** A chain grows at its end by one same-coloured neighbour. */
  lemma {:induction false} ChainAppend(b: Grid, path: seq<Pos>, n: Pos)
    requires Square(b) && IsChain(b, path)
    requires InBounds(|b|, path[|path| - 1]) && n in AdjacentPoints(|b|, path[|path| - 1])
    requires InBounds(|b|, n) && At(b, n) == At(b, path[|path| - 1])
    ensures IsChain(b, path + [n])
    decreases |path|
  {
    var ext := path + [n];
    assert ext[0] == path[0];
    if |path| == 1 {
      assert IsChain(b, [n]);
      assert ext[1..] == [n];
    } else {
      var tail := path[1..];
      assert tail[|tail| - 1] == path[|path| - 1];
      ChainAppend(b, tail, n);
      assert ext[1..] == tail + [n];
      assert ext[1] == path[1];
    }
  }

  /** Connectivity extends by one same-coloured neighbour. */
  lemma ConnectedStep(b: Grid, s: Pos, q: Pos, n: Pos)
    requires Square(b) && InBounds(|b|, s) && InBounds(|b|, q)
    requires Connected(b, s, q) && n in AdjacentPoints(|b|, q) && At(b, n) == At(b, s)
    ensures Connected(b, s, n)
  {
    var path :| IsChain(b, path) && path[0] == s && path[|path| - 1] == q;
    ChainColour(b, path);
    ChainAppend(b, path, n);
    var path' := path + [n];
    assert path'[0] == s && path'[|path'| - 1] == n;
  }

  /** Connected points share a colour. */
  lemma ConnectedColour(b: Grid, s: Pos, q: Pos)
    requires Square(b) && Connected(b, s, q)
    ensures InBounds(|b|, s) && InBounds(|b|, q) && At(b, q) == At(b, s)
  {
    var path :| IsChain(b, path) && path[0] == s && path[|path| - 1] == q;
    ChainColour(b, path);
  }

  /** A chain that starts in a closed set of its colour never leaves it. */
  lemma {:induction false} ChainInside(b: Grid, c: Cell, inside: set<Pos>, path: seq<Pos>)
    requires Square(b) && IsChain(b, path) && At(b, path[0]) == c
    requires path[0] in inside && Closed(b, c, inside, [])
    ensures path[|path| - 1] in inside
    decreases |path|
  {
    if |path| > 1 {
      ChainInside(b, c, inside, path[1..]);
    }
  }

  /** A closed set holding `s` holds the whole component of `s`. */
  lemma ComponentWithin(b: Grid, c: Cell, inside: set<Pos>, s: Pos)
    requires Square(b) && InBounds(|b|, s) && At(b, s) == c
    requires s in inside && Closed(b, c, inside, [])
    ensures Component(b, s) <= inside
  {
    forall q | q in Component(b, s)
      ensures q in inside
    {
      var path :| IsChain(b, path) && path[0] == s && path[|path| - 1] == q;
      ChainInside(b, c, inside, path);
    }
  }

  lemma {:induction false} PairCount(p: Pos, ns: seq<Pos>)
    requires Distinct(ns)
    ensures |set n | n in ns :: (p, n)| == |ns|
  {
    if ns != [] {
      PairCount(p, ns[1..]);
      assert (set n | n in ns :: (p, n)) == {(p, ns[0])} + (set n | n in ns[1..] :: (p, n));
    }
  }

  /** Visiting one more stone adds exactly its Empty neighbours to the liberty pairs. */
  lemma LibertyPairsAdd(b: Grid, stones: set<Pos>, p: Pos)
    requires Square(b) && InBounds(|b|, p) && p !in stones
    ensures |LibertyPairs(b, stones + {p})|
         == |LibertyPairs(b, stones)| + |Holding(b, Empty, AdjacentPoints(|b|, p))|
  {
    var ns := Holding(b, Empty, AdjacentPoints(|b|, p));
    var own := set n | n in ns :: (p, n);
    assert LibertyPairs(b, stones + {p}) == LibertyPairs(b, stones) + own;
    assert LibertyPairs(b, stones) * own == {};
    PairCount(p, ns);
  }

  /** Popping the last element of a queue: an element of the queue is the one
      popped or stays behind, and what stays behind was in the queue. */
  lemma PopMembers(stack: seq<Pos>)
    requires stack != []
    ensures forall q :: q in stack <==> q == stack[|stack| - 1] || q in stack[..|stack| - 1]
  {
    assert stack == stack[..|stack| - 1] + [stack[|stack| - 1]];
  }

  /** Connectivity half of the flood fill's invariant: everything seen or
      queued lies in `comp` (the component being filled), and `start` itself is
      seen or queued. */
  ghost predicate Reached(stack: seq<Pos>, visited: set<Pos>, start: Pos, comp: set<Pos>)
  {
    && (forall q :: q in stack ==> q in comp)
    && visited <= comp
    && (start in visited || start in stack)
  }

  /** Bookkeeping half of the flood fill's invariant: seen and queued stones
      are on the board, `order` lists the seen stones once each, every neighbour
      of colour `c` of a seen stone is seen or queued, and `libs` counts the
      seen stones' liberty pairs. */
  ghost predicate Tracked(b: Grid, c: Cell, stack: seq<Pos>, visited: set<Pos>, order: seq<Pos>, libs: nat)
    requires Square(b)
  {
    && (forall q :: q in stack ==> InBounds(|b|, q))
    && (forall q :: q in visited ==> InBounds(|b|, q))
    && Distinct(order) && (forall q :: q in order <==> q in visited)
    && Closed(b, c, visited, stack)
    && libs == |LibertyPairs(b, visited)|
  }

  /** A component holds its own stone and every same-coloured neighbour of its members. */
  lemma ComponentClosed(b: Grid, s: Pos)
    requires Square(b) && InBounds(|b|, s)
    ensures s in Component(b, s)
    ensures Closed(b, At(b, s), Component(b, s), [])
  {
    ConnectedRefl(b, s);
    forall v, n | v in Component(b, s) && InBounds(|b|, v) && n in AdjacentPoints(|b|, v) && At(b, n) == At(b, s)
      ensures n in Component(b, s)
    {
      ConnectedStep(b, s, v, n);
    }
  }

  /** Popping a stone that was already seen keeps the connectivity half. */
  lemma ReachedSkip(stack: seq<Pos>, visited: set<Pos>, start: Pos, comp: set<Pos>)
    requires Reached(stack, visited, start, comp)
    requires stack != [] && stack[|stack| - 1] in visited
    ensures Reached(stack[..|stack| - 1], visited, start, comp)
  {
    PopMembers(stack);
  }

  /** Visiting a new stone keeps the connectivity half, because the component
      is closed under same-coloured neighbours. */
  lemma ReachedVisit(b: Grid, c: Cell, stack: seq<Pos>, visited: set<Pos>, start: Pos, comp: set<Pos>)
    requires Square(b) && Closed(b, c, comp, [])
    requires Reached(stack, visited, start, comp)
    requires stack != [] && InBounds(|b|, stack[|stack| - 1])
    ensures var p := stack[|stack| - 1];
            Reached(stack[..|stack| - 1] + Holding(b, c, AdjacentPoints(|b|, p)), visited + {p}, start, comp)
  {
    var p := stack[|stack| - 1];
    PopMembers(stack);
    assert p in comp;
  }

  /** Popping a stone that was already seen keeps the bookkeeping half. */
  lemma TrackedSkip(b: Grid, c: Cell, stack: seq<Pos>, visited: set<Pos>, order: seq<Pos>, libs: nat)
    requires Square(b) && Tracked(b, c, stack, visited, order, libs)
    requires stack != [] && stack[|stack| - 1] in visited
    ensures Tracked(b, c, stack[..|stack| - 1], visited, order, libs)
  {
    var p := stack[|stack| - 1];
    var rest := stack[..|stack| - 1];
    assert stack == rest + [p];
    forall v, n | v in visited && InBounds(|b|, v) && n in AdjacentPoints(|b|, v) && At(b, n) == c
      ensures n in visited || n in rest
    {
      assert n in visited || n in stack;
    }
  }

  /** Visiting a new stone keeps the bookkeeping half. */
  lemma TrackedVisit(b: Grid, c: Cell, stack: seq<Pos>, visited: set<Pos>, order: seq<Pos>, libs: nat)
    requires Square(b) && Tracked(b, c, stack, visited, order, libs)
    requires stack != [] && stack[|stack| - 1] !in visited
    ensures var p := stack[|stack| - 1];
            var ns := AdjacentPoints(|b|, p);
            Tracked(b, c, stack[..|stack| - 1] + Holding(b, c, ns), visited + {p}, order + [p],
                    libs + |Holding(b, Empty, ns)|)
  {
    var p := stack[|stack| - 1];
    var rest := stack[..|stack| - 1];
    var ns := AdjacentPoints(|b|, p);
    var same := Holding(b, c, ns);
    var stack' := rest + same;
    var order' := order + [p];
    assert forall q :: q in stack' ==> InBounds(|b|, q) by {
      PopMembers(stack);
    }
    assert Distinct(order') && (forall q :: q in order' <==> q in visited + {p}) by {
      forall i, j | 0 <= i < j < |order'|
        ensures order'[i] != order'[j]
      {
        assert order'[i] == order[i] && order[i] in order;
      }
    }
    assert Closed(b, c, visited + {p}, stack') by {
      PopMembers(stack);
      forall v, n | v in visited + {p} && InBounds(|b|, v) && n in AdjacentPoints(|b|, v) && At(b, n) == c
        ensures n in visited + {p} || n in stack'
      {
        if v == p {
          assert n in same;
        } else {
          assert n in visited || n in stack;
        }
      }
    }
    LibertyPairsAdd(b, visited, p);
  }

  /** Once the queue is empty, the seen stones are exactly the component. */
  lemma FillDone(b: Grid, c: Cell, visited: set<Pos>, order: seq<Pos>, libs: nat, start: Pos)
    requires Square(b) && InBounds(|b|, start) && At(b, start) == c
    requires Reached([], visited, start, Component(b, start)) && Tracked(b, c, [], visited, order, libs)
    ensures visited == Component(b, start)
  {
    ComponentWithin(b, c, visited, start);
  }

  /** The flood fill of `_getGroup`: pop the last queued stone, skip it if seen,
      otherwise count its Empty neighbours as liberties, queue its neighbours of
      the group's colour `c`, and record it as visited. The ghost `start` is the
      stone the fill began from. */
  function Fill(b: Grid, c: Cell, stack: seq<Pos>, visited: set<Pos>, order: seq<Pos>, libs: nat,
                ghost start: Pos): (g: Group)
    requires Square(b) && InBounds(|b|, start) && At(b, start) == c
    requires Closed(b, c, Component(b, start), [])
    requires Reached(stack, visited, start, Component(b, start)) && Tracked(b, c, stack, visited, order, libs)
    ensures Distinct(g.stones)
    ensures forall q :: q in g.stones <==> q in Component(b, start)
    ensures g.liberties == |LibertyPairs(b, Component(b, start))|
    decreases AllPositions(|b|) - visited, |stack|
  {
    if stack == [] then
      FillDone(b, c, visited, order, libs, start);
      Group(order, libs)
    else
      var p := stack[|stack| - 1];
      var rest := stack[..|stack| - 1];
      if p in visited then
        ReachedSkip(stack, visited, start, Component(b, start));
        TrackedSkip(b, c, stack, visited, order, libs);
        Fill(b, c, rest, visited, order, libs, start)
      else
        var ns := AdjacentPoints(|b|, p);
        ReachedVisit(b, c, stack, visited, start, Component(b, start));
        TrackedVisit(b, c, stack, visited, order, libs);
        assert p in AllPositions(|b|) - visited;
        Fill(b, c, rest + Holding(b, c, ns), visited + {p}, order + [p], libs + |Holding(b, Empty, ns)|, start)
  }

  /** `_getGroup(col, row)`: nothing for an empty point, otherwise the group of
      the stone there. */
  function GetGroup(b: Grid, p: Pos): (r: Option<Group>)
    requires Square(b) && InBounds(|b|, p)
    ensures r.None? <==> At(b, p) == Empty
    ensures r.Some? ==> Distinct(r.value.stones)
    ensures r.Some? ==> forall q :: q in r.value.stones <==> q in Component(b, p)
    ensures r.Some? ==> r.value.liberties == LibertyCount(b, p)
  {
    if At(b, p) == Empty then None
    else
      ComponentClosed(b, p);
      assert LibertyPairs(b, {}) == {};
      assert Reached([p], {}, p, Component(b, p)) && Tracked(b, At(b, p), [p], {}, [], 0);
      Some(Fill(b, At(b, p), [p], {}, [], 0, p))
  }

  /** A group has no liberty exactly when none of its stones touches an empty
      point; multiplicity does not matter for zero. */
  lemma NoLibertiesIff(b: Grid, p: Pos)
    requires Square(b)
    ensures LibertyCount(b, p) == 0 <==>
            forall s, n :: s in Component(b, p) && InBounds(|b|, s) && n in AdjacentPoints(|b|, s) ==> At(b, n) != Empty
  {
    NoPairsIff(b, Component(b, p));
  }

  lemma NoPairsIff(b: Grid, stones: set<Pos>)
    requires Square(b)
    ensures |LibertyPairs(b, stones)| == 0 <==>
            forall s, n :: s in stones && InBounds(|b|, s) && n in AdjacentPoints(|b|, s) ==> At(b, n) != Empty
  {
    var pairs := LibertyPairs(b, stones);
    forall s, n | s in stones && InBounds(|b|, s) && n in AdjacentPoints(|b|, s) && At(b, n) == Empty
      ensures (s, n) in pairs
    {
    }
    if |pairs| != 0 {
      var pair :| pair in pairs;
      assert pair.0 in stones && InBounds(|b|, pair.0) && pair.1 in AdjacentPoints(|b|, pair.0);
      assert At(b, pair.1) == Empty;
    }
  }

  /** The distinct empty points next to a set of stones: what the game of Go
      calls the liberties of a group. */
  ghost function LibertyPoints(b: Grid, stones: set<Pos>): set<Pos>
    requires Square(b)
  {
    set s, n | s in stones && InBounds(|b|, s) && n in AdjacentPoints(|b|, s) && At(b, n) == Empty :: n
  }

  /** The second components of a set of pairs. */
  ghost function Seconds(pairs: set<(Pos, Pos)>): set<Pos> {
    set x | x in pairs :: x.1
  }

  /** Projecting a set of pairs never makes it larger. */
  lemma {:induction false} SecondsBound(pairs: set<(Pos, Pos)>)
    ensures |Seconds(pairs)| <= |pairs|
    decreases |pairs|
  {
    if pairs != {} {
      var x :| x in pairs;
      var rest := pairs - {x};
      SecondsBound(rest);
      assert Seconds(pairs) == Seconds(rest) + {x.1};
    }
  }

  /** The (stone, empty neighbour) pairs of a set of stones are at least as
      many as its distinct liberty points, and none exactly when there is none. */
  lemma PairsVersusPoints(b: Grid, stones: set<Pos>)
    requires Square(b)
    ensures |LibertyPoints(b, stones)| <= |LibertyPairs(b, stones)|
    ensures |LibertyPairs(b, stones)| == 0 <==> LibertyPoints(b, stones) == {}
  {
    var pairs := LibertyPairs(b, stones);
    PointsAreSeconds(b, stones);
    SecondsBound(pairs);
    if pairs != {} {
      var x :| x in pairs;
      assert x.1 in Seconds(pairs);
    }
  }

  /** The liberty points are the empty ends of the liberty pairs. */
  lemma PointsAreSeconds(b: Grid, stones: set<Pos>)
    requires Square(b)
    ensures LibertyPoints(b, stones) == Seconds(LibertyPairs(b, stones))
  {
    var pairs := LibertyPairs(b, stones);
    forall n | n in LibertyPoints(b, stones)
      ensures n in Seconds(pairs)
    {
      var s :| s in stones && InBounds(|b|, s) && n in AdjacentPoints(|b|, s) && At(b, n) == Empty;
      assert (s, n) in pairs;
    }
    forall n | n in Seconds(pairs)
      ensures n in LibertyPoints(b, stones)
    {
      var x :| x in pairs && x.1 == n;
    }
  }

  /** The liberty count with multiplicity is at least the number of distinct
      liberty points of the group, and zero exactly when there is none. */
  lemma LibertyCountVersusPoints(b: Grid, p: Pos)
    requires Square(b)
    ensures |LibertyPoints(b, Component(b, p))| <= LibertyCount(b, p)
    ensures LibertyCount(b, p) == 0 <==> LibertyPoints(b, Component(b, p)) == {}
  {
    PairsVersusPoints(b, Component(b, p));
  }

  /** An L of three black stones in the corner of a 2 by 2 board, the fourth
      point empty: the column-major grid `[[Black, Black], [Black, Empty]]`. */
  const Corner: Grid := [[Black, Black], [Black, Empty]]

  /** The three black stones of `Corner` are closed under black neighbours. */
  lemma CornerClosed()
    ensures Square(Corner)
    ensures Closed(Corner, Black, {Pos(0, 0), Pos(0, 1), Pos(1, 0)}, [])
  {
    var b := Corner;
    assert Square(b) && |b| == 2;
    CornerNeighbours();
    assert At(b, Pos(1, 1)) == Empty;
  }

  /** The three black stones of `Corner` are joined to its corner stone. */
  lemma CornerConnected()
    ensures Square(Corner)
    ensures Connected(Corner, Pos(0, 0), Pos(0, 0))
    ensures Connected(Corner, Pos(0, 0), Pos(0, 1))
    ensures Connected(Corner, Pos(0, 0), Pos(1, 0))
  {
    var b := Corner;
    assert Square(b) && |b| == 2;
    CornerNeighbours();
    ConnectedRefl(b, Pos(0, 0));
    ConnectedStep(b, Pos(0, 0), Pos(0, 0), Pos(0, 1));
    ConnectedStep(b, Pos(0, 0), Pos(0, 0), Pos(1, 0));
  }

  /** A closed set of stones all joined to `s` is exactly the component of `s`. */
  lemma ComponentEquals(b: Grid, s: Pos, stones: set<Pos>)
    requires Square(b) && InBounds(|b|, s) && s in stones
    requires Closed(b, At(b, s), stones, [])
    requires forall q :: q in stones ==> InBounds(|b|, q) && Connected(b, s, q)
    ensures Component(b, s) == stones
  {
    ComponentWithin(b, At(b, s), stones, s);
  }

  /** The black stones of `Corner` form one group. */
  lemma CornerComponent()
    ensures Square(Corner)
    ensures Component(Corner, Pos(0, 0)) == {Pos(0, 0), Pos(0, 1), Pos(1, 0)}
  {
    var b := Corner;
    var stones := {Pos(0, 0), Pos(0, 1), Pos(1, 0)};
    assert Square(b) && |b| == 2 && At(b, Pos(0, 0)) == Black;
    CornerClosed();
    CornerConnected();
    ComponentEquals(b, Pos(0, 0), stones);
  }

  /** The neighbours of the three black stones of `Corner`. */
  lemma CornerNeighbours()
    ensures AdjacentPoints(2, Pos(0, 0)) == [Pos(1, 0), Pos(0, 1)]
    ensures AdjacentPoints(2, Pos(0, 1)) == [Pos(1, 1), Pos(0, 0)]
    ensures AdjacentPoints(2, Pos(1, 0)) == [Pos(0, 0), Pos(1, 1)]
  {
  }

  /** The (stone, empty neighbour) pairs of the black stones of `Corner`. */
  lemma CornerPairs()
    ensures Square(Corner)
    ensures LibertyPairs(Corner, {Pos(0, 0), Pos(0, 1), Pos(1, 0)})
         == {(Pos(0, 1), Pos(1, 1)), (Pos(1, 0), Pos(1, 1))}
  {
    var b := Corner;
    assert Square(b) && |b| == 2;
    var stones := {Pos(0, 0), Pos(0, 1), Pos(1, 0)};
    var x, y := (Pos(0, 1), Pos(1, 1)), (Pos(1, 0), Pos(1, 1));
    CornerNeighbours();
    assert At(b, Pos(0, 0)) == Black && At(b, Pos(0, 1)) == Black;
    assert At(b, Pos(1, 0)) == Black && At(b, Pos(1, 1)) == Empty;
    forall pr | pr in LibertyPairs(b, stones)
      ensures pr == x || pr == y
    {
      var st, n :| st in stones && InBounds(|b|, st) && n in AdjacentPoints(|b|, st) && At(b, n) == Empty && pr == (st, n);
    }
    assert x in LibertyPairs(b, stones);
    assert y in LibertyPairs(b, stones);
  }

  /** Stones whose only liberty pairs are two pairs ending on the same empty
      point have two pairs but a single liberty point. */
  lemma TwoPairsOnePoint(b: Grid, stones: set<Pos>, x: (Pos, Pos), y: (Pos, Pos))
    requires Square(b)
    requires LibertyPairs(b, stones) == {x, y} && x != y && x.1 == y.1
    ensures |LibertyPairs(b, stones)| == 2
    ensures |LibertyPoints(b, stones)| == 1
  {
    assert |LibertyPairs(b, stones)| == 2 by {
      assert |{x, y}| == 2;
    }
    assert LibertyPoints(b, stones) == {x.1} by {
      PointsAreSeconds(b, stones);
      SecondsOfTwo(x, y);
    }
  }

  lemma SecondsOfTwo(x: (Pos, Pos), y: (Pos, Pos))
    requires x.1 == y.1
    ensures Seconds({x, y}) == {x.1}
  {
    assert x in {x, y};
  }

  /** On `Corner` the group has one liberty point, touched by two of its
      stones, so its liberty count is two. */
  lemma PairCountExceedsPoints()
    ensures Square(Corner)
    ensures LibertyCount(Corner, Pos(0, 0)) == 2
    ensures |LibertyPoints(Corner, Component(Corner, Pos(0, 0)))| == 1
  {
    CornerComponent();
    CornerPairs();
    TwoPairsOnePoint(Corner, {Pos(0, 0), Pos(0, 1), Pos(1, 0)},
                     (Pos(0, 1), Pos(1, 1)), (Pos(1, 0), Pos(1, 1)));
  }

  /** Every stone of a group has the colour of the stone it was computed from. */
  lemma ComponentColour(b: Grid, p: Pos)
    requires Square(b)
    ensures forall q :: q in Component(b, p) ==> InBounds(|b|, p) && InBounds(|b|, q) && At(b, q) == At(b, p)
  {
    forall q | q in Component(b, p)
      ensures InBounds(|b|, p) && InBounds(|b|, q) && At(b, q) == At(b, p)
    {
      ConnectedColour(b, p, q);
    }
  }

  /** Walking a chain backwards from a closed set of its colour stays inside it. */
  lemma {:induction false} ChainBackInside(b: Grid, c: Cell, inside: set<Pos>, path: seq<Pos>)
    requires Square(b) && IsChain(b, path) && At(b, path[0]) == c
    requires path[|path| - 1] in inside && Closed(b, c, inside, [])
    ensures path[0] in inside
    decreases |path|
  {
    if |path| > 1 {
      ChainBackInside(b, c, inside, path[1..]);
      AdjacentSymmetric(|b|, path[0], path[1]);
    }
  }

  /** The group is the same whichever of its stones it is computed from. */
  lemma SameComponent(b: Grid, p: Pos, q: Pos)
    requires Square(b) && q in Component(b, p)
    ensures Component(b, q) == Component(b, p)
    ensures LibertyCount(b, q) == LibertyCount(b, p)
  {
    ComponentColour(b, p);
    ComponentClosed(b, p);
    ComponentClosed(b, q);
    ComponentWithin(b, At(b, p), Component(b, p), q);
    var path :| IsChain(b, path) && path[0] == p && path[|path| - 1] == q;
    ChainBackInside(b, At(b, p), Component(b, q), path);
    ComponentWithin(b, At(b, p), Component(b, q), p);
  }

  /** A sequence without repetitions has as many distinct elements as entries. */
  lemma {:induction false} DistinctCard(s: seq<Pos>)
    requires Distinct(s)
    ensures |set x | x in s| == |s|
  {
    if s != [] {
      DistinctCard(s[1..]);
      assert (set x | x in s) == {s[0]} + (set x | x in s[1..]);
    }
  }

  /** The stones `_getGroup` returns are the component, each once, so their
      number is the size of the component. */
  lemma GroupSize(b: Grid, p: Pos)
    requires Square(b) && InBounds(|b|, p) && At(b, p) != Empty
    ensures p in GetGroup(b, p).value.stones
    ensures |GetGroup(b, p).value.stones| == |Component(b, p)|
  {
    var g := GetGroup(b, p).value;
    ComponentClosed(b, p);
    DistinctCard(g.stones);
    assert (set x | x in g.stones) == Component(b, p);
  }
}
