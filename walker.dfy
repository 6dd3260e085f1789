/**
 * Walking the grid: `Coord::path`, the running position after each direction,
 * and `Coord::steps`, the last of those positions.
 */
module Walker {
  import opened Hex

  /** Where a walk from `start` over `dirs` ends: `Step` folded over `dirs` from the left. */
  function Walk(start: Coord, dirs: seq<Direction>): Coord
    decreases |dirs|
  {
    if dirs == [] then start else Step(Walk(start, dirs[..|dirs| - 1]), dirs[|dirs| - 1])
  }

  /**
   * `Coord::path`: a cursor starts at `start` and, for each direction in turn,
   * moves one step and reports where it now is. The i-th position reported is
   * where the first i + 1 directions lead; `start` itself is not reported.
   */
  method Path(start: Coord, dirs: seq<Direction>) returns (path: seq<Coord>)
    ensures |path| == |dirs|
    ensures forall i :: 0 <= i < |dirs| ==> path[i] == Walk(start, dirs[..i + 1])
  {
    var cursor := start;
    path := [];
    for i := 0 to |dirs|
      invariant |path| == i
      invariant cursor == Walk(start, dirs[..i])
      invariant forall k :: 0 <= k < i ==> path[k] == Walk(start, dirs[..k + 1])
    {
      assert dirs[..i + 1][..i] == dirs[..i];
      cursor := Step(cursor, dirs[i]);
      path := path + [cursor];
    }
  }

  /**
   * `Coord::steps`: the last position `Path` reports, or `Coord::default()`
   * when there is none. So an empty walk ends at the origin even when it
   * starts somewhere else.
   */
  method Steps(start: Coord, dirs: seq<Direction>) returns (c: Coord)
    ensures dirs != [] ==> c == Walk(start, dirs)
    ensures dirs == [] ==> c == Origin
  {
    var path := Path(start, dirs);
    if |path| == 0 {
      c := Origin;
    } else {
      c := path[|path| - 1];
      assert dirs[..|dirs|] == dirs;
    }
  }

  /** Walking `a` and then `b` ends where walking `a + b` does. */
  lemma {:induction false} WalkAppend(start: Coord, a: seq<Direction>, b: seq<Direction>)
    ensures Walk(start, a + b) == Walk(Walk(start, a), b)
    decreases |b|
  {
    if b == [] {
      assert a + b == a;
    } else {
      var front := b[..|b| - 1];
      WalkAppend(start, a, front);
      assert (a + b)[..|a + b| - 1] == a + front;
    }
  }

  /** Taking the first direction on its own and then the rest gives the same walk. */
  lemma WalkCons(start: Coord, d: Direction, rest: seq<Direction>)
    ensures Walk(start, [d] + rest) == Walk(Step(start, d), rest)
  {
    WalkAppend(start, [d], rest);
    assert [d][..0] == [];
  }

  /**
   * The end of a walk in closed form: each direction contributes its fixed
   * delta once per occurrence, whatever the order.
   */
  lemma {:induction false} WalkClosedForm(start: Coord, dirs: seq<Direction>)
    ensures var m := multiset(dirs);
      Walk(start, dirs) == Coord(
        start.x + m[NE] + m[SE] - m[NW] - m[SW],
        start.y + 2 * m[N] - 2 * m[S] + m[NW] + m[NE] - m[SW] - m[SE])
    decreases |dirs|
  {
    if dirs != [] {
      var front, last := dirs[..|dirs| - 1], dirs[|dirs| - 1];
      WalkClosedForm(start, front);
      assert dirs == front + [last];
      assert multiset(dirs) == multiset(front) + multiset{last};
      StepTranslates(Walk(start, front), last);
    }
  }

  /** Two walks over the same directions in any order end in the same cell. */
  lemma WalkOrderIndependent(start: Coord, a: seq<Direction>, b: seq<Direction>)
    requires multiset(a) == multiset(b)
    ensures Walk(start, a) == Walk(start, b)
  {
    WalkClosedForm(start, a);
    WalkClosedForm(start, b);
  }

  /** A walk from elsewhere is the same walk from the origin, shifted by the start. */
  lemma WalkTranslates(start: Coord, dirs: seq<Direction>)
    ensures Walk(start, dirs) == Coord(start.x + Walk(Origin, dirs).x, start.y + Walk(Origin, dirs).y)
  {
    WalkClosedForm(start, dirs);
    WalkClosedForm(Origin, dirs);
  }

  /** Every cell a walk from the origin reaches has an even coordinate sum. */
  lemma WalkParity(dirs: seq<Direction>)
    ensures (Walk(Origin, dirs).x + Walk(Origin, dirs).y) % 2 == 0
  {
    WalkClosedForm(Origin, dirs);
  }

  /** Each direction moves `HexDistance` by at most one, so a walk moves it by at most its length. */
  lemma {:induction false} WalkDistance(start: Coord, dirs: seq<Direction>)
    ensures HexDistance(Walk(start, dirs)) <= HexDistance(start) + |dirs|
    decreases |dirs|
  {
    if dirs != [] {
      var front := dirs[..|dirs| - 1];
      WalkDistance(start, front);
      StepDistance(Walk(start, front), dirs[|dirs| - 1]);
    }
  }

  /** `hops` never claims more moves than a walk to that cell actually took. */
  lemma HopsWithinWalkLength(dirs: seq<Direction>)
    ensures Hops(Walk(Origin, dirs)) <= |dirs|
  {
    WalkDistance(Origin, dirs);
    HopsVersusHexDistance(Walk(Origin, dirs));
  }

  /**
   * `hops` is not the fewest moves when a cell has more columns than rows:
   * NE, NE, SE reaches (3, 1), no shorter walk does, and `hops` gives 1.
   */
  lemma HopsUndercounts()
    ensures Walk(Origin, [NE, NE, SE]) == Coord(3, 1)
    ensures Hops(Coord(3, 1)) == 1
    ensures forall dirs :: Walk(Origin, dirs) == Coord(3, 1) ==> |dirs| >= 3
  {
    assert Walk(Origin, [NE, NE, SE]) == Coord(3, 1) by {
      WalkClosedForm(Origin, [NE, NE, SE]);
    }
    assert Hops(Coord(3, 1)) == 1 by {
      assert Min(Abs(3), Abs(1)) == 1;
    }
    forall dirs | Walk(Origin, dirs) == Coord(3, 1) ensures |dirs| >= 3 {
      WalkDistance(Origin, dirs);
    }
  }

  /** The program's walk tests: where three walks from the origin end. */
  lemma ApplyDirectionsExamples()
    ensures Walk(Origin, [NE, NE, NE]) == Coord(3, 3)
    ensures Walk(Origin, [NW, NW, SE, SE]) == Coord(0, 0)
    ensures Walk(Origin, [NE, NE, S, S]) == Coord(2, -2)
  {
    WalkClosedForm(Origin, [NE, NE, NE]);
    WalkClosedForm(Origin, [NW, NW, SE, SE]);
    WalkClosedForm(Origin, [NE, NE, S, S]);
  }

  /**
   * The program's path test: the prefixes of NE, NE, NE lead from the origin
   * to (1, 1), (2, 2) and (3, 3), which by `Path`'s contract is what it reports.
   */
  lemma PathExample()
    ensures Walk(Origin, [NE, NE, NE][..1]) == Coord(1, 1)
    ensures Walk(Origin, [NE, NE, NE][..2]) == Coord(2, 2)
    ensures Walk(Origin, [NE, NE, NE][..3]) == Coord(3, 3)
  {
    assert [NE, NE, NE][..1] == [NE];
    assert [NE, NE, NE][..2] == [NE, NE];
    assert [NE, NE, NE][..3] == [NE, NE, NE];
    assert [NE, NE][..1] == [NE];
    assert [NE][..0] == [];
  }

  /** The program's path test, run on `Path` itself. */
  method PathTest() returns (path: seq<Coord>)
    ensures path == [Coord(1, 1), Coord(2, 2), Coord(3, 3)]
  {
    path := Path(Origin, [NE, NE, NE]);
    PathExample();
  }

  /** The program's integration walk ends 3 hops from the origin. */
  lemma IntegrationHops()
    ensures Walk(Origin, [SE, SW, SE, SW, SW]) == Coord(-1, -5)
    ensures Hops(Walk(Origin, [SE, SW, SE, SW, SW])) == 3
  {
    WalkClosedForm(Origin, [SE, SW, SE, SW, SW]);
    assert Hops(Coord(-1, -5)) == 3 by {
      assert Min(Abs(-1), Abs(-5)) == 1;
    }
  }
}
