/**
 * What `main` computes once the input text is in hand: parse the directions,
 * walk them from the origin, and report the final cell's hops and the largest
 * hops of any cell along the way.
 */
module Program {
  import opened Wrappers
  import opened Hex
  import opened Tokens
  import opened Walker

  /** The two numbers the program prints, as `Hops = …` and `Max Hops = …`. */
  datatype Report = Report(hops: int, maxHops: int)

  /**
   * `.map(|c| c.hops()).max()`: the largest hops of the cells, or `None`
   * when there are no cells.
   */
  method MaxHops(cells: seq<Coord>) returns (m: Option<int>)
    ensures m.None? <==> cells == []
    ensures m.Some? ==> forall i :: 0 <= i < |cells| ==> Hops(cells[i]) <= m.value
    ensures m.Some? ==> exists i :: 0 <= i < |cells| && Hops(cells[i]) == m.value
  {
    m := None;
    for i := 0 to |cells|
      invariant m.None? <==> i == 0
      invariant m.Some? ==> forall k :: 0 <= k < i ==> Hops(cells[k]) <= m.value
      invariant m.Some? ==> exists k :: 0 <= k < i && Hops(cells[k]) == m.value
    {
      var h := Hops(cells[i]);
      if m.None? || m.value <= h {
        m := Some(h);
      }
    }
  }

  /**
   * `main` after the file has been read: a bad token stops the program with
   * that token's error; otherwise both numbers are reported. The walk always
   * has at least one direction, so the maximum always exists, and it is at
   * least the final cell's hops because the final cell is on the path.
   */
  method Run(content: string) returns (r: Result<Report, string>)
    ensures r.Failure? <==> ParseAll(Split(content, Comma)).Failure?
    ensures r.Failure? ==> r.error == ParseAll(Split(content, Comma)).error
    ensures r.Success? ==>
      var dirs := ParseAll(Split(content, Comma)).value;
      |dirs| >= 1 &&
      r.value.hops == Hops(Walk(Origin, dirs)) &&
      (forall n :: 1 <= n <= |dirs| ==> Hops(Walk(Origin, dirs[..n])) <= r.value.maxHops) &&
      (exists n :: 1 <= n <= |dirs| && Hops(Walk(Origin, dirs[..n])) == r.value.maxHops)
    ensures r.Success? ==> 0 <= r.value.hops <= r.value.maxHops
    ensures r.Success? ==> r.value.maxHops <= |ParseAll(Split(content, Comma)).value|
  {
    var parsed := Directions(content);
    if parsed.Failure? {
      return Failure(parsed.error);
    }
    var dirs := parsed.value;
    var last := Steps(Origin, dirs);
    var path := Path(Origin, dirs);
    var highest := MaxHops(path);
    assert dirs[..|dirs|] == dirs;
    assert path[|dirs| - 1] == last;
    ghost var top :| 0 <= top < |dirs| && Hops(path[top]) == highest.value;
    HopsWithinWalkLength(dirs[..top + 1]);
    forall n | 1 <= n <= |dirs| ensures Hops(Walk(Origin, dirs[..n])) <= highest.value {
      assert path[n - 1] == Walk(Origin, dirs[..n]);
    }
    assert path[top] == Walk(Origin, dirs[..top + 1]);
    r := Success(Report(Hops(last), highest.value));
  }
}
