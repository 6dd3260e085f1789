/**
 * Reading the input: `str::split(',')` into tokens, `Direction::from_str`
 * on each token, and `directions`, which parses every token or fails.
 */
module Tokens {
  import opened Wrappers
  import opened Hex

  /** The separator the program splits its input on. */
  const Comma: char := ','

  /** Glues tokens back together with `sep` between neighbours: the inverse of `Split`. */
  function Join(tokens: seq<string>, sep: char): string
    requires |tokens| >= 1
    decreases |tokens|
  {
    if |tokens| == 1 then tokens[0] else tokens[0] + [sep] + Join(tokens[1..], sep)
  }

  /** Putting a character in front of the first token puts it in front of the joined text. */
  lemma JoinPrepend(tokens: seq<string>, c: char, sep: char)
    requires |tokens| >= 1
    ensures Join([[c] + tokens[0]] + tokens[1..], sep) == [c] + Join(tokens, sep)
  {
    var longer := [[c] + tokens[0]] + tokens[1..];
    if |tokens| > 1 {
      assert longer[1..] == tokens[1..];
      assert ([c] + tokens[0]) + [sep] + Join(tokens[1..], sep)
          == [c] + (tokens[0] + [sep] + Join(tokens[1..], sep));
    }
  }

  /**
   * `str::split` with a one-character pattern: the pieces between separators,
   * in order, keeping empty pieces. No piece contains the separator.
   */
  function Split(s: string, sep: char): (tokens: seq<string>)
    ensures |tokens| >= 1
    ensures forall i :: 0 <= i < |tokens| ==> sep !in tokens[i]
    decreases |s|
  {
    if |s| == 0 then [""]
    else
      var rest := Split(s[1..], sep);
      if s[0] == sep then [""] + rest
      else
        var pieces := [[s[0]] + rest[0]] + rest[1..];
        assert forall i :: 1 <= i < |pieces| ==> pieces[i] == rest[i];
        pieces
  }

  /**
   * Splitting loses nothing: joining the pieces gives the text back, and there
   * is exactly one more piece than there are separators.
   */
  lemma {:induction false} JoinSplit(s: string, sep: char)
    ensures Join(Split(s, sep), sep) == s
    ensures |Split(s, sep)| == multiset(s)[sep] + 1
    decreases |s|
  {
    if |s| > 0 {
      var rest := Split(s[1..], sep);
      JoinSplit(s[1..], sep);
      assert s == [s[0]] + s[1..];
      assert multiset(s) == multiset([s[0]]) + multiset(s[1..]);
      SplitCons(s[0], s[1..], sep);
      if s[0] == sep {
        assert ([""] + rest)[1..] == rest;
        assert "" + [sep] + Join(rest, sep) == [sep] + s[1..];
      } else {
        JoinPrepend(rest, s[0], sep);
      }
    }
  }

  /** How `Split` treats the first character of its input. */
  lemma SplitCons(c: char, s: string, sep: char)
    ensures c == sep ==> Split([c] + s, sep) == [""] + Split(s, sep)
    ensures c != sep ==> Split([c] + s, sep) == [[c] + Split(s, sep)[0]] + Split(s, sep)[1..]
  {
    assert ([c] + s)[1..] == s;
  }

  /** Splitting a token free of `sep` in front of more text extends the first piece. */
  lemma {:induction false} SplitPrefix(t: string, rest: string, sep: char)
    requires sep !in t
    ensures Split(t + rest, sep) == [t + Split(rest, sep)[0]] + Split(rest, sep)[1..]
    decreases |t|
  {
    var q := Split(rest, sep);
    if |t| > 0 {
      var inner := Split(t[1..] + rest, sep);
      SplitPrefix(t[1..], rest, sep);
      assert t + rest == [t[0]] + (t[1..] + rest);
      SplitCons(t[0], t[1..] + rest, sep);
      assert [t[0]] + (t[1..] + q[0]) == t + q[0];
    } else {
      assert t + rest == rest;
      assert t + q[0] == q[0];
    }
  }

  /** Joining tokens that do not contain the separator and splitting again gives the tokens back. */
  lemma {:induction false} SplitJoin(tokens: seq<string>, sep: char)
    requires |tokens| >= 1
    requires forall i :: 0 <= i < |tokens| ==> sep !in tokens[i]
    ensures Split(Join(tokens, sep), sep) == tokens
    decreases |tokens|
  {
    if |tokens| == 1 {
      SplitPrefix(tokens[0], "", sep);
      assert tokens[0] + "" == tokens[0];
      assert Split("", sep) == [""];
    } else {
      var tail := Join(tokens[1..], sep);
      SplitJoin(tokens[1..], sep);
      assert tokens[0] + [sep] + tail == tokens[0] + ([sep] + tail);
      SplitPrefix(tokens[0], [sep] + tail, sep);
      assert ([sep] + tail)[1..] == tail;
      var after := Split([sep] + tail, sep);
      assert after == [""] + tokens[1..];
      assert tokens[0] + after[0] == tokens[0];
      assert after[1..] == tokens[1..];
      assert tokens == [tokens[0]] + tokens[1..];
    }
  }

  /** The token each direction is written as. */
  function Label(d: Direction): string
  {
    match d
    case N => "n"
    case NW => "nw"
    case NE => "ne"
    case S => "s"
    case SW => "sw"
    case SE => "se"
  }

  /**
   * `Direction::from_str`: exactly the six lower-case labels are accepted;
   * anything else, including the empty string, fails with a message naming it.
   */
  function ParseDirection(s: string): (r: Result<Direction, string>)
    ensures r.Success? ==> Label(r.value) == s
    ensures r.Failure? ==> forall d :: Label(d) != s
    ensures r.Failure? ==> r.error == "Cannot understand direction '" + s + "'"
  {
    if s == "n" then Success(N)
    else if s == "nw" then Success(NW)
    else if s == "ne" then Success(NE)
    else if s == "s" then Success(S)
    else if s == "sw" then Success(SW)
    else if s == "se" then Success(SE)
    else Failure("Cannot understand direction '" + s + "'")
  }

  /** Parsing a direction's label gives that direction back. */
  lemma ParseLabel(d: Direction)
    ensures ParseDirection(Label(d)) == Success(d)
  {
  }

  /** The program's parse tests, and a few strings that are not labels. */
  lemma ParseExamples()
    ensures ParseDirection("n") == Success(N)
    ensures ParseDirection("nw") == Success(NW)
    ensures ParseDirection("ne") == Success(NE)
    ensures ParseDirection("s") == Success(S)
    ensures ParseDirection("sw") == Success(SW)
    ensures ParseDirection("se") == Success(SE)
    ensures ParseDirection("").Failure?
    ensures ParseDirection("N").Failure?
    ensures ParseDirection(" n").Failure?
    ensures ParseDirection("xx") == Failure("Cannot understand direction 'xx'")
  {
    assert "Cannot understand direction '" + "xx" + "'" == "Cannot understand direction 'xx'";
  }

  /**
   * Parses every token in order. The whole parse fails as soon as one token
   * fails, with that token's error.
   */
  function ParseAll(tokens: seq<string>): (r: Result<seq<Direction>, string>)
    ensures r.Success? <==> forall i :: 0 <= i < |tokens| ==> ParseDirection(tokens[i]).Success?
    ensures r.Success? ==> |r.value| == |tokens|
    ensures r.Success? ==> forall i :: 0 <= i < |tokens| ==> ParseDirection(tokens[i]) == Success(r.value[i])
    ensures r.Failure? ==>
      exists i :: 0 <= i < |tokens| && ParseDirection(tokens[i]).Failure? &&
        (forall k :: 0 <= k < i ==> ParseDirection(tokens[k]).Success?) &&
        r.error == ParseDirection(tokens[i]).error
    decreases |tokens|
  {
    if tokens == [] then Success([])
    else
      match ParseDirection(tokens[0])
      case Failure(e) => Failure(e)
      case Success(d) =>
        match ParseAll(tokens[1..])
        case Failure(e) =>
          assert forall k :: 1 <= k < |tokens| ==> tokens[k] == tokens[1..][k - 1];
          Failure(e)
        case Success(ds) =>
          assert forall k :: 1 <= k < |tokens| ==> tokens[k] == tokens[1..][k - 1];
          Success([d] + ds)
  }

  /**
   * `directions`: splits the input on commas and parses the tokens one by one
   * into a growing list, stopping at the first token that fails.
   */
  method Directions(data: string) returns (r: Result<seq<Direction>, string>)
    ensures r == ParseAll(Split(data, Comma))
    ensures r.Success? ==> |r.value| == multiset(data)[Comma] + 1
  {
    var tokens := Split(data, Comma);
    var dirs: seq<Direction> := [];
    var i := 0;
    while i < |tokens|
      invariant 0 <= i <= |tokens|
      invariant |dirs| == i
      invariant forall k :: 0 <= k < i ==> ParseDirection(tokens[k]) == Success(dirs[k])
    {
      var p := ParseDirection(tokens[i]);
      if p.Failure? {
        r := Failure(p.error);
        FirstFailure(tokens, i);
        assert ParseAll(tokens).Failure?;
        return;
      }
      dirs := dirs + [p.value];
      i := i + 1;
    }
    r := Success(dirs);
    assert ParseAll(tokens).value == dirs;
    JoinSplit(data, Comma);
  }

  /** A parse that fails at token `i`, after every earlier token parsed, fails with token `i`'s error. */
  lemma FirstFailure(tokens: seq<string>, i: nat)
    requires i < |tokens| && ParseDirection(tokens[i]).Failure?
    requires forall k :: 0 <= k < i ==> ParseDirection(tokens[k]).Success?
    ensures ParseAll(tokens) == Failure(ParseDirection(tokens[i]).error)
  {
    var r := ParseAll(tokens);
    var j :| 0 <= j < |tokens| && ParseDirection(tokens[j]).Failure? &&
      (forall k :: 0 <= k < j ==> ParseDirection(tokens[k]).Success?) &&
      r.error == ParseDirection(tokens[j]).error;
    assert j == i;
  }

  /** No label contains the separator. */
  lemma LabelHasNoComma(d: Direction)
    ensures Comma !in Label(d)
  {
  }

  /** The labels of `dirs`, in order. */
  function Labels(dirs: seq<Direction>): seq<string>
  {
    seq(|dirs|, i requires 0 <= i < |dirs| => Label(dirs[i]))
  }

  /** Writing directions out with commas and parsing the text gives the directions back. */
  lemma FormatThenParse(dirs: seq<Direction>)
    requires |dirs| >= 1
    ensures ParseAll(Split(Join(Labels(dirs), Comma), Comma)) == Success(dirs)
  {
    var labels := Labels(dirs);
    forall i | 0 <= i < |labels| ensures Comma !in labels[i] {
      LabelHasNoComma(dirs[i]);
    }
    SplitJoin(labels, Comma);
    forall i | 0 <= i < |labels| ensures ParseDirection(labels[i]) == Success(dirs[i]) {
      ParseLabel(dirs[i]);
    }
    assert ParseAll(labels).value == dirs;
  }

  /** Text that parses is exactly its directions' labels joined with commas. */
  lemma ParseThenFormat(data: string)
    requires ParseAll(Split(data, Comma)).Success?
    ensures Join(Labels(ParseAll(Split(data, Comma)).value), Comma) == data
  {
    var tokens := Split(data, Comma);
    var dirs := ParseAll(tokens).value;
    assert Labels(dirs) == tokens;
    JoinSplit(data, Comma);
  }

  /** The program's integration input parses to five directions. */
  lemma IntegrationInput()
    ensures ParseAll(Split("se,sw,se,sw,sw", Comma)) == Success([SE, SW, SE, SW, SW])
  {
    var dirs := [SE, SW, SE, SW, SW];
    var tokens := ["se", "sw", "se", "sw", "sw"];
    assert Labels(dirs) == tokens;
    assert Join(tokens, Comma) == "se,sw,se,sw,sw" by {
      assert Join(["sw"], Comma) == "sw";
      assert Join(["sw", "sw"], Comma) == "sw,sw";
      assert Join(["se", "sw", "sw"], Comma) == "se,sw,sw";
      assert Join(["sw", "se", "sw", "sw"], Comma) == "sw,se,sw,sw";
    }
    FormatThenParse(dirs);
  }

  /** Input with a bad token, such as "n,xx,s", fails with that token's error. */
  lemma BadTokenInput()
    ensures ParseAll(Split("n,xx,s", Comma)) == Failure("Cannot understand direction 'xx'")
  {
    var tokens := ["n", "xx", "s"];
    assert Join(["s"], Comma) == "s";
    assert Join(["xx", "s"], Comma) == "xx,s";
    assert Join(tokens, Comma) == "n,xx,s";
    assert Split("n,xx,s", Comma) == tokens by {
      SplitJoin(tokens, Comma);
    }
    ParseExamples();
    FirstFailure(tokens, 1);
  }

  /**
   * A file that ends in a newline leaves the newline in the last token,
   * so "se\n" does not parse.
   */
  lemma TrailingNewlineInput()
    ensures Split("se\n", Comma) == ["se\n"]
    ensures ParseAll(Split("se\n", Comma)).Failure?
  {
    SplitPrefix("se\n", "", Comma);
    assert "se\n" + "" == "se\n";
    assert "se\n" + Split("", Comma)[0] == "se\n";
  }
}
