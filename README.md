# Hex-grid walker

A Dafny model of a small program that walks a hexagonal grid. The program reads
comma-separated direction tokens (`n`, `nw`, `ne`, `s`, `sw`, `se`). It walks
them one by one from the origin and prints two numbers. `Hops` is the `hops`
distance of the final cell. `Max Hops` is the largest `hops` of any cell the
walk passes through.

Modules, one per part of the program:

- `Hex` (hex.dfy): `Direction`, `Coord`, one move (`Step`) and the `hops`
  formula (`Hops`). Cells use doubled coordinates: a north or south move changes
  y by 2, and a diagonal move changes x and y by 1 each.
- `Tokens` (tokens.dfy): splitting on `,` (`Split`, with its inverse `Join`),
  parsing one token (`ParseDirection`, with its inverse `Label`), and
  `directions`. `ParseAll` is the specification. `Directions` is the
  token-by-token loop proved equal to it.
- `Walker` (walker.dfy): `Walk` is the left fold of `Step` that specifies a
  walk. `Path` is the cursor loop behind `Coord::path`. `Steps` is the last
  position of `Path`, or the default cell.
- `Program` (program.dfy): the `max` reduction (`MaxHops`) and `Run`, which
  is what `main` computes once the input text is in hand.
- `Wrappers` (wrappers.dfy): `Option` and `Result`, used where the program
  would panic on `unwrap`.

Behaviour worth knowing:

- `steps` on an empty direction list returns `Coord::default()`, which is
  (0, 0), whatever the start is. `Walker.Steps` states this.
- `hops` is modelled exactly as written. It is not the fewest moves to a cell
  that has more columns than rows. `Walker.HopsUndercounts` shows this for
  (3, 1): it is reached in three moves and in no fewer, but `hops` gives 1. The
  model proves only that `hops` never exceeds the length of a walk to the cell
  (`Walker.HopsWithinWalkLength`).
- Splitting an empty text gives one empty token, and that token fails to
  parse. So empty input and a stray comma are parse errors, and a successful
  parse always yields at least one direction.
- Nothing is trimmed. A file that ends in a newline leaves the newline in its
  last token (`"se\n"`), which does not parse, so such a file is a parse error
  (`Tokens.TrailingNewlineInput`).

## Model

| member | source | states |
|---|---|---|
| `Hex.Step` | src/main.rs:60-69 | a move always reaches a different cell, at most one column away, with two units of change in all and the same parity of x + y; with `MoveRules` and `StepTranslates` this gives the full displacement table at every cell |
| `Hex.MoveRules` | src/main.rs:92-99 | from the origin, each of the six directions moves by its fixed delta: N (0,2), NW (-1,1), NE (1,1), S (0,-2), SW (-1,-1), SE (1,-1) |
| `Hex.StepTranslates` | src/main.rs:60-69 | a move adds the same delta wherever it starts |
| `Hex.StepUndo` | src/main.rs:60-69 | moving in the opposite direction returns to the cell the move started from |
| `Hex.StepDistinct` | src/main.rs:60-69 | a move never stays on the same cell, and two different directions never lead to the same cell |
| `Hex.StepDistance` | src/main.rs:60-69 | one move changes the move-count bound `HexDistance` by at most one, in either direction |
| `Hex.Hops` | src/main.rs:80-83 | hops is between 0 and \|y\|, and equals \|y\| when \|y\| <= \|x\| |
| `Hex.HopsSignSymmetric` | src/main.rs:80-83 | hops is unchanged when x, y or both change sign |
| `Hex.HopsExamples` | src/main.rs:116-121 | hops of (0,0), (3,3), (2,4), (2,6) is 0, 3, 3, 4 |
| `Hex.HopsVersusHexDistance` | src/main.rs:80-83 | hops never exceeds the move-count bound; it equals it when \|x\| <= \|y\| and is strictly below it when \|y\| < \|x\| |
| `Tokens.Split` | src/main.rs:56 | splitting yields at least one piece, and no piece contains the separator |
| `Tokens.JoinSplit` | src/main.rs:56 | joining the pieces with the separator gives back the text; there is exactly one more piece than separators |
| `Tokens.SplitJoin` | src/main.rs:56 | splitting the join of separator-free pieces gives back exactly those pieces |
| `Tokens.ParseDirection` | src/main.rs:42-52 | parsing succeeds only on a direction's label, and returns that direction; on every other string, including the empty one, it fails with "Cannot understand direction '<token>'" |
| `Tokens.ParseLabel` | src/main.rs:42-52 | each of the six labels parses to its own direction |
| `Tokens.ParseExamples` | src/main.rs:124-131 | "n", "nw", "ne", "s", "sw", "se" parse to N, NW, NE, S, SW, SE; "", "N", " n" and "xx" fail |
| `Tokens.ParseAll` | src/main.rs:55-57 | succeeds exactly when every token parses, giving one direction per token in order; otherwise fails with the error of the first bad token |
| `Tokens.Directions` | src/main.rs:55-57 | the token-by-token loop returns exactly `ParseAll` of the comma-split input, and a success has one more direction than the input has commas |
| `Tokens.FirstFailure` | src/main.rs:56 | when the first bad token is token i, the whole parse fails with token i's error |
| `Tokens.FormatThenParse` | src/main.rs:55-57 | writing a non-empty direction list as comma-joined labels and parsing it gives the list back |
| `Tokens.ParseThenFormat` | src/main.rs:55-57 | text that parses is exactly the comma-joined labels of its directions |
| `Tokens.IntegrationInput` | src/main.rs:134-138 | "se,sw,se,sw,sw" parses to SE, SW, SE, SW, SW |
| `Tokens.TrailingNewlineInput` | src/main.rs:55-57 | "se\n" splits into the single token "se\n", and that input fails to parse |
| `Tokens.BadTokenInput` | src/main.rs:55-57 | "n,xx,s" fails with the error naming "xx" |
| `Walker.Path` | src/main.rs:76-78 | the path has one position per direction, and position i is where the first i + 1 directions lead from the start |
| `Walker.Steps` | src/main.rs:72-74 | for a non-empty list, the end of the walk, which is the last position of `Path`; for an empty list, (0, 0) whatever the start |
| `Walker.WalkAppend` | src/main.rs:76-78 | walking a + b ends where walking b from the end of a does |
| `Walker.WalkCons` | src/main.rs:76-78 | walking d then the rest ends where walking the rest from `Step(start, d)` does |
| `Walker.WalkClosedForm` | src/main.rs:60-78 | a walk ends at the start plus each direction's delta times the number of times it occurs |
| `Walker.WalkOrderIndependent` | src/main.rs:76-78 | two walks over the same directions in any order end in the same cell |
| `Walker.WalkTranslates` | src/main.rs:76-78 | a walk from any start is the walk from the origin shifted by the start |
| `Walker.WalkParity` | src/main.rs:76-78 | every cell reached from the origin has an even x + y |
| `Walker.WalkDistance` | src/main.rs:76-78 | a walk of n directions moves the move-count bound by at most n |
| `Walker.HopsWithinWalkLength` | src/main.rs:80-83 | hops of a walk's end never exceeds the number of directions walked |
| `Walker.HopsUndercounts` | src/main.rs:80-83 | NE, NE, SE reaches (3, 1), no shorter walk reaches it, and hops of (3, 1) is 1 |
| `Walker.ApplyDirectionsExamples` | src/main.rs:102-106 | NE NE NE ends at (3,3), NW NW SE SE at (0,0), NE NE S S at (2,-2) |
| `Walker.PathExample` | src/main.rs:109-113 | the prefixes of NE NE NE lead to (1,1), (2,2), (3,3), so `Path` reports those three |
| `Walker.PathTest` | src/main.rs:109-113 | `Path` from the origin over NE, NE, NE returns exactly (1,1), (2,2), (3,3) |
| `Walker.IntegrationHops` | src/main.rs:134-138 | SE SW SE SW SW ends at (-1,-5), which is 3 hops from the origin |
| `Program.MaxHops` | src/main.rs:19-20 | None exactly for no cells; otherwise a value that is the hops of some cell and at least the hops of every cell |
| `Program.Run` | src/main.rs:12-24 | fails exactly when parsing fails, with its error. Otherwise there is at least one direction. `hops` is the hops of the walk's end. `maxHops` is the largest hops over all non-empty prefixes of the walk. 0 <= hops <= maxHops <= number of directions |

## Left out

- Reading the file (`read_all`), the file name taken from the command line and its default, and the two `println!` lines. They are I/O. `Run` takes the file's text as a parameter and returns the two numbers.
- Process aborts from `unwrap`. A failed open or read is outside the model. A bad token becomes a `Failure` carrying the parse error. The `unwrap` on the maximum is proved never to fail.
- `i32` arithmetic. Coordinates and hops are unbounded integers, so overflow and `abs` of `i32::MIN` are not modelled.
- Laziness of the `path` iterator and its closure capture. `Path` returns the whole sequence of positions the iterator would yield. `MaxHops` picks the value of a maximum, not which tied element Rust's `max` returns; the two are equal.
- Any claim that `hops` is the fewest moves to a cell. The code does not compute that. The model proves the lower-bound direction only and exhibits a cell where the two differ.
