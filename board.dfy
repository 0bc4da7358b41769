/**
 * The game board (TrivialPursuit/GameBoard.py): the fixed 9x9 layout of tiles
 * with holes, the players standing on it, and the turn hand-off on a click.
 *
 * The pixel geometry is abstracted: a click is the flag `clicked` (the left
 * mouse button went down this frame) and the cell `hit` whose tile rectangle
 * contains the mouse position, if any. The random starting player is an input.
 */
module Board {
  import opened Wrappers
  import opened Tiles
  import opened PlayerState
  import RoundRobin

  /** What the layout puts in a cell: a tile kind and its headquarters flag. */
  datatype TileSpec = TileSpec(kind: TileKind, headquarter: bool)

  const Size := 9

  /** The class-level `board` table, top row first; None is a hole. */
  function Layout(): (t: seq<seq<Option<TileSpec>>>)
    ensures |t| == Size
    ensures forall r :: 0 <= r < Size ==> |t[r]| == Size
  {
    var P, E, L, H, R := TileSpec(People, false), TileSpec(Events, false),
                         TileSpec(Places, false), TileSpec(Holidays, false), TileSpec(RollAgain, false);
    var N: Option<TileSpec> := None;
    [ [Some(TileSpec(People, true)), Some(E), Some(R), Some(L), Some(H), Some(L), Some(R), Some(P), Some(TileSpec(Events, true))],
      [Some(H), N, N, N, Some(L), N, N, N, Some(L)],
      [Some(R), N, N, N, Some(E), N, N, N, Some(R)],
      [Some(E), N, N, N, Some(P), N, N, N, Some(H)],
      [Some(L), Some(E), Some(P), Some(H), Some(TileSpec(Hub, false)), Some(E), Some(L), Some(H), Some(P)],
      [Some(E), N, N, N, Some(L), N, N, N, Some(H)],
      [Some(R), N, N, N, Some(H), N, N, N, Some(R)],
      [Some(P), N, N, N, Some(P), N, N, N, Some(E)],
      [Some(TileSpec(Holidays, true)), Some(L), Some(R), Some(P), Some(E), Some(P), Some(R), Some(H), Some(TileSpec(Places, true))] ]
  }

  /** A cell index inside the grid. */
  predicate InGrid(r: int, c: int) {
    0 <= r < Size && 0 <= c < Size
  }

  /** The spec of a cell of the layout. */
  function SpecAt(r: int, c: int): Option<TileSpec>
    requires InGrid(r, c)
  {
    Layout()[r][c]
  }

  /** Rows 0, 4 and 8 and columns 0, 4 and 8 are full of tiles; every other cell is a hole. */
  predicate OnSpoke(r: int, c: int) {
    r in {0, 4, 8} || c in {0, 4, 8}
  }

  /** Whether a cell holds a tile that is a headquarters tile. */
  predicate IsHeadquarters(r: int, c: int)
    requires InGrid(r, c)
  {
    SpecAt(r, c).Some? && SpecAt(r, c).value.headquarter
  }

  /** Whether a cell holds the Hub. */
  predicate IsHub(r: int, c: int)
    requires InGrid(r, c)
  {
    SpecAt(r, c).Some? && SpecAt(r, c).value.kind == Hub
  }

  /** The facts about one row of the table, read off its entries. */
  lemma RowFacts(r: int)
    requires 0 <= r < Size
    ensures forall c :: 0 <= c < Size ==> (SpecAt(r, c).Some? <==> OnSpoke(r, c))
    ensures forall c :: 0 <= c < Size ==> (IsHub(r, c) <==> r == 4 && c == 4)
    ensures forall c :: 0 <= c < Size ==> (IsHeadquarters(r, c) <==> r in {0, 8} && c in {0, 8})
  {
  }

  /** Every cell of rows 0, 4 and 8 holds a tile; rows 1-3 and 5-7 hold tiles in
      columns 0, 4 and 8 only, and holes everywhere else. */
  lemma LayoutHoles()
    ensures forall r, c :: InGrid(r, c) ==> (SpecAt(r, c).Some? <==> OnSpoke(r, c))
  {
    forall r, c | InGrid(r, c) ensures SpecAt(r, c).Some? <==> OnSpoke(r, c) {
      RowFacts(r);
    }
  }

  /** There is exactly one Hub, at the centre (Size / 2, Size / 2). */
  lemma UniqueHub()
    ensures Size / 2 == 4
    ensures IsHub(Size / 2, Size / 2)
    ensures forall r, c :: InGrid(r, c) ==> (IsHub(r, c) <==> r == Size / 2 && c == Size / 2)
  {
    forall r, c | InGrid(r, c) ensures IsHub(r, c) <==> r == 4 && c == 4 {
      RowFacts(r);
    }
  }

  /** The headquarters tiles are exactly the four corners: People at (0,0),
      Events at (0,8), Holidays at (8,0) and Places at (8,8). */
  lemma HeadquartersAtCorners()
    ensures forall r, c :: InGrid(r, c) ==> (IsHeadquarters(r, c) <==> r in {0, 8} && c in {0, 8})
    ensures SpecAt(0, 0) == Some(TileSpec(People, true))
    ensures SpecAt(0, 8) == Some(TileSpec(Events, true))
    ensures SpecAt(8, 0) == Some(TileSpec(Holidays, true))
    ensures SpecAt(8, 8) == Some(TileSpec(Places, true))
  {
    forall r, c | InGrid(r, c) ensures IsHeadquarters(r, c) <==> r in {0, 8} && c in {0, 8} {
      RowFacts(r);
    }
  }

  /** A location that holds a tile rather than a hole (see LayoutHoles). */
  predicate OnTile(loc: Location) {
    InGrid(loc.0, loc.1) && OnSpoke(loc.0, loc.1)
  }

  /** A board cell holds a tile exactly where the layout has one, of the kind and
      headquarters flag the layout gives. */
  predicate Matches(t: Tile?, s: Option<TileSpec>) {
    (t == null <==> s.None?) &&
    (t != null ==> t.kind == s.value.kind && t.headquarter == s.value.headquarter)
  }

  /** A 9x9 grid with tiles exactly on the spokes. */
  ghost predicate BoardShape(board: seq<seq<Tile?>>) {
    |board| == Size &&
    (forall r :: 0 <= r < Size ==> |board[r]| == Size) &&
    forall r, c :: InGrid(r, c) ==> (board[r][c] != null <==> OnSpoke(r, c))
  }

  ghost predicate MatchesLayout(board: seq<seq<Tile?>>) {
    |board| == Size &&
    (forall r :: 0 <= r < Size ==> |board[r]| == Size) &&
    forall r, c :: InGrid(r, c) ==> Matches(board[r][c], SpecAt(r, c))
  }

  /** A board built from the table has the table's shape. */
  lemma MatchesLayoutShape(board: seq<seq<Tile?>>)
    requires MatchesLayout(board)
    ensures BoardShape(board)
  {
    LayoutHoles();
  }

  /** No tile object sits in two cells. */
  ghost predicate TilesDistinct(board: seq<seq<Tile?>>)
    requires BoardShape(board)
  {
    forall r1, c1, r2, c2 ::
      InGrid(r1, c1) && InGrid(r2, c2) && board[r1][c1] != null && (r1 != r2 || c1 != c2) ==>
        board[r1][c1] != board[r2][c2]
  }

  /** The text `execute` shows for a clicked tile. */
  function DebugText(t: Tile): (s: string)
    ensures t.headquarter ==> s == TypeName(t.kind) + " (Headquarter)"
    ensures !t.headquarter ==> s == TypeName(t.kind)
  {
    t.GetType() + (if t.GetHeadquarter() then " (Headquarter)" else "")
  }

  /** Builds the tiles of the class-level `board` table, each one new and inactive. */
  method BuildBoard() returns (board: seq<seq<Tile?>>)
    ensures MatchesLayout(board) && BoardShape(board) && TilesDistinct(board)
    ensures forall r, c :: InGrid(r, c) && board[r][c] != null ==> fresh(board[r][c]) && !board[r][c].active
  {
    board := [];
    var r := 0;
    while r < Size
      invariant 0 <= r <= Size
      invariant |board| == r
      invariant forall i :: 0 <= i < r ==> |board[i]| == Size
      invariant forall i, j :: 0 <= i < r && 0 <= j < Size ==> Matches(board[i][j], SpecAt(i, j))
      invariant forall i, j :: 0 <= i < r && 0 <= j < Size && board[i][j] != null ==>
        fresh(board[i][j]) && !board[i][j].active
      invariant forall i1, j1, i2, j2 ::
        0 <= i1 < r && 0 <= j1 < Size && 0 <= i2 < r && 0 <= j2 < Size &&
        board[i1][j1] != null && (i1 != i2 || j1 != j2) ==>
          board[i1][j1] != board[i2][j2]
    {
      var row := BuildRow(Layout()[r]);
      board := board + [row];
      r := r + 1;
    }
    MatchesLayoutShape(board);
  }

  /** The tiles of one row of the table, given as its cell specs. */
  method BuildRow(specs: seq<Option<TileSpec>>) returns (row: seq<Tile?>)
    ensures |row| == |specs|
    ensures forall j :: 0 <= j < |specs| ==> Matches(row[j], specs[j])
    ensures forall j :: 0 <= j < |specs| && row[j] != null ==> fresh(row[j]) && !row[j].active
    ensures forall j1, j2 :: 0 <= j1 < |specs| && 0 <= j2 < |specs| && row[j1] != null && j1 != j2 ==> row[j1] != row[j2]
  {
    row := [];
    var c := 0;
    while c < |specs|
      invariant 0 <= c <= |specs|
      invariant |row| == c
      invariant forall j :: 0 <= j < c ==> Matches(row[j], specs[j])
      invariant forall j :: 0 <= j < c && row[j] != null ==> fresh(row[j]) && !row[j].active
      invariant forall j1, j2 :: 0 <= j1 < c && 0 <= j2 < c && row[j1] != null && j1 != j2 ==> row[j1] != row[j2]
    {
      match specs[c] {
        case None =>
          row := row + [null];
        case Some(spec) =>
          var t := new Tile(spec.kind, spec.headquarter);
          row := row + [t];
      }
      c := c + 1;
    }
  }

  /** As written, `execute` fails on every click: the first cell it scans, (0, 0),
      holds a tile, and the bare flag that tile's `clicked` returns cannot be
      unpacked into `(is_clicked, text, headquarter)`, whatever the mouse position. */
  lemma ExecuteAsWrittenFailsAtFirstCell(board: seq<seq<Tile?>>, hit: Option<Location>)
    requires MatchesLayout(board)
    ensures board[0][0] != null
    ensures UnpackTriple(Bare(board[0][0].ClickedAsWritten(hit == Some((0, 0))))) == None
    ensures UnpackTriple(Triple(board[0][0].Clicked(hit == Some((0, 0))))).Some?
  {
    HeadquartersAtCorners();
    assert Matches(board[0][0], SpecAt(0, 0));
  }

  /** The tile at a location, or null for a hole or a location off the grid. */
  function TileAt(board: seq<seq<Tile?>>, loc: Location): (t: Tile?)
    requires BoardShape(board)
    ensures t != null <==> OnTile(loc)
    ensures t != null ==> t == board[loc.0][loc.1]
  {
    if InGrid(loc.0, loc.1) then board[loc.0][loc.1] else null
  }

  /** Whether a click with the mouse over `hit` lands on an active tile. */
  ghost predicate HitsActive(board: seq<seq<Tile?>>, hit: Option<Location>)
    reads if hit.Some? && BoardShape(board) && TileAt(board, hit.value) != null then {TileAt(board, hit.value)} else {}
  {
    hit.Some? && BoardShape(board) && TileAt(board, hit.value) != null && TileAt(board, hit.value).active
  }

  /** Where each player stands, in player order. */
  ghost function LocationsOf(ps: seq<Player>): (ls: seq<Location>)
    reads ps
    ensures |ls| == |ps|
    ensures forall i :: 0 <= i < |ps| ==> ls[i] == ps[i].location
  {
    seq(|ps|, i reads ps requires 0 <= i < |ps| => ps[i].location)
  }

  class GameBoard {
    var board: seq<seq<Tile?>>
    var players: seq<Player>
    /** The index in `players` of the player whose turn it is. */
    var player: int
    var debugText: string

    ghost predicate Valid()
      reads this, players
    {
      BoardShape(board) && TilesDistinct(board) && PlayersValid()
    }

    /** Players numbered 1..n in order, each standing on a tile; the turn index in [0, n). */
    ghost predicate PlayersValid()
      reads this, players
    {
      |players| >= 1 && 0 <= player < |players| &&
      (forall i :: 0 <= i < |players| ==> players[i].number == i + 1) &&
      forall i :: 0 <= i < |players| ==> OnTile(players[i].location)
    }

    /** `__init__` with `numPlayers` players (at least one, as `random.randint(0,
        num_players-1)` needs) and the random starting index `start`. Every
        player starts on the Hub; every tile starts inactive. */
    constructor (numPlayers: int, start: int)
      requires 1 <= numPlayers
      requires 0 <= start < numPlayers
      ensures Valid() && MatchesLayout(board)
      ensures |players| == numPlayers && player == start && debugText == "Testing"
      ensures forall i :: 0 <= i < |players| ==>
        players[i].number == i + 1 && players[i].location == (4, 4) &&
        players[i].answered == InitialAnswered()
      ensures forall r, c :: InGrid(r, c) && board[r][c] != null ==> !board[r][c].active
      ensures forall r, c :: InGrid(r, c) && board[r][c] != null ==> fresh(board[r][c])
      ensures forall i :: 0 <= i < |players| ==> fresh(players[i])
    {
      var b := BuildBoard();
      board := b;
      players := [];
      player := start;
      debugText := "Testing";
      new;
      UniqueHub();
      var hubRow := |board| / 2;
      var hubCol := |board[hubRow]| / 2;
      var i := 0;
      while i < numPlayers
        invariant 0 <= i <= numPlayers
        invariant board == b
        invariant |players| == i && player == start && debugText == "Testing"
        invariant forall r, c :: InGrid(r, c) && board[r][c] != null ==> !board[r][c].active
        invariant forall k :: 0 <= k < i ==> fresh(players[k])
        invariant forall k :: 0 <= k < i ==>
          players[k].number == k + 1 && players[k].location == (hubRow, hubCol) &&
          players[k].answered == InitialAnswered()
      {
        var p := new Player(i + 1, (hubRow, hubCol));
        players := players + [p];
        i := i + 1;
      }
      assert OnTile((hubRow, hubCol));
    }

    /** Players with different indices are different objects (their numbers differ),
        so moving one leaves the others where they were. */
    lemma PlayersDistinct(i: int, j: int)
      requires PlayersValid()
      requires 0 <= i < |players| && 0 <= j < |players| && i != j
      ensures players[i] != players[j]
    {
    }

    /** Marks the tile at `loc` active. Nothing in the source calls `activate`; this
        is the board-level operation a caller would use. Holes and cells off the
        grid are left alone. */
    method ActivateAt(loc: Location) returns (done: bool)
      requires Valid()
      modifies if OnTile(loc) then {board[loc.0][loc.1]} else {}
      ensures done <==> OnTile(loc)
      ensures done ==> TileAt(board, loc).active
      ensures forall r, c :: InGrid(r, c) && board[r][c] != null && (r, c) != loc ==>
        board[r][c].active == old(board[r][c].active)
    {
      var t := TileAt(board, loc);
      done := t != null;
      if done {
        t.Activate();
      }
    }

    /** Marks the tile at `loc` inactive, like ActivateAt. */
    method DeactivateAt(loc: Location) returns (done: bool)
      requires Valid()
      modifies if OnTile(loc) then {board[loc.0][loc.1]} else {}
      ensures done <==> OnTile(loc)
      ensures done ==> !TileAt(board, loc).active
      ensures forall r, c :: InGrid(r, c) && board[r][c] != null && (r, c) != loc ==>
        board[r][c].active == old(board[r][c].active)
    {
      var t := TileAt(board, loc);
      done := t != null;
      if done {
        t.Deactivate();
      }
    }

    /** The hand-off of `execute`: the current player moves to `loc`, then the
        turn passes to the next player. */
    method MoveCurrent(loc: Location)
      requires PlayersValid()
      requires OnTile(loc)
      modifies this`player, {players[player]}`location
      ensures PlayersValid()
      ensures LocationsOf(players) == old(LocationsOf(players))[old(player) := loc]
      ensures player == RoundRobin.Next(old(player), |players|)
    {
      players[player].SetLocation(loc);
      player := (player + 1) % |players|;
    }

    /** The body of the inner loop of `execute` for the cell (row, col): if it
        holds a tile that reports a click, show its text, move the current player
        there and pass the turn. */
    method ScanCell(row: int, col: int, hit: Option<Location>)
      requires InGrid(row, col)
      requires BoardShape(board) && PlayersValid()
      modifies this`player, this`debugText, players`location
      ensures PlayersValid()
      ensures var here := HitsActive(board, hit) && hit.value == (row, col);
        player == (if here then RoundRobin.Next(old(player), |players|) else old(player)) &&
        debugText == (if here then DebugText(TileAt(board, hit.value)) else old(debugText)) &&
        LocationsOf(players) == (if here then old(LocationsOf(players))[old(player) := hit.value] else old(LocationsOf(players)))
    {
      var tile := board[row][col];
      if tile != null {
        var report := tile.Clicked(hit == Some((row, col)));
        if report.clicked {
          debugText := report.tileType;
          if report.headquarter {
            debugText := debugText + " (Headquarter)";
          }
          assert LocationsOf(players) == old(LocationsOf(players));
          MoveCurrent((row, col));
        }
      }
    }

    /** One pass of the inner `for col` loop of `execute` over row `row`. */
    method ScanRow(row: int, hit: Option<Location>)
      requires 0 <= row < Size
      requires BoardShape(board) && PlayersValid()
      modifies this`player, this`debugText, players`location
      ensures PlayersValid()
      ensures var here := HitsActive(board, hit) && hit.value.0 == row;
        player == (if here then RoundRobin.Next(old(player), |players|) else old(player)) &&
        debugText == (if here then DebugText(TileAt(board, hit.value)) else old(debugText)) &&
        LocationsOf(players) == (if here then old(LocationsOf(players))[old(player) := hit.value] else old(LocationsOf(players)))
    {
      ghost var act := HitsActive(board, hit);
      ghost var text := if act then DebugText(TileAt(board, hit.value)) else "";
      ghost var next := RoundRobin.Next(player, |players|);
      ghost var locs, current := LocationsOf(players), player;
      var width := |board[row]|;
      var col := 0;
      while col < width
        invariant 0 <= col <= width == Size
        invariant PlayersValid()
        invariant player == if act && hit.value.0 == row && hit.value.1 < col then next else current
        invariant debugText == if act && hit.value.0 == row && hit.value.1 < col then text else old(debugText)
        invariant LocationsOf(players) == if act && hit.value.0 == row && hit.value.1 < col then locs[current := hit.value] else locs
      {
        ScanCell(row, col, hit);
        col := col + 1;
      }
    }

    /** The outer `for row` loop of `execute`: over the whole board, the current
        player moves and the turn passes exactly when the mouse is on an active tile. */
    method ScanBoard(hit: Option<Location>)
      requires BoardShape(board) && PlayersValid()
      modifies this`player, this`debugText, players`location
      ensures PlayersValid()
      ensures var here := HitsActive(board, hit);
        player == (if here then RoundRobin.Next(old(player), |players|) else old(player)) &&
        debugText == (if here then DebugText(TileAt(board, hit.value)) else old(debugText)) &&
        LocationsOf(players) == (if here then old(LocationsOf(players))[old(player) := hit.value] else old(LocationsOf(players)))
    {
      ghost var act := HitsActive(board, hit);
      ghost var text := if act then DebugText(TileAt(board, hit.value)) else "";
      ghost var next := RoundRobin.Next(player, |players|);
      ghost var locs, current := LocationsOf(players), player;
      var height := |board|;
      var row := 0;
      while row < height
        invariant 0 <= row <= height == Size
        invariant PlayersValid()
        invariant player == if act && hit.value.0 < row then next else current
        invariant debugText == if act && hit.value.0 < row then text else old(debugText)
        invariant LocationsOf(players) == if act && hit.value.0 < row then locs[current := hit.value] else locs
      {
        ScanRow(row, hit);
        row := row + 1;
      }
    }

    /** `execute`: when the mouse was clicked on an active tile, the current
        player moves there and the turn passes to the next player; otherwise no
        player moves and the turn stays. A click clears the debug text first. */
    method Execute(clicked: bool, hit: Option<Location>)
      requires Valid()
      modifies this`player, this`debugText, players`location
      ensures Valid()
      ensures var moved := clicked && HitsActive(board, hit);
        player == (if moved then RoundRobin.Next(old(player), |players|) else old(player)) &&
        debugText == (if moved then DebugText(TileAt(board, hit.value)) else if clicked then "" else old(debugText)) &&
        LocationsOf(players) == (if moved then old(LocationsOf(players))[old(player) := hit.value] else old(LocationsOf(players)))
      ensures forall i :: 0 <= i < |players| ==>
        players[i].number == old(players[i].number) && players[i].answered == old(players[i].answered)
    {
      if clicked {
        debugText := "";
        ScanBoard(hit);
      }
    }
  }
}
