/**
 * The tiles of the game board (TrivialPursuit/Tiles.py).
 *
 * The source has one base class and six subclasses that differ only in their
 * class-level `tile_type` string; here the subclass is the `kind` of a tile.
 * The headquarters flag is set once by the constructor and never reassigned,
 * so it is a `const`; the active flag is the only state a tile changes.
 */
module Tiles {
  import opened Wrappers

  /** One value per subclass of Tile. */
  datatype TileKind = People | Events | Places | Holidays | RollAgain | Hub

  /** The six `tile_type` strings. */
  const TypeNames: set<string> := {"People", "Events", "Places", "Holidays", "Roll Again", "Hub"}

  /** The class-level `tile_type` of each subclass. */
  function TypeName(k: TileKind): (s: string)
    ensures s in TypeNames
  {
    match k
    case People => "People"
    case Events => "Events"
    case Places => "Places"
    case Holidays => "Holidays"
    case RollAgain => "Roll Again"
    case Hub => "Hub"
  }

  /** Distinct subclasses report distinct type strings, so a type string names its subclass. */
  lemma TypeNameInjective(a: TileKind, b: TileKind)
    ensures TypeName(a) == TypeName(b) <==> a == b
  {
    if a != b {
      assert TypeName(a)[0] != TypeName(b)[0] || |TypeName(a)| != |TypeName(b)| || TypeName(a)[1] != TypeName(b)[1];
    }
  }

  /** What the docstring of `clicked` promises: (was clicked, tile type, headquarter). */
  datatype ClickReport = ClickReport(clicked: bool, tileType: string, headquarter: bool)

  /** The shape of a value returned by `clicked`: the bare bool the code returns,
      or the documented triple. */
  datatype ClickValue = Bare(b: bool) | Triple(report: ClickReport)

  /** The tuple unpacking `(is_clicked, text, headquarter) = ...` in the caller:
      a bool cannot be unpacked (Python raises TypeError), a triple can. */
  function UnpackTriple(v: ClickValue): (r: Option<ClickReport>)
    ensures r.Some? <==> v.Triple?
    ensures r.Some? ==> r.value == v.report
  {
    match v
    case Bare(_) => None
    case Triple(report) => Some(report)
  }

  class Tile {
    const kind: TileKind
    const headquarter: bool
    var active: bool

    /** A new tile is inactive; `headquarter` defaults to false. */
    constructor (kind: TileKind, headquarter: bool := false)
      ensures this.kind == kind && this.headquarter == headquarter
      ensures !active
    {
      this.kind := kind;
      this.headquarter := headquarter;
      active := false;
    }

    /** `activate`: the new state does not depend on the old one, so a second call changes nothing. */
    method Activate()
      modifies this`active
      ensures active
    {
      active := true;
    }

    /** `deactivate`: idempotent in the same way. */
    method Deactivate()
      modifies this`active
      ensures !active
    {
      active := false;
    }

    /** `get_type`: the subclass's type string. */
    function GetType(): (s: string)
      ensures s in TypeNames
      ensures s == TypeName(kind)
    {
      TypeName(kind)
    }

    /** `get_headquarter`: the flag given to the constructor. */
    function GetHeadquarter(): (b: bool)
      ensures b == headquarter
    {
      headquarter
    }

    /** `clicked` as documented. `hit` stands for the pixel test
        `rect.collidepoint(pos)`; a tile reports a click only while active. */
    function Clicked(hit: bool): (r: ClickReport)
      reads this
      ensures r.clicked ==> active
      ensures r.clicked <==> active && hit
      ensures r.tileType == TypeName(kind) && r.headquarter == headquarter
    {
      ClickReport(active && hit, GetType(), GetHeadquarter())
    }

    /** `clicked` as the code is written: only the bare bool. */
    function ClickedAsWritten(hit: bool): (b: bool)
      reads this
      ensures b ==> active
      ensures b == Clicked(hit).clicked
    {
      active && hit
    }
  }

  /** The mismatch between `clicked` and its caller: the bool the code returns
      can never be unpacked into a triple, while the documented triple always can. */
  lemma ClickedAsWrittenBreaksUnpacking(t: Tile, hit: bool)
    ensures UnpackTriple(Bare(t.ClickedAsWritten(hit))) == None
    ensures UnpackTriple(Triple(t.Clicked(hit))) == Some(t.Clicked(hit))
  {
  }
}
