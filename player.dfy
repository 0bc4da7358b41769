/**
 * A player of the game (TrivialPursuit/Player.py): a number, the record of
 * which categories have been answered, and the board cell the piece stands on.
 */
module PlayerState {

  /** A board cell as a (row, col) pair. */
  type Location = (int, int)

  /** The four question categories that `answered` is keyed by. */
  const Categories: set<string> := {"People", "Events", "Places", "Holidays"}

  /** The `answered` dictionary a new player starts with. */
  function InitialAnswered(): (m: map<string, bool>)
    ensures m.Keys == Categories
    ensures forall c :: c in m ==> !m[c]
  {
    map["People" := false, "Events" := false, "Places" := false, "Holidays" := false]
  }

  class Player {
    /** `player_number` is set once and never reassigned. */
    const number: int
    var answered: map<string, bool>
    var location: Location

    constructor (playerNumber: int, location: Location)
      ensures number == playerNumber
      ensures this.location == location
      ensures answered == InitialAnswered()
    {
      number := playerNumber;
      answered := InitialAnswered();
      this.location := location;
    }

    /** `set_location`: only the location changes, and reading it back gives `l`. */
    method SetLocation(l: Location)
      modifies this`location
      ensures location == l
      ensures GetLocation() == l
      ensures answered == old(answered)
    {
      location := l;
    }

    /** `get_location`. */
    function GetLocation(): (l: Location)
      reads this
      ensures l == location
    {
      location
    }
  }
}
