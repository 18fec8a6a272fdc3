/** A cell of the board and its team, and the rule by which a newborn cell
    takes a team from its living parents (src/conway/cell.rs). */
module TeamCell {

  datatype Team = Red | Blue | Neutral

  datatype Cell = Cell(alive: bool, team: Team)

  /** `Cell::new`: the cell every board starts from. */
  function NewCell(): (c: Cell)
    ensures !c.alive && c.team == Neutral
  {
    Cell(false, Neutral)
  }

  /** How many parents belong to each team. */
  datatype Tally = Tally(red: nat, blue: nat, neutral: nat)

  /** The teams of `parents`, in order. */
  function Teams(parents: seq<Cell>): (ts: seq<Team>)
    ensures |ts| == |parents|
    ensures forall i :: 0 <= i < |parents| ==> ts[i] == parents[i].team
  {
    seq(|parents|, i requires 0 <= i < |parents| => parents[i].team)
  }

  /** Adds one parent of team `t` to the tally. */
  function Bump(t: Tally, team: Team): Tally
  {
    match team
    case Red => t.(red := t.red + 1)
    case Blue => t.(blue := t.blue + 1)
    case Neutral => t.(neutral := t.neutral + 1)
  }

  /** The counting loop of `inherit_from`, over the parents in order: every
      parent lands in exactly one bucket, and each bucket holds the
      multiplicity of its team among the parents. */
  function CountTeams(parents: seq<Cell>): (t: Tally)
    ensures t.red + t.blue + t.neutral == |parents|
    ensures t.red == multiset(Teams(parents))[Red]
    ensures t.blue == multiset(Teams(parents))[Blue]
    ensures t.neutral == multiset(Teams(parents))[Neutral]
  {
    if |parents| == 0 then Tally(0, 0, 0)
    else
      var init := parents[..|parents| - 1];
      assert Teams(parents) == Teams(init) + [parents[|parents| - 1].team];
      Bump(CountTeams(init), parents[|parents| - 1].team)
  }

  /** The source counts in `u8`; an overflowing `+= 1` panics in a debug
      build. Every bucket must therefore stay at or below 255. */
  predicate FitsCounters(parents: seq<Cell>)
  {
    var t := CountTeams(parents);
    t.red <= 255 && t.blue <= 255 && t.neutral <= 255
  }

  /** The decision at the end of `inherit_from`: one opposing parent vetoes a
      team, so a team wins only when it is present and its rival absent. */
  function Decide(t: Tally): (team: Team)
    ensures team == Red <==> t.red >= 1 && t.blue == 0
    ensures team == Blue <==> t.blue >= 1 && t.red == 0
    ensures team == Neutral <==> (t.red == 0 && t.blue == 0) || (t.red >= 1 && t.blue >= 1)
  {
    if t.red >= 1 && t.blue == 0 then Red
    else if t.blue >= 1 && t.red == 0 then Blue
    else Neutral
  }

  /** Some parent is on team `team`. */
  predicate HasTeam(parents: seq<Cell>, team: Team)
  {
    exists i :: 0 <= i < |parents| && parents[i].team == team
  }

  /** `Cell::inherit_from`: the cell takes the team its parents decide on
      and keeps its `alive` flag. Red exactly when some parent is Red and
      none is Blue, Blue symmetrically, Neutral otherwise (both rivals
      present, or only Neutral parents, or no parents at all). */
  function InheritFrom(c: Cell, parents: seq<Cell>): (r: Cell)
    requires FitsCounters(parents)
    ensures r.alive == c.alive
    ensures r.team == Red <==> HasTeam(parents, Red) && !HasTeam(parents, Blue)
    ensures r.team == Blue <==> HasTeam(parents, Blue) && !HasTeam(parents, Red)
    ensures r.team == Neutral <==>
              (HasTeam(parents, Red) == HasTeam(parents, Blue))
  {
    PresentIffCounted(parents, Red);
    PresentIffCounted(parents, Blue);
    c.(team := Decide(CountTeams(parents)))
  }

  /** A team occurs among the parents exactly when its bucket is non-empty. */
  lemma PresentIffCounted(parents: seq<Cell>, team: Team)
    ensures HasTeam(parents, team) <==> multiset(Teams(parents))[team] >= 1
  {
    var ts := Teams(parents);
    if HasTeam(parents, team) {
      var i :| 0 <= i < |parents| && parents[i].team == team;
      assert ts[i] == team;
      assert team in multiset(ts);
    } else {
      assert team !in ts;
    }
  }

  /** The inherited team depends only on the multiset of parent teams, not
      on the order in which the parents were listed. */
  lemma InheritIgnoresOrder(c: Cell, p: seq<Cell>, q: seq<Cell>)
    requires multiset(Teams(p)) == multiset(Teams(q))
    requires FitsCounters(p)
    ensures FitsCounters(q)
    ensures InheritFrom(c, p) == InheritFrom(c, q)
  {
  }

  /** A contested birth: two Red parents and one Blue parent give Neutral. */
  lemma ContestedBirthIsNeutral(c: Cell)
    ensures FitsCounters([Cell(true, Red), Cell(true, Red), Cell(true, Blue)])
    ensures InheritFrom(c, [Cell(true, Red), Cell(true, Red), Cell(true, Blue)]).team == Neutral
  {
    var p := [Cell(true, Red), Cell(true, Red), Cell(true, Blue)];
    assert p[0].team == Red && p[2].team == Blue;
  }

  /** An uncontested birth: three Red parents give Red. */
  lemma UncontestedBirthIsRed(c: Cell)
    ensures FitsCounters([Cell(true, Red), Cell(true, Red), Cell(true, Red)])
    ensures InheritFrom(c, [Cell(true, Red), Cell(true, Red), Cell(true, Red)]).team == Red
  {
    var p := [Cell(true, Red), Cell(true, Red), Cell(true, Red)];
    assert p[0].team == Red;
  }
}
