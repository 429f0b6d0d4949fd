/** The records shared by the three panels (types.ts). Identifiers, which the
    application draws as random base-36 strings, are modelled as natural numbers
    handed out by a counter. */
module Types {

  /** An opaque identifier. */
  type Id = nat

  /** One person on the roster. Names need not be unique. */
  datatype Participant = Participant(id: Id, name: string)

  /** One group produced by the grouping panel. */
  datatype Group = Group(id: Id, name: string, members: seq<Participant>)

  /** One entry of the lucky-draw history; `timestamp` is milliseconds since the epoch. */
  datatype DrawWinner = DrawWinner(id: Id, name: string, timestamp: int)

  /** The names of a roster, position by position. */
  function Names(roster: seq<Participant>): (names: seq<string>)
    ensures |names| == |roster|
    ensures forall i :: 0 <= i < |roster| ==> names[i] == roster[i].name
  {
    seq(|roster|, i requires 0 <= i < |roster| => roster[i].name)
  }

  /** The set of names on a roster. */
  function NameSet(roster: seq<Participant>): (names: set<string>)
    ensures forall i :: 0 <= i < |roster| ==> roster[i].name in names
    ensures forall x :: x in names ==> exists i :: 0 <= i < |roster| && roster[i].name == x
  {
    set i | 0 <= i < |roster| :: roster[i].name
  }

  /** The member lists of a group list, group by group. */
  function Members(groups: seq<Group>): (ms: seq<seq<Participant>>)
    ensures |ms| == |groups|
    ensures forall i :: 0 <= i < |groups| ==> ms[i] == groups[i].members
  {
    seq(|groups|, i requires 0 <= i < |groups| => groups[i].members)
  }

  /** No two entries of the roster carry the same id. */
  predicate DistinctIds(roster: seq<Participant>)
  {
    forall i, j :: 0 <= i < j < |roster| ==> roster[i].id != roster[j].id
  }

  /** No two entries of the roster carry the same name. */
  predicate DistinctNames(roster: seq<Participant>)
  {
    forall i, j :: 0 <= i < j < |roster| ==> roster[i].name != roster[j].name
  }
}
