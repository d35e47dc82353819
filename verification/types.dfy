/** The record and group types of the distributor (src/types.ts). */
module Types {

  /** One participant as read from the input file. The allocator carries
      records through unchanged and never looks at their fields. */
  datatype UserRecord = UserRecord(
    id: string,
    firstName: string,
    lastName: string,
    email: string,
    department: string,
    level: string)

  /** A group is the ordered list of the users placed in it. */
  type Group = seq<UserRecord>

  /** A value that may be JavaScript's `undefined`. */
  datatype Option<T> = None | Some(value: T)

  /** The users of all groups, group after group, in order. */
  function Flatten(groups: seq<Group>): seq<UserRecord>
  {
    if groups == [] then [] else groups[0] + Flatten(groups[1..])
  }

  /** How many times `u` is found in the groups, summed group by group. */
  function Occurrences(groups: seq<Group>, u: UserRecord): nat
  {
    if groups == [] then 0 else multiset(groups[0])[u] + Occurrences(groups[1..], u)
  }

  /** Counting a user group by group is counting it in the concatenation. */
  lemma {:induction false} OccurrencesFlatten(groups: seq<Group>, u: UserRecord)
    ensures Occurrences(groups, u) == multiset(Flatten(groups))[u]
  {
    if groups != [] {
      OccurrencesFlatten(groups[1..], u);
    }
  }

  /** A user counted zero times is in no group. */
  lemma {:induction false} OccurrencesAbsent(groups: seq<Group>, u: UserRecord)
    requires Occurrences(groups, u) == 0
    ensures forall j :: 0 <= j < |groups| ==> u !in groups[j]
  {
    if groups != [] {
      OccurrencesAbsent(groups[1..], u);
      forall j | 1 <= j < |groups| ensures u !in groups[j] {
        assert groups[j] == groups[1..][j - 1];
      }
    }
  }

  /** A user counted once over all groups sits in exactly one of them. */
  lemma {:induction false} OccurrencesOnce(groups: seq<Group>, u: UserRecord)
    requires Occurrences(groups, u) == 1
    ensures exists j :: 0 <= j < |groups| && u in groups[j]
    ensures forall j1, j2 :: 0 <= j1 < |groups| && 0 <= j2 < |groups| && u in groups[j1] && u in groups[j2] ==> j1 == j2
  {
    var rest := groups[1..];
    if u in groups[0] {
      OccurrencesAbsent(rest, u);
      forall j | 1 <= j < |groups| ensures u !in groups[j] {
        assert groups[j] == rest[j - 1];
      }
    } else {
      OccurrencesOnce(rest, u);
      var j :| 0 <= j < |rest| && u in rest[j];
      assert u in groups[j + 1];
      forall j1 | 1 <= j1 < |groups| ensures groups[j1] == rest[j1 - 1] { }
    }
  }
}
