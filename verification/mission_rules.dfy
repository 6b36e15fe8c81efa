/**
 * The mission team-size rule of the Avalon client (src/App.js): a table keyed
 * by the number of seated players, one entry per round, read with optional
 * chaining and a `|| 2` fallback.
 *
 * Defect in the source: the expression computing the required size reads
 * `state` before `const [state, setState]` is declared, which in
 * JavaScript is a temporal-dead-zone ReferenceError on every render. The
 * model treats the lookup as the function of (player count, round) that the
 * code evidently means, not as the crash.
 */
module MissionRules {
  import opened Wrappers

  /** Team size per round 1..5, for 5..10 players; no other player count has a row. */
  const MissionTeamSizes: map<nat, seq<nat>> := map[
    5 := [2, 3, 2, 3, 3],
    6 := [2, 3, 4, 3, 4],
    7 := [2, 3, 3, 4, 4],
    8 := [3, 4, 4, 5, 5],
    9 := [3, 4, 4, 5, 5],
    10 := [3, 4, 4, 5, 5]
  ]

  /** The right operand of `|| 2`. */
  const FallbackTeamSize: nat := 2

  /** `missionTeamSizes[playerCount]?.[round - 1]`, with None where JavaScript yields `undefined`. */
  function TableEntry(playerCount: nat, round: int): (entry: Option<nat>)
  {
    if playerCount in MissionTeamSizes && 1 <= round <= |MissionTeamSizes[playerCount]|
    then Some(MissionTeamSizes[playerCount][round - 1])
    else None
  }

  /** Every row has five entries, each between 2 and 5 and below its player count. */
  lemma TableRowsWellFormed(playerCount: nat)
    requires playerCount in MissionTeamSizes
    ensures |MissionTeamSizes[playerCount]| == 5
    ensures forall i :: 0 <= i < 5 ==>
      2 <= MissionTeamSizes[playerCount][i] <= 5 && MissionTeamSizes[playerCount][i] < playerCount
  {
    var row := MissionTeamSizes[playerCount];
    if playerCount == 5 {
      assert row == [2, 3, 2, 3, 3];
    } else if playerCount == 6 {
      assert row == [2, 3, 4, 3, 4];
    } else if playerCount == 7 {
      assert row == [2, 3, 3, 4, 4];
    } else {
      assert row == [3, 4, 4, 5, 5];
    }
  }

  /**
   * `requiredTeamSize`: the table entry, or 2 when the lookup is `undefined`
   * or falsy (JavaScript's `||` would also replace an entry of 0).
   */
  function RequiredTeamSize(playerCount: nat, round: int): (size: nat)
    ensures 2 <= size <= 5
    ensures playerCount >= 2 ==> size <= playerCount
  {
    match TableEntry(playerCount, round)
    case Some(entry) =>
      TableRowsWellFormed(playerCount);
      if entry != 0 then entry else FallbackTeamSize
    case None => FallbackTeamSize
  }

  /** Inside the table (5..10 players, rounds 1..5) the required size is the table's entry. */
  lemma RequiredTeamSizeFromTable(playerCount: nat, round: int)
    requires 5 <= playerCount <= 10 && 1 <= round <= 5
    ensures playerCount in MissionTeamSizes
    ensures RequiredTeamSize(playerCount, round) == MissionTeamSizes[playerCount][round - 1]
  {
    assert playerCount in {5, 6, 7, 8, 9, 10};
    TableRowsWellFormed(playerCount);
  }

  /** Outside the table (at most 4 or at least 11 players, or a round outside 1..5) the required size is 2. */
  lemma RequiredTeamSizeFallback(playerCount: nat, round: int)
    requires playerCount <= 4 || playerCount >= 11 || round < 1 || round > 5
    ensures RequiredTeamSize(playerCount, round) == 2
  {
    if playerCount in MissionTeamSizes {
      TableRowsWellFormed(playerCount);
    }
  }

  /** With five or more players every mission leaves at least one player off the team. */
  lemma RequiredTeamSizeLeavesSomeoneOut(playerCount: nat, round: int)
    requires playerCount >= 5
    ensures RequiredTeamSize(playerCount, round) < playerCount
  {
    if playerCount in MissionTeamSizes {
      TableRowsWellFormed(playerCount);
    }
  }
}
