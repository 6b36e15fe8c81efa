/**
 * The derived checks the Avalon client computes from the server's state
 * snapshot (src/App.js): the leader test, the game-over flag, whether the
 * confirm button is enabled, the upper bound of the assassin-count input and
 * the five result chips.
 */
module Board {
  import opened Wrappers
  import opened MissionRules
  import opened TeamDraft

  /** A JavaScript value that is `null`, `undefined` or a string id. */
  datatype JsValue = Null | Undefined | Str(s: string)

  /**
   * `state.leaderId === socket.id`. The server's `leaderId` is `null` before a
   * leader is named; `socket.id` is `undefined` (None) while not connected.
   * Strict equality holds exactly when both are the same kind and, for
   * strings, the same characters.
   */
  function IAmLeader(leaderId: JsValue, socketId: Option<string>): (leader: bool)
    ensures leaderId.Null? ==> !leader
    ensures leaderId.Str? && socketId.Some? ==> (leader <==> leaderId.s == socketId.value)
    ensures leader && socketId.Some? ==> leaderId == Str(socketId.value)
    ensures socketId.None? ==> (leader <==> leaderId.Undefined?)
  {
    var mine := match socketId case None => Undefined case Some(id) => Str(id);
    leaderId == mine
  }

  /** Among connected players with distinct ids, the named leader is the only one who sees the leader controls. */
  lemma LeaderControlsForOnePlayer(leaderId: string, roster: seq<PlayerId>)
    requires Distinct(roster)
    requires leaderId in roster
    ensures exists i :: 0 <= i < |roster| && IAmLeader(Str(leaderId), Some(roster[i]))
    ensures forall i, j ::
      (0 <= i < |roster| && 0 <= j < |roster| &&
       IAmLeader(Str(leaderId), Some(roster[i])) && IAmLeader(Str(leaderId), Some(roster[j]))) ==> i == j
  {
    var i :| 0 <= i < |roster| && roster[i] == leaderId;
    assert IAmLeader(Str(leaderId), Some(roster[i]));
  }

  /** `assassinWins >= 3 || goodWins >= 3 || round > 5`. */
  function GameOver(assassinWins: int, goodWins: int, round: int): (over: bool)
    ensures !over ==> assassinWins <= 2 && goodWins <= 2 && round <= 5
  {
    assassinWins >= 3 || goodWins >= 3 || round > 5
  }

  /** Counters and round only grow during a game, so once over the game stays over. */
  lemma GameOverStaysOver(a: int, g: int, r: int, a': int, g': int, r': int)
    requires a <= a' && g <= g' && r <= r'
    requires GameOver(a, g, r)
    ensures GameOver(a', g', r')
  {
  }

  /** One entry of `state.results`; the chips call a round good when `winner` is "Buenos". */
  datatype RoundResult = RoundResult(round: int, winner: string)

  const GoodWinner: string := "Buenos"

  /** Rounds credited to the good side. */
  function GoodRounds(results: seq<RoundResult>): (wins: nat)
  {
    if results == [] then 0
    else (if results[0].winner == GoodWinner then 1 else 0) + GoodRounds(results[1..])
  }

  /** Rounds credited to the assassins: every result whose winner is not "Buenos". */
  function AssassinRounds(results: seq<RoundResult>): (wins: nat)
  {
    if results == [] then 0
    else (if results[0].winner == GoodWinner then 0 else 1) + AssassinRounds(results[1..])
  }

  /** Every result credits exactly one side. */
  lemma {:induction false} RoundsSplit(results: seq<RoundResult>)
    ensures GoodRounds(results) + AssassinRounds(results) == |results|
  {
    if results != [] {
      RoundsSplit(results[1..]);
    }
  }

  /**
   * When the counters and the round agree with the results list (each
   * resolved round appends one result and credits one side, and the round is
   * one past the last result), the game is over within five rounds exactly
   * when a side has three wins: five results always give some side three, so
   * the `round > 5` clause never decides on its own.
   */
  lemma GameOverIffThreeWins(results: seq<RoundResult>)
    requires |results| <= 5
    ensures GameOver(AssassinRounds(results), GoodRounds(results), |results| + 1)
      <==> (AssassinRounds(results) >= 3 || GoodRounds(results) >= 3)
  {
    RoundsSplit(results);
  }

  /** `state.team.length !== requiredTeamSize` negated: the confirm button is enabled. */
  function ConfirmEnabled(team: seq<PlayerId>, playerCount: nat, round: int): (enabled: bool)
    ensures enabled ==> 2 <= |team| <= 5
    ensures enabled && playerCount >= 2 ==> |team| <= playerCount
  {
    |team| == RequiredTeamSize(playerCount, round)
  }

  /** Inside the table, confirm is enabled exactly when the draft has the table's size; outside it, exactly at size 2. */
  lemma ConfirmEnabledBySize(team: seq<PlayerId>, playerCount: nat, round: int)
    ensures 5 <= playerCount <= 10 && 1 <= round <= 5 ==>
      (ConfirmEnabled(team, playerCount, round) <==> |team| == MissionTeamSizes[playerCount][round - 1])
    ensures !(5 <= playerCount <= 10 && 1 <= round <= 5) ==>
      (ConfirmEnabled(team, playerCount, round) <==> |team| == 2)
  {
    if 5 <= playerCount <= 10 && 1 <= round <= 5 {
      RequiredTeamSizeFromTable(playerCount, round);
    } else {
      RequiredTeamSizeFallback(playerCount, round);
    }
  }

  /**
   * With at least two seated players the leader can always enable confirm:
   * clicking the first `RequiredTeamSize` seated players, starting from an
   * empty draft, gives a draft of seated players of exactly that size,
   * provided the server adopts each sent list before the next click.
   */
  lemma ConfirmReachable(roster: seq<PlayerId>, round: int)
    requires Distinct(roster)
    requires |roster| >= 2
    ensures RequiredTeamSize(|roster|, round) <= |roster|
    ensures var draft := ApplyToggles([], roster[..RequiredTeamSize(|roster|, round)]);
      ConfirmEnabled(draft, |roster|, round) && Distinct(draft) && forall x :: x in draft ==> x in roster
  {
    var k := RequiredTeamSize(|roster|, round);
    var clicks := roster[..k];
    assert Distinct(clicks) by {
      forall i, j | 0 <= i < j < |clicks| ensures clicks[i] != clicks[j] {
        assert clicks[i] == roster[i] && clicks[j] == roster[j];
      }
    }
    ApplyTogglesAppendsFresh([], clicks);
    assert [] + clicks == clicks;
  }

  /** `Math.max(1, (state.players?.length || 2) - 1)`; None stands for a missing `players`. */
  function AssassinCountMax(playerCount: Option<nat>): (max: nat)
    ensures max >= 1
    ensures playerCount.Some? && playerCount.value >= 2 ==> max == playerCount.value - 1
    ensures playerCount.None? || playerCount.value < 2 ==> max == 1
  {
    var counted := match playerCount case Some(n) => if n != 0 then n else 2 case None => 2;
    if counted - 1 > 1 then counted - 1 else 1
  }

  /**
   * With two or more players every count within the input's `max` bound
   * leaves at least one good player. The input does not enforce the bound:
   * `start` sends whatever was typed.
   */
  lemma AssassinCountLeavesGoodPlayer(playerCount: nat, assassins: int)
    requires playerCount >= 2
    requires 1 <= assassins <= AssassinCountMax(Some(playerCount))
    ensures assassins < playerCount
  {
  }

  /** `results.find((r) => r.round === round)`, as the index found, or `|results|` when none matches. */
  function FirstWithRound(results: seq<RoundResult>, round: int): (k: nat)
    ensures k <= |results|
    ensures forall j :: 0 <= j < k ==> results[j].round != round
    ensures k < |results| ==> results[k].round == round
  {
    if results == [] then 0
    else if results[0].round == round then 0
    else 1 + FirstWithRound(results[1..], round)
  }

  /** `results[k]` is the element `find` returns for `round`. */
  predicate FirstResultFor(results: seq<RoundResult>, k: int, round: int)
  {
    0 <= k < |results| && results[k].round == round && forall j :: 0 <= j < k ==> results[j].round != round
  }

  /** A chip shows the round number when that round has no result, else a good or an evil mark. */
  datatype Chip = Pending(roundNumber: int) | GoodChip | EvilChip

  /** The chip for round `i + 1`. */
  function ChipAt(results: seq<RoundResult>, i: nat): (chip: Chip)
    ensures chip.Pending? <==> forall k :: 0 <= k < |results| ==> results[k].round != i + 1
    ensures chip.Pending? ==> chip.roundNumber == i + 1
    ensures chip.GoodChip? <==> exists k :: FirstResultFor(results, k, i + 1) && results[k].winner == GoodWinner
    ensures chip.EvilChip? <==> exists k :: FirstResultFor(results, k, i + 1) && results[k].winner != GoodWinner
  {
    var k := FirstWithRound(results, i + 1);
    if k == |results| then Pending(i + 1)
    else if results[k].winner == GoodWinner then GoodChip
    else EvilChip
  }

  /** The five chips of the board, rounds 1 to 5. */
  function Chips(results: seq<RoundResult>): (chips: seq<Chip>)
    ensures |chips| == 5
    ensures forall i :: 0 <= i < 5 ==>
      (chips[i].Pending? <==> forall k :: 0 <= k < |results| ==> results[k].round != i + 1)
    ensures forall i :: 0 <= i < 5 && chips[i].Pending? ==> chips[i].roundNumber == i + 1
    ensures forall i :: 0 <= i < 5 ==>
      (chips[i].GoodChip? <==> exists k :: FirstResultFor(results, k, i + 1) && results[k].winner == GoodWinner)
    ensures forall i :: 0 <= i < 5 ==>
      (chips[i].EvilChip? <==> exists k :: FirstResultFor(results, k, i + 1) && results[k].winner != GoodWinner)
  {
    seq(5, i requires 0 <= i => ChipAt(results, i))
  }

  /** The chip for round `i + 1` read straight off the `i`-th result. */
  function ExpectedChip(results: seq<RoundResult>, i: nat): (chip: Chip)
  {
    if i >= |results| then Pending(i + 1)
    else if results[i].winner == GoodWinner then GoodChip
    else EvilChip
  }

  /**
   * When the results are numbered 1, 2, ... in order, chip `i` shows result
   * `i` if there is one and the round number otherwise.
   */
  lemma ChipsFollowResults(results: seq<RoundResult>)
    requires forall k :: 0 <= k < |results| ==> results[k].round == k + 1
    ensures forall i :: 0 <= i < 5 ==> Chips(results)[i] == ExpectedChip(results, i)
  {
    forall i | 0 <= i < 5
      ensures Chips(results)[i] == ExpectedChip(results, i)
    {
      var k := FirstWithRound(results, i + 1);
      if i < |results| {
        assert results[i].round == i + 1;
        assert k == i;
      }
    }
  }

  /** Number of good marks in a row of chips. */
  function GoodChipCount(chips: seq<Chip>): (count: nat)
  {
    if chips == [] then 0 else (if chips[0].GoodChip? then 1 else 0) + GoodChipCount(chips[1..])
  }

  /** Chips that follow `results` one to one, then stay pending, carry as many good marks as good rounds. */
  lemma {:induction false} GoodChipCountMatches(results: seq<RoundResult>, chips: seq<Chip>)
    requires |results| <= |chips|
    requires forall i :: 0 <= i < |results| ==> chips[i].GoodChip? == (results[i].winner == GoodWinner)
    requires forall i :: |results| <= i < |chips| ==> chips[i].Pending?
    ensures GoodChipCount(chips) == GoodRounds(results)
  {
    if chips != [] {
      if results == [] {
        assert chips[0].Pending?;
        GoodChipCountMatches([], chips[1..]);
      } else {
        GoodChipCountMatches(results[1..], chips[1..]);
      }
    }
  }

  /**
   * With at most five results numbered 1, 2, ... in order, the board shows
   * one good mark per round the good side won.
   */
  lemma GoodChipsCountGoodRounds(results: seq<RoundResult>)
    requires |results| <= 5
    requires forall k :: 0 <= k < |results| ==> results[k].round == k + 1
    ensures GoodChipCount(Chips(results)) == GoodRounds(results)
  {
    var chips := Chips(results);
    ChipsFollowResults(results);
    forall i | 0 <= i < |results|
      ensures chips[i].GoodChip? == (results[i].winner == GoodWinner)
    {
      assert chips[i] == ExpectedChip(results, i);
    }
    GoodChipCountMatches(results, chips);
    assert GoodChipCount(chips) == GoodRounds(results);
  }
}
