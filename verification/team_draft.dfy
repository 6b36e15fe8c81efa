/**
 * The team draft of the Avalon client (`toggleTeam` in src/App.js): during
 * team selection a click on a player removes that id from the drafted team
 * if present, or appends it if absent, and the new list is sent to the server.
 */
module TeamDraft {
  import opened Wrappers

  /** A socket id, as the server sends it in `players[].id` and `team`. */
  type PlayerId = string

  /** The only phase in which `toggleTeam` sends anything. */
  const TeamSelectionPhase: string := "teamSelection"

  predicate Distinct(s: seq<PlayerId>)
  {
    forall i, j :: 0 <= i < j < |s| ==> s[i] != s[j]
  }

  /** `r` is `s` with some elements deleted and the rest kept in their order. */
  predicate IsSubsequence(r: seq<PlayerId>, s: seq<PlayerId>)
    decreases |s|
  {
    r == [] || (s != [] && ((r[0] == s[0] && IsSubsequence(r[1..], s[1..])) || IsSubsequence(r, s[1..])))
  }

  /**
   * `team.filter((x) => x !== id)`: every occurrence of `id` goes, every other
   * element stays, in the same order.
   */
  function RemoveAll(team: seq<PlayerId>, id: PlayerId): (r: seq<PlayerId>)
    ensures id !in r
    ensures forall x :: x != id ==> (x in r <==> x in team)
    ensures |r| == |team| - multiset(team)[id]
    ensures IsSubsequence(r, team)
  {
    if team == [] then []
    else
      assert team == [team[0]] + team[1..];
      if team[0] == id then RemoveAll(team[1..], id)
      else [team[0]] + RemoveAll(team[1..], id)
  }

  /** The list `toggleTeam` computes from the current draft and the clicked id. */
  function NextTeam(team: seq<PlayerId>, id: PlayerId): (r: seq<PlayerId>)
    ensures id in r <==> id !in team
    ensures forall x :: x != id ==> (x in r <==> x in team)
  {
    if id in team then RemoveAll(team, id) else team + [id]
  }

  /** What one click sends: nothing outside team selection, else the toggled list. */
  function ToggleTeam(phase: string, team: seq<PlayerId>, id: PlayerId): (sent: Option<seq<PlayerId>>)
    ensures sent.Some? <==> phase == TeamSelectionPhase
    ensures sent.Some? ==> (id in sent.value <==> id !in team)
    ensures sent.Some? ==> forall x :: x != id ==> (x in sent.value <==> x in team)
  {
    if phase != TeamSelectionPhase then None else Some(NextTeam(team, id))
  }

  /**
   * The draft after a sequence of clicks, each one `toggleTeam` during team
   * selection, assuming the server adopts each sent list as the new draft
   * before the next click (`toggleTeam` itself only sends).
   */
  function ApplyToggles(team: seq<PlayerId>, clicks: seq<PlayerId>): (draft: seq<PlayerId>)
    decreases |clicks|
  {
    if clicks == [] then team else ApplyToggles(NextTeam(team, clicks[0]), clicks[1..])
  }

  /** A list without `id` is left as it is by the filter. */
  lemma {:induction false} RemoveAllAbsent(team: seq<PlayerId>, id: PlayerId)
    requires id !in team
    ensures RemoveAll(team, id) == team
  {
    if team != [] {
      RemoveAllAbsent(team[1..], id);
    }
  }

  /** The filter works element by element, so it distributes over concatenation. */
  lemma {:induction false} RemoveAllAppend(a: seq<PlayerId>, b: seq<PlayerId>, id: PlayerId)
    ensures RemoveAll(a + b, id) == RemoveAll(a, id) + RemoveAll(b, id)
  {
    if a == [] {
      assert a + b == b;
    } else {
      assert (a + b)[0] == a[0];
      assert (a + b)[1..] == a[1..] + b;
      RemoveAllAppend(a[1..], b, id);
    }
  }

  /** Absent id: the click appends it at the end and keeps the rest of the draft. */
  lemma ToggleAbsentAppends(team: seq<PlayerId>, id: PlayerId)
    requires id !in team
    ensures NextTeam(team, id) == team + [id]
  {
  }

  /** Present id: the click drops all of its occurrences and keeps the others in order. */
  lemma TogglePresentRemoves(team: seq<PlayerId>, id: PlayerId)
    requires id in team
    ensures NextTeam(team, id) == RemoveAll(team, id)
    ensures |NextTeam(team, id)| == |team| - multiset(team)[id] < |team|
  {
  }

  /** Clicking an absent player twice gives back exactly the original draft. */
  lemma ToggleAbsentTwice(team: seq<PlayerId>, id: PlayerId)
    requires id !in team
    ensures NextTeam(NextTeam(team, id), id) == team
  {
    RemoveAllAppend(team, [id], id);
    RemoveAllAbsent(team, id);
    assert RemoveAll([id], id) == RemoveAll([], id);
  }

  /** The filter never introduces a duplicate. */
  lemma {:induction false} RemoveAllKeepsDistinct(team: seq<PlayerId>, id: PlayerId)
    requires Distinct(team)
    ensures Distinct(RemoveAll(team, id))
  {
    if team != [] {
      RemoveAllKeepsDistinct(team[1..], id);
      var rest := RemoveAll(team[1..], id);
      assert team[0] !in team[1..] by {
        forall k | 0 <= k < |team[1..]| ensures team[1..][k] != team[0] {
          assert team[1..][k] == team[k + 1];
        }
      }
      if team[0] != id {
        assert team[0] !in rest;
        var r := [team[0]] + rest;
        forall i, j | 0 <= i < j < |r| ensures r[i] != r[j] {
          if i == 0 {
            assert r[j] == rest[j - 1];
          } else {
            assert r[i] == rest[i - 1] && r[j] == rest[j - 1];
          }
        }
      }
    }
  }

  /** In a list without duplicates an id occurs at most once. */
  lemma {:induction false} DistinctOccursOnce(team: seq<PlayerId>, id: PlayerId)
    requires Distinct(team)
    ensures multiset(team)[id] == if id in team then 1 else 0
  {
    if team != [] {
      assert team == [team[0]] + team[1..];
      assert Distinct(team[1..]) by {
        forall i, j | 0 <= i < j < |team[1..]| ensures team[1..][i] != team[1..][j] {
          assert team[1..][i] == team[i + 1] && team[1..][j] == team[j + 1];
        }
      }
      DistinctOccursOnce(team[1..], id);
      if team[0] == id {
        assert id !in team[1..] by {
          forall k | 0 <= k < |team[1..]| ensures team[1..][k] != id {
            assert team[1..][k] == team[k + 1];
          }
        }
      }
    }
  }

  /**
   * A draft without duplicates stays without duplicates, and each click
   * changes its size by exactly one.
   */
  lemma ToggleKeepsDistinct(team: seq<PlayerId>, id: PlayerId)
    requires Distinct(team)
    ensures Distinct(NextTeam(team, id))
    ensures |NextTeam(team, id)| == if id in team then |team| - 1 else |team| + 1
  {
    if id in team {
      RemoveAllKeepsDistinct(team, id);
      DistinctOccursOnce(team, id);
    } else {
      var r := team + [id];
      forall i, j | 0 <= i < j < |r| ensures r[i] != r[j] {
        if j == |team| {
          assert r[i] == team[i];
        }
      }
    }
  }

  /** The leader can only click seated players, so the draft stays inside the roster. */
  lemma ToggleStaysInRoster(team: seq<PlayerId>, roster: seq<PlayerId>, id: PlayerId)
    requires forall x :: x in team ==> x in roster
    requires id in roster
    ensures forall x :: x in NextTeam(team, id) ==> x in roster
  {
  }

  /**
   * After any sequence of clicks a player is in the draft exactly when it was
   * in the starting draft and was clicked an even number of times, or was not
   * and was clicked an odd number of times.
   */
  lemma {:induction false} ApplyTogglesParity(team: seq<PlayerId>, clicks: seq<PlayerId>, x: PlayerId)
    ensures x in ApplyToggles(team, clicks) <==> (x in team) != (multiset(clicks)[x] % 2 == 1)
    decreases |clicks|
  {
    if clicks != [] {
      var c, rest := clicks[0], clicks[1..];
      var next := NextTeam(team, c);
      assert ApplyToggles(team, clicks) == ApplyToggles(next, rest);
      ApplyTogglesParity(next, rest, x);
      assert multiset(clicks)[x] == multiset(rest)[x] + (if x == c then 1 else 0) by {
        assert clicks == [c] + rest;
      }
      ParityStep(x in next, x in team, multiset(rest)[x], x == c);
    }
  }

  /** One more click flips membership exactly when it is on the player in question. */
  lemma ParityStep(inNext: bool, inTeam: bool, n: nat, clicked: bool)
    requires inNext <==> inTeam != clicked
    ensures (inNext != (n % 2 == 1)) <==> (inTeam != ((n + (if clicked then 1 else 0)) % 2 == 1))
  {
  }

  /** Clicking fresh, distinct players one after another appends them in click order. */
  lemma {:induction false} ApplyTogglesAppendsFresh(team: seq<PlayerId>, clicks: seq<PlayerId>)
    requires Distinct(clicks)
    requires forall x :: x in clicks ==> x !in team
    ensures ApplyToggles(team, clicks) == team + clicks
    decreases |clicks|
  {
    if clicks != [] {
      var c := clicks[0];
      var rest := clicks[1..];
      assert c !in rest by {
        forall k | 0 <= k < |rest| ensures rest[k] != c {
          assert rest[k] == clicks[k + 1];
        }
      }
      assert Distinct(rest) by {
        forall i, j | 0 <= i < j < |rest| ensures rest[i] != rest[j] {
          assert rest[i] == clicks[i + 1] && rest[j] == clicks[j + 1];
        }
      }
      ToggleAbsentAppends(team, c);
      ApplyTogglesAppendsFresh(team + [c], rest);
      assert team + [c] + rest == team + clicks;
    }
  }
}
