/** The maintenance script scripts/accept_join_request.py: it marks one join
    request accepted and, unless told not to, takes one slot from its team
    request when a slot is left. Unlike the owner's accept in
    `FindTeam.Handle`, it checks neither the current status nor the caller. */
module AcceptJoinRequest {
  import opened Common
  import opened FindTeam

  /** The script's exit status together with the tables it leaves. */
  datatype Run = Run(joins: seq<JoinRequest>, teams: seq<TeamRequest>, exitCode: int)

  predicate Found(joins: seq<JoinRequest>, id: int) {
    0 < id <= |joins|
  }

  /** Whether the second UPDATE runs: not switched off and the request has a
      truthy (non-zero) team request id. */
  predicate DecrementRequested(joins: seq<JoinRequest>, id: int, noDecrement: bool)
    requires Found(joins, id)
  {
    !noDecrement && joins[id - 1].team != 0
  }

  /** `UPDATE team_requests SET required_size = required_size - 1 WHERE id = t
      AND required_size > 0`: no row for a missing id or an exhausted one. */
  function TakeSlot(teams: seq<TeamRequest>, t: nat): (r: seq<TeamRequest>)
    ensures |r| == |teams|
    ensures forall k :: 0 <= k < |teams| && k != t - 1 ==> r[k] == teams[k]
    ensures HasId(teams, t) && teams[t - 1].requiredSize > 0
            ==> r[t - 1] == teams[t - 1].(requiredSize := teams[t - 1].requiredSize - 1)
    ensures !(HasId(teams, t) && teams[t - 1].requiredSize > 0) ==> r == teams
  {
    if HasId(teams, t) && teams[t - 1].requiredSize > 0 then
      teams[t - 1 := teams[t - 1].(requiredSize := teams[t - 1].requiredSize - 1)]
    else teams
  }

  /** One run of the script on join request `id`: exit 1 and no change when
      the id is unknown; otherwise both updates are committed together. */
  function Script(joins: seq<JoinRequest>, teams: seq<TeamRequest>, id: int, noDecrement: bool): Run {
    if !Found(joins, id) then Run(joins, teams, 1)
    else
      var joins' := joins[id - 1 := joins[id - 1].(status := RequestStatus.Accepted)];
      var teams' := if DecrementRequested(joins, id, noDecrement) then TakeSlot(teams, joins[id - 1].team) else teams;
      Run(joins', teams', 0)
  }

  /** What a run does, whatever the request's status was before. */
  lemma ScriptSpec(joins: seq<JoinRequest>, teams: seq<TeamRequest>, id: int, noDecrement: bool)
    ensures var r := Script(joins, teams, id, noDecrement);
      (r.exitCode == 0 <==> Found(joins, id)) &&
      (r.exitCode != 0 ==> r.joins == joins && r.teams == teams) &&
      (r.exitCode == 0 ==>
         |r.joins| == |joins| && r.joins[id - 1].status == RequestStatus.Accepted &&
         (forall k :: 0 <= k < |joins| && k != id - 1 ==> r.joins[k] == joins[k])) &&
      |r.teams| == |teams| &&
      (forall k :: 0 <= k < |teams| ==>
         r.teams[k].requiredSize == teams[k].requiredSize - (
           if Found(joins, id) && DecrementRequested(joins, id, noDecrement) && k == joins[id - 1].team - 1
              && teams[k].requiredSize > 0 then 1 else 0))
  {
  }

  /** The guarded UPDATE never makes a size negative. */
  lemma ScriptKeepsSizesNonNegative(joins: seq<JoinRequest>, teams: seq<TeamRequest>, id: int, noDecrement: bool)
    requires forall k :: 0 <= k < |teams| ==> teams[k].requiredSize >= 0
    ensures var r := Script(joins, teams, id, noDecrement);
      forall k :: 0 <= k < |r.teams| ==> r.teams[k].requiredSize >= 0
  {
  }

  /** The script keeps both uniqueness rules of the board. */
  lemma ScriptKeepsUnique(joins: seq<JoinRequest>, teams: seq<TeamRequest>, id: int, noDecrement: bool)
    requires UniqueTeams(teams) && UniqueJoins(joins)
    ensures var r := Script(joins, teams, id, noDecrement);
      UniqueTeams(r.teams) && UniqueJoins(r.joins)
  {
    var r := Script(joins, teams, id, noDecrement);
    assert |r.joins| == |joins| && forall a :: 0 <= a < |joins| ==>
      r.joins[a].team == joins[a].team && r.joins[a].email == joins[a].email;
    assert |r.teams| == |teams| && forall k :: 0 <= k < |teams| ==>
      r.teams[k].email == teams[k].email && r.teams[k].eventId == teams[k].eventId;
  }

  /** Running the script again on a request it already accepted takes one
      more slot while the number of accepted members stays the same: unlike
      `FindTeam.HandleConservesSlots`, free slots plus accepted members drop. */
  lemma {:induction false} RerunTakesAnotherSlot(joins: seq<JoinRequest>, teams: seq<TeamRequest>, id: int)
    requires Found(joins, id) && joins[id - 1].status == RequestStatus.Accepted
    requires HasId(teams, joins[id - 1].team) && teams[joins[id - 1].team - 1].requiredSize > 0
    ensures var t := joins[id - 1].team;
      var r := Script(joins, teams, id, false);
      r.joins == joins &&
      r.teams[t - 1].requiredSize + AcceptedFor(r.joins, t) == teams[t - 1].requiredSize + AcceptedFor(joins, t) - 1
  {
    var r := Script(joins, teams, id, false);
    assert r.joins == joins by {
      assert joins[id - 1].(status := RequestStatus.Accepted) == joins[id - 1];
    }
  }

  /** The script accepts a request the owner already rejected. */
  lemma AcceptsRejected(joins: seq<JoinRequest>, teams: seq<TeamRequest>, id: int, noDecrement: bool)
    requires Found(joins, id) && joins[id - 1].status == RequestStatus.Rejected
    ensures Script(joins, teams, id, noDecrement).joins[id - 1].status == RequestStatus.Accepted
  {
  }

  /** The script run against the board's tables. */
  method AcceptJoinRequestScript(board: TeamBoard, id: int, noDecrement: bool) returns (exitCode: int)
    requires board.Valid()
    modifies board
    ensures board.Valid()
    ensures Run(board.joins, board.teams, exitCode) == Script(old(board.joins), old(board.teams), id, noDecrement)
    ensures board.events == old(board.events)
  {
    ScriptKeepsUnique(board.joins, board.teams, id, noDecrement);
    if !(0 < id <= |board.joins|) {
      return 1;
    }
    var row := board.joins[id - 1];
    board.joins := board.joins[id - 1 := row.(status := RequestStatus.Accepted)];
    if !noDecrement && row.team != 0 {
      var t := row.team;
      if t <= |board.teams| && board.teams[t - 1].requiredSize > 0 {
        board.teams := board.teams[t - 1 := board.teams[t - 1].(requiredSize := board.teams[t - 1].requiredSize - 1)];
      }
    }
    exitCode := 0;
  }
}
