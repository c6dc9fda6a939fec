/** The find-team board of backend/routes/find_team.py: a student's team
    request per event (with the number of members still wanted,
    `required_size`), join requests from other students, and the owner's
    accept/reject decision that uses up one slot per accepted member.

    Tables are sequences of rows; the row with id `n` is at position `n - 1`. */
module FindTeam {
  import opened Common

  /** A row of `events`; only its existence matters here. */
  datatype Event = Event(title: Option<string>)

  /** A row of `team_requests`. */
  datatype TeamRequest = TeamRequest(
    name: string, email: string, eventId: nat, domain: string, branch: string, year: string,
    requiredSize: int)

  /** A row of `join_requests`. */
  datatype JoinRequest = JoinRequest(
    team: nat, name: string, email: string, branch: string, year: string, phone: string,
    status: RequestStatus)

  /** What a handler did. */
  datatype Outcome = Inserted | Replaced | Redirected | Duplicate | MemberAccepted | MemberRejected | Unchanged | Failed

  /** The form fields of a team request. */
  datatype TeamForm = TeamForm(name: string, eventId: nat, domain: string, branch: string, year: string,
                               requiredSize: int)

  /** The form fields of a join request. */
  datatype JoinForm = JoinForm(name: string, branch: string, year: string, phone: string)

  // -------------------------------------------------------------------------
  // find_team POST: upsert per (email, event)

  predicate IsTeamOf(t: TeamRequest, email: string, eventId: nat) {
    t.email == email && t.eventId == eventId
  }

  predicate HasTeam(teams: seq<TeamRequest>, email: string, eventId: nat) {
    exists i :: 0 <= i < |teams| && IsTeamOf(teams[i], email, eventId)
  }

  /** At most one team request per (email, event). */
  predicate UniqueTeams(teams: seq<TeamRequest>) {
    forall i, j :: 0 <= i < j < |teams| ==>
      teams[i].email != teams[j].email || teams[i].eventId != teams[j].eventId
  }

  /** The row the form describes. */
  function FormRow(email: string, f: TeamForm): TeamRequest {
    TeamRequest(f.name, email, f.eventId, f.domain, f.branch, f.year, f.requiredSize)
  }

  /** The UPDATE: every row of (email, event) takes the form's values. */
  function Overwrite(teams: seq<TeamRequest>, email: string, f: TeamForm): (r: seq<TeamRequest>)
    ensures |r| == |teams|
    ensures forall i :: 0 <= i < |teams| ==>
      r[i] == if IsTeamOf(teams[i], email, f.eventId) then FormRow(email, f) else teams[i]
  {
    seq(|teams|, i requires 0 <= i < |teams| =>
      if IsTeamOf(teams[i], email, f.eventId) then FormRow(email, f) else teams[i])
  }

  /** find_team POST by the student with `email`: update the existing rows of
      (email, event), or insert one; an insert for a missing event violates
      the foreign key and changes nothing. */
  function Upsert(teams: seq<TeamRequest>, events: seq<Event>, email: string, f: TeamForm)
    : (seq<TeamRequest>, Outcome)
  {
    if HasTeam(teams, email, f.eventId) then (Overwrite(teams, email, f), Replaced)
    else if !HasId(events, f.eventId) then (teams, Failed)
    else (teams + [FormRow(email, f)], Inserted)
  }

  /** After an upsert that did not fail, the pair has exactly the form's row
      and at most one; rows of other pairs are untouched; uniqueness is kept. */
  lemma UpsertSpec(teams: seq<TeamRequest>, events: seq<Event>, email: string, f: TeamForm)
    requires UniqueTeams(teams)
    ensures var r := Upsert(teams, events, email, f);
      UniqueTeams(r.0) &&
      (r.1 != Failed ==> exists i :: 0 <= i < |r.0| && r.0[i] == FormRow(email, f)) &&
      (r.1 == Failed ==> r.0 == teams && !HasId(events, f.eventId)) &&
      (forall i :: 0 <= i < |teams| && !IsTeamOf(teams[i], email, f.eventId) ==> r.0[i] == teams[i]) &&
      |r.0| == |teams| + (if r.1 == Inserted then 1 else 0)
  {
    var r := Upsert(teams, events, email, f);
    if r.1 == Replaced {
      var i :| 0 <= i < |teams| && IsTeamOf(teams[i], email, f.eventId);
      assert r.0[i] == FormRow(email, f);
      forall a, b | 0 <= a < b < |r.0|
        ensures r.0[a].email != r.0[b].email || r.0[a].eventId != r.0[b].eventId
      {
        assert r.0[a].email == teams[a].email && r.0[a].eventId == teams[a].eventId;
        assert r.0[b].email == teams[b].email && r.0[b].eventId == teams[b].eventId;
      }
    } else if r.1 == Inserted {
      assert r.0[|teams|] == FormRow(email, f);
      forall a, b | 0 <= a < b < |r.0|
        ensures r.0[a].email != r.0[b].email || r.0[a].eventId != r.0[b].eventId
      {
        if b == |teams| {
          assert r.0[a] == teams[a];
        }
      }
    }
  }

  // -------------------------------------------------------------------------
  // find_team GET: the list shown to a student

  /** Ids n, n-1, ..., 1: `ORDER BY tr.id DESC`. */
  function IdsDescending(n: nat): (r: seq<nat>)
    ensures |r| == n && forall i :: 0 <= i < n ==> r[i] == n - i
  {
    seq(n, i requires 0 <= i < n => n - i)
  }

  /** The team requests listed to the student with `email`: other students'
      requests whose event exists, newest id first. */
  function ListedFor(teams: seq<TeamRequest>, events: seq<Event>, email: string): seq<nat> {
    Filter(IdsDescending(|teams|),
      (id: nat) => HasId(teams, id) && teams[id - 1].email != email && HasId(events, teams[id - 1].eventId))
  }

  /** The list never holds the student's own requests, and it holds every
      other request whose event exists. */
  lemma ListedForSpec(teams: seq<TeamRequest>, events: seq<Event>, email: string)
    ensures var l := ListedFor(teams, events, email);
      (forall i :: 0 <= i < |l| ==> HasId(teams, l[i]) && teams[l[i] - 1].email != email) &&
      (forall id: nat :: HasId(teams, id) && teams[id - 1].email != email && HasId(events, teams[id - 1].eventId)
         ==> id in l)
  {
    var ids := IdsDescending(|teams|);
    forall id: nat | HasId(teams, id) && teams[id - 1].email != email && HasId(events, teams[id - 1].eventId)
      ensures id in ListedFor(teams, events, email)
    {
      assert ids[|teams| - id] == id;
    }
  }

  // -------------------------------------------------------------------------
  // join_team

  /** The team request `teamId` joined with its event. */
  predicate TeamVisible(teams: seq<TeamRequest>, events: seq<Event>, teamId: nat) {
    HasId(teams, teamId) && HasId(events, teams[teamId - 1].eventId)
  }

  predicate HasJoin(joins: seq<JoinRequest>, teamId: nat, email: string) {
    exists i :: 0 <= i < |joins| && joins[i].team == teamId && joins[i].email == email
  }

  /** At most one join request per (team request, email). */
  predicate UniqueJoins(joins: seq<JoinRequest>) {
    forall i, j :: 0 <= i < j < |joins| ==> joins[i].team != joins[j].team || joins[i].email != joins[j].email
  }

  /** join_team POST by the student with `email`: no join for a missing team
      or one's own; a second request for the same pair is not inserted; a new
      one starts pending. */
  function JoinStep(joins: seq<JoinRequest>, teams: seq<TeamRequest>, events: seq<Event>,
                teamId: nat, email: string, f: JoinForm): (r: (seq<JoinRequest>, Outcome))
  {
    if !TeamVisible(teams, events, teamId) || teams[teamId - 1].email == email then (joins, Redirected)
    else if HasJoin(joins, teamId, email) then (joins, Duplicate)
    else (joins + [JoinRequest(teamId, f.name, email, f.branch, f.year, f.phone, Pending)], Inserted)
  }

  lemma JoinSpec(joins: seq<JoinRequest>, teams: seq<TeamRequest>, events: seq<Event>,
                 teamId: nat, email: string, f: JoinForm)
    requires UniqueJoins(joins)
    ensures var r := JoinStep(joins, teams, events, teamId, email, f);
      UniqueJoins(r.0) &&
      (r.1 == Inserted <==> TeamVisible(teams, events, teamId) && teams[teamId - 1].email != email
                            && !HasJoin(joins, teamId, email)) &&
      (r.1 == Inserted ==> r.0 == joins + [JoinRequest(teamId, f.name, email, f.branch, f.year, f.phone, Pending)]) &&
      (r.1 != Inserted ==> r.0 == joins)
  {
    var r := JoinStep(joins, teams, events, teamId, email, f);
    if r.1 == Inserted {
      forall a, b | 0 <= a < b < |r.0|
        ensures r.0[a].team != r.0[b].team || r.0[a].email != r.0[b].email
      {
        if b == |joins| {
          assert r.0[a] == joins[a];
        }
      }
    }
  }

  // -------------------------------------------------------------------------
  // handle_join_request

  /** The join request `joinId` belongs to a team request of `email` (the
      join with team_requests on `tr.email`). */
  predicate OwnsJoin(joins: seq<JoinRequest>, teams: seq<TeamRequest>, joinId: nat, email: string) {
    HasId(joins, joinId) && HasId(teams, joins[joinId - 1].team) && teams[joins[joinId - 1].team - 1].email == email
  }

  /** handle_join_request by the student with `email`: only a pending request
      of one's own team is handled; accept needs a free slot and uses it;
      reject frees nothing; any other action changes nothing. */
  function Handle(joins: seq<JoinRequest>, teams: seq<TeamRequest>, joinId: nat, email: string,
                  action: Option<string>): (seq<JoinRequest>, seq<TeamRequest>, Outcome)
  {
    if !OwnsJoin(joins, teams, joinId, email) || joins[joinId - 1].status != Pending then (joins, teams, Redirected)
    else
      var j := joins[joinId - 1];
      var t := teams[j.team - 1];
      if action == Some("accept") && t.requiredSize > 0 then
        (joins[joinId - 1 := j.(status := RequestStatus.Accepted)],
         teams[j.team - 1 := t.(requiredSize := t.requiredSize - 1)], MemberAccepted)
      else if action == Some("reject") then
        (joins[joinId - 1 := j.(status := RequestStatus.Rejected)], teams, MemberRejected)
      else (joins, teams, Unchanged)
  }

  /** Accepted join requests of team request `teamId`. */
  function AcceptedFor(joins: seq<JoinRequest>, teamId: nat): nat {
    Count(joins, (j: JoinRequest) => j.team == teamId && j.status == RequestStatus.Accepted)
  }

  /** What handling promises: nothing changes unless the caller owns the team
      and the request is pending; accept succeeds only with a free slot and
      takes exactly one; reject leaves the slots alone; accepted and rejected
      requests are final here. */
  lemma HandleSpec(joins: seq<JoinRequest>, teams: seq<TeamRequest>, joinId: nat, email: string,
                   action: Option<string>)
    ensures var r := Handle(joins, teams, joinId, email, action);
      ((r.0, r.1) != (joins, teams) ==> OwnsJoin(joins, teams, joinId, email) && joins[joinId - 1].status == Pending) &&
      (r.2 == MemberAccepted <==>
         OwnsJoin(joins, teams, joinId, email) && joins[joinId - 1].status == Pending &&
         action == Some("accept") && teams[joins[joinId - 1].team - 1].requiredSize > 0) &&
      (r.2 == MemberAccepted ==>
         var k := joins[joinId - 1].team - 1;
         r.0 == joins[joinId - 1 := joins[joinId - 1].(status := RequestStatus.Accepted)] &&
         r.1 == teams[k := teams[k].(requiredSize := teams[k].requiredSize - 1)]) &&
      (r.2 == MemberRejected ==>
         r.1 == teams && r.0 == joins[joinId - 1 := joins[joinId - 1].(status := RequestStatus.Rejected)]) &&
      (r.2 != MemberAccepted && r.2 != MemberRejected ==> r.0 == joins && r.1 == teams)
  {
  }

  /** No team's required_size goes negative through handling. */
  lemma HandleKeepsSizesNonNegative(joins: seq<JoinRequest>, teams: seq<TeamRequest>, joinId: nat,
                                    email: string, action: Option<string>)
    requires forall k :: 0 <= k < |teams| ==> teams[k].requiredSize >= 0
    ensures var r := Handle(joins, teams, joinId, email, action);
      forall k :: 0 <= k < |r.1| ==> r.1[k].requiredSize >= 0
  {
  }

  /** Handling conserves, for every team request, its free slots plus its
      accepted members. */
  lemma {:induction false} HandleConservesSlots(joins: seq<JoinRequest>, teams: seq<TeamRequest>, joinId: nat,
                                                email: string, action: Option<string>, teamId: nat)
    requires HasId(teams, teamId)
    ensures var r := Handle(joins, teams, joinId, email, action);
      |r.1| == |teams| &&
      r.1[teamId - 1].requiredSize + AcceptedFor(r.0, teamId) == teams[teamId - 1].requiredSize + AcceptedFor(joins, teamId)
  {
    var r := Handle(joins, teams, joinId, email, action);
    if r.2 == MemberAccepted || r.2 == MemberRejected {
      var i := joinId - 1;
      var p := (j: JoinRequest) => j.team == teamId && j.status == RequestStatus.Accepted;
      CountUpdate(joins, i, r.0[i], p);
      assert r.0 == joins[i := r.0[i]];
    }
  }

  /** Handling changes only a status and a size, so both uniqueness rules
      survive it. */
  lemma HandleKeepsUnique(joins: seq<JoinRequest>, teams: seq<TeamRequest>, joinId: nat, email: string,
                          action: Option<string>)
    requires UniqueTeams(teams) && UniqueJoins(joins)
    ensures var r := Handle(joins, teams, joinId, email, action);
      UniqueTeams(r.1) && UniqueJoins(r.0)
  {
    var r := Handle(joins, teams, joinId, email, action);
    assert |r.0| == |joins| && forall a :: 0 <= a < |joins| ==>
      r.0[a].team == joins[a].team && r.0[a].email == joins[a].email;
    assert |r.1| == |teams| && forall k :: 0 <= k < |teams| ==>
      r.1[k].email == teams[k].email && r.1[k].eventId == teams[k].eventId;
  }

  // -------------------------------------------------------------------------
  // The tables and the handlers

  class TeamBoard {
    var events: seq<Event>
    var teams: seq<TeamRequest>
    var joins: seq<JoinRequest>

    /** One team request per (email, event) and one join request per
        (team request, email). */
    ghost predicate Valid()
      reads this
    {
      UniqueTeams(teams) && UniqueJoins(joins)
    }

    constructor (events: seq<Event>, teams: seq<TeamRequest>, joins: seq<JoinRequest>)
      requires UniqueTeams(teams) && UniqueJoins(joins)
      ensures Valid() && this.events == events && this.teams == teams && this.joins == joins
    {
      this.events := events;
      this.teams := teams;
      this.joins := joins;
    }

    /** find_team POST by the student with `email`. */
    method PostTeamRequest(email: string, f: TeamForm) returns (outcome: Outcome)
      requires Valid()
      modifies this
      ensures Valid()
      ensures (teams, outcome) == Upsert(old(teams), events, email, f)
      ensures events == old(events) && joins == old(joins)
    {
      UpsertSpec(teams, events, email, f);
      if HasTeam(teams, email, f.eventId) {
        teams := Overwrite(teams, email, f);
        outcome := Replaced;
      } else if !HasId(events, f.eventId) {
        outcome := Failed;
      } else {
        teams := teams + [FormRow(email, f)];
        outcome := Inserted;
      }
    }

    /** join_team POST by the student with `email`. */
    method JoinTeam(email: string, teamId: nat, f: JoinForm) returns (outcome: Outcome)
      requires Valid()
      modifies this
      ensures Valid()
      ensures (joins, outcome) == JoinStep(old(joins), teams, events, teamId, email, f)
      ensures events == old(events) && teams == old(teams)
    {
      JoinSpec(joins, teams, events, teamId, email, f);
      if !TeamVisible(teams, events, teamId) || teams[teamId - 1].email == email {
        return Redirected;
      }
      if HasJoin(joins, teamId, email) {
        return Duplicate;
      }
      joins := joins + [JoinRequest(teamId, f.name, email, f.branch, f.year, f.phone, Pending)];
      outcome := Inserted;
    }

    /** handle_join_request by the student with `email`: the status UPDATE,
        then the slot UPDATE, committed together. */
    method HandleJoinRequest(email: string, joinId: nat, action: Option<string>) returns (outcome: Outcome)
      requires Valid()
      modifies this
      ensures Valid()
      ensures (joins, teams, outcome) == Handle(old(joins), old(teams), joinId, email, action)
      ensures events == old(events)
    {
      HandleKeepsUnique(joins, teams, joinId, email, action);
      if !OwnsJoin(joins, teams, joinId, email) || joins[joinId - 1].status != Pending {
        return Redirected;
      }
      var j := joins[joinId - 1];
      var t := teams[j.team - 1];
      if action == Some("accept") && t.requiredSize > 0 {
        joins := joins[joinId - 1 := j.(status := RequestStatus.Accepted)];
        teams := teams[j.team - 1 := t.(requiredSize := t.requiredSize - 1)];
        outcome := MemberAccepted;
      } else if action == Some("reject") {
        joins := joins[joinId - 1 := j.(status := RequestStatus.Rejected)];
        outcome := MemberRejected;
      } else {
        outcome := Unchanged;
      }
    }
  }
}
