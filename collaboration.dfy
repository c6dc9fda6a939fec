/** The collaboration routes of backend/routes/collaboration.py: join requests
    on personal projects, applications to faculty collaborations, the owner's
    accept/reject decisions, closing a collaboration, the eligibility verdict
    shown on a collaboration's page, and keyword matching of profiles.

    Tables are sequences of rows; the row with id `n` is at position `n - 1`
    (see Common.HasId). A statement that MySQL refuses for a foreign key, or
    that raises in Python, is rolled back and reported as `Failed` with
    nothing changed. */
module Collaboration {
  import opened Common
  import opened SkillNormal

  // -------------------------------------------------------------------------
  // Rows

  /** The columns of `users` these routes read; role is VARCHAR and nullable. */
  datatype User = User(role: Option<string>, skills: Option<string>, interests: Option<string>)

  /** A row of `personal_projects`. */
  datatype Project = Project(owner: nat, techStack: Option<string>, domain: Option<string>)

  datatype Audience = FacultyOnly | StudentsOnly | Both

  /** ENUM('open','closed') DEFAULT 'open'. */
  datatype PostingStatus = Open | Closed

  /** A row of `faculty_collaborations`. */
  datatype FacultyCollab = FacultyCollab(
    faculty: nat, audience: Audience, maxStudents: int, maxFaculty: int,
    requiredSkills: Option<string>, status: PostingStatus)

  /** A row of `project_requests` (posting = project_id) or of
      `collaboration_requests` (posting = collaboration_id). */
  datatype Request = Request(posting: nat, user: nat, message: Option<string>, status: RequestStatus)

  /** What a handler reports (its flash message). */
  datatype Outcome = Sent | AlreadyRequested | Updated | InvalidAction | Unauthorized | LimitReached | Failed

  const StudentRole: Option<string> := Some("student")
  const FacultyRole: Option<string> := Some("faculty")

  /** `users.role` of the user with this id; a missing user joins to nothing,
      which compares like NULL. */
  function RoleOf(users: seq<User>, id: nat): Option<string> {
    if HasId(users, id) then users[id - 1].role else None
  }

  // -------------------------------------------------------------------------
  // Requests: one per (posting, user)

  /** `SELECT 1 ... WHERE posting = %s AND user_id = %s` finds a row. */
  predicate Requested(reqs: seq<Request>, posting: nat, user: nat) {
    exists i :: 0 <= i < |reqs| && reqs[i].posting == posting && reqs[i].user == user
  }

  /** No two requests share a (posting, user) pair. */
  predicate UniquePairs(reqs: seq<Request>) {
    forall i, j :: 0 <= i < j < |reqs| ==>
      reqs[i].posting != reqs[j].posting || reqs[i].user != reqs[j].user
  }

  /** The shared body of join_project and apply_faculty_collaboration: an
      existing request for the pair, whatever its status, blocks the insert;
      otherwise a pending request is appended, unless a foreign key is
      violated. */
  function RequestOnce(reqs: seq<Request>, posting: nat, user: nat, message: Option<string>,
                       postingExists: bool, userExists: bool): (r: (seq<Request>, Outcome))
    ensures r.1 == AlreadyRequested <==> Requested(reqs, posting, user)
    ensures r.1 == Sent <==> !Requested(reqs, posting, user) && postingExists && userExists
    ensures r.1 in {Sent, AlreadyRequested, Failed}
    ensures r.1 == Sent ==> r.0 == reqs + [Request(posting, user, message, Pending)]
    ensures r.1 != Sent ==> r.0 == reqs
  {
    if Requested(reqs, posting, user) then (reqs, AlreadyRequested)
    else if !postingExists || !userExists then (reqs, Failed)
    else (reqs + [Request(posting, user, message, Pending)], Sent)
  }

  /** Requesting keeps requests unique per pair, and afterwards the pair has
      a request unless the insert failed. */
  lemma RequestOnceKeepsUnique(reqs: seq<Request>, posting: nat, user: nat, message: Option<string>,
                               postingExists: bool, userExists: bool)
    requires UniquePairs(reqs)
    ensures var r := RequestOnce(reqs, posting, user, message, postingExists, userExists);
      UniquePairs(r.0) && (r.1 != Failed ==> Requested(r.0, posting, user))
  {
    var r := RequestOnce(reqs, posting, user, message, postingExists, userExists);
    if r.1 == Sent {
      assert r.0[|reqs|].posting == posting && r.0[|reqs|].user == user;
      forall i, j | 0 <= i < j < |r.0|
        ensures r.0[i].posting != r.0[j].posting || r.0[i].user != r.0[j].user
      {
        if j == |reqs| {
          assert r.0[i] == reqs[i];
        }
      }
    }
  }

  /** `action in ['accepted', 'rejected']` and the status it names. */
  function ActionStatus(action: string): (s: Option<RequestStatus>)
    ensures s.Some? <==> action == "accepted" || action == "rejected"
    ensures s == Some(Accepted) <==> action == "accepted"
  {
    if action == "accepted" then Some(Accepted)
    else if action == "rejected" then Some(Rejected)
    else None
  }

  /** Only the status of one row changes. */
  predicate StatusOnlyChanged(before: seq<Request>, after: seq<Request>, i: nat, s: RequestStatus) {
    i < |before| && after == before[i := before[i].(status := s)]
  }

  // -------------------------------------------------------------------------
  // manage_request (personal projects)

  /** The owner of the project a request belongs to, found through the join
      with personal_projects. */
  predicate OwnsProjectRequest(reqs: seq<Request>, projects: seq<Project>, reqId: nat, actor: nat) {
    HasId(reqs, reqId) && HasId(projects, reqs[reqId - 1].posting)
    && projects[reqs[reqId - 1].posting - 1].owner == actor
  }

  /** manage_request: a valid action by the project's owner sets the status,
      whatever it was before. */
  function ManageProjectRequest(reqs: seq<Request>, projects: seq<Project>, reqId: nat, actor: nat,
                                action: string): (r: (seq<Request>, Outcome))
  {
    var s := ActionStatus(action);
    if s.None? then (reqs, InvalidAction)
    else if !OwnsProjectRequest(reqs, projects, reqId, actor) then (reqs, Unauthorized)
    else (reqs[reqId - 1 := reqs[reqId - 1].(status := s.value)], Updated)
  }

  /** The table changes only through a valid action of the owner, and then
      exactly the named request takes the action's status; the prior status
      is never consulted, so accepted and rejected requests can be changed
      again. */
  lemma ManageProjectRequestSpec(reqs: seq<Request>, projects: seq<Project>, reqId: nat, actor: nat,
                                 action: string, s: RequestStatus)
    ensures var r := ManageProjectRequest(reqs, projects, reqId, actor, action);
      (r.1 == Updated <==> ActionStatus(action).Some? && OwnsProjectRequest(reqs, projects, reqId, actor)) &&
      (r.1 == Updated ==> StatusOnlyChanged(reqs, r.0, reqId - 1, ActionStatus(action).value)) &&
      (r.1 != Updated ==> r.0 == reqs)
    ensures HasId(reqs, reqId) ==>
      ManageProjectRequest(reqs[reqId - 1 := reqs[reqId - 1].(status := s)], projects, reqId, actor, action).1
        == ManageProjectRequest(reqs, projects, reqId, actor, action).1
  {
  }

  // -------------------------------------------------------------------------
  // Accepted counts and the limits of a faculty collaboration

  /** A request of collaboration `c` that is accepted and whose user has
      role `role` (SQL equality: a NULL role matches nothing). */
  predicate CountsFor(users: seq<User>, c: nat, role: Option<string>, r: Request) {
    r.posting == c && r.status == Accepted && SqlEq(RoleOf(users, r.user), role)
  }

  function Counted(users: seq<User>, c: nat, role: Option<string>): Request -> bool {
    r => CountsFor(users, c, role, r)
  }

  /** `SELECT COUNT(*) ... WHERE collaboration_id = c AND status = 'accepted'
      AND u.role = role`; also the per-role row of the GROUP BY query. */
  function AcceptedCount(reqs: seq<Request>, users: seq<User>, c: nat, role: Option<string>): nat {
    Count(reqs, Counted(users, c, role))
  }

  /** `max_students` for a student applicant, `max_faculty` for every other role. */
  function LimitFor(collab: FacultyCollab, role: Option<string>): int {
    if role == StudentRole then collab.maxStudents else collab.maxFaculty
  }

  function Max0(x: int): nat {
    if x < 0 then 0 else x
  }

  /** For every collaboration and every role, the accepted requests of that
      role do not exceed the role's limit (a negative limit admits nobody). */
  ghost predicate WithinLimits(reqs: seq<Request>, users: seq<User>, collabs: seq<FacultyCollab>) {
    forall c: nat, role: Option<string> :: HasId(collabs, c) ==>
      AcceptedCount(reqs, users, c, role) <= Max0(LimitFor(collabs[c - 1], role))
  }

  // -------------------------------------------------------------------------
  // manage_faculty_request

  /** The join of collaboration_requests with faculty_collaborations, and the
      collaboration's faculty is the actor. */
  predicate OwnsCollabRequest(reqs: seq<Request>, collabs: seq<FacultyCollab>, reqId: nat, actor: nat) {
    HasId(reqs, reqId) && HasId(collabs, reqs[reqId - 1].posting)
    && collabs[reqs[reqId - 1].posting - 1].faculty == actor
  }

  /** manage_faculty_request: like manage_request, but accepting first counts
      the accepted requests of the applicant's role and refuses at the limit.
      A request whose user row is missing makes `applicant['role']` raise,
      which is rolled back. Rejecting is never limited. */
  function ManageFacultyRequest(reqs: seq<Request>, users: seq<User>, collabs: seq<FacultyCollab>,
                                reqId: nat, actor: nat, action: string): (r: (seq<Request>, Outcome))
  {
    var s := ActionStatus(action);
    if s.None? then (reqs, InvalidAction)
    else if !OwnsCollabRequest(reqs, collabs, reqId, actor) then (reqs, Unauthorized)
    else
      var req := reqs[reqId - 1];
      if s.value == Accepted && !HasId(users, req.user) then (reqs, Failed)
      else if s.value == Accepted &&
              AcceptedCount(reqs, users, req.posting, RoleOf(users, req.user))
                >= LimitFor(collabs[req.posting - 1], RoleOf(users, req.user)) then (reqs, LimitReached)
      else (reqs[reqId - 1 := req.(status := s.value)], Updated)
  }

  /** The table changes only through a valid action of the collaboration's
      owner; the owner's accept of an existing user goes through exactly when
      the accepted count of the applicant's role is below its limit, and a
      reject always goes through. The prior status is not checked, but an
      accepted request is part of its own role's count. */
  lemma ManageFacultyRequestSpec(reqs: seq<Request>, users: seq<User>, collabs: seq<FacultyCollab>,
                                 reqId: nat, actor: nat, action: string)
    ensures var r := ManageFacultyRequest(reqs, users, collabs, reqId, actor, action);
      (r.1 == Updated ==> ActionStatus(action).Some? && OwnsCollabRequest(reqs, collabs, reqId, actor)
                          && StatusOnlyChanged(reqs, r.0, reqId - 1, ActionStatus(action).value)) &&
      (r.1 == Updated && action == "accepted" ==>
         var req := reqs[reqId - 1];
         AcceptedCount(reqs, users, req.posting, RoleOf(users, req.user))
           < LimitFor(collabs[req.posting - 1], RoleOf(users, req.user))) &&
      (action == "accepted" && OwnsCollabRequest(reqs, collabs, reqId, actor) && HasId(users, reqs[reqId - 1].user) &&
       AcceptedCount(reqs, users, reqs[reqId - 1].posting, RoleOf(users, reqs[reqId - 1].user))
         < LimitFor(collabs[reqs[reqId - 1].posting - 1], RoleOf(users, reqs[reqId - 1].user)) ==>
         r.1 == Updated && StatusOnlyChanged(reqs, r.0, reqId - 1, Accepted)) &&
      (action == "rejected" && OwnsCollabRequest(reqs, collabs, reqId, actor) ==>
         r.1 == Updated && StatusOnlyChanged(reqs, r.0, reqId - 1, Rejected)) &&
      (r.1 != Updated ==> r.0 == reqs)
  {
  }

  /** Re-accepting an accepted request when its role is exactly at the limit
      is refused, because the request counts itself; the same request still
      pending or rejected would be refused too, so the limit is never passed
      either way. */
  lemma ReacceptAtLimitRefused(reqs: seq<Request>, users: seq<User>, collabs: seq<FacultyCollab>,
                               reqId: nat, actor: nat)
    requires OwnsCollabRequest(reqs, collabs, reqId, actor) && HasId(users, reqs[reqId - 1].user)
    requires reqs[reqId - 1].status == Accepted
    requires var req := reqs[reqId - 1];
      AcceptedCount(reqs, users, req.posting, RoleOf(users, req.user)) == LimitFor(collabs[req.posting - 1], RoleOf(users, req.user))
    ensures ManageFacultyRequest(reqs, users, collabs, reqId, actor, "accepted") == (reqs, LimitReached)
  {
  }

  /** A limit of zero or less admits nobody of that role. */
  lemma ZeroLimitAdmitsNobody(reqs: seq<Request>, users: seq<User>, collabs: seq<FacultyCollab>,
                              reqId: nat, actor: nat)
    requires OwnsCollabRequest(reqs, collabs, reqId, actor) && HasId(users, reqs[reqId - 1].user)
    requires LimitFor(collabs[reqs[reqId - 1].posting - 1], users[reqs[reqId - 1].user - 1].role) <= 0
    ensures ManageFacultyRequest(reqs, users, collabs, reqId, actor, "accepted") == (reqs, LimitReached)
  {
  }

  /** Accepting or rejecting a collaboration request keeps every role within
      its limit. */
  lemma {:induction false} ManageFacultyKeepsLimits(reqs: seq<Request>, users: seq<User>,
      collabs: seq<FacultyCollab>, reqId: nat, actor: nat, action: string)
    requires WithinLimits(reqs, users, collabs)
    ensures WithinLimits(ManageFacultyRequest(reqs, users, collabs, reqId, actor, action).0, users, collabs)
  {
    var r := ManageFacultyRequest(reqs, users, collabs, reqId, actor, action);
    if r.1 == Updated {
      var i := reqId - 1;
      var req := reqs[i];
      var v := req.(status := ActionStatus(action).value);
      assert r.0 == reqs[i := v];
      forall c: nat, role: Option<string> | HasId(collabs, c)
        ensures AcceptedCount(r.0, users, c, role) <= Max0(LimitFor(collabs[c - 1], role))
      {
        assert AcceptedCount(reqs, users, c, role) <= Max0(LimitFor(collabs[c - 1], role));
        CountUpdate(reqs, i, v, Counted(users, c, role));
        if CountsFor(users, c, role, v) && !CountsFor(users, c, role, req) {
          assert action == "accepted";
          assert c == req.posting && role == RoleOf(users, req.user);
          assert AcceptedCount(reqs, users, c, role) < LimitFor(collabs[c - 1], role);
        }
      }
    }
  }

  /** Appending a pending request changes no accepted count. */
  lemma {:induction false} PendingInsertKeepsCounts(reqs: seq<Request>, users: seq<User>, x: Request,
                                                    c: nat, role: Option<string>)
    requires x.status == Pending
    ensures AcceptedCount(reqs + [x], users, c, role) == AcceptedCount(reqs, users, c, role)
  {
    CountAppend(reqs, x, Counted(users, c, role));
  }

  /** Applying keeps every role within its limit. */
  lemma ApplyKeepsLimits(reqs: seq<Request>, users: seq<User>, collabs: seq<FacultyCollab>, c: nat,
                         user: nat, message: Option<string>, postingExists: bool, userExists: bool)
    requires WithinLimits(reqs, users, collabs)
    ensures WithinLimits(RequestOnce(reqs, c, user, message, postingExists, userExists).0, users, collabs)
  {
    var r := RequestOnce(reqs, c, user, message, postingExists, userExists);
    if r.1 == Sent {
      forall c': nat, role: Option<string> | HasId(collabs, c')
        ensures AcceptedCount(r.0, users, c', role) <= Max0(LimitFor(collabs[c' - 1], role))
      {
        PendingInsertKeepsCounts(reqs, users, Request(c, user, message, Pending), c', role);
      }
    }
  }

  // -------------------------------------------------------------------------
  // close_faculty_collaboration

  /** Only the collaboration's faculty may close it; closing changes its
      status and nothing else. */
  function CloseCollaboration(collabs: seq<FacultyCollab>, c: nat, actor: nat): (r: (seq<FacultyCollab>, Outcome))
  {
    if !HasId(collabs, c) || collabs[c - 1].faculty != actor then (collabs, Unauthorized)
    else (collabs[c - 1 := collabs[c - 1].(status := Closed)], Updated)
  }

  lemma CloseSpec(collabs: seq<FacultyCollab>, c: nat, actor: nat)
    ensures var r := CloseCollaboration(collabs, c, actor);
      (r.1 == Updated <==> HasId(collabs, c) && collabs[c - 1].faculty == actor) &&
      (r.1 == Updated ==> r.0[c - 1].status == Closed) &&
      |r.0| == |collabs| &&
      (forall j :: 0 <= j < |collabs| && j != c - 1 ==> r.0[j] == collabs[j]) &&
      (forall j :: 0 <= j < |collabs| ==> r.0[j] == collabs[j].(status := r.0[j].status))
  {
  }

  /** Closing keeps every role within its limit: limits do not change. */
  lemma CloseKeepsLimits(reqs: seq<Request>, users: seq<User>, collabs: seq<FacultyCollab>, c: nat, actor: nat)
    requires WithinLimits(reqs, users, collabs)
    ensures WithinLimits(reqs, users, CloseCollaboration(collabs, c, actor).0)
  {
    var after := CloseCollaboration(collabs, c, actor).0;
    forall c': nat, role: Option<string> | HasId(after, c')
      ensures AcceptedCount(reqs, users, c', role) <= Max0(LimitFor(after[c' - 1], role))
    {
      assert LimitFor(after[c' - 1], role) == LimitFor(collabs[c' - 1], role);
    }
  }

  // -------------------------------------------------------------------------
  // faculty_collaboration_details: counts, eligibility, visibility

  /** `[s.strip().lower() for s in (text or "").split(',') if s.strip()]`. */
  function SkillList(text: Option<string>): (r: seq<string>)
    ensures forall i :: 0 <= i < |r| ==> r[i] != ""
    ensures forall x :: x in r <==>
      exists p :: p in Split(if text.Some? then text.value else "", ',') && PyStrip(p) != "" && Lower(PyStrip(p)) == x
  {
    var ps := Split(if text.Some? then text.value else "", ',');
    var pieces := NonEmptyStripped(ps);
    var r := seq(|pieces|, i requires 0 <= i < |pieces| => Lower(pieces[i]));
    LoweredPieces(ps, pieces, r);
    r
  }

  /** Lower-casing the stripped non-empty pieces one by one gives the
      lower-cased forms of exactly those pieces. */
  lemma LoweredPieces(ps: seq<string>, pieces: seq<string>, r: seq<string>)
    requires pieces == NonEmptyStripped(ps)
    requires |r| == |pieces| && forall i :: 0 <= i < |pieces| ==> r[i] == Lower(pieces[i])
    ensures forall x :: x in r <==> exists p :: p in ps && PyStrip(p) != "" && Lower(PyStrip(p)) == x
  {
    forall x | x in r
      ensures exists p :: p in ps && PyStrip(p) != "" && Lower(PyStrip(p)) == x
    {
      var j :| 0 <= j < |r| && r[j] == x;
      assert pieces[j] in pieces;
      var k :| 0 <= k < |ps| && PyStrip(ps[k]) == pieces[j];
      assert ps[k] in ps;
    }
    forall x | exists p :: p in ps && PyStrip(p) != "" && Lower(PyStrip(p)) == x
      ensures x in r
    {
      var p :| p in ps && PyStrip(p) != "" && Lower(PyStrip(p)) == x;
      var k :| 0 <= k < |ps| && ps[k] == p;
      assert PyStrip(p) in pieces;
      var j :| 0 <= j < |pieces| && pieces[j] == PyStrip(p);
      assert r[j] == x;
    }
  }

  /** The status of the viewer's request for this collaboration, if any
      (the first matching row). */
  function ExistingStatus(reqs: seq<Request>, c: nat, user: nat): (r: Option<RequestStatus>)
    ensures r.Some? <==> Requested(reqs, c, user)
    ensures r.Some? ==> exists i :: 0 <= i < |reqs| && reqs[i].posting == c && reqs[i].user == user
                                    && reqs[i].status == r.value
  {
    if reqs == [] then None
    else if reqs[0].posting == c && reqs[0].user == user then Some(reqs[0].status)
    else
      var rest := ExistingStatus(reqs[1..], c, user);
      assert Requested(reqs, c, user) ==> Requested(reqs[1..], c, user) by {
        if Requested(reqs, c, user) {
          var i :| 0 <= i < |reqs| && reqs[i].posting == c && reqs[i].user == user;
          assert reqs[1..][i - 1] == reqs[i];
        }
      }
      if rest.Some? then
        ghost var i :| 0 <= i < |reqs[1..]| && reqs[1..][i].posting == c && reqs[1..][i].user == user
                         && reqs[1..][i].status == rest.value;
        assert reqs[i + 1] == reqs[1..][i];
        rest
      else rest
  }

  datatype Reason =
    | AlreadyApplied(status: RequestStatus)
    | FacultyOnlyPosting
    | StudentLimitReached
    | MissingSkills(required: seq<string>)
    | IsOwner
    | StudentsOnlyPosting
    | FacultyLimitReached

  datatype Verdict = Eligible | Ineligible(reason: Reason)

  /** Some required skill is, exactly, one of the user's skills. */
  predicate HasRequiredSkill(required: seq<string>, mine: seq<string>) {
    exists i :: 0 <= i < |required| && required[i] in mine
  }

  /** The `can_apply` / `rejection_reason` procedure, in the source's order.
      The collaboration's open/closed status is not consulted. */
  function Eligibility(reqs: seq<Request>, users: seq<User>, c: nat, collab: FacultyCollab,
                       viewerId: nat, viewer: User): Verdict
  {
    var existing := ExistingStatus(reqs, c, viewerId);
    if existing.Some? then Ineligible(AlreadyApplied(existing.value))
    else if viewer.role == StudentRole then
      if collab.audience == FacultyOnly then Ineligible(FacultyOnlyPosting)
      else if AcceptedCount(reqs, users, c, StudentRole) >= collab.maxStudents then Ineligible(StudentLimitReached)
      else
        var required := SkillList(collab.requiredSkills);
        if required != [] && !HasRequiredSkill(required, SkillList(viewer.skills)) then Ineligible(MissingSkills(required))
        else Eligible
    else if viewer.role == FacultyRole then
      if collab.faculty == viewerId then Ineligible(IsOwner)
      else if collab.audience == StudentsOnly then Ineligible(StudentsOnlyPosting)
      else if AcceptedCount(reqs, users, c, FacultyRole) >= collab.maxFaculty then Ineligible(FacultyLimitReached)
      else Eligible
    else Eligible
  }

  /** Eligible exactly when no request exists and the role's checks pass;
      users of any other role are eligible whenever they have not applied. */
  lemma EligibleExactly(reqs: seq<Request>, users: seq<User>, c: nat, collab: FacultyCollab,
                        viewerId: nat, viewer: User)
    ensures Eligibility(reqs, users, c, collab, viewerId, viewer) == Eligible <==>
      !Requested(reqs, c, viewerId) &&
      (viewer.role == StudentRole ==>
         collab.audience != FacultyOnly && AcceptedCount(reqs, users, c, StudentRole) < collab.maxStudents &&
         (SkillList(collab.requiredSkills) == [] ||
          HasRequiredSkill(SkillList(collab.requiredSkills), SkillList(viewer.skills)))) &&
      (viewer.role == FacultyRole ==>
         collab.faculty != viewerId && collab.audience != StudentsOnly &&
         AcceptedCount(reqs, users, c, FacultyRole) < collab.maxFaculty)
  {
  }

  /** An existing request, whatever its status, decides the verdict first. */
  lemma ExistingRequestFirst(reqs: seq<Request>, users: seq<User>, c: nat, collab: FacultyCollab,
                             viewerId: nat, viewer: User, i: nat)
    requires i < |reqs| && reqs[i].posting == c && reqs[i].user == viewerId
    requires UniquePairs(reqs)
    ensures Eligibility(reqs, users, c, collab, viewerId, viewer) == Ineligible(AlreadyApplied(reqs[i].status))
  {
    var s := ExistingStatus(reqs, c, viewerId);
    var j :| 0 <= j < |reqs| && reqs[j].posting == c && reqs[j].user == viewerId && reqs[j].status == s.value;
  }

  /** Closing a collaboration does not change anyone's verdict. */
  lemma EligibilityIgnoresStatus(reqs: seq<Request>, users: seq<User>, c: nat, collab: FacultyCollab,
                                 viewerId: nat, viewer: User, s: PostingStatus)
    ensures Eligibility(reqs, users, c, collab.(status := s), viewerId, viewer)
         == Eligibility(reqs, users, c, collab, viewerId, viewer)
  {
  }

  /** What the details page shows. */
  datatype Details =
    | NotFound
    | Restricted
    | Shown(currentStudents: nat, currentFaculty: nat, verdict: Verdict, pending: seq<Request>)

  /** The requests an owner sees: pending ones of this collaboration whose
      user row exists. */
  function PendingFor(reqs: seq<Request>, users: seq<User>, c: nat): seq<Request> {
    Filter(reqs, (r: Request) => r.posting == c && r.status == Pending && HasId(users, r.user))
  }

  /** faculty_collaboration_details for the signed-in user `viewerId`. The
      collaboration joins its faculty's user row; a `faculty_only`
      collaboration is turned away for anyone who is not faculty. */
  function CollaborationDetails(reqs: seq<Request>, users: seq<User>, collabs: seq<FacultyCollab>,
                                c: nat, viewerId: nat): Details
    requires HasId(users, viewerId)
  {
    var viewer := users[viewerId - 1];
    if !HasId(collabs, c) || !HasId(users, collabs[c - 1].faculty) then NotFound
    else
      var collab := collabs[c - 1];
      if collab.audience == FacultyOnly && viewer.role != FacultyRole then Restricted
      else Shown(AcceptedCount(reqs, users, c, StudentRole), AcceptedCount(reqs, users, c, FacultyRole),
                 Eligibility(reqs, users, c, collab, viewerId, viewer),
                 if viewerId == collab.faculty then PendingFor(reqs, users, c) else [])
  }

  /** The page is restricted exactly for non-faculty viewers of a faculty-only
      collaboration, so 'Faculty only.' is never the reason shown; the
      counts are the accepted requests of students and of faculty; only the
      owner sees pending requests, and those are all pending. */
  lemma DetailsSpec(reqs: seq<Request>, users: seq<User>, collabs: seq<FacultyCollab>, c: nat, viewerId: nat)
    requires HasId(users, viewerId)
    ensures var d := CollaborationDetails(reqs, users, collabs, c, viewerId);
      (d == Restricted <==> HasId(collabs, c) && HasId(users, collabs[c - 1].faculty) &&
                            collabs[c - 1].audience == FacultyOnly && users[viewerId - 1].role != FacultyRole) &&
      (d.Shown? ==>
         d.verdict != Ineligible(FacultyOnlyPosting) &&
         d.currentStudents == AcceptedCount(reqs, users, c, StudentRole) &&
         d.currentFaculty == AcceptedCount(reqs, users, c, FacultyRole) &&
         (viewerId != collabs[c - 1].faculty ==> d.pending == []) &&
         (forall i :: 0 <= i < |d.pending| ==> d.pending[i].status == Pending && d.pending[i].posting == c))
  {
  }

  // -------------------------------------------------------------------------
  // Keyword matching of profiles (community, project_details)

  /** `[k.strip() for k in tech_stack.split(',')]` when tech_stack is truthy,
      then the domain when it is truthy. */
  function ProjectKeywords(p: Project): seq<string> {
    (if Truthy(p.techStack) then StripAll(Split(p.techStack.value, ',')) else [])
    + (if Truthy(p.domain) then [p.domain.value] else [])
  }

  /** All keywords of a list of projects, in order, duplicates kept. */
  function AllKeywords(ps: seq<Project>): seq<string> {
    if ps == [] then [] else AllKeywords(ps[..|ps| - 1]) + ProjectKeywords(ps[|ps| - 1])
  }

  /** community's `filter_keywords`: empty when the viewer has no projects or
      asked for everything. */
  function CommunityKeywords(myProjects: seq<Project>, showAll: bool): set<string> {
    if myProjects != [] && !showAll then set k | k in AllKeywords(myProjects) else {}
  }

  /** The keyword loop of community, then `list(set(...))`. */
  method CollectCommunityKeywords(myProjects: seq<Project>, showAll: bool) returns (keywords: seq<string>)
    ensures forall i, j :: 0 <= i < j < |keywords| ==> keywords[i] != keywords[j]
    ensures forall k :: k in keywords <==> k in CommunityKeywords(myProjects, showAll)
  {
    var acc: seq<string> := [];
    if myProjects != [] && !showAll {
      for i := 0 to |myProjects|
        invariant acc == AllKeywords(myProjects[..i])
      {
        assert myProjects[..i + 1][..i] == myProjects[..i];
        var p := myProjects[i];
        if Truthy(p.techStack) {
          acc := acc + StripAll(Split(p.techStack.value, ','));
        }
        if Truthy(p.domain) {
          acc := acc + [p.domain.value];
        }
      }
      assert myProjects[..|myProjects|] == myProjects;
    }
    keywords := ListOf(set k | k in acc);
  }

  /** `skills LIKE '%k%' OR interests LIKE '%k%'` for some keyword. */
  predicate MatchesAny(u: User, keywords: seq<string>) {
    exists i :: 0 <= i < |keywords| && (LikeMatch(u.skills, keywords[i]) || LikeMatch(u.interests, keywords[i]))
  }

  /** The users community lists for `viewerId`: students and faculty other
      than the viewer, narrowed to keyword matches when there are keywords. */
  predicate InCommunity(users: seq<User>, viewerId: nat, keywords: seq<string>, id: nat) {
    HasId(users, id) && id != viewerId &&
    (users[id - 1].role == StudentRole || users[id - 1].role == FacultyRole) &&
    (keywords == [] || MatchesAny(users[id - 1], keywords))
  }

  /** The users project_details recommends to the project's owner: students
      other than the owner matching a keyword; nobody for other viewers or
      without keywords. */
  predicate Recommended(users: seq<User>, project: Project, viewerId: nat, id: nat) {
    viewerId == project.owner && ProjectKeywords(project) != [] &&
    HasId(users, id) && id != viewerId && users[id - 1].role == StudentRole &&
    MatchesAny(users[id - 1], ProjectKeywords(project))
  }

  /** The viewer never sees themself, and with no keywords every other
      student and faculty member is listed. */
  lemma CommunitySpec(users: seq<User>, viewerId: nat, keywords: seq<string>, id: nat)
    ensures !InCommunity(users, viewerId, keywords, viewerId)
    ensures keywords == [] ==>
      (InCommunity(users, viewerId, keywords, id) <==>
         HasId(users, id) && id != viewerId &&
         (users[id - 1].role == StudentRole || users[id - 1].role == FacultyRole))
  {
  }

  /** Only the project's owner gets recommendations, never of themself, and
      only when the project yields keywords; then exactly the other students
      whose skills or interests contain one of the keywords are recommended. */
  lemma RecommendedSpec(users: seq<User>, project: Project, viewerId: nat, id: nat)
    ensures !Recommended(users, project, viewerId, viewerId)
    ensures !Recommended(users, project, viewerId, project.owner)
    ensures viewerId != project.owner ==> !Recommended(users, project, viewerId, id)
    ensures ProjectKeywords(project) == [] ==> !Recommended(users, project, viewerId, id)
    ensures Recommended(users, project, viewerId, id) ==> users[id - 1].role == StudentRole
    ensures viewerId == project.owner && ProjectKeywords(project) != [] ==>
      (Recommended(users, project, viewerId, id) <==>
         HasId(users, id) && id != viewerId && users[id - 1].role == StudentRole &&
         exists i :: 0 <= i < |ProjectKeywords(project)| &&
           (LikeMatch(users[id - 1].skills, ProjectKeywords(project)[i]) ||
            LikeMatch(users[id - 1].interests, ProjectKeywords(project)[i])))
  {
  }

  /** A tech stack of "ai," makes the owner see every other student that has
      skills or interests at all, whatever they contain. */
  lemma TrailingCommaRecommendsEveryStudent(users: seq<User>, owner: nat, id: nat)
    requires HasId(users, id) && id != owner && users[id - 1].role == StudentRole
    requires users[id - 1].skills.Some? || users[id - 1].interests.Some?
    ensures Recommended(users, Project(owner, Some("ai,"), None), owner, id)
  {
    TrailingCommaGivesEmptyKeyword(owner);
    EmptyKeywordMatchesAll(users[id - 1], ProjectKeywords(Project(owner, Some("ai,"), None)));
  }

  /** An empty keyword (a trailing comma in tech_stack) becomes the pattern
      '%%', which every non-NULL skills or interests value matches. */
  lemma EmptyKeywordMatchesAll(u: User, keywords: seq<string>)
    requires "" in keywords
    requires u.skills.Some? || u.interests.Some?
    ensures MatchesAny(u, keywords)
  {
    var i :| 0 <= i < |keywords| && keywords[i] == "";
    if u.skills.Some? {
      ContainsEmpty(u.skills.value);
    } else {
      ContainsEmpty(u.interests.value);
    }
  }

  /** A tech stack with a trailing comma yields the empty keyword. */
  lemma TrailingCommaGivesEmptyKeyword(owner: nat)
    ensures "" in ProjectKeywords(Project(owner, Some("ai,"), None))
  {
    assert Split("", ',') == [""];
    assert ","[1..] == "";
    assert Split(",", ',') == ["", ""];
    assert "i,"[0] == 'i' && "i,"[1..] == ",";
    assert ["", ""][1..] == [""] && ['i'] + "" == "i";
    assert Split("i,", ',') == ["i", ""];
    assert "ai,"[0] == 'a' && "ai,"[1..] == "i,";
    assert ["i", ""][1..] == [""] && ['a'] + "i" == "ai";
    assert Split("ai,", ',') == ["ai", ""];
    assert StripAll(["ai", ""])[1] == "";
  }

  // -------------------------------------------------------------------------
  // The tables and the handlers

  class CollaborationDb {
    var users: seq<User>
    var projects: seq<Project>
    var collabs: seq<FacultyCollab>
    var projectRequests: seq<Request>
    var collabRequests: seq<Request>

    /** At most one request per pair on both request tables, and every
        collaboration within its per-role limits. */
    ghost predicate Valid()
      reads this
    {
      UniquePairs(projectRequests) && UniquePairs(collabRequests) && WithinLimits(collabRequests, users, collabs)
    }

    constructor (users: seq<User>, projects: seq<Project>, collabs: seq<FacultyCollab>,
                 projectRequests: seq<Request>, collabRequests: seq<Request>)
      requires UniquePairs(projectRequests) && UniquePairs(collabRequests)
      requires WithinLimits(collabRequests, users, collabs)
      ensures Valid()
      ensures this.users == users && this.projects == projects && this.collabs == collabs
      ensures this.projectRequests == projectRequests && this.collabRequests == collabRequests
    {
      this.users := users;
      this.projects := projects;
      this.collabs := collabs;
      this.projectRequests := projectRequests;
      this.collabRequests := collabRequests;
    }

    /** join_project by user `userId`. */
    method JoinProject(userId: nat, projectId: nat, message: Option<string>) returns (outcome: Outcome)
      requires Valid()
      modifies this
      ensures Valid()
      ensures (projectRequests, outcome) ==
        RequestOnce(old(projectRequests), projectId, userId, message, HasId(projects, projectId), HasId(users, userId))
      ensures users == old(users) && projects == old(projects) && collabs == old(collabs)
      ensures collabRequests == old(collabRequests)
    {
      RequestOnceKeepsUnique(projectRequests, projectId, userId, message, HasId(projects, projectId), HasId(users, userId));
      var r := RequestOnce(projectRequests, projectId, userId, message, HasId(projects, projectId), HasId(users, userId));
      projectRequests, outcome := r.0, r.1;
    }

    /** manage_request by user `actor`. */
    method ManageRequest(actor: nat, reqId: nat, action: string) returns (outcome: Outcome)
      requires Valid()
      modifies this
      ensures Valid()
      ensures (projectRequests, outcome) == ManageProjectRequest(old(projectRequests), projects, reqId, actor, action)
      ensures users == old(users) && projects == old(projects) && collabs == old(collabs)
      ensures collabRequests == old(collabRequests)
    {
      var r := ManageProjectRequest(projectRequests, projects, reqId, actor, action);
      if r.1 == Updated {
        var i := reqId - 1;
        forall a, b | 0 <= a < b < |r.0|
          ensures r.0[a].posting != r.0[b].posting || r.0[a].user != r.0[b].user
        {
          assert r.0[a].posting == projectRequests[a].posting && r.0[a].user == projectRequests[a].user;
          assert r.0[b].posting == projectRequests[b].posting && r.0[b].user == projectRequests[b].user;
        }
      }
      projectRequests, outcome := r.0, r.1;
    }

    /** apply_faculty_collaboration by user `userId`; no eligibility check
        is made here. */
    method ApplyFacultyCollaboration(userId: nat, c: nat, message: Option<string>) returns (outcome: Outcome)
      requires Valid()
      modifies this
      ensures Valid()
      ensures (collabRequests, outcome) ==
        RequestOnce(old(collabRequests), c, userId, message, HasId(collabs, c), HasId(users, userId))
      ensures users == old(users) && projects == old(projects) && collabs == old(collabs)
      ensures projectRequests == old(projectRequests)
    {
      RequestOnceKeepsUnique(collabRequests, c, userId, message, HasId(collabs, c), HasId(users, userId));
      ApplyKeepsLimits(collabRequests, users, collabs, c, userId, message, HasId(collabs, c), HasId(users, userId));
      var r := RequestOnce(collabRequests, c, userId, message, HasId(collabs, c), HasId(users, userId));
      collabRequests, outcome := r.0, r.1;
    }

    /** manage_faculty_request by user `actor`. */
    method ManageCollabRequest(actor: nat, reqId: nat, action: string) returns (outcome: Outcome)
      requires Valid()
      modifies this
      ensures Valid()
      ensures (collabRequests, outcome) == ManageFacultyRequest(old(collabRequests), users, collabs, reqId, actor, action)
      ensures users == old(users) && projects == old(projects) && collabs == old(collabs)
      ensures projectRequests == old(projectRequests)
    {
      ManageFacultyKeepsLimits(collabRequests, users, collabs, reqId, actor, action);
      var r := ManageFacultyRequest(collabRequests, users, collabs, reqId, actor, action);
      if r.1 == Updated {
        forall a, b | 0 <= a < b < |r.0|
          ensures r.0[a].posting != r.0[b].posting || r.0[a].user != r.0[b].user
        {
          assert r.0[a].posting == collabRequests[a].posting && r.0[a].user == collabRequests[a].user;
          assert r.0[b].posting == collabRequests[b].posting && r.0[b].user == collabRequests[b].user;
        }
      }
      collabRequests, outcome := r.0, r.1;
    }

    /** close_faculty_collaboration by user `actor`. */
    method CloseFacultyCollaboration(actor: nat, c: nat) returns (outcome: Outcome)
      requires Valid()
      modifies this
      ensures Valid()
      ensures (collabs, outcome) == CloseCollaboration(old(collabs), c, actor)
      ensures users == old(users) && projects == old(projects)
      ensures projectRequests == old(projectRequests) && collabRequests == old(collabRequests)
    {
      CloseKeepsLimits(collabRequests, users, collabs, c, actor);
      var r := CloseCollaboration(collabs, c, actor);
      collabs, outcome := r.0, r.1;
    }
  }
}
