/** The event side of backend/routes/events.py: hackathon registration with
    its team members, student questions and club answers, duplicate-free
    event creation, and the team size shown to the club. */
module Events {
  import opened Common

  /** A row of `events` as create_event writes it. */
  datatype EventRow = EventRow(
    title: Option<string>, domains: string, deadline: Option<string>, clubName: Option<string>,
    department: Option<string>, createdBy: Option<nat>)

  /** The registration form's fields. */
  datatype RegistrationForm = RegistrationForm(
    teamName: Option<string>, domain: Option<string>, projectTitle: Option<string>,
    leadName: Option<string>, leadEmail: Option<string>, leadPhone: Option<string>,
    leadYear: Option<string>, leadBranch: Option<string>)

  /** A row of `event_registrations`. */
  datatype Registration = Registration(event: nat, form: RegistrationForm, payment: Option<string>)

  /** The parallel `member_*[]` lists of the form. */
  datatype MemberLists = MemberLists(names: seq<string>, emails: seq<string>, years: seq<string>, branches: seq<string>)

  /** A row of `event_team_members`. */
  datatype Member = Member(registration: nat, name: string, email: string, year: string, branch: string)

  /** `event_questions.status`. */
  datatype QuestionStatus = Open | Answered

  /** A row of `event_questions`; times are abstract instants. */
  datatype Question = Question(
    event: nat, studentEmail: Option<string>, text: string, answer: Option<string>,
    answeredBy: Option<nat>, status: QuestionStatus, answeredAt: Option<int>)

  datatype Outcome = Registered | Refused | Failed | Submitted | NotAllowed | Unchanged | Updated | Created | Duplicate

  // -------------------------------------------------------------------------
  // submit_registration

  /** Team name, project title and the lead's name, email and phone are all
      non-empty. */
  predicate RequiredFilled(f: RegistrationForm) {
    Truthy(f.teamName) && Truthy(f.projectTitle) && Truthy(f.leadName) && Truthy(f.leadEmail) && Truthy(f.leadPhone)
  }

  /** Every name has an email, a year and a branch beside it. */
  predicate Aligned(ml: MemberLists) {
    |ml.emails| >= |ml.names| && |ml.years| >= |ml.names| && |ml.branches| >= |ml.names|
  }

  predicate NonBlank(name: string) {
    PyStrip(name) != ""
  }

  /** The member rows the loop inserts for the first `n` names: those whose
      name is not blank, in order. */
  function NewMembers(reg: nat, ml: MemberLists, n: nat): (r: seq<Member>)
    requires Aligned(ml) && n <= |ml.names|
    ensures |r| <= n
    ensures forall i :: 0 <= i < |r| ==> r[i].registration == reg && NonBlank(r[i].name)
  {
    if n == 0 then []
    else
      var k := n - 1;
      NewMembers(reg, ml, k) +
        (if NonBlank(ml.names[k]) then [Member(reg, ml.names[k], ml.emails[k], ml.years[k], ml.branches[k])] else [])
  }

  /** The member loop of submit_registration: one row per non-blank name,
      appended in order. */
  method AppendMembers(members: seq<Member>, reg: nat, ml: MemberLists) returns (r: seq<Member>)
    requires Aligned(ml)
    ensures r == members + NewMembers(reg, ml, |ml.names|)
  {
    r := members;
    for i := 0 to |ml.names|
      invariant r == members + NewMembers(reg, ml, i)
    {
      if NonBlank(ml.names[i]) {
        r := r + [Member(reg, ml.names[i], ml.emails[i], ml.years[i], ml.branches[i])];
      }
    }
  }

  /** The registration step: refused without the required fields; an unknown
      event violates the foreign key and changes nothing; otherwise one
      registration and its member rows are added. */
  function Register(events: seq<EventRow>, regs: seq<Registration>, members: seq<Member>,
                    event: Option<nat>, f: RegistrationForm, payment: Option<string>, ml: MemberLists)
    : (seq<Registration>, seq<Member>, Outcome)
    requires Aligned(ml)
  {
    if !RequiredFilled(f) then (regs, members, Refused)
    else if event.None? || !HasId(events, event.value) then (regs, members, Failed)
    else
      var payment' := if Truthy(payment) then payment else None;
      (regs + [Registration(event.value, f, payment')], members + NewMembers(|regs| + 1, ml, |ml.names|), Registered)
  }

  /** The member rows of registration `reg`. */
  function OfRegistration(reg: nat): Member -> bool {
    (m: Member) => m.registration == reg
  }

  /** `team_size`: the member rows of a registration plus its lead. */
  function TeamSize(members: seq<Member>, reg: nat): nat {
    Count(members, OfRegistration(reg)) + 1
  }

  /** Member rows point at existing registrations. */
  predicate MembersBelong(members: seq<Member>, regs: seq<Registration>) {
    forall i :: 0 <= i < |members| ==> HasId(regs, members[i].registration)
  }

  /** The loop adds one row of the registration per non-blank name. */
  lemma {:induction false} NewMembersCounted(reg: nat, ml: MemberLists, n: nat)
    requires Aligned(ml) && n <= |ml.names|
    ensures Count(NewMembers(reg, ml, n), OfRegistration(reg)) == Count(ml.names[..n], NonBlank)
  {
    if n == 0 {
      assert ml.names[..0] == [];
    } else {
      var k := n - 1;
      NewMembersCounted(reg, ml, k);
      assert ml.names[..n] == ml.names[..k] + [ml.names[k]];
      CountAppend(ml.names[..k], ml.names[k], NonBlank);
      if NonBlank(ml.names[k]) {
        var m := Member(reg, ml.names[k], ml.emails[k], ml.years[k], ml.branches[k]);
        assert NewMembers(reg, ml, n) == NewMembers(reg, ml, k) + [m];
        assert OfRegistration(reg)(m);
        CountAppend(NewMembers(reg, ml, k), m, OfRegistration(reg));
      } else {
        assert NewMembers(reg, ml, n) == NewMembers(reg, ml, k);
      }
    }
  }

  /** A new registration's team size is one more than its non-blank names. */
  lemma NewTeamSize(members: seq<Member>, reg: nat, ml: MemberLists)
    requires Aligned(ml)
    requires forall i :: 0 <= i < |members| ==> members[i].registration != reg
    ensures TeamSize(members + NewMembers(reg, ml, |ml.names|), reg) == Count(ml.names, NonBlank) + 1
  {
    CountConcat(members, NewMembers(reg, ml, |ml.names|), OfRegistration(reg));
    CountNone(members, OfRegistration(reg));
    NewMembersCounted(reg, ml, |ml.names|);
    assert ml.names[..|ml.names|] == ml.names;
  }

  /** Registration is refused exactly when a required field is empty and
      fails exactly when the event is missing; a successful one appends one
      row for the event, holding the form and the payment file name when one
      came, keeps every earlier registration and member row, appends one
      row of the new registration per non-blank name and no other, and its
      team size is the non-blank names plus the lead. */
  lemma RegisterSpec(events: seq<EventRow>, regs: seq<Registration>, members: seq<Member>,
                     event: Option<nat>, f: RegistrationForm, payment: Option<string>, ml: MemberLists)
    requires Aligned(ml) && MembersBelong(members, regs)
    ensures var r := Register(events, regs, members, event, f, payment, ml);
      (r.2 == Refused <==> !RequiredFilled(f)) &&
      (r.2 == Failed <==> RequiredFilled(f) && (event.None? || !HasId(events, event.value))) &&
      (r.2 != Registered ==> r.0 == regs && r.1 == members) &&
      (r.2 == Registered ==>
         r.0 == regs + [r.0[|regs|]] && |r.1| >= |members| && r.1[..|members|] == members &&
         event == Some(r.0[|regs|].event) && HasId(events, r.0[|regs|].event) && r.0[|regs|].form == f &&
         r.0[|regs|].payment == (if Truthy(payment) then payment else None) &&
         |r.1| == |members| + Count(ml.names, NonBlank) &&
         (forall i :: |members| <= i < |r.1| ==> r.1[i].registration == |regs| + 1 && NonBlank(r.1[i].name)) &&
         MembersBelong(r.1, r.0) &&
         TeamSize(r.1, |regs| + 1) == Count(ml.names, NonBlank) + 1)
  {
    var r := Register(events, regs, members, event, f, payment, ml);
    if r.2 == Registered {
      var reg := |regs| + 1;
      NewTeamSize(members, reg, ml);
      var added := NewMembers(reg, ml, |ml.names|);
      NewMembersCounted(reg, ml, |ml.names|);
      CountAll(added, OfRegistration(reg));
      assert ml.names[..|ml.names|] == ml.names;
      assert forall i :: 0 <= i < |r.1| ==> r.1[i] == if i < |members| then members[i] else added[i - |members|];
    }
  }

  // -------------------------------------------------------------------------
  // Questions

  /** submit_question: an empty question or a missing event id inserts nothing. */
  function SubmitQuestion(qs: seq<Question>, event: Option<nat>, email: Option<string>, text: Option<string>)
    : (seq<Question>, Outcome)
  {
    if !Truthy(text) || event.None? then (qs, Refused)
    else (qs + [Question(event.value, email, text.value, None, None, Open, None)], Submitted)
  }

  /** edit_question by the student whose email is `email`: only the asker
      edits; an empty text changes nothing; an edit reopens the question and
      clears its answer. */
  function EditQuestion(qs: seq<Question>, qid: nat, email: Option<string>, text: Option<string>)
    : (seq<Question>, Outcome)
  {
    if !HasId(qs, qid) || qs[qid - 1].studentEmail != email then (qs, NotAllowed)
    else if !Truthy(text) then (qs, Unchanged)
    else
      (qs[qid - 1 := qs[qid - 1].(text := text.value, status := Open, answer := None, answeredBy := None,
                                 answeredAt := None)], Updated)
  }

  /** answer_question by club user `club` at time `now`: an empty answer
      changes nothing; otherwise the row with that id, if any, is answered.
      Which club created the event is not checked. */
  function AnswerQuestion(qs: seq<Question>, qid: nat, club: nat, answer: Option<string>, now: int)
    : (seq<Question>, Outcome)
  {
    if !Truthy(answer) then (qs, Unchanged)
    else if !HasId(qs, qid) then (qs, Updated)
    else
      (qs[qid - 1 := qs[qid - 1].(answer := answer, answeredBy := Some(club), status := Answered,
                                 answeredAt := Some(now))], Updated)
  }

  /** A question is open with no answer, or answered with an answer, its
      author and time. */
  predicate Consistent(q: Question) {
    (q.status == Open && q.answer == None && q.answeredBy == None && q.answeredAt == None) ||
    (q.status == Answered && Truthy(q.answer) && q.answeredBy.Some? && q.answeredAt.Some?)
  }

  predicate AllConsistent(qs: seq<Question>) {
    forall i :: 0 <= i < |qs| ==> Consistent(qs[i])
  }

  /** The question lifecycle: new questions are open; only the asker's
      non-empty edit changes a question, and it reopens it; only a non-empty
      answer changes one, and it answers it; each keeps every row consistent
      and leaves the other rows alone. */
  lemma QuestionLifecycle(qs: seq<Question>, qid: nat, email: Option<string>, text: Option<string>,
                          club: nat, answer: Option<string>, now: int, event: Option<nat>)
    requires AllConsistent(qs)
    ensures var s := SubmitQuestion(qs, event, email, text);
      AllConsistent(s.0) && (s.1 == Submitted <==> Truthy(text) && event.Some?) &&
      (s.1 == Submitted ==> s.0 == qs + [s.0[|qs|]] && s.0[|qs|].status == Open && s.0[|qs|].studentEmail == email)
    ensures var e := EditQuestion(qs, qid, email, text);
      AllConsistent(e.0) &&
      (e.0 != qs ==>
         HasId(qs, qid) && qs[qid - 1].studentEmail == email && Truthy(text) &&
         e.0[qid - 1].status == Open && e.0[qid - 1].answer == None && e.0[qid - 1].text == text.value) &&
      (forall i :: 0 <= i < |qs| && i != qid - 1 ==> e.0[i] == qs[i])
    ensures var a := AnswerQuestion(qs, qid, club, answer, now);
      AllConsistent(a.0) &&
      (a.0 != qs <==>
         Truthy(answer) && HasId(qs, qid) &&
         qs[qid - 1] != qs[qid - 1].(answer := answer, answeredBy := Some(club), status := Answered, answeredAt := Some(now))) &&
      (Truthy(answer) && HasId(qs, qid) ==>
         a.0[qid - 1].status == Answered && a.0[qid - 1].answer == answer && a.0[qid - 1].answeredBy == Some(club)) &&
      (forall i :: 0 <= i < |qs| && i != qid - 1 ==> a.0[i] == qs[i])
  {
  }

  /** Another student's edit never changes a question, whatever its status. */
  lemma OnlyAskerEdits(qs: seq<Question>, qid: nat, email: Option<string>, text: Option<string>)
    requires HasId(qs, qid) && qs[qid - 1].studentEmail != email
    ensures EditQuestion(qs, qid, email, text) == (qs, NotAllowed)
  {
  }

  // -------------------------------------------------------------------------
  // create_event

  /** The duplicate check `title = %s AND created_by = %s AND deadline = %s`:
      a NULL never compares equal, and titles compare under the table's
      collation. */
  predicate SameEvent(e: EventRow, title: Option<string>, creator: Option<nat>, deadline: Option<string>) {
    SqlTextEq(e.title, title) && SqlEq(e.createdBy, creator) && SqlEq(e.deadline, deadline)
  }

  predicate HasSameEvent(events: seq<EventRow>, title: Option<string>, creator: nat, deadline: Option<string>) {
    exists i :: 0 <= i < |events| && SameEvent(events[i], title, Some(creator), deadline)
  }

  /** No two events share a title, creator and deadline (NULLs excepted). */
  predicate NoDuplicateEvents(events: seq<EventRow>) {
    forall i, j :: 0 <= i < j < |events| ==>
      !SameEvent(events[j], events[i].title, events[i].createdBy, events[i].deadline)
  }

  /** create_event by club user `creator`: nothing is inserted when the same
      (title, creator, deadline) exists; the domains are joined with ','. */
  function CreateEvent(events: seq<EventRow>, creator: nat, title: Option<string>, deadline: Option<string>,
                       clubName: Option<string>, department: Option<string>, domains: seq<string>)
    : (seq<EventRow>, Outcome)
  {
    if HasSameEvent(events, title, creator, deadline) then (events, Duplicate)
    else (events + [EventRow(title, Join(domains, ','), deadline, clubName, department, Some(creator))], Created)
  }

  /** Creation keeps events duplicate-free; a duplicate changes nothing. */
  lemma CreateEventSpec(events: seq<EventRow>, creator: nat, title: Option<string>, deadline: Option<string>,
                        clubName: Option<string>, department: Option<string>, domains: seq<string>)
    requires NoDuplicateEvents(events)
    ensures var r := CreateEvent(events, creator, title, deadline, clubName, department, domains);
      NoDuplicateEvents(r.0) &&
      (r.1 == Duplicate <==> HasSameEvent(events, title, creator, deadline)) &&
      (r.1 == Duplicate ==> r.0 == events) &&
      (r.1 == Created ==>
         |r.0| == |events| + 1 && r.0[..|events|] == events &&
         r.0[|events|].title == title && r.0[|events|].createdBy == Some(creator))
  {
    var r := CreateEvent(events, creator, title, deadline, clubName, department, domains);
    if r.1 == Created {
      forall i, j | 0 <= i < j < |r.0|
        ensures !SameEvent(r.0[j], r.0[i].title, r.0[i].createdBy, r.0[i].deadline)
      {
        assert r.0[i] == events[i] || i == |events|;
      }
    }
  }

  /** A title differing from an existing one only in letter case or in
      trailing spaces is a duplicate: nothing is inserted. */
  lemma CaseVariantTitleIsDuplicate(domains: seq<string>)
    ensures var events := [EventRow(Some("Hack"), "", Some("2025-05-01"), None, None, Some(7))];
      CreateEvent(events, 7, Some("hack  "), Some("2025-05-01"), None, None, domains) == (events, Duplicate)
  {
    assert "hack "[..4] == "hack" && "hack  "[..5] == "hack ";
    assert TrimRight("hack  ", IsPadSpace) == "hack";
    assert TrimRight("Hack", IsPadSpace) == "Hack";
    assert Lower("Hack") == "hack" == Lower("hack");
    var events := [EventRow(Some("Hack"), "", Some("2025-05-01"), None, None, Some(7))];
    assert SameEvent(events[0], Some("hack  "), Some(7), Some("2025-05-01"));
  }

  /** An event without a deadline is never a duplicate, so it can be created
      any number of times. */
  lemma NullDeadlineNeverDuplicate(events: seq<EventRow>, creator: nat, title: Option<string>,
                                   clubName: Option<string>, department: Option<string>, domains: seq<string>)
    ensures CreateEvent(events, creator, title, None, clubName, department, domains).1 == Created
  {
  }

  // -------------------------------------------------------------------------
  // The tables and the handlers

  class EventStore {
    var events: seq<EventRow>
    var registrations: seq<Registration>
    var members: seq<Member>
    var questions: seq<Question>

    /** Events are duplicate-free, member rows belong to registrations, and
        every question is consistent. */
    ghost predicate Valid()
      reads this
    {
      NoDuplicateEvents(events) && MembersBelong(members, registrations) && AllConsistent(questions)
    }

    constructor ()
      ensures Valid() && events == [] && registrations == [] && members == [] && questions == []
    {
      events := [];
      registrations := [];
      members := [];
      questions := [];
    }

    /** submit_registration: the required-field check, the registration row,
        then one member row per non-blank name. */
    method SubmitRegistration(event: Option<nat>, f: RegistrationForm, payment: Option<string>, ml: MemberLists)
      returns (outcome: Outcome)
      requires Valid() && Aligned(ml)
      modifies this
      ensures Valid()
      ensures (registrations, members, outcome) ==
              Register(events, old(registrations), old(members), event, f, payment, ml)
      ensures events == old(events) && questions == old(questions)
    {
      RegisterSpec(events, registrations, members, event, f, payment, ml);
      if !RequiredFilled(f) {
        return Refused;
      }
      if event.None? || !HasId(events, event.value) {
        return Failed;
      }
      var filename := if Truthy(payment) then payment else None;
      registrations := registrations + [Registration(event.value, f, filename)];
      members := AppendMembers(members, |registrations|, ml);
      outcome := Registered;
    }

    method SubmitQuestionHandler(event: Option<nat>, email: Option<string>, text: Option<string>)
      returns (outcome: Outcome)
      requires Valid()
      modifies this
      ensures Valid()
      ensures (questions, outcome) == SubmitQuestion(old(questions), event, email, text)
      ensures events == old(events) && registrations == old(registrations) && members == old(members)
    {
      QuestionLifecycle(questions, 0, email, text, 0, None, 0, event);
      var r := SubmitQuestion(questions, event, email, text);
      questions, outcome := r.0, r.1;
    }

    method EditQuestionHandler(qid: nat, email: Option<string>, text: Option<string>) returns (outcome: Outcome)
      requires Valid()
      modifies this
      ensures Valid()
      ensures (questions, outcome) == EditQuestion(old(questions), qid, email, text)
      ensures events == old(events) && registrations == old(registrations) && members == old(members)
    {
      QuestionLifecycle(questions, qid, email, text, 0, None, 0, None);
      if !HasId(questions, qid) || questions[qid - 1].studentEmail != email {
        return NotAllowed;
      }
      if !Truthy(text) {
        return Unchanged;
      }
      var q := questions[qid - 1];
      questions := questions[qid - 1 := q.(text := text.value, status := Open, answer := None, answeredBy := None,
                                          answeredAt := None)];
      outcome := Updated;
    }

    method AnswerQuestionHandler(qid: nat, club: nat, answer: Option<string>, now: int) returns (outcome: Outcome)
      requires Valid()
      modifies this
      ensures Valid()
      ensures (questions, outcome) == AnswerQuestion(old(questions), qid, club, answer, now)
      ensures events == old(events) && registrations == old(registrations) && members == old(members)
    {
      QuestionLifecycle(questions, qid, None, None, club, answer, now, None);
      if !Truthy(answer) {
        return Unchanged;
      }
      if HasId(questions, qid) {
        var q := questions[qid - 1];
        questions := questions[qid - 1 := q.(answer := answer, answeredBy := Some(club), status := Answered,
                                            answeredAt := Some(now))];
      }
      outcome := Updated;
    }

    method CreateEventHandler(creator: nat, title: Option<string>, deadline: Option<string>,
                              clubName: Option<string>, department: Option<string>, domains: seq<string>)
      returns (outcome: Outcome)
      requires Valid()
      modifies this
      ensures Valid()
      ensures (events, outcome) == CreateEvent(old(events), creator, title, deadline, clubName, department, domains)
      ensures registrations == old(registrations) && members == old(members) && questions == old(questions)
    {
      CreateEventSpec(events, creator, title, deadline, clubName, department, domains);
      if HasSameEvent(events, title, creator, deadline) {
        return Duplicate;
      }
      events := events + [EventRow(title, Join(domains, ','), deadline, clubName, department, Some(creator))];
      outcome := Created;
    }

    /** view_registrations' `team_size` for registration `reg`. */
    method TeamSizeOf(reg: nat) returns (size: nat)
      ensures size == TeamSize(members, reg)
    {
      var n := 0;
      for i := 0 to |members|
        invariant n == Count(members[..i], OfRegistration(reg))
      {
        assert members[..i + 1] == members[..i] + [members[i]];
        CountAppend(members[..i], members[i], OfRegistration(reg));
        if members[i].registration == reg {
          n := n + 1;
        }
      }
      assert members[..|members|] == members;
      size := n + 1;
    }
  }
}
