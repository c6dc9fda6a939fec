# Anveshan rules, modelled in Dafny

Anveshan is a college community platform: students register teams for
hackathons, ask the organising club questions, look for teammates, and apply
to personal projects and to faculty collaborations. Faculty owners accept
applicants up to per-role limits. This project models the rules underneath
those pages and proves what they promise:

- `skills.dfy`: the skill synonym table and its one-hop expansion, and the
  set of known terms (`backend/utils/skills.py`).
- `collaboration.dfy`: the request lifecycle of personal projects and
  faculty collaborations. It covers one request per (posting, user), owner-only
  accept/reject, per-role limits re-checked at accept time, the ordered
  eligibility verdict, closing, and keyword matching of profiles
  (`backend/routes/collaboration.py`).
- `find_team.dfy`: the find-team board. It covers one team request per
  (email, event), duplicate-free join requests, and the pending-only
  accept/reject that uses one slot of `required_size` per accepted member
  (`backend/routes/find_team.py`).
- `accept_join_request.dfy`: the maintenance script that accepts a join
  request whatever its status, with a guarded decrement
  (`backend/scripts/accept_join_request.py`).
- `env_manager.dfy`: the `.env` line updater. It has a key-to-line map, and
  it replaces existing keys in place and appends new ones
  (`backend/utils/env_manager.py`).
- `deadlines.dfy`: the deadline filter of the student dashboard. The same
  loop appears in `backend/app.py` and `backend/routes/student.py`.
- `student.py`'s other rules, in `student.dfy`: the upload whitelist, the
  collaborations a student's dashboard lists, and the profile update.
- `events.dfy`: registration with its member loop, team size, the question
  lifecycle, and duplicate-free event creation (`backend/routes/events.py`).
- `find_team_js.dfy`: the Find Team page's client-side filter and sort. It
  covers the per-card test, `parseInt(year) || 0`, the stable sort, and the
  re-append to the container (`backend/static/js/find_team.js`).
- `common.dfy`: the shared vocabulary. It holds `Option`, request status,
  Python truthiness and SQL NULL comparison, `strip`/`trim`/`lower`/`split`,
  `LIKE '%k%'`, filtering and counting.

Tables are sequences of rows, and an INSERT appends. As an abstraction, the
row with id `n` sits at position `n - 1`. MySQL's AUTO_INCREMENT does not
promise this: InnoDB can use up ids on inserts that fail, which leaves gaps.
The model therefore holds only up to a renaming of ids, and it does not
capture gaps in the id sequence. Each route
is a pure step function from the tables before to the tables after, together
with an outcome that stands for its flash message and its response. That
response is a redirect, except in the cases listed under "Crash paths"
below. A class per
route file holds the tables as fields. Its methods update them through the
step function, and their contracts keep the table invariants: uniqueness of
requests, per-role limits, duplicate-free events, and so on. Session data
(the signed-in user's id, email and role), the clock and uploaded file
names are parameters.

Facts about the code that shape the model:

- The collaboration and student-profile routes belong to blueprints that
  `app.py` does not register (`app.py:15-18` registers only auth, events,
  find_team and club). As shipped, those routes cannot be reached. The
  model covers them as written.
- An applicant's skills are checked against one comma-separated
  `required_skills` list: one shared entry is enough
  (`collaboration.py:614-620`). The `required_skills_must` and
  `required_skills_nice` columns (`setup_database.py:201-202`) are read by
  none of the modelled routes.
- Every table is converted to the collation `utf8mb4_unicode_ci`
  (`setup_database.py:411-421`). Its `=` ignores trailing spaces and letter
  case. The event-title duplicate test and the student listing's
  `required_skills = ''` use `Common.CollationEq`, which models the
  trailing spaces and ASCII letter case.
- Accepted and rejected collaboration requests are not terminal: neither
  manage route checks that a request is still pending.
- The limit check is a separate count followed by an update, not one
  transaction.
- A closed collaboration still reports applicants as eligible, and the apply
  route still accepts applications to it.

## Model

| member | source | states |
|---|---|---|
| SkillNormal.NormalizeIdempotent | backend/utils/skills.py:39 | `strip().lower()` yields a lower-case term without surrounding white space, and normalising it again changes nothing |
| Skills.ExpandSkills | backend/utils/skills.py:30-46 | the returned list holds no duplicates, and a term is in it exactly when it is in the expansion of the entries |
| Skills.ContributionYields | backend/utils/skills.py:36-44 | one entry contributes a term exactly when the entry is truthy and normalises either to that term or to a table key whose synonyms list it |
| Skills.ExpandedMembers | backend/utils/skills.py:36-44 | a term is in the expansion exactly when some entry yields it, so synonyms are added one hop only and only for an exact key |
| Skills.NormalizedInputsKept | backend/utils/skills.py:36-40 | every truthy entry appears in the expansion stripped and lower-cased |
| Skills.WhitespaceEntryGivesEmpty | backend/utils/skills.py:37-40 | a white-space-only entry is truthy and contributes the empty string; None and "" contribute nothing |
| Skills.ExpandMonotone | backend/utils/skills.py:36-44 | when every entry of one list occurs in another, the first expansion is contained in the second |
| KnownTerms.AllKnownTerms | backend/utils/skills.py:48-54 | the result is the set of normalised keys and normalised listed synonyms of SKILL_SYNONYMS |
| KnownTerms.KnownTermsOf | backend/utils/skills.py:49-54 | the outer loop over any table's items yields the normalised keys and synonyms of all its keys |
| KnownTerms.AddNormalized | backend/utils/skills.py:52-53 | the inner loop adds exactly the normalised synonyms of one key |
| KnownTerms.TermsOfAdd | backend/utils/skills.py:50-53 | visiting one more key adds that key and the synonyms listed under it, normalised |
| SkillFacts.KnownTermsExact | backend/utils/skills.py:48-54 | for a table written in normal form, the known terms are exactly its keys and listed synonyms |
| SkillFacts.ExpandStaysKnown | backend/utils/skills.py:30-54 | expanding a list of known terms of a normal-form table yields only known terms |
| SkillFacts.SynonymTableNormal | backend/utils/skills.py:2-28 | every key and every synonym of SKILL_SYNONYMS is already stripped and lower-case |
| SkillFacts.SynonymKeysNormal | backend/utils/skills.py:2-28 | every key of SKILL_SYNONYMS is in normal form |
| SkillFacts.SynonymValuesNormal | backend/utils/skills.py:2-28 | every listed synonym of SKILL_SYNONYMS is in normal form |
| SkillFacts.SynonymTableNotClosed | backend/utils/skills.py:11-25 | 'mobile app development', 'react.js', 'node.js', 'user interface' and 'user experience' are listed as synonyms but have no entry of their own |
| SkillFacts.ExpandNotIdempotent | backend/utils/skills.py:23-44 | expanding "ui" gives exactly ui, ui/ux and user interface; expanding that result again adds "ux" |
| Collaboration.RequestOnce | backend/routes/collaboration.py:368-375 | an existing request for the pair, whatever its status, blocks the insert; otherwise a pending request is appended unless a foreign key is missing |
| Collaboration.RequestOnceKeepsUnique | backend/routes/collaboration.py:659-666 | requesting keeps at most one request per (posting, user), and afterwards the pair has a request unless the insert failed |
| Collaboration.ActionStatus | backend/routes/collaboration.py:390-391 | only 'accepted' and 'rejected' are actions, and each names its status |
| Collaboration.ManageProjectRequestSpec | backend/routes/collaboration.py:385-421 | the table changes only through a valid action of the project's owner, and then only the named request's status changes; the prior status is never consulted |
| Collaboration.ManageFacultyRequestSpec | backend/routes/collaboration.py:676-731 | only the owner's valid action changes a status, and then only the named request's status; the owner's accept of an existing user goes through exactly when the accepted count of the applicant's role is below its limit; the owner's reject always goes through |
| Collaboration.ReacceptAtLimitRefused | backend/routes/collaboration.py:699-716 | the count includes the request itself, so re-accepting an accepted request when its role is exactly at the limit reports the limit and changes nothing |
| Collaboration.ZeroLimitAdmitsNobody | backend/routes/collaboration.py:712-716 | a limit of zero or less makes every accept of that role report the limit and change nothing |
| Collaboration.ManageFacultyKeepsLimits | backend/routes/collaboration.py:699-718 | accepting or rejecting keeps every role of every collaboration within its limit |
| Collaboration.PendingInsertKeepsCounts | backend/routes/collaboration.py:663-664 | appending a pending request changes no accepted count |
| Collaboration.ApplyKeepsLimits | backend/routes/collaboration.py:650-674 | applying keeps every role of every collaboration within its limit |
| Collaboration.CloseSpec | backend/routes/collaboration.py:733-758 | only the collaboration's faculty may close it, and closing changes its status and nothing else |
| Collaboration.CloseKeepsLimits | backend/routes/collaboration.py:744-747 | closing keeps every role within its limit |
| Collaboration.SkillList | backend/routes/collaboration.py:614-615 | a term is in the skill list exactly when it is the lower-cased form of a comma-separated piece that is not empty once stripped |
| Collaboration.ExistingStatus | backend/routes/collaboration.py:594-602 | a status is found exactly when the viewer has a request for the collaboration, and it is that request's status |
| Collaboration.EligibleExactly | backend/routes/collaboration.py:590-634 | the viewer may apply exactly when there is no request yet and the role's checks pass, in the source's order; any other role may apply whenever it has not applied |
| Collaboration.ExistingRequestFirst | backend/routes/collaboration.py:594-600 | an existing request, whatever its status, decides the verdict before any other check |
| Collaboration.EligibilityIgnoresStatus | backend/routes/collaboration.py:590-634 | closing a collaboration changes no one's verdict |
| Collaboration.DetailsSpec | backend/routes/collaboration.py:558-647 | the page is turned away exactly for non-faculty viewers of a faculty-only collaboration; the counts are the accepted students and faculty; only the owner sees pending requests |
| Collaboration.CollectCommunityKeywords | backend/routes/collaboration.py:29-38 | the keywords are distinct and are exactly the stripped tech-stack pieces and domains of the viewer's projects, or none when showing all |
| Collaboration.CommunitySpec | backend/routes/collaboration.py:40-72 | the viewer is never listed, and with no keywords every other student and faculty member is listed |
| Collaboration.EmptyKeywordMatchesAll | backend/routes/collaboration.py:53-56 | an empty keyword becomes the pattern '%%', which every non-NULL skills or interests value matches |
| Common.CollationEqEmpty | backend/setup_database.py:411-421 | under the modelled collation a text equals '' exactly when it consists of spaces only |
| Collaboration.LoweredPieces | backend/routes/collaboration.py:614-615 | lower-casing the stripped non-empty pieces one by one gives exactly the lower-cased forms of those pieces |
| Collaboration.TrailingCommaGivesEmptyKeyword | backend/routes/collaboration.py:241-242 | a tech stack with a trailing comma yields the empty keyword |
| Collaboration.RecommendedSpec | backend/routes/collaboration.py:236-267 | only the project's owner gets recommendations, never of themself, and only when the project has keywords; then exactly the other students whose skills or interests contain a keyword are recommended |
| Collaboration.TrailingCommaRecommendsEveryStudent | backend/routes/collaboration.py:241-262 | a tech stack of "ai," makes the owner see every other student that has any skills or interests |
| Collaboration.CollaborationDb.JoinProject | backend/routes/collaboration.py:358-383 | join_project changes the project requests as the request step says and keeps both uniqueness rules and the limits |
| Collaboration.CollaborationDb.ManageRequest | backend/routes/collaboration.py:385-421 | manage_request changes the project requests as the manage step says and keeps the table invariants |
| Collaboration.CollaborationDb.ApplyFacultyCollaboration | backend/routes/collaboration.py:650-674 | apply_faculty_collaboration inserts a pending request only for a new pair, and keeps the limits |
| Collaboration.CollaborationDb.ManageCollabRequest | backend/routes/collaboration.py:676-731 | manage_faculty_request changes the collaboration requests as the limit-checked step says and keeps every limit |
| Collaboration.CollaborationDb.CloseFacultyCollaboration | backend/routes/collaboration.py:733-758 | close_faculty_collaboration changes only the collaborations, as the close step says |
| FindTeam.UpsertSpec | backend/routes/find_team.py:24-53 | after a post that did not fail, the form's row exists for (email, event) and rows of other pairs are untouched; at most one row per pair is kept; an insert adds exactly one row |
| FindTeam.ListedForSpec | backend/routes/find_team.py:61-68 | the list never holds the student's own requests, and it holds every other request whose event exists |
| FindTeam.JoinSpec | backend/routes/find_team.py:97-127 | a join request is inserted, pending, exactly when the team exists, is not the student's own, and the pair has no request yet; otherwise nothing changes |
| FindTeam.HandleSpec | backend/routes/find_team.py:184-221 | nothing changes unless the caller owns the team and the request is pending; accept needs a free slot and takes exactly one; reject leaves the slots alone |
| FindTeam.HandleKeepsSizesNonNegative | backend/routes/find_team.py:201-212 | no required_size goes negative through handling |
| FindTeam.HandleConservesSlots | backend/routes/find_team.py:201-219 | for every team request, free slots plus accepted members stay the same |
| FindTeam.HandleKeepsUnique | backend/routes/find_team.py:197-219 | handling keeps one team request per (email, event) and one join request per (team, email) |
| FindTeam.TeamBoard.PostTeamRequest | backend/routes/find_team.py:24-53 | the find_team POST upserts as the step says and keeps both uniqueness rules |
| FindTeam.TeamBoard.JoinTeam | backend/routes/find_team.py:78-133 | the join_team POST inserts as the step says and keeps both uniqueness rules |
| FindTeam.TeamBoard.HandleJoinRequest | backend/routes/find_team.py:177-231 | handle_join_request updates both tables as the step says and keeps both uniqueness rules |
| AcceptJoinRequest.TakeSlot | backend/scripts/accept_join_request.py:33-37 | the guarded decrement lowers one team's required_size by one only when it is positive, and changes nothing else |
| AcceptJoinRequest.ScriptSpec | backend/scripts/accept_join_request.py:23-43 | an unknown id exits 1 with nothing changed; otherwise the request is accepted whatever its status, and a decrement is made only when asked for, with a team, above zero |
| AcceptJoinRequest.ScriptKeepsSizesNonNegative | backend/scripts/accept_join_request.py:33-37 | the script never makes a required_size negative |
| AcceptJoinRequest.ScriptKeepsUnique | backend/scripts/accept_join_request.py:30-43 | the script keeps both uniqueness rules of the board |
| AcceptJoinRequest.RerunTakesAnotherSlot | backend/scripts/accept_join_request.py:32-37 | re-running on an accepted request takes one more slot with no new member |
| AcceptJoinRequest.AcceptsRejected | backend/scripts/accept_join_request.py:32 | the script accepts a request the team owner already rejected |
| AcceptJoinRequest.AcceptJoinRequestScript | backend/scripts/accept_join_request.py:16-48 | the run against the board leaves the tables and exit status of one script run, and keeps the board valid |
| EnvManager.ContentEndsWithNewline | backend/utils/env_manager.py:24 | every written line ends with a newline |
| EnvManager.KeyMapIsLastOccurrence | backend/utils/env_manager.py:17-21 | every entry line's key is in the map, and the map names the last line with that key |
| EnvManager.KeyMapInjective | backend/utils/env_manager.py:17-21 | distinct keys map to distinct lines |
| EnvManager.BuildKeyMap | backend/utils/env_manager.py:17-21 | the first loop builds exactly the key map |
| EnvManager.FixLast | backend/utils/env_manager.py:28-29 | only a last line lacking a newline changes, and it gains one |
| EnvManager.NewLines | backend/utils/env_manager.py:27-31 | at most one appended line per update, each ending with a newline |
| EnvManager.FoldSpec | backend/utils/env_manager.py:23-31 | each existing key's last line holds its update, new keys are appended in order, and every other line is unchanged except the newline fix |
| EnvManager.EmptyFileGetsAllUpdates | backend/utils/env_manager.py:11-14 | an empty file ends up holding exactly the updates, in order |
| EnvManager.UpdateEnvLines | backend/utils/env_manager.py:16-31 | the two loops produce the lines the fold describes, so the result is updated as FoldSpec states |
| Deadlines.BeforeIsStrictTotalOrder | backend/app.py:82 | date comparison is irreflexive, transitive and total |
| Deadlines.FirstParseSpec | backend/app.py:72-80 | the first format that parses wins, and nothing parses only when every format fails |
| Deadlines.ParseDeadlineText | backend/routes/student.py:57-65 | the format loop yields the first format's parse that succeeds |
| Deadlines.KeepSpec | backend/routes/student.py:46-68 | an event is dropped exactly when its deadline resolves to a date before today; no deadline, a deadline of today and unparseable text keep it |
| Deadlines.KeepEarlier | backend/app.py:82-83 | an event kept today was kept on every earlier day |
| Deadlines.UpcomingSpec | backend/app.py:56-86 | the filter keeps the input's order, adds nothing, and keeps exactly the events that pass |
| Deadlines.KeepEvent | backend/routes/student.py:45-68 | the loop body keeps an event exactly as the keep rule says |
| Deadlines.FilterUpcoming | backend/routes/student.py:41-71 | the loop returns exactly the upcoming events, in order |
| Student.AfterLastDotSpec | backend/routes/student.py:14 | the extension is the suffix after the last '.', holds no '.', and is the whole name when there is no '.' |
| Student.NoDotIsWhole | backend/routes/student.py:14 | for a name without a '.', the text after the last dot is the whole name |
| Student.AllowedFileSpec | backend/routes/student.py:13-14 | a file is allowed exactly when it has a '.' whose following text has no '.' and is, lower-cased, png, jpg, jpeg or gif |
| Student.UpperCaseExtensionAllowed | backend/routes/student.py:14 | "me.PNG" is allowed |
| Student.InnerExtensionIgnored | backend/routes/student.py:14 | "photo.png.exe" is refused |
| Student.NameWithoutDotRefused | backend/routes/student.py:14 | "png" without a dot is refused |
| Student.StudentSkills | backend/routes/student.py:100-102 | without truthy skills the list is empty; otherwise a term is in it exactly when it is a comma-separated piece, stripped and not empty (case kept) |
| Student.ListingSpec | backend/routes/student.py:104-122 | exactly the collaborations that are open to students and match are listed: with skills, those whose non-empty required skills contain one of them; without skills, those whose required skills are NULL or only spaces (`= ''` under the collation) |
| Student.SpacesOnlyRequiredSkillsListed | backend/routes/student.py:118-119 | a student without skills is shown an open collaboration whose required skills are "   " |
| Student.ListingGrowsWithSkills | backend/routes/student.py:111-116 | adding skills never hides a collaboration from a student who had some |
| Student.UpdateProfileSpec | backend/routes/student.py:145-178 | every form field is written; the photo changes only to the saved name of an allowed upload |
| Events.NewMembers | backend/routes/events.py:95-96 | the member loop adds at most one row per name, each of the registration and non-blank |
| Events.AppendMembers | backend/routes/events.py:90-107 | the member loop appends exactly one row per non-blank name, in order |
| Events.NewMembersCounted | backend/routes/events.py:95-107 | the loop adds as many rows of the registration as there are non-blank names |
| Events.NewTeamSize | backend/routes/events.py:338-340 | a new registration's team size is one more than its non-blank member names |
| Events.RegisterSpec | backend/routes/events.py:44-113 | registration is refused exactly when a required field is empty, and fails exactly when the fields are filled but the event is missing; nothing changes unless it registers; a registration keeps the existing rows and appends one row for the existing event, with the form and the payment screenshot only when one was given, plus exactly one member row of the new registration per non-blank name and no other row, with team size one more than its non-blank names |
| Events.QuestionLifecycle | backend/routes/events.py:120-235 | new questions are open; only the asker's non-empty edit changes a question and it reopens it with no answer; only a non-empty answer changes one and it answers it; each step keeps every row consistent and leaves other rows alone |
| Events.OnlyAskerEdits | backend/routes/events.py:157-166 | another student's edit never changes a question |
| Events.CreateEventSpec | backend/routes/events.py:251-297 | a duplicate of (title, creator, deadline) is refused with nothing changed, titles compared under the collation; otherwise one row is appended, and events stay duplicate-free |
| Events.CaseVariantTitleIsDuplicate | backend/routes/events.py:266-276 | a title that differs from an existing one only in letter case and trailing spaces ("hack  " against "Hack") is a duplicate, and nothing is inserted |
| Events.NullDeadlineNeverDuplicate | backend/routes/events.py:266-271 | an event without a deadline is never a duplicate, because NULL compares equal to nothing |
| Events.EventStore.SubmitRegistration | backend/routes/events.py:44-113 | submit_registration changes the registrations and members as the registration step says, and keeps the store valid |
| Events.EventStore.SubmitQuestionHandler | backend/routes/events.py:120-145 | submit_question changes the questions as the submit step says |
| Events.EventStore.EditQuestionHandler | backend/routes/events.py:149-190 | edit_question changes the questions as the edit step says |
| Events.EventStore.AnswerQuestionHandler | backend/routes/events.py:219-245 | answer_question changes the questions as the answer step says |
| Events.EventStore.CreateEventHandler | backend/routes/events.py:251-297 | create_event changes the events as the creation step says, titles compared under the collation, and keeps them duplicate-free |
| Events.EventStore.TeamSizeOf | backend/routes/events.py:327-340 | the reported team size is the registration's member rows plus one |
| FindTeamJs.TestCard | backend/static/js/find_team.js:37-57 | the per-card test is true exactly when the card is visible under the criteria |
| FindTeamJs.NoCriteriaShowsAll | backend/static/js/find_team.js:29-54 | with no year checked and blank search boxes every card passes, and a card passes exactly when each criterion that is set holds |
| FindTeamJs.LongerTextShowsFewer | backend/static/js/find_team.js:48-54 | typing more of a search text never shows a card that was hidden |
| FindTeamJs.DigitPrefix | backend/static/js/find_team.js:63-64 | parseInt reads the longest prefix of digits of the radix |
| FindTeamJs.UnsignedDecimal | backend/static/js/find_team.js:63-64 | decimal digits followed by text that does not continue the number parse to the digits' value |
| FindTeamJs.SignedDigits | backend/static/js/find_team.js:63-64 | a leading sign negates or keeps the number |
| FindTeamJs.ParseDecimal | backend/static/js/find_team.js:63-64 | a year like "3" or "2nd" sorts by the number it starts with |
| FindTeamJs.NonNumericIsZero | backend/static/js/find_team.js:63-64 | text that starts with no white space, sign or digit counts as 0 |
| FindTeamJs.SortBySpec | backend/static/js/find_team.js:61-70 | the sort permutes its input into ranked order: by key, ties in original order |
| FindTeamJs.RankedUnique | backend/static/js/find_team.js:61-70 | two ranked orders of the same cards are equal, so any stable sort gives this order |
| FindTeamJs.RestoreKeepsOrder | backend/static/js/find_team.js:67-70 | an increasing list of indices is already in original order |
| FindTeamJs.VisibleIdsSpec | backend/static/js/find_team.js:37-58 | the cards Apply sorts are exactly the passing ones, each once, in original order |
| FindTeamJs.ArrangedSpec | backend/static/js/find_team.js:37-70 | exactly the passing cards are arranged, each once, ranked by the sort order's key |
| FindTeamJs.ArrangedByYear | backend/static/js/find_team.js:61-66 | with 'year-asc' the arranged cards go by increasing parsed year; with 'year-desc' by decreasing year; ties stay in original order |
| FindTeamJs.ArrangedRestores | backend/static/js/find_team.js:67-70 | any other sort value keeps the original order |
| FindTeamJs.CollectVisible | backend/static/js/find_team.js:37-58 | the first loop sets each card's display to its visibility and collects the passing cards in order |
| FindTeamJs.AppendChildren | backend/static/js/find_team.js:73 | re-appending moves the given cards to the end in that order and keeps every card once |
| FindTeamJs.ArrangeAndAppend | backend/static/js/find_team.js:60-73 | after Apply's sort and re-append, the container holds the other cards, then the arranged ones, every card once |
| FindTeamJs.RestoreOriginalOrder | backend/static/js/find_team.js:86-89 | Clear's sort and re-append leave the cards in original order |
| FindTeamJs.FindTeamPage.constructor | backend/static/js/find_team.js:10-13 | the page starts with its cards in original order, all shown |
| FindTeamJs.FindTeamPage.ApplyFilters | backend/static/js/find_team.js:28-76 | each card's display becomes its visibility, the arranged cards move to the end, no card is added or lost, the inputs stay, and the panel closes |
| FindTeamJs.FindTeamPage.ClearFilters | backend/static/js/find_team.js:78-92 | all inputs are reset, every card is shown, the original order comes back, and the panel closes |
| FindTeamJs.ClearSortIsIdentity | backend/static/js/find_team.js:86-89 | Clear's sort by original index leaves the original order as it is |
| FindTeamJs.ClearMovesAll | backend/static/js/find_team.js:88-89 | re-appending every card leaves nothing in front |
| FindTeamJs.ApplyLayout | backend/static/js/find_team.js:56-73 | after Apply, the cards left in front are exactly the earlier cards that did not pass, in their earlier order |

## Left out

- Flask sessions, flash messages, redirects and templates. The signed-in
  user's id, email and role are parameters. A route reached without a session
  is not modelled, and neither is a role check that only redirects.
- MySQL mechanics: cursors, commit and rollback. A statement refused for a
  foreign key, or one that raises, is modelled as a `Failed` outcome with
  nothing changed.
- SQL `LIKE` collation: matching is plain, case-sensitive substring
  containment. In the source, a `%` or `_` inside a keyword or skill is a
  wildcard (`collaboration.py:55-56`, `250-251`, `student.py:115`).
  `Common.Contains` matches those characters literally. `ORDER BY` is left out, except in the find-team list, and so
  is `LIMIT 12` on the student's collaboration list.
- ListingSpec: `Common.CollationEq` models only trailing spaces and ASCII
  letter case of `utf8mb4_unicode_ci`. Text made of characters that the
  collation ignores, such as some control characters, also equals `''` in
  the source. For a student without skills, the source may therefore list a
  collaboration that `Student.ListedForStudent` leaves out.
- CreateEventSpec: titles compare under `Common.CollationEq`, so accent
  differences ("Café" against "Cafe") and non-ASCII letter case are not
  treated as equal, while the source refuses such titles as duplicates. The
  deadline is compared as text, while the column is a `DATE` and MySQL
  converts the submitted string to a date before comparing.
- CreateEventHandler: it runs the same creation step, so it has the same
  limits as CreateEventSpec.
- Role comparisons in SQL (`u.role = %s` at `collaboration.py:707`,
  `role = 'student'` at `collaboration.py:260`, `role IN (...)` at
  `collaboration.py:48`) are exact in `Collaboration.Counted`,
  `Collaboration.Recommended` and `Collaboration.InCommunity`. Under the
  collation, a stored role "Student" would count as "student" in SQL, while
  Python's `== 'student'` (`collaboration.py:716`) tells them apart. The
  model assumes roles are stored as the registration form's lower-case
  values.
- `LIMIT 6` on the recommendations of the project details page
  (`collaboration.py:261`). `Collaboration.Recommended` describes every
  user the query matches, not the first six.
- `Common.Lower`, `IsPySpace` and `IsJsSpace` cover ASCII letters and the
  usual white space only. Unicode case mapping and Unicode white space are
  not modelled.
- `datetime.strptime` is an abstract parser passed in as a function. The
  model does not check what each format accepts.
- Saving files and `secure_filename`. The saved name of a profile photo and
  of a payment screenshot is a parameter.
- The faculty profile page's photo update (`collaboration.py:97-152`) is not
  modelled. It repeats the student's rule, and only its whitelist
  `_allowed_file` (`collaboration.py:94-95`) is modelled, as
  `Student.AllowedFile`, which has the same body.
- CSV export (`events.py:389-448`), and the filter lists and query of
  `view_registrations` apart from `team_size`.
- The count-then-update race in `manage_faculty_request`
  (`collaboration.py:705-718`). Each handler is one sequential step.
- Crash paths:
  - the undefined `app` logger after the commit in `handle_join_request`
    (`find_team.py:227`). The model ends at the commit, which has already
    taken effect;
  - ragged member lists in `submit_registration` (`events.py:102-106`).
    `Events.Aligned` requires the lists to line up;
  - the unbound `collaborations` after an exception (`student.py:135`);
  - a NULL `max_students` or `max_faculty`. The limits are integers;
  - a `required_size` that is not an integer's text. `int(...)` raises
    `ValueError` in `find_team` (`find_team.py:30`). The route crashes with
    nothing written, and `FindTeam.TeamForm.requiredSize` is an `int`, which
    assumes the parse succeeded;
  - a missing field of the team form. `request.form[...]` raises `KeyError`
    (`find_team.py:25-30`). The route crashes with nothing written, and
    `FindTeam.TeamForm` has every field;
  - a missing field of the join form. `request.form['name']`, `['branch']`,
    `['year']` and `['phone']` raise `KeyError` (`find_team.py:103-106`).
    Nothing is written, and `FindTeam.JoinSpec` takes every field as given;
  - the unauthorized branch of `manage_request` (`collaboration.py:404-405`).
    It falls out of the `try`, and the view returns `None`, which Flask
    answers with a server error instead of a redirect. The table is
    unchanged. `Collaboration.ManageProjectRequest`'s `Unauthorized` outcome
    stands for that error response;
  - `project_details` reads `project['user_id']` (`collaboration.py:220`)
    before its not-found check (`collaboration.py:232`). A missing project
    raises `TypeError` instead of flashing "Project not found".
    `Collaboration.Recommended` takes the project as given;
  - a missing signed-in user row on the details page.
    `Collaboration.CollaborationDetails` requires that the viewer exists.
- The dashboard loop that attaches a team and questions to each kept event
  (`app.py:88-120`, `student.py:73-97`). It only reads.
- DOM event wiring and the panel toggle (`find_team.js:16-26`, `94-95`).
  The panel's open flag is modelled only in the state Apply and Clear leave.
- `FindTeamJs.FindTeamPage.constructor` states the initial inputs as empty
  and the panel as closed. The page's real initial state comes from its
  template, which is not part of this model.
- `FindTeamJs.ParseIntOr0`: JavaScript number precision is not modelled.
  Very long digit strings give exact integers rather than rounded doubles,
  and `NaN` and `Infinity` are not modelled.
- The `.env` file's reading, writing and default path
  (`env_manager.py:7-14`, `33-34`). The model works on the list of lines.
  The updates are a sequence of distinct keys, as a dictionary's keys are.
- The synonym table is not used by the eligibility check, which matches
  skills exactly. The model keeps them separate too.
- SMTP, WTForms, login and the database set-up and migration scripts.
