/** The student pages of backend/routes/student.py: the upload whitelist, the
    faculty collaborations a student's dashboard lists, and the profile update
    that replaces the photo only when an allowed file came with it. The
    dashboard's deadline filter is `Deadlines.FilterUpcoming`. */
module Student {
  import opened Common
  import opened Collaboration

  // -------------------------------------------------------------------------
  // allowed_file

  const AllowedExtensions: set<string> := {"png", "jpg", "jpeg", "gif"}

  /** The text after the last '.', or all of `s` when it has none. */
  function AfterLastDot(s: string): string
    decreases |s|
  {
    if s == [] || s[|s| - 1] == '.' then "" else AfterLastDot(s[..|s| - 1]) + [s[|s| - 1]]
  }

  /** `AfterLastDot(s)` is the suffix of `s` without a '.', preceded by a '.'
      when `s` has one, and all of `s` when it has none. */
  lemma {:induction false} AfterLastDotSpec(s: string)
    ensures var r := AfterLastDot(s);
      |r| <= |s| && r == s[|s| - |r|..] && '.' !in r && ('.' in s ==> s[|s| - |r| - 1] == '.') &&
      ('.' !in s ==> r == s)
    decreases |s|
  {
    if '.' !in s {
      NoDotIsWhole(s);
    }
    if s != [] && s[|s| - 1] != '.' {
      var p := s[..|s| - 1];
      AfterLastDotSpec(p);
      var q := AfterLastDot(p);
      assert s[|s| - |q| - 1..] == p[|p| - |q|..] + [s[|s| - 1]];
      if '.' in s {
        var k :| 0 <= k < |s| && s[k] == '.';
        assert p[k] == '.';
      }
    }
  }

  /** A name without a '.' is its own text after the last dot. */
  lemma {:induction false} NoDotIsWhole(s: string)
    requires '.' !in s
    ensures AfterLastDot(s) == s
    decreases |s|
  {
    if s != [] {
      var p := s[..|s| - 1];
      assert '.' !in p by {
        forall k | 0 <= k < |p| ensures p[k] != '.' {
          assert p[k] == s[k];
        }
      }
      NoDotIsWhole(p);
      assert s == p + [s[|s| - 1]];
    }
  }

  /** `'.' in filename and filename.rsplit('.', 1)[1].lower() in ALLOWED_EXTENSIONS`. */
  predicate AllowedFile(filename: string) {
    '.' in filename && Lower(AfterLastDot(filename)) in AllowedExtensions
  }

  /** A file is allowed exactly when it has a '.' whose following text holds
      no '.' and is, lower-cased, one of the image extensions. */
  lemma AllowedFileSpec(filename: string)
    ensures AllowedFile(filename) <==>
      exists k :: 0 <= k < |filename| && filename[k] == '.' && '.' !in filename[k + 1..] &&
        Lower(filename[k + 1..]) in AllowedExtensions
  {
    AfterLastDotSpec(filename);
    var r := AfterLastDot(filename);
    var n := |filename|;
    if AllowedFile(filename) {
      var k := n - |r| - 1;
      assert filename[k + 1..] == r;
    }
  }

  /** Upper-case extensions are accepted. */
  lemma UpperCaseExtensionAllowed()
    ensures AllowedFile("me.PNG")
  {
    assert AfterLastDot("me.PNG") == "PNG" by {
      assert "me.PNG"[..5] == "me.PN" && "me.PN"[..4] == "me.P" && "me.P"[..3] == "me.";
      assert AfterLastDot("me.") == "";
      assert ['P'] == "P" && "P" + ['N'] == "PN" && "PN" + ['G'] == "PNG";
    }
    assert "me.PNG"[2] == '.';
    assert Lower("PNG") == "png";
  }

  /** Only the last extension counts. */
  lemma InnerExtensionIgnored()
    ensures !AllowedFile("photo.png.exe")
  {
    assert AfterLastDot("photo.png.exe") == "exe" by {
      assert AfterLastDot("photo.png.") == "";
      assert "photo.png.e"[..10] == "photo.png.";
      assert AfterLastDot("photo.png.e") == "e";
      assert "photo.png.ex"[..11] == "photo.png.e";
      assert AfterLastDot("photo.png.ex") == "ex";
      assert "photo.png.exe"[..12] == "photo.png.ex";
    }
    assert Lower("exe") == "exe";
  }

  /** A bare extension without a '.' is refused. */
  lemma NameWithoutDotRefused()
    ensures !AllowedFile("png")
  {
    assert '.' !in "png";
  }

  // -------------------------------------------------------------------------
  // The dashboard's collaboration list

  /** The student's skills: comma-split, stripped, non-empty pieces (not
      lower-cased). */
  function StudentSkills(skills: Option<string>): (r: seq<string>)
    ensures forall i :: 0 <= i < |r| ==> r[i] != ""
    ensures forall x :: x in r <==>
      Truthy(skills) && x != "" && exists p :: p in Split(skills.value, ',') && PyStrip(p) == x
  {
    if Truthy(skills) then NonEmptyStripped(Split(skills.value, ',')) else []
  }

  /** The WHERE clause of the dashboard's query for one collaboration;
      `required_skills = ''` compares under the table's collation. */
  predicate ListedForStudent(c: FacultyCollab, skills: seq<string>) {
    c.status == Open && c.audience != FacultyOnly &&
    if skills != [] then exists i :: 0 <= i < |skills| && LikeMatch(c.requiredSkills, skills[i])
    else c.requiredSkills == None || CollationEq(c.requiredSkills.value, "")
  }

  /** NULL, or a text of spaces only (the empty text included). */
  predicate BlankText(t: Option<string>) {
    t.None? || forall k :: 0 <= k < |t.value| ==> t.value[k] == ' '
  }

  function StudentListing(collabs: seq<FacultyCollab>, skills: seq<string>): seq<FacultyCollab> {
    Filter(collabs, (c: FacultyCollab) => ListedForStudent(c, skills))
  }

  /** Exactly the open collaborations meant for students that match are
      listed: for a student with skills, those whose non-empty required
      skills contain one of them; for a student without skills, those whose
      required skills are NULL or only spaces. */
  lemma ListingSpec(collabs: seq<FacultyCollab>, skillsText: Option<string>)
    ensures var skills := StudentSkills(skillsText);
      var l := StudentListing(collabs, skills);
      (forall i :: 0 <= i < |l| ==> l[i] in collabs && l[i].status == Open && l[i].audience in {StudentsOnly, Both}) &&
      (skills != [] ==> forall i :: 0 <= i < |l| ==>
         l[i].requiredSkills.Some? && l[i].requiredSkills.value != "" &&
         exists j :: 0 <= j < |skills| && Contains(l[i].requiredSkills.value, skills[j])) &&
      (skills == [] ==> forall i :: 0 <= i < |l| ==> BlankText(l[i].requiredSkills)) &&
      (forall c ::
         (c in collabs && c.status == Open && c.audience in {StudentsOnly, Both} &&
          (skills != [] ==> exists j :: 0 <= j < |skills| && LikeMatch(c.requiredSkills, skills[j])) &&
          (skills == [] ==> BlankText(c.requiredSkills)))
         ==> c in l)
  {
    var skills := StudentSkills(skillsText);
    var l := StudentListing(collabs, skills);
    forall c: FacultyCollab | c.requiredSkills.Some?
      ensures CollationEq(c.requiredSkills.value, "") <==> BlankText(c.requiredSkills)
    {
      CollationEqEmpty(c.requiredSkills.value);
    }
    forall c | c in collabs && c.status == Open && c.audience in {StudentsOnly, Both} &&
        (skills != [] ==> exists j :: 0 <= j < |skills| && LikeMatch(c.requiredSkills, skills[j])) &&
        (skills == [] ==> BlankText(c.requiredSkills))
      ensures c in l
    {
      var k :| 0 <= k < |collabs| && collabs[k] == c;
      assert ListedForStudent(collabs[k], skills);
    }
    if skills != [] {
      forall i | 0 <= i < |l|
        ensures l[i].requiredSkills.Some? && l[i].requiredSkills.value != ""
      {
        var j :| 0 <= j < |skills| && LikeMatch(l[i].requiredSkills, skills[j]);
        NothingInEmpty(skills[j]);
      }
    }
  }

  /** A student without skills is shown a collaboration whose required
      skills are only spaces. */
  lemma SpacesOnlyRequiredSkillsListed(c: FacultyCollab)
    requires c.status == Open && c.audience != FacultyOnly && c.requiredSkills == Some("   ")
    ensures ListedForStudent(c, StudentSkills(None))
  {
    CollationEqEmpty("   ");
  }

  /** The empty text contains only the empty needle. */
  lemma NothingInEmpty(needle: string)
    requires needle != ""
    ensures !Contains("", needle)
  {
  }

  /** Adding skills never hides a collaboration from a student who had some. */
  lemma ListingGrowsWithSkills(c: FacultyCollab, fewer: seq<string>, more: seq<string>)
    requires fewer != [] && forall i :: 0 <= i < |fewer| ==> fewer[i] in more
    requires ListedForStudent(c, fewer)
    ensures ListedForStudent(c, more)
  {
    var i :| 0 <= i < |fewer| && LikeMatch(c.requiredSkills, fewer[i]);
    var j :| 0 <= j < |more| && more[j] == fewer[i];
  }

  // -------------------------------------------------------------------------
  // profile

  /** The profile columns the form sets (a missing field is NULL). */
  datatype ProfileFields = ProfileFields(
    name: Option<string>, bio: Option<string>, skills: Option<string>, interests: Option<string>,
    linkedinUrl: Option<string>, githubUrl: Option<string>, portfolioUrl: Option<string>,
    mediumUrl: Option<string>, branch: Option<string>, year: Option<string>, section: Option<string>)

  /** A student's `users` row as far as the profile page writes it. */
  datatype Profile = Profile(fields: ProfileFields, photo: Option<string>)

  /** The profile POST: every form field is written; the photo becomes the
      saved upload's name only when a non-empty, allowed filename came with
      the request and the saved name is not empty. */
  function UpdateProfile(row: Profile, form: ProfileFields, upload: Option<string>, savedName: string): (r: Profile)
  {
    var photo := if upload.Some? && upload.value != "" && AllowedFile(upload.value) then savedName else "";
    Profile(form, if photo != "" then Some(photo) else row.photo)
  }

  lemma UpdateProfileSpec(row: Profile, form: ProfileFields, upload: Option<string>, savedName: string)
    ensures var r := UpdateProfile(row, form, upload, savedName);
      r.fields == form &&
      (r.photo != row.photo ==> upload.Some? && AllowedFile(upload.value) && r.photo == Some(savedName)) &&
      (upload.None? || !AllowedFile(upload.value) ==> r.photo == row.photo) &&
      (upload.Some? && AllowedFile(upload.value) && savedName != "" ==> r.photo == Some(savedName))
  {
  }
}
