/** The constant table SKILL_SYNONYMS of backend/utils/skills.py, kept in a
    module of its own. */
module SkillTable {
  /** Each key maps to the synonyms listed for it. */
  const SynonymTable: map<string, seq<string>> := map[
    "ai" := ["artificial intelligence"],
    "artificial intelligence" := ["ai"],
    "ml" := ["machine learning"],
    "machine learning" := ["ml"],
    "ds" := ["data science"],
    "data science" := ["ds"],
    "web dev" := ["web development"],
    "web development" := ["web dev"],
    "app dev" := ["app development", "mobile app development"],
    "app development" := ["app dev"],
    "js" := ["javascript"],
    "javascript" := ["js"],
    "ts" := ["typescript"],
    "typescript" := ["ts"],
    "cpp" := ["c++"],
    "c++" := ["cpp"],
    "react" := ["reactjs", "react.js"],
    "reactjs" := ["react"],
    "node" := ["nodejs", "node.js"],
    "nodejs" := ["node"],
    "ui/ux" := ["user interface", "user experience", "ui", "ux"],
    "ui" := ["ui/ux", "user interface"],
    "ux" := ["ui/ux", "user experience"],
    "py" := ["python"],
    "python" := ["py"]
  ]

}

/** Normalisation of a skill term, `term.strip().lower()`, and the strings
    it produces. */
module SkillNormal {
  import opened Common

  /** `skill.strip().lower()`. */
  function Normalize(s: string): string {
    Lower(PyStrip(s))
  }

  /** Lower-case with no surrounding whitespace: what normalisation yields. */
  predicate IsNormal(t: string) {
    (forall i :: 0 <= i < |t| ==> !('A' <= t[i] <= 'Z')) &&
    (t != [] ==> !IsPySpace(t[0]) && !IsPySpace(t[|t| - 1]))
  }

  lemma NormalFixed(t: string)
    requires IsNormal(t)
    ensures Normalize(t) == t
  {
    TrimOfTrimmed(t, IsPySpace);
  }

  lemma LowerCharFacts(c: char)
    ensures !('A' <= LowerChar(c) <= 'Z')
    ensures IsPySpace(LowerChar(c)) == IsPySpace(c)
  {
    if 'A' <= c <= 'Z' {
      assert 97 <= LowerChar(c) as int <= 122;
    }
  }

  /** Normalising yields a normal string, so normalising twice is normalising once. */
  lemma NormalizeIdempotent(s: string)
    ensures IsNormal(Normalize(s)) && Normalize(Normalize(s)) == Normalize(s)
  {
    var x := Normalize(s);
    var st := PyStrip(s);
    TrimFacts(s, IsPySpace);
    forall i | 0 <= i < |st| ensures !('A' <= x[i] <= 'Z') && IsPySpace(x[i]) == IsPySpace(st[i]) {
      LowerCharFacts(st[i]);
    }
    NormalFixed(x);
  }
}

/** The one-hop expansion of backend/utils/skills.py. */
module Skills {
  import opened Common
  import opened SkillTable
  import opened SkillNormal

  /** A synonym table shaped like SKILL_SYNONYMS; the functions below take it
      as a parameter and the route code passes SynonymTable. */
  type Table = map<string, seq<string>>

  /** The elements of a list, as a set. */
  function Elems(xs: seq<string>): set<string> {
    set x | x in xs
  }

  /** The synonyms listed under exactly `t`, or none when `t` is not a key. */
  function SynonymsOf(table: Table, t: string): set<string> {
    if t in table then Elems(table[t]) else {}
  }

  /** What one list entry adds: nothing when it is falsy, otherwise its
      normalised form and the synonyms listed under that form. */
  function Contribution(table: Table, skill: Option<string>): set<string> {
    if Truthy(skill) then {Normalize(skill.value)} + SynonymsOf(table, Normalize(skill.value)) else {}
  }

  /** The set `expand_skills` builds, entry by entry. */
  function Expanded(table: Table, skills: seq<Option<string>>): set<string> {
    if skills == [] then {}
    else Expanded(table, skills[..|skills| - 1]) + Contribution(table, skills[|skills| - 1])
  }

  /** expand_skills: the loop over the list, then `list(expanded)`. */
  method ExpandSkills(skills: seq<Option<string>>) returns (r: seq<string>)
    ensures forall i, j :: 0 <= i < j < |r| ==> r[i] != r[j]
    ensures forall t :: t in r <==> t in Expanded(SynonymTable, skills)
  {
    var expanded: set<string> := {};
    for i := 0 to |skills|
      invariant expanded == Expanded(SynonymTable, skills[..i])
    {
      assert skills[..i + 1][..i] == skills[..i];
      var skill := skills[i];
      if !Truthy(skill) {
        continue;
      }
      var lower := Normalize(skill.value);
      expanded := expanded + {lower};
      if lower in SynonymTable {
        expanded := expanded + set x | x in SynonymTable[lower];
      }
    }
    assert skills[..|skills|] == skills;
    r := ListOf(expanded);
  }

  /** Entry `i` yields `t`: it is truthy and normalises either to `t` itself or
      to a key of the table that lists `t`. */
  predicate Yields(table: Table, skill: Option<string>, t: string) {
    Truthy(skill) &&
    (t == Normalize(skill.value) || (Normalize(skill.value) in table && t in table[Normalize(skill.value)]))
  }

  lemma ContributionYields(table: Table, skill: Option<string>, t: string)
    ensures t in Contribution(table, skill) <==> Yields(table, skill, t)
  {
  }

  /** A term is in the expansion exactly when some entry yields it: the input
      itself or a listed synonym of it, one hop and never more. */
  lemma {:induction false} ExpandedMembers(table: Table, skills: seq<Option<string>>, t: string)
    ensures t in Expanded(table, skills) <==> exists i :: 0 <= i < |skills| && Yields(table, skills[i], t)
  {
    if skills != [] {
      var n := |skills| - 1;
      var prefix := skills[..n];
      ExpandedMembers(table, prefix, t);
      ContributionYields(table, skills[n], t);
      assert Expanded(table, skills) == Expanded(table, prefix) + Contribution(table, skills[n]);
      if t in Expanded(table, skills) {
        if t in Expanded(table, prefix) {
          var i :| 0 <= i < n && Yields(table, prefix[i], t);
          assert prefix[i] == skills[i];
        } else {
          assert Yields(table, skills[n], t);
        }
      } else {
        forall i | 0 <= i < |skills| ensures !Yields(table, skills[i], t) {
          if i < n {
            assert prefix[i] == skills[i];
          }
        }
      }
    }
  }

  /** Every truthy entry appears in the output, stripped and lower-cased. */
  lemma NormalizedInputsKept(table: Table, skills: seq<Option<string>>, i: nat)
    requires i < |skills| && Truthy(skills[i])
    ensures Normalize(skills[i].value) in Expanded(table, skills)
  {
    ExpandedMembers(table, skills, Normalize(skills[i].value));
  }

  /** A whitespace-only entry is truthy and contributes the empty string;
      None and "" contribute nothing. */
  lemma WhitespaceEntryGivesEmpty(table: Table)
    ensures "" in Expanded(table, [Some("  ")])
    ensures Expanded(table, [None, Some("")]) == {}
  {
    var s := [Some("  ")];
    assert Truthy(s[0]);
    assert PyStrip("  ") == "";
    NormalizedInputsKept(table, s, 0);
    var f := [None, Some("")];
    assert Expanded(table, f[..1]) == {};
  }

  /** Expansion is monotone in the entries present. */
  lemma ExpandMonotone(table: Table, a: seq<Option<string>>, b: seq<Option<string>>)
    requires forall i :: 0 <= i < |a| ==> a[i] in b
    ensures Expanded(table, a) <= Expanded(table, b)
  {
    forall t | t in Expanded(table, a) ensures t in Expanded(table, b) {
      ExpandedMembers(table, a, t);
      var i :| 0 <= i < |a| && Yields(table, a[i], t);
      var j :| 0 <= j < |b| && b[j] == a[i];
      ExpandedMembers(table, b, t);
    }
  }

}

/** all_known_terms of backend/utils/skills.py. */
module KnownTerms {
  import opened Common
  import opened SkillTable
  import opened SkillNormal
  import opened Skills

  // -------------------------------------------------------------------------
  // all_known_terms

  /** The terms the given keys contribute: each key and each synonym listed
      under it, stripped and lower-cased. */
  function TermsOf(table: Table, keys: set<string>): set<string>
    requires keys <= table.Keys
  {
    KeyTerms(keys) + ValueTerms(table, keys)
  }

  function KeyTerms(keys: set<string>): set<string> {
    set k | k in keys :: Normalize(k)
  }

  function ValueTerms(table: Table, keys: set<string>): set<string>
    requires keys <= table.Keys
  {
    set k, v | k in keys && v in table[k] :: Normalize(v)
  }

  /** The normalised elements of a list. */
  function NormalizedAll(xs: seq<string>): set<string> {
    set v | v in xs :: Normalize(v)
  }

  /** all_known_terms: the loop over the table's items. */
  method AllKnownTerms() returns (base: set<string>)
    ensures base == TermsOf(SynonymTable, SynonymTable.Keys)
  {
    base := KnownTermsOf(SynonymTable);
  }

  /** The loop of all_known_terms over any table. */
  method KnownTermsOf(table: Table) returns (base: set<string>)
    ensures base == TermsOf(table, table.Keys)
  {
    base := {};
    var todo := table.Keys;
    assert table.Keys - todo == {};
    while todo != {}
      invariant todo <= table.Keys
      invariant base == TermsOf(table, table.Keys - todo)
      decreases |todo|
    {
      var k :| k in todo;
      var done := table.Keys - todo;
      base := base + {Normalize(k)};
      base := AddNormalized(base, table[k]);
      TermsOfAdd(table, done, k);
      todo := todo - {k};
      assert table.Keys - todo == done + {k};
    }
  }

  /** The inner loop of all_known_terms: adds each listed synonym, normalised. */
  method AddNormalized(base: set<string>, vs: seq<string>) returns (r: set<string>)
    ensures r == base + NormalizedAll(vs)
  {
    r := base;
    for j := 0 to |vs|
      invariant r == base + NormalizedAll(vs[..j])
    {
      NormalizedAllSnoc(vs[..j], vs[j]);
      assert vs[..j + 1] == vs[..j] + [vs[j]];
      r := r + {Normalize(vs[j])};
    }
    assert vs[..|vs|] == vs;
  }

  lemma NormalizedAllSnoc(xs: seq<string>, x: string)
    ensures NormalizedAll(xs + [x]) == NormalizedAll(xs) + {Normalize(x)}
  {
    forall t ensures t in NormalizedAll(xs + [x]) <==> t in NormalizedAll(xs) + {Normalize(x)} {
      if t in NormalizedAll(xs + [x]) {
        var v :| v in xs + [x] && t == Normalize(v);
        if v != x {
          assert v in xs;
        }
      }
      if t in NormalizedAll(xs) {
        var v :| v in xs && t == Normalize(v);
        assert v in xs + [x];
      }
      assert x in xs + [x];
    }
  }

  /** Visiting one more key adds that key and the synonyms listed under it. */
  lemma TermsOfAdd(table: Table, done: set<string>, k: string)
    requires done <= table.Keys && k in table
    ensures TermsOf(table, done + {k}) == TermsOf(table, done) + {Normalize(k)} + NormalizedAll(table[k])
  {
    assert KeyTerms(done + {k}) == KeyTerms(done) + {Normalize(k)};
    forall t ensures t in ValueTerms(table, done + {k}) <==> t in ValueTerms(table, done) + NormalizedAll(table[k]) {
      if t in ValueTerms(table, done + {k}) {
        var k', v :| k' in done + {k} && v in table[k'] && t == Normalize(v);
        if k' != k {
          assert t in ValueTerms(table, done);
        } else {
          assert t in NormalizedAll(table[k]);
        }
      }
      if t in NormalizedAll(table[k]) {
        var v :| v in table[k] && t == Normalize(v);
        assert k in done + {k};
      }
      if t in ValueTerms(table, done) {
        var k', v :| k' in done && v in table[k'] && t == Normalize(v);
        assert k' in done + {k};
      }
    }
  }
}

/** Facts about the table SKILL_SYNONYMS itself and about tables written
    in normal form. */
module SkillFacts {
  import opened Common
  import opened SkillTable
  import opened SkillNormal
  import opened Skills
  import opened KnownTerms

  /** Every key and synonym is written in normal form. */
  predicate TableNormal(table: Table) {
    (forall k :: k in table ==> IsNormal(k)) &&
    (forall k, v :: k in table && v in table[k] ==> IsNormal(v))
  }

  /** For a table written in normal form, all_known_terms holds exactly the
      keys and the listed synonyms. */
  lemma KnownTermsExact(table: Table, t: string)
    requires TableNormal(table)
    ensures t in TermsOf(table, table.Keys) <==> t in table || exists k :: k in table && t in table[k]
  {
    if t in KeyTerms(table.Keys) {
      var k :| k in table && t == Normalize(k);
      NormalFixed(k);
    } else if t in ValueTerms(table, table.Keys) {
      var k, v :| k in table && v in table[k] && t == Normalize(v);
      NormalFixed(v);
    }
    if t in table {
      NormalFixed(t);
      assert Normalize(t) in KeyTerms(table.Keys);
    } else if exists k :: k in table && t in table[k] {
      var k :| k in table && t in table[k];
      NormalFixed(t);
      assert Normalize(t) in ValueTerms(table, table.Keys);
    }
  }

  /** Expanding known terms never leaves the known terms. */
  lemma ExpandStaysKnown(table: Table, skills: seq<Option<string>>)
    requires TableNormal(table)
    requires forall i :: 0 <= i < |skills| && skills[i].Some? ==> skills[i].value in TermsOf(table, table.Keys)
    ensures Expanded(table, skills) <= TermsOf(table, table.Keys)
  {
    forall t | t in Expanded(table, skills) ensures t in TermsOf(table, table.Keys) {
      ExpandedMembers(table, skills, t);
      var i :| 0 <= i < |skills| && Yields(table, skills[i], t);
      var v := skills[i].value;
      KnownTermsExact(table, v);
      NormalFixed(v);
      KnownTermsExact(table, t);
    }
  }

  // Each term written in SKILL_SYNONYMS, a few at a time.

  lemma TermsNormal1()
    ensures IsNormal("ai")
      && IsNormal("artificial intelligence")
      && IsNormal("ml")
      && IsNormal("machine learning")
      && IsNormal("ds")
      && IsNormal("data science")
  {
  }

  lemma TermsNormal2()
    ensures IsNormal("web dev")
      && IsNormal("web development")
      && IsNormal("app dev")
      && IsNormal("app development")
      && IsNormal("mobile app development")
      && IsNormal("js")
  {
  }

  lemma TermsNormal3()
    ensures IsNormal("javascript")
      && IsNormal("ts")
      && IsNormal("typescript")
      && IsNormal("cpp")
      && IsNormal("c++")
      && IsNormal("react")
  {
  }

  lemma TermsNormal4()
    ensures IsNormal("reactjs")
      && IsNormal("react.js")
      && IsNormal("node")
      && IsNormal("nodejs")
      && IsNormal("node.js")
      && IsNormal("ui/ux")
  {
  }

  lemma TermsNormal5()
    ensures IsNormal("user interface")
      && IsNormal("user experience")
      && IsNormal("ui")
      && IsNormal("ux")
      && IsNormal("py")
      && IsNormal("python")
  {
  }

  /** SKILL_SYNONYMS itself is written in normal form, so all_known_terms is
      exactly its keys and listed synonyms and expansion stays inside it. */
  lemma SynonymTableNormal()
    ensures TableNormal(SynonymTable)
  {
    SynonymKeysNormal();
    SynonymValuesNormal();
  }

  lemma SynonymKeysNormal()
    ensures forall k :: k in SynonymTable ==> IsNormal(k)
  {
    TermsNormal1(); TermsNormal2(); TermsNormal3(); TermsNormal4(); TermsNormal5();
  }

  lemma SynonymValuesNormal()
    ensures forall k, v :: k in SynonymTable && v in SynonymTable[k] ==> IsNormal(v)
  {
    TermsNormal1(); TermsNormal2(); TermsNormal3(); TermsNormal4(); TermsNormal5();
  }

  /** SKILL_SYNONYMS is not closed under lookup: these listed synonyms have no
      entry of their own. */
  lemma SynonymTableNotClosed()
    ensures "mobile app development" in SynonymTable["app dev"] && "mobile app development" !in SynonymTable
    ensures "react.js" in SynonymTable["react"] && "react.js" !in SynonymTable
    ensures "node.js" in SynonymTable["node"] && "node.js" !in SynonymTable
    ensures "user interface" in SynonymTable["ui"] && "user interface" !in SynonymTable
    ensures "user experience" in SynonymTable["ux"] && "user experience" !in SynonymTable
  {
  }

  /** Expanding "ui" gives "ui", "ui/ux" and "user interface"; expanding that
      result again adds "ux", so expansion is not idempotent. */
  lemma ExpandNotIdempotent(again: seq<Option<string>>)
    requires forall t :: t in Expanded(SynonymTable, [Some("ui")]) <==> Some(t) in again
    ensures Expanded(SynonymTable, [Some("ui")]) == {"ui", "ui/ux", "user interface"}
    ensures "ux" !in Expanded(SynonymTable, [Some("ui")])
    ensures "ux" in Expanded(SynonymTable, again)
  {
    var one := [Some("ui")];
    TermsNormal5();
    NormalFixed("ui");
    NormalFixed("ui/ux");
    assert SynonymTable["ui"] == ["ui/ux", "user interface"];
    forall t ensures t in Expanded(SynonymTable, one) <==> t in {"ui", "ui/ux", "user interface"} {
      ExpandedMembers(SynonymTable, one, t);
    }
    var j :| 0 <= j < |again| && again[j] == Some("ui/ux");
    assert "ux" in SynonymTable["ui/ux"];
    assert Yields(SynonymTable, again[j], "ux");
    ExpandedMembers(SynonymTable, again, "ux");
  }
}
