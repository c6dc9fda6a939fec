/** The `.env` updater of backend/utils/env_manager.py: the file's lines are
    indexed by key, then every update either rewrites its key's line in place
    or is appended as a new line. Reading and writing the file are left to
    the caller: a missing file is the empty line list. */
module EnvManager {
  import opened Common

  /** One `key=value` pair of the `updates` dictionary, in its iteration order. */
  type Update = (string, string)

  /** A line that defines a key: not blank, not a comment, holding '='. */
  predicate IsEntry(line: string) {
    PyStrip(line) != "" && !StartsWith(line, "#") && '=' in line
  }

  /** The text before the first '=', stripped. */
  function KeyOf(line: string): string {
    PyStrip(Split(line, '=')[0])
  }

  /** The line written for an update. */
  function Content(u: Update): string {
    u.0 + "=" + u.1 + "\n"
  }

  lemma ContentEndsWithNewline(u: Update)
    ensures EndsWith(Content(u), "\n")
  {
    var c := Content(u);
    assert c[|c| - 1..] == "\n";
  }

  // -------------------------------------------------------------------------
  // The key map

  /** The key-to-line-index map: each key names an entry line with that key. */
  function KeyMap(lines: seq<string>): (m: map<string, nat>)
    ensures forall k :: k in m ==> m[k] < |lines| && IsEntry(lines[m[k]]) && KeyOf(lines[m[k]]) == k
  {
    if lines == [] then map[]
    else
      var n := |lines| - 1;
      var m := KeyMap(lines[..n]);
      assert forall k :: k in m ==> lines[..n][m[k]] == lines[m[k]];
      if IsEntry(lines[n]) then m[KeyOf(lines[n]) := n] else m
  }

  /** Every entry line's key is in the map, and the map names the last line
      with that key: a repeated key is rewritten only at its last occurrence. */
  lemma {:induction false} KeyMapIsLastOccurrence(lines: seq<string>)
    ensures forall i :: 0 <= i < |lines| && IsEntry(lines[i]) ==>
      KeyOf(lines[i]) in KeyMap(lines) && i <= KeyMap(lines)[KeyOf(lines[i])]
  {
    if lines != [] {
      var n := |lines| - 1;
      var m := KeyMap(lines[..n]);
      var full := KeyMap(lines);
      assert full == if IsEntry(lines[n]) then m[KeyOf(lines[n]) := n] else m;
      KeyMapIsLastOccurrence(lines[..n]);
      forall i | 0 <= i < |lines| && IsEntry(lines[i])
        ensures KeyOf(lines[i]) in full && i <= full[KeyOf(lines[i])]
      {
        if i < n {
          assert lines[..n][i] == lines[i];
          var k := KeyOf(lines[i]);
          assert k in m && i <= m[k];
        }
      }
    }
  }

  /** Distinct keys have distinct lines. */
  lemma KeyMapInjective(lines: seq<string>, k1: string, k2: string)
    requires k1 in KeyMap(lines) && k2 in KeyMap(lines) && KeyMap(lines)[k1] == KeyMap(lines)[k2]
    ensures k1 == k2
  {
  }

  /** The first loop: index every entry line, later lines overriding earlier ones. */
  method BuildKeyMap(lines: seq<string>) returns (m: map<string, nat>)
    ensures m == KeyMap(lines)
  {
    m := map[];
    for idx := 0 to |lines|
      invariant m == KeyMap(lines[..idx])
    {
      assert lines[..idx + 1][..idx] == lines[..idx];
      if IsEntry(lines[idx]) {
        m := m[KeyOf(lines[idx]) := idx];
      }
    }
    assert lines[..|lines|] == lines;
  }

  // -------------------------------------------------------------------------
  // The update loop, step by step

  /** The line list together with the key map. */
  datatype Env = Env(lines: seq<string>, keys: map<string, nat>)

  predicate Indexed(e: Env) {
    forall k :: k in e.keys ==> e.keys[k] < |e.lines|
  }

  /** Give the last line its missing '\n'. */
  function FixLast(lines: seq<string>): (r: seq<string>)
    ensures |r| == |lines|
    ensures forall i :: 0 <= i < |lines| && (i != |lines| - 1 || EndsWith(lines[i], "\n")) ==> r[i] == lines[i]
    ensures lines != [] && !EndsWith(lines[|lines| - 1], "\n") ==> r[|lines| - 1] == lines[|lines| - 1] + "\n"
  {
    if lines != [] && !EndsWith(lines[|lines| - 1], "\n") then lines[|lines| - 1 := lines[|lines| - 1] + "\n"]
    else lines
  }

  /** One update: rewrite the indexed line, or append a line (after fixing
      the last line's newline) and index it. */
  function Step(e: Env, u: Update): (r: Env)
    requires Indexed(e)
    ensures Indexed(r)
  {
    if u.0 in e.keys then Env(e.lines[e.keys[u.0] := Content(u)], e.keys)
    else
      var l := FixLast(e.lines);
      Env(l + [Content(u)], e.keys[u.0 := |l|])
  }

  /** The updates applied in order. */
  function Fold(e: Env, us: seq<Update>): (r: Env)
    requires Indexed(e)
    ensures Indexed(r)
  {
    if us == [] then e else Step(Fold(e, us[..|us| - 1]), us[|us| - 1])
  }

  function Start(lines: seq<string>): (e: Env)
    ensures Indexed(e)
  {
    Env(lines, KeyMap(lines))
  }

  // -------------------------------------------------------------------------
  // What the updater promises

  /** A dictionary's keys are distinct. */
  ghost predicate DistinctKeys(us: seq<Update>) {
    forall i, j :: 0 <= i < j < |us| ==> us[i].0 != us[j].0
  }

  /** The lines appended for the updates whose key the file lacks, in order. */
  function NewLines(m0: map<string, nat>, us: seq<Update>): (r: seq<string>)
    ensures |r| <= |us|
    ensures forall i :: 0 <= i < |r| ==> EndsWith(r[i], "\n")
  {
    if us == [] then []
    else
      var u := us[|us| - 1];
      ContentEndsWithNewline(u);
      NewLines(m0, us[..|us| - 1]) + (if u.0 in m0 then [] else [Content(u)])
  }

  /** Line `i` of the file is the line of some update's key. */
  ghost predicate Targeted(m0: map<string, nat>, us: seq<Update>, i: nat) {
    exists j :: 0 <= j < |us| && us[j].0 in m0 && m0[us[j].0] == i
  }

  /** The map sends distinct keys to distinct lines of `file`. */
  ghost predicate IndexesInto(m0: map<string, nat>, file: seq<string>) {
    (forall k :: k in m0 ==> m0[k] < |file|) &&
    (forall k1, k2 :: k1 in m0 && k2 in m0 && k1 != k2 ==> m0[k1] != m0[k2])
  }

  /** A line targeted by some updates stays targeted when more follow. */
  lemma TargetedExtends(m0: map<string, nat>, p: seq<Update>, u: Update, i: nat)
    requires Targeted(m0, p, i)
    ensures Targeted(m0, p + [u], i)
  {
    var j :| 0 <= j < |p| && p[j].0 in m0 && m0[p[j].0] == i;
    assert (p + [u])[j] == p[j];
  }

  /** The result of the updates `us` on the lines `file` whose key map is
      `m0`: one appended line per new key, in order; each existing key's line
      holds its update; every other line is unchanged, except that a last
      line lacking '\n' gains one when something is appended. */
  ghost predicate UpdatedAs(file: seq<string>, m0: map<string, nat>, us: seq<Update>, r: seq<string>) {
    var added := NewLines(m0, us);
    |r| == |file| + |added| && r[|file|..] == added &&
    (forall j :: 0 <= j < |us| && us[j].0 in m0 && m0[us[j].0] < |r| ==> r[m0[us[j].0]] == Content(us[j])) &&
    (forall i :: 0 <= i < |file| && !Targeted(m0, us, i) ==>
       r[i] == if i == |file| - 1 && added != [] && !EndsWith(file[i], "\n") then file[i] + "\n" else file[i])
  }

  /** What the loop keeps: the lines are as promised, and the map holds the
      file's keys at their lines plus every key processed so far. */
  ghost predicate FoldInv(file: seq<string>, m0: map<string, nat>, us: seq<Update>, e: Env) {
    UpdatedAs(file, m0, us, e.lines) &&
    (forall k :: k in m0 ==> k in e.keys && e.keys[k] == m0[k]) &&
    (forall k :: k in e.keys ==> k in m0 || exists j :: 0 <= j < |us| && us[j].0 == k)
  }

  /** An update of a key the file has. */
  lemma StepReplace(file: seq<string>, m0: map<string, nat>, p: seq<Update>, u: Update, e: Env)
    requires IndexesInto(m0, file) && Indexed(e) && FoldInv(file, m0, p, e) && u.0 in m0
    requires forall j :: 0 <= j < |p| ==> p[j].0 != u.0
    ensures FoldInv(file, m0, p + [u], Step(e, u))
  {
    var us := p + [u];
    var r := Step(e, u).lines;
    assert NewLines(m0, us) == NewLines(m0, p) by {
      assert us[..|us| - 1] == p;
    }
    assert r[|file|..] == e.lines[|file|..];
    forall j | 0 <= j < |us| && us[j].0 in m0
      ensures r[m0[us[j].0]] == Content(us[j])
    {
      if j < |p| {
        assert us[j] == p[j];
      }
    }
    forall i | 0 <= i < |file| && !Targeted(m0, us, i)
      ensures !Targeted(m0, p, i) && i != m0[u.0]
    {
      assert us[|p|] == u;
    }
    forall k | k in Step(e, u).keys
      ensures k in m0 || exists j :: 0 <= j < |us| && us[j].0 == k
    {
      if k !in m0 {
        var j :| 0 <= j < |p| && p[j].0 == k;
        assert us[j] == p[j];
      }
    }
  }

  /** An append leaves the lines already rewritten alone. */
  lemma AppendKeepsReplacedLines(file: seq<string>, m0: map<string, nat>, p: seq<Update>, u: Update, e: Env)
    requires IndexesInto(m0, file) && Indexed(e) && UpdatedAs(file, m0, p, e.lines) && u.0 !in m0
    ensures var r := FixLast(e.lines) + [Content(u)];
      forall j :: 0 <= j < |p + [u]| && (p + [u])[j].0 in m0 ==> r[m0[(p + [u])[j].0]] == Content((p + [u])[j])
  {
    var us := p + [u];
    var r := FixLast(e.lines) + [Content(u)];
    forall j | 0 <= j < |us| && us[j].0 in m0
      ensures r[m0[us[j].0]] == Content(us[j])
    {
      assert j < |p| && us[j] == p[j];
      ContentEndsWithNewline(p[j]);
    }
  }

  /** An append leaves the untargeted lines of the file alone, but for the
      last line's newline. */
  lemma AppendKeepsOtherLines(file: seq<string>, m0: map<string, nat>, p: seq<Update>, u: Update, e: Env)
    requires Indexed(e) && UpdatedAs(file, m0, p, e.lines) && u.0 !in m0
    ensures var r := FixLast(e.lines) + [Content(u)];
      forall i :: 0 <= i < |file| && !Targeted(m0, p + [u], i) ==>
        r[i] == if i == |file| - 1 && !EndsWith(file[i], "\n") then file[i] + "\n" else file[i]
  {
    var us := p + [u];
    var added := NewLines(m0, p);
    forall i | 0 <= i < |file| && Targeted(m0, p, i)
      ensures Targeted(m0, us, i)
    {
      TargetedExtends(m0, p, u, i);
    }
    assert |e.lines| == |file| + |added|;
  }

  /** An update of a key the file lacks. */
  lemma StepAppend(file: seq<string>, m0: map<string, nat>, p: seq<Update>, u: Update, e: Env)
    requires IndexesInto(m0, file) && Indexed(e) && FoldInv(file, m0, p, e) && u.0 !in m0
    requires forall j :: 0 <= j < |p| ==> p[j].0 != u.0
    ensures FoldInv(file, m0, p + [u], Step(e, u))
  {
    var us := p + [u];
    var l := FixLast(e.lines);
    var r := Step(e, u).lines;
    var added := NewLines(m0, p);
    assert u.0 !in e.keys;
    assert r == l + [Content(u)];
    assert NewLines(m0, us) == added + [Content(u)] by {
      assert us[..|us| - 1] == p;
    }
    ContentEndsWithNewline(u);
    assert l[|file|..] == added by {
      if added != [] {
        assert e.lines[|e.lines| - 1] == added[|added| - 1];
      }
    }
    AppendKeepsReplacedLines(file, m0, p, u, e);
    AppendKeepsOtherLines(file, m0, p, u, e);
    forall k | k in Step(e, u).keys
      ensures k in m0 || exists j :: 0 <= j < |us| && us[j].0 == k
    {
      if k == u.0 {
        assert us[|p|] == u;
      } else if k !in m0 {
        var j :| 0 <= j < |p| && p[j].0 == k;
        assert us[j] == p[j];
      }
    }
  }

  /** Folding from a file and its map keeps the invariant (by induction on
      the updates). */
  lemma {:induction false} FoldKeepsInv(file: seq<string>, m0: map<string, nat>, us: seq<Update>)
    requires IndexesInto(m0, file) && DistinctKeys(us)
    ensures FoldInv(file, m0, us, Fold(Env(file, m0), us))
  {
    if us == [] {
      assert file[|file|..] == [];
    } else {
      var p := us[..|us| - 1];
      var u := us[|us| - 1];
      assert us == p + [u];
      FoldKeepsInv(file, m0, p);
      var e := Fold(Env(file, m0), p);
      if u.0 in m0 {
        StepReplace(file, m0, p, u, e);
      } else {
        StepAppend(file, m0, p, u, e);
      }
    }
  }

  /** update_env_file's promise: the result is `UpdatedAs` the file's lines. */
  lemma FoldSpec(file: seq<string>, us: seq<Update>)
    requires DistinctKeys(us)
    ensures UpdatedAs(file, KeyMap(file), us, Fold(Start(file), us).lines)
  {
    var m0 := KeyMap(file);
    forall k1, k2 | k1 in m0 && k2 in m0 && k1 != k2
      ensures m0[k1] != m0[k2]
    {
      if m0[k1] == m0[k2] {
        KeyMapInjective(file, k1, k2);
      }
    }
    FoldKeepsInv(file, m0, us);
  }

  /** A missing (empty) file ends up holding exactly the updates, in order. */
  lemma {:induction false} EmptyFileGetsAllUpdates(us: seq<Update>)
    ensures NewLines(KeyMap([]), us) == seq(|us|, i requires 0 <= i < |us| => Content(us[i]))
  {
    if us != [] {
      var p := us[..|us| - 1];
      EmptyFileGetsAllUpdates(p);
    }
  }

  /** update_env_file on the file's lines: the key-map loop, then the update
      loop that rewrites lines in place or appends them. */
  method UpdateEnvLines(lines: seq<string>, updates: seq<Update>) returns (r: seq<string>)
    requires DistinctKeys(updates)
    ensures r == Fold(Start(lines), updates).lines
    ensures UpdatedAs(lines, KeyMap(lines), updates, r)
  {
    var cur := lines;
    var keys: map<string, nat> := BuildKeyMap(lines);
    ghost var e0 := Start(lines);
    for j := 0 to |updates|
      invariant Indexed(Env(cur, keys))
      invariant Env(cur, keys) == Fold(e0, updates[..j])
    {
      assert updates[..j + 1][..j] == updates[..j];
      ghost var next := Step(Env(cur, keys), updates[j]);
      var (key, value) := updates[j];
      var content := Content((key, value));
      if key in keys {
        cur := cur[keys[key] := content];
      } else {
        if cur != [] && !EndsWith(cur[|cur| - 1], "\n") {
          cur := cur[|cur| - 1 := cur[|cur| - 1] + "\n"];
        }
        cur := cur + [content];
        keys := keys[key := |cur| - 1];
      }
      assert Env(cur, keys) == next;
    }
    assert updates[..|updates|] == updates;
    r := cur;
    FoldSpec(lines, updates);
  }
}
