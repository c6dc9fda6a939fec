/** Vocabulary shared by the route models: optional values (SQL NULL, a
    missing form field), the status column of the three request tables, the
    Python and JavaScript string operations the routes call (strip/trim,
    lower, split(','), SQL LIKE '%k%' read as substring containment), and
    order-preserving filters and counts over table rows. */
module Common {

  datatype Option<+T> = None | Some(value: T)

  /** ENUM('pending','accepted','rejected') of project_requests,
      collaboration_requests and join_requests; each defaults to pending. */
  datatype RequestStatus = Pending | Accepted | Rejected

  /** Python truthiness of an optional string: None and "" are falsy,
      everything else (whitespace included) is truthy. */
  predicate Truthy(s: Option<string>) {
    s.Some? && s.value != ""
  }

  /** SQL `col = value`: NULL on either side never compares equal. */
  predicate SqlEq<T(==)>(a: Option<T>, b: Option<T>) {
    a.Some? && b.Some? && a.value == b.value
  }

  // ---------------------------------------------------------------------
  // Characters

  /** The characters Python's str.strip() removes that lie in Latin-1. */
  predicate IsPySpace(c: char) {
    (9 <= c as int <= 13) || (28 <= c as int <= 32) || c as int == 0x85 || c as int == 0xA0
  }

  /** The characters JavaScript's String.prototype.trim() removes, as far as
      modelled: ASCII white space, NBSP, U+2028, U+2029 and the byte-order
      mark. */
  predicate IsJsSpace(c: char) {
    (9 <= c as int <= 13) || c as int == 32 || c as int == 0xA0 || c as int == 0x2028
    || c as int == 0x2029 || c as int == 0xFEFF
  }

  /** ASCII lower-casing, the part of str.lower()/toLowerCase() modelled here. */
  function LowerChar(c: char): char {
    if 'A' <= c <= 'Z' then (c as int + 32) as char else c
  }

  function Lower(s: string): (r: string)
    ensures |r| == |s|
    ensures forall i :: 0 <= i < |s| ==> r[i] == LowerChar(s[i])
  {
    seq(|s|, i requires 0 <= i < |s| => LowerChar(s[i]))
  }

  // ---------------------------------------------------------------------
  // Trimming

  /** Drops the longest prefix of `ws` characters. */
  function TrimLeft(s: string, ws: char -> bool): string
    decreases |s|
  {
    if s != [] && ws(s[0]) then TrimLeft(s[1..], ws) else s
  }

  /** Drops the longest suffix of `ws` characters. */
  function TrimRight(s: string, ws: char -> bool): string
    decreases |s|
  {
    if s != [] && ws(s[|s| - 1]) then TrimRight(s[..|s| - 1], ws) else s
  }

  /** What TrimLeft removes is a prefix of `ws` characters, and what it keeps
      does not start with one. */
  lemma {:induction false} TrimLeftFacts(s: string, ws: char -> bool)
    ensures var r := TrimLeft(s, ws);
      |r| <= |s| && r == s[|s| - |r|..] &&
      (forall k :: 0 <= k < |s| - |r| ==> ws(s[k])) &&
      (r != [] ==> !ws(r[0]))
    decreases |s|
  {
    if s != [] && ws(s[0]) {
      TrimLeftFacts(s[1..], ws);
    }
  }

  /** What TrimRight removes is a suffix of `ws` characters, and what it keeps
      does not end with one. */
  lemma {:induction false} TrimRightFacts(s: string, ws: char -> bool)
    ensures var r := TrimRight(s, ws);
      |r| <= |s| && r == s[..|r|] &&
      (forall k :: |r| <= k < |s| ==> ws(s[k])) &&
      (r != [] ==> !ws(r[|r| - 1]))
    decreases |s|
  {
    if s != [] && ws(s[|s| - 1]) {
      TrimRightFacts(s[..|s| - 1], ws);
    }
  }

  /** Both ends stripped. */
  function Trim(s: string, ws: char -> bool): string {
    TrimRight(TrimLeft(s, ws), ws)
  }

  /** The trimmed string has no `ws` character at either end, and it is
      empty exactly when every character is a `ws` character. */
  lemma TrimFacts(s: string, ws: char -> bool)
    ensures var r := Trim(s, ws);
      |r| <= |s| &&
      (r != [] ==> !ws(r[0]) && !ws(r[|r| - 1])) &&
      (r == [] <==> forall k :: 0 <= k < |s| ==> ws(s[k]))
  {
    var l := TrimLeft(s, ws);
    TrimLeftFacts(s, ws);
    TrimRightFacts(l, ws);
    var r := TrimRight(l, ws);
    if r != [] {
      assert r[0] == l[0];
    }
  }

  /** A string that starts and ends with a non-`ws` character is its own trim. */
  lemma TrimOfTrimmed(s: string, ws: char -> bool)
    requires s != [] ==> !ws(s[0]) && !ws(s[|s| - 1])
    ensures Trim(s, ws) == s
  {
  }

  /** Python's str.strip(). */
  function PyStrip(s: string): string {
    Trim(s, IsPySpace)
  }

  /** JavaScript's String.prototype.trim(). */
  function JsTrim(s: string): string {
    Trim(s, IsJsSpace)
  }

  // ---------------------------------------------------------------------
  // Collation

  /** The pad character of a PAD SPACE collation. */
  predicate IsPadSpace(c: char) {
    c == ' '
  }

  /** The part of utf8mb4_unicode_ci's `=` modelled here: trailing spaces are
      ignored (PAD SPACE) and ASCII letters compare without case. */
  predicate CollationEq(a: string, b: string) {
    Lower(TrimRight(a, IsPadSpace)) == Lower(TrimRight(b, IsPadSpace))
  }

  /** SQL `col = value` on a text column: NULL never compares equal, and two
      strings compare under the collation. */
  predicate SqlTextEq(a: Option<string>, b: Option<string>) {
    a.Some? && b.Some? && CollationEq(a.value, b.value)
  }

  /** A text equals '' under the collation exactly when it is all spaces. */
  lemma {:induction false} CollationEqEmpty(s: string)
    ensures CollationEq(s, "") <==> forall k :: 0 <= k < |s| ==> s[k] == ' '
  {
    TrimRightFacts(s, IsPadSpace);
    assert TrimRight("", IsPadSpace) == "";
    var t := TrimRight(s, IsPadSpace);
    if t != [] {
      assert !IsPadSpace(s[|t| - 1]);
    }
  }

  // ---------------------------------------------------------------------
  // Splitting, joining, searching

  /** `sep.join(ps)`. */
  function Join(ps: seq<string>, sep: char): string {
    if |ps| == 0 then ""
    else if |ps| == 1 then ps[0]
    else ps[0] + [sep] + Join(ps[1..], sep)
  }

  /** Python's `s.split(sep)` for a one-character separator: never empty, the
      pieces hold no separator, and joining them back gives `s`. */
  function Split(s: string, sep: char): (r: seq<string>)
    ensures |r| >= 1
    ensures forall i :: 0 <= i < |r| ==> sep !in r[i]
    ensures Join(r, sep) == s
    decreases |s|
  {
    if |s| == 0 then [""]
    else
      var rest := Split(s[1..], sep);
      if s[0] == sep then
        assert [sep] + Join(rest, sep) == s;
        [""] + rest
      else
        var r := [[s[0]] + rest[0]] + rest[1..];
        assert Join(r, sep) == [s[0]] + Join(rest, sep) by {
          if |rest| > 1 {
            assert r[1..] == rest[1..];
          }
        }
        r
  }

  /** `[p.strip() for p in ps]`. */
  function StripAll(ps: seq<string>): (r: seq<string>)
    ensures |r| == |ps| && forall i :: 0 <= i < |ps| ==> r[i] == PyStrip(ps[i])
  {
    seq(|ps|, i requires 0 <= i < |ps| => PyStrip(ps[i]))
  }

  /** `[p.strip() for p in ps if p.strip()]`: the stripped pieces that are not
      empty, in order. */
  function NonEmptyStripped(ps: seq<string>): (r: seq<string>)
    ensures forall i :: 0 <= i < |r| ==> r[i] != ""
    ensures forall i :: 0 <= i < |ps| && PyStrip(ps[i]) != "" ==> PyStrip(ps[i]) in r
    ensures forall x :: x in r ==> exists i :: 0 <= i < |ps| && PyStrip(ps[i]) == x
    ensures forall x :: x in r <==> x != "" && exists i :: 0 <= i < |ps| && PyStrip(ps[i]) == x
  {
    if ps == [] then []
    else
      var rest := NonEmptyStripped(ps[1..]);
      assert forall x :: x in rest ==> exists i :: 0 <= i < |ps| && PyStrip(ps[i]) == x by {
        forall x | x in rest ensures exists i :: 0 <= i < |ps| && PyStrip(ps[i]) == x {
          var j :| 0 <= j < |ps[1..]| && PyStrip(ps[1..][j]) == x;
          assert PyStrip(ps[j + 1]) == x;
        }
      }
      (if PyStrip(ps[0]) != "" then [PyStrip(ps[0])] else []) + rest
  }

  predicate StartsWith(s: string, prefix: string) {
    |prefix| <= |s| && s[..|prefix|] == prefix
  }

  predicate EndsWith(s: string, suffix: string) {
    |suffix| <= |s| && s[|s| - |suffix|..] == suffix
  }

  /** `needle` occurs somewhere in `hay` (JavaScript's includes, SQL LIKE
      '%needle%' without wildcards inside the needle). */
  predicate Contains(hay: string, needle: string)
    decreases |hay|
  {
    StartsWith(hay, needle) || (hay != [] && Contains(hay[1..], needle))
  }

  /** SQL `col LIKE '%k%'`: a NULL column never matches. */
  predicate LikeMatch(col: Option<string>, k: string) {
    col.Some? && Contains(col.value, k)
  }

  lemma ContainsEmpty(hay: string)
    ensures Contains(hay, "")
  {
    assert StartsWith(hay, "");
  }

  // ---------------------------------------------------------------------
  // Order-preserving filters and counts

  /** The elements of `s` satisfying `p`, in their original order. */
  function Filter<T>(s: seq<T>, p: T -> bool): (r: seq<T>)
    ensures |r| <= |s|
    ensures forall i :: 0 <= i < |r| ==> r[i] in s && p(r[i])
    ensures forall i :: 0 <= i < |s| && p(s[i]) ==> s[i] in r
  {
    if s == [] then [] else (if p(s[0]) then [s[0]] else []) + Filter(s[1..], p)
  }

  lemma {:induction false} FilterAppend<T>(a: seq<T>, b: seq<T>, p: T -> bool)
    ensures Filter(a + b, p) == Filter(a, p) + Filter(b, p)
  {
    if a != [] {
      var head := if p(a[0]) then [a[0]] else [];
      assert (a + b)[0] == a[0] && (a + b)[1..] == a[1..] + b;
      FilterAppend(a[1..], b, p);
      calc {
        Filter(a + b, p);
        head + Filter(a[1..] + b, p);
        head + (Filter(a[1..], p) + Filter(b, p));
        (head + Filter(a[1..], p)) + Filter(b, p);
      }
    } else {
      assert a + b == b;
    }
  }

  /** `a` can be obtained from `b` by deleting elements. */
  ghost predicate IsSubsequence<T>(a: seq<T>, b: seq<T>)
    decreases |b|
  {
    a == [] || (b != [] && (if a[0] == b[0] then IsSubsequence(a[1..], b[1..]) else IsSubsequence(a, b[1..])))
  }

  lemma {:induction false} FilterIsSubsequence<T>(s: seq<T>, p: T -> bool)
    ensures IsSubsequence(Filter(s, p), s)
  {
    if s != [] {
      FilterIsSubsequence(s[1..], p);
      var f := Filter(s, p);
      if p(s[0]) {
        assert f[0] == s[0] && f[1..] == Filter(s[1..], p);
      } else {
        assert f == Filter(s[1..], p);
        SubsequenceSkip(f, s);
      }
    }
  }

  /** Dropping the head of `b` keeps a subsequence that did not use it. */
  lemma {:induction false} SubsequenceSkip<T>(a: seq<T>, b: seq<T>)
    requires b != [] && IsSubsequence(a, b[1..])
    ensures IsSubsequence(a, b)
    decreases |b|
  {
    if a != [] && a[0] == b[0] {
      SubsequenceTail(a, b[1..]);
      if |b| > 1 {
        SubsequenceSkip(a[1..], b[1..]);
      }
    }
  }

  /** A subsequence's tail is a subsequence of the tail of any list it fits in. */
  lemma {:induction false} SubsequenceTail<T>(a: seq<T>, b: seq<T>)
    requires a != [] && IsSubsequence(a, b)
    ensures IsSubsequence(a[1..], b[1..])
    decreases |b|
  {
    if a[0] != b[0] {
      SubsequenceTail(a, b[1..]);
      SubsequenceSkip(a[1..], b[1..]);
    }
  }

  /** Number of elements of `s` satisfying `p`. */
  function Count<T>(s: seq<T>, p: T -> bool): (n: nat)
    ensures n <= |s|
  {
    if s == [] then 0 else (if p(s[0]) then 1 else 0) + Count(s[1..], p)
  }

  lemma {:induction false} CountAppend<T>(a: seq<T>, x: T, p: T -> bool)
    ensures Count(a + [x], p) == Count(a, p) + (if p(x) then 1 else 0)
  {
    if a != [] {
      assert (a + [x])[1..] == a[1..] + [x];
      CountAppend(a[1..], x, p);
    }
  }

  /** Counts add up over a concatenation. */
  lemma {:induction false} CountConcat<T>(a: seq<T>, b: seq<T>, p: T -> bool)
    ensures Count(a + b, p) == Count(a, p) + Count(b, p)
  {
    if a == [] {
      assert a + b == b;
    } else {
      assert (a + b)[0] == a[0] && (a + b)[1..] == a[1..] + b;
      CountConcat(a[1..], b, p);
    }
  }

  /** Everything is counted when every element satisfies `p`. */
  lemma {:induction false} CountAll<T>(s: seq<T>, p: T -> bool)
    requires forall i :: 0 <= i < |s| ==> p(s[i])
    ensures Count(s, p) == |s|
  {
    if s != [] {
      CountAll(s[1..], p);
    }
  }

  /** Nothing is counted when no element satisfies `p`. */
  lemma {:induction false} CountNone<T>(s: seq<T>, p: T -> bool)
    requires forall i :: 0 <= i < |s| ==> !p(s[i])
    ensures Count(s, p) == 0
  {
    if s != [] {
      CountNone(s[1..], p);
    }
  }

  /** Overwriting one row changes a count by what the old and new row contribute. */
  lemma {:induction false} CountUpdate<T>(s: seq<T>, i: nat, v: T, p: T -> bool)
    requires i < |s|
    ensures Count(s[i := v], p) == Count(s, p) - (if p(s[i]) then 1 else 0) + (if p(v) then 1 else 0)
  {
    if i > 0 {
      assert s[i := v][1..] == s[1..][i - 1 := v];
      CountUpdate(s[1..], i - 1, v, p);
    } else {
      assert s[i := v][1..] == s[1..];
    }
  }

  /** Rows that `p` and `q` agree on are counted alike. */
  lemma {:induction false} CountCongruent<T>(s: seq<T>, p: T -> bool, q: T -> bool)
    requires forall i :: 0 <= i < |s| ==> p(s[i]) == q(s[i])
    ensures Count(s, p) == Count(s, q)
  {
    if s != [] {
      CountCongruent(s[1..], p, q);
    }
  }

  /** The positions 0..n-1, in order. */
  function Range(n: nat): (r: seq<nat>)
    ensures |r| == n && forall i :: 0 <= i < n ==> r[i] == i
  {
    seq(n, i requires 0 <= i < n => i)
  }

  /** Python's `list(s)` for a set: every element once, in some order. */
  method ListOf<T>(s: set<T>) returns (r: seq<T>)
    ensures forall i, j :: 0 <= i < j < |r| ==> r[i] != r[j]
    ensures forall t :: t in r <==> t in s
  {
    r := [];
    var rest := s;
    while rest != {}
      invariant rest <= s
      invariant forall t :: t in r <==> t in s && t !in rest
      invariant forall i, j :: 0 <= i < j < |r| ==> r[i] != r[j]
      decreases |rest|
    {
      var x :| x in rest;
      r := r + [x];
      rest := rest - {x};
    }
  }

  /** A row id of a table: AUTO_INCREMENT ids start at 1 and rows are never
      deleted by the code modelled, so the row with id `id` is `table[id - 1]`. */
  predicate HasId<T>(table: seq<T>, id: nat) {
    1 <= id <= |table|
  }
}
