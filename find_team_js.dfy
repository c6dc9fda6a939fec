/** The filter panel of the Find Team page (backend/static/js/find_team.js):
    Apply shows the cards that pass the year, branch and domain tests, sorts
    them by year or puts them back in their original order, and moves them
    to the end of the container; Clear resets the panel and shows every card
    in its original order. Cards are named by their original index. */
module FindTeamJs {
  import opened Common

  /** A `.request-card`'s data attributes; an absent attribute is None. */
  datatype Card = Card(year: Option<string>, branch: Option<string>, domain: Option<string>)

  /** What Apply reads from the panel. */
  datatype Criteria = Criteria(years: seq<string>, branchText: string, domainText: string)

  /** `(card.dataset.x || '')`. */
  function Attr(a: Option<string>): string {
    if a.Some? then a.value else ""
  }

  /** The checked year values and the trimmed, lower-cased search texts. */
  function CriteriaOf(checkedYears: seq<string>, branchInput: string, domainInput: string): Criteria {
    Criteria(checkedYears, Lower(JsTrim(branchInput)), Lower(JsTrim(domainInput)))
  }

  /** A card passes when each criterion that is set holds. */
  predicate Visible(c: Card, crit: Criteria) {
    (|crit.years| > 0 ==> Attr(c.year) in crit.years) &&
    (crit.branchText != "" ==> Contains(Lower(Attr(c.branch)), crit.branchText)) &&
    (crit.domainText != "" ==> Contains(Lower(Attr(c.domain)), crit.domainText))
  }

  /** The per-card body of applyFilters: `ok` narrowed by each criterion set. */
  method TestCard(c: Card, crit: Criteria) returns (ok: bool)
    ensures ok == Visible(c, crit)
  {
    var year := Attr(c.year);
    var branch := Lower(Attr(c.branch));
    var domain := Lower(Attr(c.domain));
    ok := true;
    if |crit.years| > 0 {
      ok := ok && year in crit.years;
    }
    if crit.branchText != "" {
      ok := ok && Contains(branch, crit.branchText);
    }
    if crit.domainText != "" {
      ok := ok && Contains(domain, crit.domainText);
    }
  }

  /** With no year checked and blank search boxes every card passes; with
      only a year set, exactly the cards of the checked years pass. */
  lemma NoCriteriaShowsAll(c: Card, checkedYears: seq<string>, branchInput: string, domainInput: string)
    requires JsTrim(branchInput) == "" && JsTrim(domainInput) == ""
    ensures checkedYears == [] ==> Visible(c, CriteriaOf(checkedYears, branchInput, domainInput))
    ensures Visible(c, CriteriaOf(checkedYears, branchInput, domainInput)) <==>
            checkedYears == [] || Attr(c.year) in checkedYears
  {
  }

  /** Typing more of a search text never shows a card that was hidden. */
  lemma LongerTextShowsFewer(c: Card, crit: Criteria, more: string)
    requires Visible(c, crit.(branchText := crit.branchText + more))
    ensures Visible(c, crit)
  {
    if crit.branchText != "" {
      var hay := Lower(Attr(c.branch));
      ContainsPrefix(hay, crit.branchText, more);
    }
  }

  lemma {:induction false} ContainsPrefix(hay: string, needle: string, more: string)
    requires Contains(hay, needle + more)
    ensures Contains(hay, needle)
    decreases |hay|
  {
    if StartsWith(hay, needle + more) {
      assert hay[..|needle|] == (needle + more)[..|needle|] == needle;
    } else {
      ContainsPrefix(hay[1..], needle, more);
    }
  }

  // -------------------------------------------------------------------------
  // parseInt(x) || 0

  /** The value of a digit in radix up to 36; 36 for anything else. */
  function DigitValue(c: char): nat {
    if '0' <= c <= '9' then c as int - '0' as int
    else if 'a' <= c <= 'z' then c as int - 'a' as int + 10
    else if 'A' <= c <= 'Z' then c as int - 'A' as int + 10
    else 36
  }

  predicate IsDecimalDigit(c: char) {
    '0' <= c <= '9'
  }

  /** The longest prefix of digits in `radix`. */
  function DigitPrefix(s: string, radix: nat): (r: string)
    ensures |r| <= |s| && r == s[..|r|]
    ensures forall i :: 0 <= i < |r| ==> DigitValue(r[i]) < radix
    ensures |r| < |s| ==> DigitValue(s[|r|]) >= radix
  {
    if s != [] && DigitValue(s[0]) < radix then [s[0]] + DigitPrefix(s[1..], radix) else []
  }

  /** The number the digits denote in `radix`. */
  function DigitsValue(ds: string, radix: nat): nat {
    if ds == [] then 0 else DigitsValue(ds[..|ds| - 1], radix) * radix + DigitValue(ds[|ds| - 1])
  }

  /** parseInt after the sign: "0x"/"0X" selects radix 16, then the
      longest run of digits counts; no digits (NaN) gives 0. */
  function UnsignedValue(u: string): nat {
    if StartsWith(u, "0x") || StartsWith(u, "0X") then DigitsValue(DigitPrefix(u[2..], 16), 16)
    else DigitsValue(DigitPrefix(u, 10), 10)
  }

  /** parseInt after the leading white space: an optional sign. */
  function SignedValue(t: string): int {
    if t != [] && t[0] == '-' then -(UnsignedValue(t[1..]) as int)
    else if t != [] && t[0] == '+' then UnsignedValue(t[1..])
    else UnsignedValue(t)
  }

  /** `parseInt(x) || 0` without a radix: leading white space is skipped; an
      undefined attribute and text without digits are NaN, and NaN and -0
      both become 0. */
  function ParseIntOr0(x: Option<string>): int {
    if x.None? then 0 else SignedValue(TrimLeft(x.value, IsJsSpace))
  }

  /** Decimal digits followed by text that does not continue the number
      parse as their value. */
  lemma UnsignedDecimal(d: string, rest: string)
    requires d != [] && forall i :: 0 <= i < |d| ==> IsDecimalDigit(d[i])
    requires rest == [] || (!IsDecimalDigit(rest[0]) && rest[0] != 'x' && rest[0] != 'X')
    ensures UnsignedValue(d + rest) == DigitsValue(d, 10)
  {
    var s := d + rest;
    DigitPrefixOfDigits(d, rest);
    assert !StartsWith(s, "0x") && !StartsWith(s, "0X") by {
      if |s| >= 2 {
        assert s[..2][1] == s[1];
        if |d| == 1 {
          assert s[1] == rest[0];
        } else {
          assert s[1] == d[1];
        }
      }
    }
  }

  /** Text that does not start with white space is not trimmed. */
  lemma NothingToSkip(s: string)
    requires s != [] && !IsJsSpace(s[0])
    ensures TrimLeft(s, IsJsSpace) == s
  {
  }

  /** A sign in front negates or keeps the number. */
  lemma SignedDigits(sign: char, s: string)
    requires sign == '-' || sign == '+'
    ensures ParseIntOr0(Some([sign] + s)) == if sign == '-' then -(UnsignedValue(s) as int) else UnsignedValue(s)
  {
    var t := [sign] + s;
    NothingToSkip(t);
    assert t[0] == sign && t[1..] == s;
  }

  /** A year like "3" or "2nd" sorts by the number it starts with. */
  lemma ParseDecimal(d: string, rest: string)
    requires d != [] && forall i :: 0 <= i < |d| ==> IsDecimalDigit(d[i])
    requires rest == [] || (!IsDecimalDigit(rest[0]) && rest[0] != 'x' && rest[0] != 'X')
    ensures ParseIntOr0(Some(d + rest)) == DigitsValue(d, 10)
  {
    var s := d + rest;
    UnsignedDecimal(d, rest);
    assert s[0] == d[0];
    NothingToSkip(s);
  }

  lemma {:induction false} DigitPrefixOfDigits(d: string, rest: string)
    requires forall i :: 0 <= i < |d| ==> IsDecimalDigit(d[i])
    requires rest == [] || !IsDecimalDigit(rest[0])
    ensures DigitPrefix(d + rest, 10) == d
  {
    if d == [] {
      assert d + rest == rest;
    } else {
      assert (d + rest)[1..] == d[1..] + rest;
      DigitPrefixOfDigits(d[1..], rest);
    }
  }

  /** Text that starts with neither white space, a sign nor a digit counts as 0. */
  lemma NonNumericIsZero(s: string)
    requires s != [] && !IsJsSpace(s[0]) && !IsDecimalDigit(s[0]) && s[0] != '-' && s[0] != '+'
    ensures ParseIntOr0(Some(s)) == 0
  {
    assert TrimLeft(s, IsJsSpace) == s;
    assert !StartsWith(s, "0x") && !StartsWith(s, "0X") by {
      if |s| >= 2 {
        assert s[..2][0] == s[0];
      }
    }
  }

  /** The number a card's year sorts by. */
  function YearNumber(c: Card): int {
    ParseIntOr0(c.year)
  }

  // -------------------------------------------------------------------------
  // The sort

  /** `a` goes before `b`: a smaller key, or an equal key and an earlier
      original position (Array.prototype.sort is stable and its input is in
      original order). */
  predicate Precedes(key: nat -> int, a: nat, b: nat) {
    key(a) < key(b) || (key(a) == key(b) && a < b)
  }

  predicate Ranked(s: seq<nat>, key: nat -> int) {
    forall i, j :: 0 <= i < j < |s| ==> Precedes(key, s[i], s[j])
  }

  predicate Increasing(s: seq<nat>) {
    forall i, j :: 0 <= i < j < |s| ==> s[i] < s[j]
  }

  /** The key each sort order compares: the parsed year, its negation, or
      the original index. */
  function SortKey(cards: seq<Card>, sortValue: string): nat -> int {
    if sortValue == "year-asc" then (i: nat) => if i < |cards| then YearNumber(cards[i]) else 0
    else if sortValue == "year-desc" then (i: nat) => if i < |cards| then -YearNumber(cards[i]) else 0
    else (i: nat) => i
  }

  function Insert(x: nat, s: seq<nat>, key: nat -> int): seq<nat> {
    if s == [] || Precedes(key, x, s[0]) then [x] + s else [s[0]] + Insert(x, s[1..], key)
  }

  /** The sorted order. */
  function SortBy(s: seq<nat>, key: nat -> int): seq<nat> {
    if s == [] then [] else Insert(s[0], SortBy(s[1..], key), key)
  }

  predicate PrecedesAll(key: nat -> int, x: nat, s: seq<nat>) {
    forall i :: 0 <= i < |s| ==> Precedes(key, x, s[i])
  }

  lemma RankedCons(x: nat, s: seq<nat>, key: nat -> int)
    requires Ranked(s, key) && PrecedesAll(key, x, s)
    ensures Ranked([x] + s, key)
  {
    var f := [x] + s;
    forall a, b | 0 <= a < b < |f| ensures Precedes(key, f[a], f[b]) {
      if a > 0 {
        assert f[a] == s[a - 1];
      }
    }
  }

  lemma RankedTail(s: seq<nat>, key: nat -> int)
    requires Ranked(s, key) && s != []
    ensures Ranked(s[1..], key) && PrecedesAll(key, s[0], s[1..])
  {
  }

  lemma {:induction false} InsertMembers(x: nat, s: seq<nat>, key: nat -> int)
    ensures multiset(Insert(x, s, key)) == multiset(s) + multiset{x}
    ensures forall y :: y in Insert(x, s, key) <==> y == x || y in s
  {
    if s != [] && !Precedes(key, x, s[0]) {
      InsertMembers(x, s[1..], key);
      assert s == [s[0]] + s[1..];
    }
  }

  lemma {:induction false} InsertSpec(x: nat, s: seq<nat>, key: nat -> int)
    requires Ranked(s, key) && x !in s
    ensures multiset(Insert(x, s, key)) == multiset(s) + multiset{x}
    ensures Ranked(Insert(x, s, key), key)
  {
    InsertMembers(x, s, key);
    if s == [] {
    } else if Precedes(key, x, s[0]) {
      RankedTail(s, key);
      RankedCons(x, s, key);
    } else {
      var t := s[1..];
      RankedTail(s, key);
      InsertSpec(x, t, key);
      var r := Insert(x, t, key);
      InsertMembers(x, t, key);
      forall j | 0 <= j < |r| ensures Precedes(key, s[0], r[j]) {
        assert r[j] in r;
      }
      RankedCons(s[0], r, key);
    }
  }

  /** The sort permutes its input into ranked order. */
  lemma {:induction false} SortBySpec(s: seq<nat>, key: nat -> int)
    requires forall i, j :: 0 <= i < j < |s| ==> s[i] != s[j]
    ensures multiset(SortBy(s, key)) == multiset(s)
    ensures Ranked(SortBy(s, key), key)
  {
    if s != [] {
      var t := s[1..];
      assert s == [s[0]] + t;
      SortBySpec(t, key);
      assert s[0] !in multiset(SortBy(t, key));
      InsertSpec(s[0], SortBy(t, key), key);
    }
  }

  lemma MultisetTail(a: seq<nat>, b: seq<nat>)
    requires a != [] && b != [] && a[0] == b[0] && multiset(a) == multiset(b)
    ensures multiset(a[1..]) == multiset(b[1..])
  {
    assert a == [a[0]] + a[1..] && b == [b[0]] + b[1..];
    assert multiset(a) == multiset{a[0]} + multiset(a[1..]);
    assert multiset(b) == multiset{a[0]} + multiset(b[1..]);
    assert multiset(a[1..]) == multiset(a) - multiset{a[0]};
  }

  /** Ranked orders of the same cards start with the same card. */
  lemma SameHead(a: seq<nat>, b: seq<nat>, key: nat -> int)
    requires Ranked(a, key) && Ranked(b, key) && multiset(a) == multiset(b) && a != []
    ensures b != [] && a[0] == b[0]
  {
    assert a[0] in multiset(b);
    assert b[0] in multiset(a);
    var k :| 0 <= k < |b| && b[k] == a[0];
    var m :| 0 <= m < |a| && a[m] == b[0];
  }

  /** Two ranked orders of the same cards are the same order: any stable
      sort gives `SortBy`'s result. */
  lemma {:induction false} RankedUnique(a: seq<nat>, b: seq<nat>, key: nat -> int)
    requires Ranked(a, key) && Ranked(b, key) && multiset(a) == multiset(b)
    ensures a == b
  {
    if a == [] {
      assert |b| == |multiset(b)| == 0;
    } else {
      SameHead(a, b, key);
      MultisetTail(a, b);
      RankedTail(a, key);
      RankedTail(b, key);
      RankedUnique(a[1..], b[1..], key);
      assert a == [a[0]] + a[1..] && b == [b[0]] + b[1..];
    }
  }

  /** An increasing list is already in original order. */
  lemma RestoreKeepsOrder(s: seq<nat>, cards: seq<Card>, sortValue: string)
    requires Increasing(s) && sortValue != "year-asc" && sortValue != "year-desc"
    ensures SortBy(s, SortKey(cards, sortValue)) == s
  {
    var key := SortKey(cards, sortValue);
    SortBySpec(s, key);
    RankedUnique(SortBy(s, key), s, key);
  }

  // -------------------------------------------------------------------------
  // Apply

  /** The indices below `n` of the cards that pass, in original order. */
  function VisibleUpTo(cards: seq<Card>, crit: Criteria, n: nat): seq<nat>
    requires n <= |cards|
  {
    if n == 0 then []
    else VisibleUpTo(cards, crit, n - 1) + (if Visible(cards[n - 1], crit) then [n - 1] else [])
  }

  function VisibleIds(cards: seq<Card>, crit: Criteria): seq<nat> {
    VisibleUpTo(cards, crit, |cards|)
  }

  lemma {:induction false} VisibleUpToMembers(cards: seq<Card>, crit: Criteria, n: nat)
    requires n <= |cards|
    ensures forall i: nat :: i in VisibleUpTo(cards, crit, n) <==> i < n && Visible(cards[i], crit)
  {
    if n > 0 {
      VisibleUpToMembers(cards, crit, n - 1);
    }
  }

  lemma {:induction false} VisibleUpToSpec(cards: seq<Card>, crit: Criteria, n: nat)
    requires n <= |cards|
    ensures var r := VisibleUpTo(cards, crit, n);
      Increasing(r) && forall i :: 0 <= i < |r| ==> r[i] < n
  {
    if n > 0 {
      VisibleUpToSpec(cards, crit, n - 1);
      var prev := VisibleUpTo(cards, crit, n - 1);
      if Visible(cards[n - 1], crit) {
        var f := prev + [n - 1];
        forall a, b | 0 <= a < b < |f| ensures f[a] < f[b] {
          assert f[a] == prev[a];
          if b < |prev| {
            assert f[b] == prev[b];
          }
        }
      }
    }
  }

  /** The cards Apply moves to the end, in the order it moves them. */
  function Arranged(cards: seq<Card>, crit: Criteria, sortValue: string): seq<nat> {
    SortBy(VisibleIds(cards, crit), SortKey(cards, sortValue))
  }

  /** The cards Apply sorts are the passing ones, each once, in original order. */
  lemma VisibleIdsSpec(cards: seq<Card>, crit: Criteria)
    ensures var ids := VisibleIds(cards, crit);
      Increasing(ids) && forall i: nat :: i in ids <==> i < |cards| && Visible(cards[i], crit)
  {
    VisibleUpToSpec(cards, crit, |cards|);
    VisibleUpToMembers(cards, crit, |cards|);
  }

  /** Exactly the cards that pass are arranged, each once, ranked by the
      chosen key. */
  lemma ArrangedSpec(cards: seq<Card>, crit: Criteria, sortValue: string)
    ensures var r := Arranged(cards, crit, sortValue);
      (forall i: nat :: i in r <==> i < |cards| && Visible(cards[i], crit)) &&
      (forall a :: 0 <= a < |r| ==> r[a] < |cards|) &&
      (forall a, b :: 0 <= a < b < |r| ==> r[a] != r[b]) &&
      Ranked(r, SortKey(cards, sortValue))
  {
    var ids := VisibleIds(cards, crit);
    var key := SortKey(cards, sortValue);
    VisibleIdsSpec(cards, crit);
    SortBySpec(ids, key);
    var r := SortBy(ids, key);
    forall i: nat ensures i in r <==> i in ids {
      assert i in r <==> i in multiset(r);
    }
    forall a | 0 <= a < |r| ensures r[a] < |cards| {
      assert r[a] in r;
    }
    forall a, b | 0 <= a < b < |r| ensures r[a] != r[b] {
      assert Precedes(key, r[a], r[b]);
    }
  }

  /** With 'year-asc' the arranged cards go by increasing year, ties in
      original order; with 'year-desc' by decreasing year. */
  lemma ArrangedByYear(cards: seq<Card>, crit: Criteria, sortValue: string)
    requires sortValue == "year-asc" || sortValue == "year-desc"
    ensures var r := Arranged(cards, crit, sortValue);
      (forall a :: 0 <= a < |r| ==> r[a] < |cards|) &&
      forall a, b :: 0 <= a < b < |r| ==>
        var ya, yb := YearNumber(cards[r[a]]), YearNumber(cards[r[b]]);
        (if sortValue == "year-asc" then ya < yb else ya > yb) || (ya == yb && r[a] < r[b])
  {
    ArrangedSpec(cards, crit, sortValue);
  }

  /** Any other sort value keeps the original order. */
  lemma ArrangedRestores(cards: seq<Card>, crit: Criteria, sortValue: string)
    requires sortValue != "year-asc" && sortValue != "year-desc"
    ensures Arranged(cards, crit, sortValue) == VisibleIds(cards, crit)
  {
    VisibleIdsSpec(cards, crit);
    RestoreKeepsOrder(VisibleIds(cards, crit), cards, sortValue);
  }

  /** The body of the first loop: each card's display and the passing cards. */
  method CollectVisible(cards: seq<Card>, crit: Criteria) returns (shown: seq<bool>, visible: seq<nat>)
    ensures |shown| == |cards| && forall i :: 0 <= i < |cards| ==> shown[i] == Visible(cards[i], crit)
    ensures visible == VisibleIds(cards, crit)
  {
    shown := [];
    visible := [];
    for i := 0 to |cards|
      invariant |shown| == i && forall k :: 0 <= k < i ==> shown[k] == Visible(cards[k], crit)
      invariant visible == VisibleUpTo(cards, crit, i)
    {
      var ok := TestCard(cards[i], crit);
      shown := shown + [ok];
      if ok {
        visible := visible + [i];
      }
    }
  }

  // -------------------------------------------------------------------------
  // Re-appending

  /** `s` without the elements of `d`, in order. */
  function Without(s: seq<nat>, d: seq<nat>): seq<nat> {
    if s == [] then [] else (if s[0] in d then [] else [s[0]]) + Without(s[1..], d)
  }

  lemma {:induction false} WithoutMembers(s: seq<nat>, d: seq<nat>)
    ensures forall x :: x in Without(s, d) <==> x in s && x !in d
  {
    if s != [] {
      WithoutMembers(s[1..], d);
      assert s == [s[0]] + s[1..];
    }
  }

  lemma {:induction false} WithoutAppend(a: seq<nat>, b: seq<nat>, d: seq<nat>)
    ensures Without(a + b, d) == Without(a, d) + Without(b, d)
  {
    if a == [] {
      assert a + b == b;
    } else {
      assert (a + b)[1..] == a[1..] + b;
      WithoutAppend(a[1..], b, d);
    }
  }

  lemma {:induction false} WithoutTwice(s: seq<nat>, d: seq<nat>, e: seq<nat>)
    ensures Without(Without(s, d), e) == Without(s, d + e)
  {
    if s != [] {
      WithoutTwice(s[1..], d, e);
      var head := if s[0] in d then [] else [s[0]];
      WithoutAppend(head, Without(s[1..], d), e);
    }
  }

  lemma {:induction false} WithoutNothing(s: seq<nat>, d: seq<nat>)
    requires forall i :: 0 <= i < |s| ==> s[i] !in d
    ensures Without(s, d) == s
  {
    if s != [] {
      WithoutNothing(s[1..], d);
    }
  }

  lemma {:induction false} WithoutOne(s: seq<nat>, c: nat)
    ensures multiset(Without(s, [c])) == multiset(s)[c := 0]
  {
    if s != [] {
      WithoutOne(s[1..], c);
      assert s == [s[0]] + s[1..];
    }
  }

  lemma {:induction false} RangeOnce(n: nat, c: nat)
    requires c < n
    ensures multiset(Range(n))[c] == 1
  {
    var m := n - 1;
    assert Range(n) == Range(m) + [m];
    if c < m {
      RangeOnce(m, c);
    } else {
      assert c !in Range(m);
    }
  }

  /** Moving card `c` to the end of an order holding each card once keeps
      every card exactly once. */
  lemma MoveToEnd(order: seq<nat>, c: nat, n: nat)
    requires multiset(order) == multiset(Range(n)) && c < n
    ensures multiset(Without(order, [c]) + [c]) == multiset(order)
  {
    RangeOnce(n, c);
    WithoutOne(order, c);
  }

  /** One re-append step keeps the shape "the rest, then what was moved". */
  lemma MoveStep(order: seq<nat>, moved: seq<nat>, c: nat)
    requires c !in moved
    ensures Without(Without(order, moved) + moved, [c]) + [c] == Without(order, moved + [c]) + (moved + [c])
  {
    WithoutAppend(Without(order, moved), moved, [c]);
    WithoutTwice(order, moved, [c]);
    WithoutNothing(moved, [c]);
  }

  /** Moving the next card keeps the shape invariant of AppendChildren. */
  lemma AppendStepShape(order: seq<nat>, moved: seq<nat>, k: nat)
    requires forall i, j :: 0 <= i < j < |moved| ==> moved[i] != moved[j]
    requires k < |moved|
    ensures var r := Without(order, moved[..k]) + moved[..k];
      Without(r, [moved[k]]) + [moved[k]] == Without(order, moved[..k + 1]) + moved[..k + 1]
  {
    var c := moved[k];
    assert forall i :: 0 <= i < k ==> moved[..k][i] != c;
    MoveStep(order, moved[..k], c);
    assert moved[..k + 1] == moved[..k] + [c];
  }

  /** `visibleCards.forEach(c => requestsContainer.appendChild(c))`: each
      card is moved to the end in turn, so the cards not moved keep their
      order at the front and the moved ones follow in the given order. */
  method AppendChildren(order: seq<nat>, moved: seq<nat>, n: nat) returns (r: seq<nat>)
    requires multiset(order) == multiset(Range(n))
    requires forall i :: 0 <= i < |moved| ==> moved[i] < n
    requires forall i, j :: 0 <= i < j < |moved| ==> moved[i] != moved[j]
    ensures r == Without(order, moved) + moved
    ensures multiset(r) == multiset(order)
  {
    r := order;
    WithoutNothing(order, []);
    assert order == Without(order, moved[..0]) + moved[..0];
    for k := 0 to |moved|
      invariant r == Without(order, moved[..k]) + moved[..k]
    {
      var c := moved[k];
      AppendStepShape(order, moved, k);
      assert Without(r, [c]) + [c] == Without(order, moved[..k + 1]) + moved[..k + 1];
      r := Without(r, [c]) + [c];
    }
    assert moved[..|moved|] == moved;
    PrefixPermutes(order, moved, |moved|, n);
  }

  /** Re-appending a prefix of the cards to move keeps every card once. */
  lemma {:induction false} PrefixPermutes(order: seq<nat>, moved: seq<nat>, k: nat, n: nat)
    requires multiset(order) == multiset(Range(n))
    requires forall i :: 0 <= i < |moved| ==> moved[i] < n
    requires forall i, j :: 0 <= i < j < |moved| ==> moved[i] != moved[j]
    requires k <= |moved|
    ensures multiset(Without(order, moved[..k]) + moved[..k]) == multiset(order)
  {
    if k == 0 {
      WithoutNothing(order, []);
      assert moved[..0] == [];
    } else {
      PrefixPermutes(order, moved, k - 1, n);
      var r := Without(order, moved[..k - 1]) + moved[..k - 1];
      MoveToEnd(r, moved[k - 1], n);
      AppendStepShape(order, moved, k - 1);
    }
  }

  /** Apply's sort and `visibleCards.forEach(c => requestsContainer.appendChild(c))`. */
  method ArrangeAndAppend(order: seq<nat>, cards: seq<Card>, visible: seq<nat>, crit: Criteria, sortValue: string)
    returns (r: seq<nat>)
    requires multiset(order) == multiset(Range(|cards|))
    requires visible == VisibleIds(cards, crit)
    ensures r == Without(order, Arranged(cards, crit, sortValue)) + Arranged(cards, crit, sortValue)
    ensures multiset(r) == multiset(order)
  {
    var sorted := SortBy(visible, SortKey(cards, sortValue));
    ArrangedSpec(cards, crit, sortValue);
    r := AppendChildren(order, sorted, |cards|);
  }

  /** Clear's `all.sort(...).forEach(c => requestsContainer.appendChild(c))`. */
  method RestoreOriginalOrder(order: seq<nat>, cards: seq<Card>) returns (r: seq<nat>)
    requires multiset(order) == multiset(Range(|cards|))
    ensures r == Range(|cards|)
  {
    var all := Range(|cards|);
    var sorted := SortBy(all, SortKey(cards, ""));
    ClearSortIsIdentity(cards);
    ClearMovesAll(order, |cards|);
    r := AppendChildren(order, sorted, |cards|);
  }

  // -------------------------------------------------------------------------
  // The page

  class FindTeamPage {
    /** `cards`, captured once in original order. */
    const cards: seq<Card>
    /** Whether each card's display is not 'none'. */
    var shown: seq<bool>
    /** The container's cards in document order. */
    var order: seq<nat>
    var checkedYears: seq<string>
    var branchInput: string
    var domainInput: string
    var sortOrder: string
    var panelOpen: bool

    /** The container holds every card exactly once. */
    ghost predicate Valid()
      reads this
    {
      |shown| == |cards| && multiset(order) == multiset(Range(|cards|))
    }

    /** The page as loaded: cards in original order and shown, the panel
        closed and empty. */
    constructor (cards: seq<Card>)
      ensures Valid() && this.cards == cards && order == Range(|cards|)
      ensures forall i :: 0 <= i < |cards| ==> shown[i]
      ensures checkedYears == [] && branchInput == "" && domainInput == "" && sortOrder == "" && !panelOpen
    {
      this.cards := cards;
      shown := seq(|cards|, _ => true);
      order := Range(|cards|);
      checkedYears := [];
      branchInput := "";
      domainInput := "";
      sortOrder := "";
      panelOpen := false;
    }

    /** applyFilters. */
    method ApplyFilters()
      requires Valid()
      modifies this
      ensures Valid()
      ensures var crit := CriteriaOf(checkedYears, branchInput, domainInput);
        forall i :: 0 <= i < |cards| ==> shown[i] == Visible(cards[i], crit)
      ensures var moved := Arranged(cards, CriteriaOf(checkedYears, branchInput, domainInput), sortOrder);
        order == Without(old(order), moved) + moved
      ensures multiset(order) == multiset(old(order))
      ensures !panelOpen
      ensures checkedYears == old(checkedYears) && branchInput == old(branchInput)
      ensures domainInput == old(domainInput) && sortOrder == old(sortOrder)
    {
      var crit := CriteriaOf(checkedYears, branchInput, domainInput);
      var flags, visible := CollectVisible(cards, crit);
      shown := flags;
      order := ArrangeAndAppend(order, cards, visible, crit, sortOrder);
      panelOpen := false;
    }

    /** clearFilters. */
    method ClearFilters()
      requires Valid()
      modifies this
      ensures Valid()
      ensures forall i :: 0 <= i < |cards| ==> shown[i]
      ensures order == Range(|cards|)
      ensures checkedYears == [] && branchInput == "" && domainInput == "" && sortOrder == "" && !panelOpen
    {
      checkedYears := [];
      branchInput := "";
      domainInput := "";
      sortOrder := "";
      shown := seq(|cards|, _ => true);
      order := RestoreOriginalOrder(order, cards);
      panelOpen := false;
    }
  }

  lemma {:induction false} WithoutEverything(s: seq<nat>, d: seq<nat>)
    requires forall i :: 0 <= i < |s| ==> s[i] in d
    ensures Without(s, d) == []
  {
    if s != [] {
      WithoutEverything(s[1..], d);
    }
  }

  /** Clear's sort by original index leaves the original order as it is. */
  lemma ClearSortIsIdentity(cards: seq<Card>)
    ensures SortBy(Range(|cards|), SortKey(cards, "")) == Range(|cards|)
  {
    RestoreKeepsOrder(Range(|cards|), cards, "");
  }

  /** Re-appending every card leaves nothing in front. */
  lemma ClearMovesAll(order: seq<nat>, n: nat)
    requires multiset(order) == multiset(Range(n))
    ensures Without(order, Range(n)) == []
  {
    var all := Range(n);
    forall i | 0 <= i < |order| ensures order[i] in all {
      assert order[i] in multiset(all);
    }
    WithoutEverything(order, all);
  }

  /** After Apply, the cards left in front are exactly the previous ones that
      do not pass, in their previous order; the passing ones follow. */
  lemma ApplyLayout(order: seq<nat>, cards: seq<Card>, crit: Criteria, sortValue: string)
    ensures var moved := Arranged(cards, crit, sortValue);
      var front := Without(order, moved);
      IsSubsequence(front, order) &&
      forall x: nat :: x in front <==> x in order && !(x < |cards| && Visible(cards[x], crit))
  {
    var moved := Arranged(cards, crit, sortValue);
    ArrangedSpec(cards, crit, sortValue);
    WithoutMembers(order, moved);
    WithoutIsSubsequence(order, moved);
  }

  lemma {:induction false} WithoutIsSubsequence(s: seq<nat>, d: seq<nat>)
    ensures IsSubsequence(Without(s, d), s)
  {
    FilterIsSubsequence(s, (x: nat) => x !in d);
    WithoutIsFilter(s, d);
  }

  lemma {:induction false} WithoutIsFilter(s: seq<nat>, d: seq<nat>)
    ensures Without(s, d) == Filter(s, (x: nat) => x !in d)
  {
    if s != [] {
      WithoutIsFilter(s[1..], d);
    }
  }
}
