/** The deadline filter of the student dashboard (the same loop appears in
    backend/app.py and backend/routes/student.py): an event is kept unless
    its deadline resolves to a date strictly before today. */
module Deadlines {
  import opened Common

  /** A calendar date. */
  datatype Date = Date(year: int, month: int, day: int)

  /** Python's date ordering: by year, then month, then day. */
  predicate Before(a: Date, b: Date) {
    a.year < b.year || (a.year == b.year && (a.month < b.month || (a.month == b.month && a.day < b.day)))
  }

  lemma BeforeIsStrictTotalOrder(a: Date, b: Date, c: Date)
    ensures !Before(a, a)
    ensures Before(a, b) && Before(b, c) ==> Before(a, c)
    ensures a == b || Before(a, b) || Before(b, a)
  {
  }

  /** The deadline column as the driver hands it over: NULL, a datetime, a
      date, or text. */
  datatype Deadline = NoDeadline | AtTime(date: Date, secondOfDay: nat) | OnDate(day: Date) | Text(text: string)

  /** `datetime.strptime(text, fmt).date()`, or None when it raises. */
  type Parser = (string, string) -> Option<Date>

  /** The formats tried, in order. */
  const Formats: seq<string> := ["%Y-%m-%d", "%Y-%m-%d %H:%M:%S", "%d-%m-%Y", "%d/%m/%Y"]

  /** The result of the first format that parses. */
  function FirstParse(parse: Parser, text: string, fmts: seq<string>): Option<Date> {
    if fmts == [] then None
    else if parse(text, fmts[0]).Some? then parse(text, fmts[0])
    else FirstParse(parse, text, fmts[1..])
  }

  /** The first success wins; nothing parses only if every format fails. */
  lemma {:induction false} FirstParseSpec(parse: Parser, text: string, fmts: seq<string>)
    ensures var r := FirstParse(parse, text, fmts);
      (r.None? <==> forall i :: 0 <= i < |fmts| ==> parse(text, fmts[i]).None?) &&
      (r.Some? ==> exists i :: 0 <= i < |fmts| && parse(text, fmts[i]) == r &&
                     forall j :: 0 <= j < i ==> parse(text, fmts[j]).None?)
  {
    if fmts != [] && parse(text, fmts[0]).None? {
      var rest := fmts[1..];
      FirstParseSpec(parse, text, rest);
      var r := FirstParse(parse, text, fmts);
      if r.Some? {
        var i :| 0 <= i < |rest| && parse(text, rest[i]) == r && forall j :: 0 <= j < i ==> parse(text, rest[j]).None?;
        assert parse(text, fmts[i + 1]) == r;
        assert forall j :: 0 <= j < i + 1 ==> parse(text, fmts[j]).None? by {
          forall j | 0 <= j < i + 1 ensures parse(text, fmts[j]).None? {
            if j > 0 {
              assert fmts[j] == rest[j - 1];
            }
          }
        }
      } else {
        forall i | 0 <= i < |fmts| ensures parse(text, fmts[i]).None? {
          if i > 0 {
            assert fmts[i] == rest[i - 1];
          }
        }
      }
    }
  }

  /** The inner loop: try each format, stop at the first that parses. */
  method ParseDeadlineText(parse: Parser, text: string) returns (d: Option<Date>)
    ensures d == FirstParse(parse, text, Formats)
  {
    d := None;
    for i := 0 to |Formats|
      invariant FirstParse(parse, text, Formats) == FirstParse(parse, text, Formats[i..])
    {
      assert Formats[i..][1..] == Formats[i + 1..];
      var parsed := parse(text, Formats[i]);
      if parsed.Some? {
        d := parsed;
        return;
      }
    }
  }

  /** The date a deadline resolves to: a datetime's date, a date, or the first
      format that parses its text. */
  function Resolve(dl: Deadline, parse: Parser): Option<Date> {
    match dl
    case NoDeadline => None
    case AtTime(d, _) => Some(d)
    case OnDate(d) => Some(d)
    case Text(t) => FirstParse(parse, t, Formats)
  }

  /** Whether the loop keeps an event with this deadline. */
  predicate Keep(dl: Deadline, today: Date, parse: Parser) {
    dl.NoDeadline? || !(Resolve(dl, parse).Some? && Before(Resolve(dl, parse).value, today))
  }

  /** An event is dropped exactly when its deadline resolves to a date before
      today: no deadline, a deadline today and text that parses in no format
      all keep it. */
  lemma KeepSpec(dl: Deadline, today: Date, parse: Parser)
    ensures !Keep(dl, today, parse) <==> exists d :: Resolve(dl, parse) == Some(d) && Before(d, today)
    ensures dl == NoDeadline || dl == OnDate(today) || (dl.AtTime? && dl.date == today) ==> Keep(dl, today, parse)
    ensures dl.Text? && (forall i :: 0 <= i < |Formats| ==> parse(dl.text, Formats[i]).None?) ==> Keep(dl, today, parse)
  {
    BeforeIsStrictTotalOrder(today, today, today);
    if dl.Text? {
      FirstParseSpec(parse, dl.text, Formats);
    }
  }

  /** What is kept today was kept on every earlier day. */
  lemma KeepEarlier(dl: Deadline, earlier: Date, today: Date, parse: Parser)
    requires !Before(today, earlier)
    requires Keep(dl, today, parse)
    ensures Keep(dl, earlier, parse)
  {
    if Resolve(dl, parse).Some? {
      BeforeIsStrictTotalOrder(Resolve(dl, parse).value, earlier, today);
      BeforeIsStrictTotalOrder(earlier, today, today);
    }
  }

  /** An `events` row; only its deadline matters to the filter. */
  datatype Event = Event(id: nat, title: string, deadline: Deadline)

  function Upcoming(all: seq<Event>, today: Date, parse: Parser): seq<Event> {
    Filter(all, (e: Event) => Keep(e.deadline, today, parse))
  }

  /** The filter keeps its input's order, adds nothing, and keeps exactly the
      events that pass. */
  lemma UpcomingSpec(all: seq<Event>, today: Date, parse: Parser)
    ensures IsSubsequence(Upcoming(all, today, parse), all)
    ensures forall i :: 0 <= i < |all| ==> (all[i] in Upcoming(all, today, parse) <==> Keep(all[i].deadline, today, parse))
  {
    FilterIsSubsequence(all, (e: Event) => Keep(e.deadline, today, parse));
  }

  /** The loop body's test for one event. */
  method KeepEvent(dl: Deadline, today: Date, parse: Parser) returns (keep: bool)
    ensures keep == Keep(dl, today, parse)
  {
    keep := true;
    if !dl.NoDeadline? {
      var date: Option<Date>;
      match dl {
        case AtTime(d, _) => date := Some(d);
        case OnDate(d) => date := Some(d);
        case Text(t) => date := ParseDeadlineText(parse, t);
      }
      if date.Some? && Before(date.value, today) {
        keep := false;
      }
    }
  }

  /** The dashboard loop: resolve each deadline and append the events that
      pass, in order. */
  method FilterUpcoming(all: seq<Event>, today: Date, parse: Parser) returns (events: seq<Event>)
    ensures events == Upcoming(all, today, parse)
  {
    var p := (e: Event) => Keep(e.deadline, today, parse);
    events := [];
    for k := 0 to |all|
      invariant events == Filter(all[..k], p)
    {
      var ev := all[k];
      var keep := KeepEvent(ev.deadline, today, parse);
      FilterAppend(all[..k], [ev], p);
      assert all[..k + 1] == all[..k] + [ev];
      if keep {
        events := events + [ev];
      }
    }
    assert all[..|all|] == all;
  }
}
