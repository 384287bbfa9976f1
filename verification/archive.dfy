/** The archive listing scanner (`ArchiveParser._parse_html`, identical in
    src/parsers/parsers.py and parsers.py): one left-to-right walk over the
    children of the `archiveData` element that files race links under the
    date headers before them.

    The HTML tree is abstracted to what the walk reads. A child is a date
    header (class `archiveDateHeader`) carrying the result of parsing its
    stripped text as `day.month.year`, a data row (class `archiveDataRow`)
    carrying its first `<a>` if it has one, or anything else (text nodes,
    elements without a class, other classes), which the walk skips.

    What the walk does with a child depends only on what the child reads
    as (`Read`), so the walk itself runs over the readings. */
module Archive {
  import opened Wrappers
  import opened Text
  import opened Models

  /** An element below a link: all of its text and its first child element. */
  datatype Element = Element(text: string, firstChild: Option<Element>)

  /** The first `<a>` of a data row: its `href` attribute if present, all of
      its text, and its first child element. */
  datatype Link = Link(href: Option<string>, text: string, firstChild: Option<Element>)

  datatype Child =
    | DateHeader(date: Option<Date>)
    | DataRow(link: Option<Link>)
    | Other

  /** The race label: the text of the link's first element's first
      element when both exist, the link's own text otherwise, stripped, so
      the label has no surrounding whitespace. */
  function RaceNumber(link: Link): (r: string)
    ensures Strip(r) == r
    ensures link.firstChild.None? ==> r == Strip(link.text)
  {
    match link.firstChild
    case Some(Element(_, Some(inner))) => StripIdempotent(inner.text); Strip(inner.text)
    case _ => StripIdempotent(link.text); Strip(link.text)
  }

  function RaceOf(link: Link): Race {
    Race(RaceNumber(link), link.href.GetOr(""))
  }

  /** What a child reads as. */
  datatype Entry = Header(date: Option<Date>) | Row(race: Race) | Skip

  function Read(c: Child): Entry {
    match c
    case DateHeader(d) => Header(d)
    case DataRow(Some(link)) => Row(RaceOf(link))
    case _ => Skip
  }

  function ReadAll(cs: seq<Child>): (es: seq<Entry>)
    ensures |es| == |cs|
    ensures forall i :: 0 <= i < |cs| ==> es[i] == Read(cs[i])
  {
    seq(|cs|, i requires 0 <= i < |cs| => Read(cs[i]))
  }

  /** The walk's accumulator: the date of the day being filled (kept from
      the last header that parsed), the races collected since the last
      header that closed a day, and the days closed so far. */
  datatype Walk = Walk(date: Option<Date>, races: seq<Race>, days: seq<DayRaces>)

  const Begin := Walk(None, [], [])

  /** One child. A header closes the current day, empty or not, whenever a
      date is set, before its own text is parsed; when the text does not
      parse the date stays as it was. A row with a link adds its race.
      No race is lost or reordered, closed days stay closed, and a date,
      once set, stays set. */
  function Step(w: Walk, e: Entry): (r: Walk)
    ensures AllRaces(r.days) + r.races == AllRaces(w.days) + w.races + RowRaces(e)
    ensures r.date.None? <==> w.date.None? && !(e.Header? && e.date.Some?)
    ensures |w.days| <= |r.days| && r.days[..|w.days|] == w.days
  {
    match e
    case Header(d) =>
      var days :=
        if w.date.Some? then
          AllRacesAppend(w.days, DayRaces(w.date.value, w.races));
          w.days + [DayRaces(w.date.value, w.races)]
        else w.days;
      var races := if w.date.Some? then [] else w.races;
      Walk(if d.Some? then d else w.date, races, days)
    case Row(race) => Walk(w.date, w.races + [race], w.days)
    case Skip => w
  }

  /** The walk over `es` from `w`; the days `w` has closed stay in place. */
  function Fold(w: Walk, es: seq<Entry>): (r: Walk)
    ensures |w.days| <= |r.days| && r.days[..|w.days|] == w.days
    decreases |es|
  {
    if |es| == 0 then w else Fold(Step(w, es[0]), es[1..])
  }

  /** After the walk the last day is closed only when a date is set and it
      has races: the open races are kept when a date is set, and no empty
      day is added. */
  function Finish(w: Walk): (r: seq<DayRaces>)
    ensures |w.days| <= |r| && r[..|w.days|] == w.days
    ensures AllRaces(r) == AllRaces(w.days) + (if w.date.Some? then w.races else [])
    ensures |r| > |w.days| ==> |r| == |w.days| + 1 && |r[|w.days|].races| > 0
  {
    if w.date.Some? && |w.races| > 0 then
      AllRacesAppend(w.days, DayRaces(w.date.value, w.races));
      w.days + [DayRaces(w.date.value, w.races)]
    else w.days
  }

  /** `ArchiveParser._parse_html`: `None` stands for a page without an
      `archiveData` element. */
  function ScanArchive(container: Option<seq<Child>>): (r: Result<seq<DayRaces>, ParsingError>)
    ensures r.Failure? <==> container.None?
    ensures r.Failure? ==> r.error == ArchiveDataMissing
  {
    match container
    case None => Failure(ArchiveDataMissing)
    case Some(cs) => Success(Finish(Fold(Begin, ReadAll(cs))))
  }

  /** The races of the rows, in order. */
  function Races(es: seq<Entry>): seq<Race> {
    if |es| == 0 then [] else RowRaces(es[0]) + Races(es[1..])
  }

  function RowRaces(e: Entry): seq<Race> {
    if e.Row? then [e.race] else []
  }

  /** The races of the data rows with a link among the children. */
  function LinkedRaces(cs: seq<Child>): seq<Race> {
    Races(ReadAll(cs))
  }

  /** All races of the days, in order. */
  function AllRaces(days: seq<DayRaces>): seq<Race> {
    if |days| == 0 then [] else days[0].races + AllRaces(days[1..])
  }

  /** Some header parses. */
  predicate AnyDate(es: seq<Entry>) {
    exists i :: 0 <= i < |es| && es[i].Header? && es[i].date.Some?
  }

  /** No entry is a header. */
  predicate NoHeaders(es: seq<Entry>) {
    |es| == 0 || (!es[0].Header? && NoHeaders(es[1..]))
  }

  /** An entry that is not a header only adds its race. */
  lemma StepRow(w: Walk, e: Entry)
    requires !e.Header?
    ensures Step(w, e) == Walk(w.date, w.races + RowRaces(e), w.days)
  {
  }

  lemma AnyDateTail(es: seq<Entry>)
    requires |es| > 0
    ensures AnyDate(es) <==> (es[0].Header? && es[0].date.Some?) || AnyDate(es[1..])
  {
    if AnyDate(es[1..]) {
      var i :| 0 <= i < |es[1..]| && es[1..][i].Header? && es[1..][i].date.Some?;
      assert es[i + 1] == es[1..][i];
    }
    if AnyDate(es) && !(es[0].Header? && es[0].date.Some?) {
      var i :| 0 <= i < |es| && es[i].Header? && es[i].date.Some?;
      assert es[1..][i - 1] == es[i];
    }
  }

  lemma {:induction false} AllRacesAppend(days: seq<DayRaces>, d: DayRaces)
    ensures AllRaces(days + [d]) == AllRaces(days) + d.races
  {
    if |days| == 0 {
      assert days + [d] == [d];
    } else {
      assert (days + [d])[1..] == days[1..] + [d];
      AllRacesAppend(days[1..], d);
    }
  }

  lemma {:induction false} FoldAppend(w: Walk, a: seq<Entry>, b: seq<Entry>)
    ensures Fold(w, a + b) == Fold(Fold(w, a), b)
    decreases |a|
  {
    if |a| == 0 {
      assert a + b == b;
    } else {
      assert (a + b)[1..] == a[1..] + b;
      FoldAppend(Step(w, a[0]), a[1..], b);
    }
  }

  /** The walk loses no race and reorders none: the closed days followed by
      the open list always hold every row seen, in document order. Until
      some header parses no day is closed. */
  lemma {:induction false} FoldKeepsRaces(w: Walk, es: seq<Entry>)
    ensures var v := Fold(w, es);
      AllRaces(v.days) + v.races == AllRaces(w.days) + w.races + Races(es)
    ensures Fold(w, es).date.None? <==> w.date.None? && !AnyDate(es)
    ensures Fold(w, es).date.None? ==> Fold(w, es).days == w.days
    decreases |es|
  {
    if |es| > 0 {
      var w' := Step(w, es[0]);
      FoldKeepsRaces(w', es[1..]);
      AnyDateTail(es);
      if es[0].Header? {
        if w.date.Some? {
          AllRacesAppend(w.days, DayRaces(w.date.value, w.races));
          assert AllRaces(w'.days) + w'.races == AllRaces(w.days) + w.races;
        }
      } else {
        StepRow(w, es[0]);
        assert AllRaces(w'.days) + w'.races == AllRaces(w.days) + w.races + RowRaces(es[0]);
      }
      assert Races(es) == RowRaces(es[0]) + Races(es[1..]);
    }
  }

  /** Once some header parses, the days hold exactly the linked rows, in
      document order, rows before the first header included; when no
      header parses there are no days. */
  lemma ScanArchiveRaces(cs: seq<Child>)
    ensures AnyDate(ReadAll(cs)) ==> AllRaces(ScanArchive(Some(cs)).value) == LinkedRaces(cs)
    ensures !AnyDate(ReadAll(cs)) ==> ScanArchive(Some(cs)).value == []
  {
    var v := Fold(Begin, ReadAll(cs));
    FoldKeepsRaces(Begin, ReadAll(cs));
    assert AllRaces(Begin.days) + Begin.races == [];
    if v.date.Some? && |v.races| > 0 {
      AllRacesAppend(v.days, DayRaces(v.date.value, v.races));
    } else if v.date.Some? {
      assert AllRaces(v.days) + v.races == AllRaces(v.days);
    }
  }

  /** Entries that are not headers only add their races. */
  lemma {:induction false} FoldRows(w: Walk, rows: seq<Entry>)
    requires NoHeaders(rows)
    ensures Fold(w, rows) == Walk(w.date, w.races + Races(rows), w.days)
    decreases |rows|
  {
    if |rows| == 0 {
      assert w.races + Races(rows) == w.races;
    } else {
      var e, tail := rows[0], rows[1..];
      var w1 := Walk(w.date, w.races + RowRaces(e), w.days);
      StepRow(w, e);
      assert Fold(w, rows) == Fold(w1, tail);
      FoldRows(w1, tail);
      assert Races(rows) == RowRaces(e) + Races(tail);
      assert w1.races + Races(tail) == w.races + Races(rows);
    }
  }

  /** A header met while a date is set closes that date's day with the
      races collected so far, even none; the rows after it go under the
      header's date, or under the same date again when its text does not
      parse. */
  lemma HeaderClosesDay(w: Walk, d: Date, h: Option<Date>, rows: seq<Entry>)
    requires w.date == Some(d) && NoHeaders(rows)
    ensures Fold(w, [Header(h)] + rows)
         == Walk(if h.Some? then h else Some(d), Races(rows), w.days + [DayRaces(d, w.races)])
  {
    FoldAppend(w, [Header(h)], rows);
    FoldRows(Step(w, Header(h)), rows);
  }

  /** Rows before the first header are filed, with the rows after it, under
      its date. */
  lemma RowsBeforeFirstHeader(cs: seq<Child>, pre: seq<Entry>, d: Date, post: seq<Entry>)
    requires ReadAll(cs) == pre + [Header(Some(d))] + post
    requires NoHeaders(pre) && NoHeaders(post)
    ensures ScanArchive(Some(cs)).value
         == if |Races(pre) + Races(post)| > 0 then [DayRaces(d, Races(pre) + Races(post))] else []
  {
    FoldAppend(Begin, pre + [Header(Some(d))], post);
    FoldAppend(Begin, pre, [Header(Some(d))]);
    FoldRows(Begin, pre);
    assert Fold(Fold(Begin, pre), [Header(Some(d))]) == Walk(Some(d), Races(pre), []);
    FoldRows(Walk(Some(d), Races(pre), []), post);
  }

  /** The first header, when it parses, opens the first day. */
  lemma FirstHeader(d: Date, rows: seq<Entry>)
    requires NoHeaders(rows)
    ensures Fold(Begin, [Header(Some(d))] + rows) == Walk(Some(d), Races(rows), [])
  {
    FoldAppend(Begin, [Header(Some(d))], rows);
    assert Fold(Begin, [Header(Some(d))]) == Walk(Some(d), [], []);
    FoldRows(Walk(Some(d), [], []), rows);
  }

  /** Two dated headers, each followed by its rows, then a trailing header
      with no rows after it: two days, each with its own rows, and no day
      for the trailing header. */
  lemma TwoDaysTrailingHeader(cs: seq<Child>, d1: Date, r1: seq<Entry>, d2: Date, r2: seq<Entry>, h: Option<Date>)
    requires ReadAll(cs) == [Header(Some(d1))] + r1 + [Header(Some(d2))] + r2 + [Header(h)]
    requires NoHeaders(r1) && NoHeaders(r2)
    ensures ScanArchive(Some(cs)).value == [DayRaces(d1, Races(r1)), DayRaces(d2, Races(r2))]
  {
    var w3 := TwoDaysFold(ReadAll(cs), d1, r1, d2, r2, h);
    assert ScanArchive(Some(cs)).value == Finish(w3);
  }

  lemma TwoDaysFold(es: seq<Entry>, d1: Date, r1: seq<Entry>, d2: Date, r2: seq<Entry>, h: Option<Date>)
    returns (w3: Walk)
    requires es == [Header(Some(d1))] + r1 + [Header(Some(d2))] + r2 + [Header(h)]
    requires NoHeaders(r1) && NoHeaders(r2)
    ensures Fold(Begin, es) == w3
    ensures w3.races == [] && w3.days == [DayRaces(d1, Races(r1)), DayRaces(d2, Races(r2))]
  {
    var a := [Header(Some(d1))] + r1;
    var b := [Header(Some(d2))] + r2;
    var day1, day2 := DayRaces(d1, Races(r1)), DayRaces(d2, Races(r2));
    var w1 := Walk(Some(d1), Races(r1), []);
    var w2 := Walk(Some(d2), Races(r2), [day1]);
    w3 := Walk(if h.Some? then h else Some(d2), [], [day1, day2]);
    assert Fold(Begin, a) == w1 by {
      FirstHeader(d1, r1);
    }
    assert Fold(w1, b) == w2 by {
      HeaderClosesDay(w1, d1, Some(d2), r2);
    }
    assert Fold(w2, [Header(h)]) == w3 by {
      assert Step(w2, Header(h)) == w3;
    }
    assert es == a + b + [Header(h)];
    FoldAppend(Begin, a, b);
    FoldAppend(Begin, a + b, [Header(h)]);
  }
}
