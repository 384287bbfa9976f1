/** The competitor assembler (`FullRaceInfoParser._parse_competitors_json`
    and the `_parse_html` that feeds it, src/parsers/parsers.py): the
    entries of the page's `jsCompetitors` object become `Competitor`
    records, joined with the race's carts by cart number, stably sorted by
    position, and given their gap to the leader.

    `json.loads` is not modelled: the decoded object reaches the assembler
    as its list of `(key, value)` entries in document order, each value
    either an object of scalar fields or something else. */
module Assembler {
  import opened Wrappers
  import opened Text
  import opened Decimal
  import opened Models
  import opened TimeCodec
  import opened StableSort
  import BinaryLaps
  import Locator

  /** A JSON field value as Python holds it after `json.loads`. A float
      carries what `int()` makes of it (`None` for infinities and NaN) and
      its `str()` text; a list or object carries its `str()` text only. */
  datatype Scalar =
    | Null
    | Bool(b: bool)
    | Int(i: int)
    | Float(truncated: Option<int>, text: string)
    | Str(s: string)
    | Composite(text: string)

  /** One entry of the competitors object: its key and, when the value is
      an object, that object's fields. */
  datatype Entry = Entry(id: string, fields: Option<map<string, Scalar>>)

  /** `dict.get(key, default)`. */
  function Get(fields: map<string, Scalar>, key: string, default: Scalar): Scalar {
    if key in fields then fields[key] else default
  }

  /** `str(i)` for an integer: an optional `-` and the decimal digits. */
  function IntText(i: int): string {
    if i < 0 then "-" + Dec(-i) else Dec(i)
  }

  /** Python's `str()` of a field value: a string is itself, `None` is
      `"None"`, a boolean is `True` or `False`, and an integer is its
      shortest decimal text, with `-` when negative, which reads back as
      the integer. */
  function PyStr(v: Scalar): (r: string)
    ensures v.Str? ==> r == v.s
    ensures v.Null? ==> r == "None"
    ensures v.Bool? ==> r == (if v.b then "True" else "False")
    ensures v.Int? && v.i >= 0 ==> |r| > 0 && AllDigits(r) && Value(r) == v.i && (r[0] == '0' ==> r == "0")
    ensures v.Int? && v.i < 0 ==>
      |r| > 1 && r[0] == '-' && AllDigits(r[1..]) && Value(r[1..]) == -v.i && r[1] != '0'
    ensures v.Int? ==> PyInt(r) == Some(v.i)
  {
    match v
    case Null => "None"
    case Bool(b) => if b then "True" else "False"
    case Int(i) =>
      IntTextRoundTrip(i);
      if i < 0 then
        var t := IntText(i);
        assert t[1..] == Dec(-i);
        t
      else IntText(i)
    case Float(_, t) => t
    case Str(s) => s
    case Composite(t) => t
  }

  /** Python's `int()` of a field value: `None` where it raises. An
      integer is itself, a boolean is 0 or 1, a string is read by `int()`,
      and `None`, a list or an object raise TypeError. */
  function PyIntOf(v: Scalar): (r: Option<int>)
    ensures v.Int? ==> r == Some(v.i)
    ensures v.Bool? ==> r == Some(if v.b then 1 else 0)
    ensures v.Str? ==> r == PyInt(v.s)
    ensures v.Null? || v.Composite? ==> r.None?
  {
    match v
    case Null => None
    case Bool(b) => Some(if b then 1 else 0)
    case Int(i) => Some(i)
    case Float(t, _) => t
    case Str(s) => PyInt(s)
    case Composite(_) => None
  }

  /** `int()` reads back what `str()` renders for every integer. */
  lemma IntTextRoundTrip(i: int)
    ensures PyInt(IntText(i)) == Some(i)
  {
    if i < 0 {
      var n: nat := -i;
      assert IntText(i) == "-" + Dec(n);
      PyIntNegDec(n);
    } else {
      assert IntText(i) == Dec(i);
      PyIntDec(i);
    }
  }

  /** A numeric `num` is the text of a cart number written as plain
      decimal digits without a leading zero exactly when it denotes the
      same value, so the JSON number 7 finds the cart "7" and not "07". */
  lemma IntNumText(n: nat, number: string)
    requires |number| > 0 && AllDigits(number)
    ensures PyStr(Int(n)) == number <==> Value(number) == n && (number[0] == '0' ==> number == "0")
  {
    if Value(number) == n && (number[0] == '0' ==> number == "0") {
      DecOfMinimal(number);
    }
  }

  /** The best lap the race table lists for cart `num`: the lap of the last
      cart with that number, as the dictionary built from the carts keeps
      the last assignment; `""` when no cart has it or there are no carts. */
  function BestLapOf(carts: seq<Cart>, num: string): (r: string)
    ensures r != "" ==> exists i :: 0 <= i < |carts| && carts[i].number == num && carts[i].bestLap == r
  {
    if |carts| == 0 then ""
    else if carts[|carts| - 1].number == num then carts[|carts| - 1].bestLap
    else BestLapOf(carts[..|carts| - 1], num)
  }

  lemma {:induction false} BestLapOfLast(carts: seq<Cart>, num: string, i: int)
    requires 0 <= i < |carts| && carts[i].number == num
    requires forall j :: i < j < |carts| ==> carts[j].number != num
    ensures BestLapOf(carts, num) == carts[i].bestLap
  {
    if i < |carts| - 1 {
      var p := carts[..|carts| - 1];
      assert p[i] == carts[i];
      assert forall j :: i < j < |p| ==> p[j] == carts[j];
      BestLapOfLast(p, num, i);
    }
  }

  lemma {:induction false} BestLapOfAbsent(carts: seq<Cart>, num: string)
    requires forall j :: 0 <= j < |carts| ==> carts[j].number != num
    ensures BestLapOf(carts, num) == ""
  {
    if |carts| > 0 {
      var p := carts[..|carts| - 1];
      assert forall j :: 0 <= j < |p| ==> p[j] == carts[j];
      BestLapOfAbsent(p, num);
    }
  }

  /** `if race_carts:` — no carts and an empty list both give no best laps. */
  function CartBestLap(raceCarts: Option<seq<Cart>>, num: string): string {
    match raceCarts
    case None => ""
    case Some(cs) => BestLapOf(cs, num)
  }

  /** The card label of a competitor: its name unless that is blank. */
  function DisplayName(name: string, num: string): (r: string)
    ensures |Strip(name)| > 0 ==> r == name
    ensures |Strip(name)| == 0 ==> r == "Карт #" + num
    ensures |Strip(r)| > 0
  {
    if |Strip(name)| > 0 then name
    else
      StripNotBlank("Карт #" + num);
      "Карт #" + num
  }

  /** The three integer fields of an entry, `None` where `int()` raises. */
  function Pos(f: map<string, Scalar>): Option<int> { PyIntOf(Get(f, "pos", Int(0))) }
  function Laps(f: map<string, Scalar>): Option<int> { PyIntOf(Get(f, "laps", Int(0))) }
  function TheorLap(f: map<string, Scalar>): Option<int> { PyIntOf(Get(f, "theor_lap", Int(0))) }

  /** The competitor made from one entry, before its gap is known. An entry
      that is not an object is invalid JSON; otherwise only `int()` can
      fail. */
  function Made(e: Entry, raceCarts: Option<seq<Cart>>): (r: Result<Competitor, ParsingError>)
    ensures e.fields.None? ==> r == Failure(InvalidJson)
    ensures r.Failure? ==> r.error == InvalidJson || r.error == FieldNotInteger
    ensures r.Success? ==> r.value.id == e.id && r.value.gapToLeader.None?
  {
    match e.fields
    case None => Failure(InvalidJson)
    case Some(f) =>
      var num := PyStr(Get(f, "num", Str("")));
      var name := PyStr(Get(f, "name", Str("")));
      var binary := PyStr(Get(f, "binary_laps", Str("")));
      if Pos(f).None? || Laps(f).None? || TheorLap(f).None? then Failure(FieldNotInteger)
      else
        var theor := TheorLap(f).value;
        Success(Competitor(e.id, num, name, Pos(f).value, Laps(f).value, theor,
          CartBestLap(raceCarts, num), binary, Some(FormatTime(theor)),
          Some(DisplayName(name, num)), None, Some(BinaryLaps.DecodeBinaryLaps(binary))))
  }

  /** `d.get(key, default)` coerced by `int()`. */
  predicate IntField(f: map<string, Scalar>, key: string, v: int) {
    && (key !in f ==> v == 0)
    && (key in f ==> PyIntOf(f[key]) == Some(v))
  }

  /** `d.get(key, "")` coerced by `str()`. */
  predicate TextField(f: map<string, Scalar>, key: string, v: string) {
    && (key !in f ==> v == "")
    && (key in f ==> v == PyStr(f[key]))
  }

  /** An object entry fails exactly when `int()` rejects one of its three
      integer fields; a competitor carries the entry's key and its fields,
      coerced, with the defaults for missing ones. */
  lemma MadeFields(e: Entry, raceCarts: Option<seq<Cart>>)
    ensures e.fields.Some? ==>
      (Made(e, raceCarts).Failure? <==>
        Pos(e.fields.value).None? || Laps(e.fields.value).None? || TheorLap(e.fields.value).None?)
    ensures Made(e, raceCarts).Failure? && e.fields.Some? ==> Made(e, raceCarts).error == FieldNotInteger
    ensures Made(e, raceCarts).Success? ==>
      var c := Made(e, raceCarts).value;
      var f := e.fields.value;
      && IntField(f, "pos", c.pos) && IntField(f, "laps", c.laps) && IntField(f, "theor_lap", c.theorLap)
      && TextField(f, "num", c.num) && TextField(f, "name", c.name)
      && TextField(f, "binary_laps", c.binaryLaps)
      && c.lapTimes == Some(BinaryLaps.DecodeBinaryLaps(c.binaryLaps))
  {
  }

  /** `i` is the last cart numbered `num`. */
  predicate LastWith(carts: seq<Cart>, num: string, i: int) {
    && 0 <= i < |carts| && carts[i].number == num
    && forall j :: i < j < |carts| ==> carts[j].number != num
  }

  /** A competitor's best lap is that of the last cart with its number, and
      `""` when no cart has it or there are no carts. */
  lemma MadeBestLap(e: Entry, raceCarts: Option<seq<Cart>>)
    requires Made(e, raceCarts).Success?
    ensures var c := Made(e, raceCarts).value;
      && (raceCarts.None? ==> c.bestLap == "")
      && (raceCarts.Some? ==> forall i :: LastWith(raceCarts.value, c.num, i) ==> c.bestLap == raceCarts.value[i].bestLap)
      && (raceCarts.Some? && (forall j :: 0 <= j < |raceCarts.value| ==> raceCarts.value[j].number != c.num) ==>
            c.bestLap == "")
  {
    var c := Made(e, raceCarts).value;
    if raceCarts.Some? {
      var cs := raceCarts.value;
      forall i | LastWith(cs, c.num, i) ensures c.bestLap == cs[i].bestLap {
        BestLapOfLast(cs, c.num, i);
      }
      if forall j :: 0 <= j < |cs| ==> cs[j].number != c.num {
        BestLapOfAbsent(cs, c.num);
      }
    }
  }

  /** A competitor's label is never blank: it is the name unless that is
      blank, and the cart number otherwise. */
  lemma MadeLabel(e: Entry, raceCarts: Option<seq<Cart>>)
    requires Made(e, raceCarts).Success?
    ensures var c := Made(e, raceCarts).value;
      && c.displayName.Some? && |Strip(c.displayName.value)| > 0
      && (|Strip(c.name)| > 0 ==> c.displayName.value == c.name)
      && (|Strip(c.name)| == 0 ==> c.displayName.value == "Карт #" + c.num)
  {
    MadeDisplayName(e, raceCarts);
  }

  lemma MadeDisplayName(e: Entry, raceCarts: Option<seq<Cart>>)
    requires Made(e, raceCarts).Success?
    ensures var c := Made(e, raceCarts).value;
      c.displayName == Some(DisplayName(c.name, c.num))
  {
  }

  /** A competitor's theoretical lap renders as clock text that reads back
      as the lap, or as 0 for a non-positive one, and is canonical for a
      positive one. */
  lemma MadeTheorLap(e: Entry, raceCarts: Option<seq<Cart>>)
    requires Made(e, raceCarts).Success?
    ensures var c := Made(e, raceCarts).value;
      && c.theorLapFormatted.Some?
      && TimeStringToMs(c.theorLapFormatted.value) == (if c.theorLap > 0 then c.theorLap else 0)
      && (c.theorLap > 0 ==> Canonical(c.theorLapFormatted.value))
  {
    var c := Made(e, raceCarts).value;
    assert c.theorLapFormatted == Some(FormatTime(c.theorLap));
    FormatTimeRoundTrip(c.theorLap);
  }

  /** `Made` for the carts of one race, as a function of the entry. */
  function MadeFor(raceCarts: Option<seq<Cart>>): Entry -> Result<Competitor, ParsingError> {
    e => Made(e, raceCarts)
  }

  /** The competitors of all entries, in entry order; the first entry that
      makes none ends the call with its error. */
  function MadeAll(es: seq<Entry>, raceCarts: Option<seq<Cart>>): Result<seq<Competitor>, ParsingError> {
    MapResult(es, MadeFor(raceCarts))
  }

  lemma MadeAllSuccess(es: seq<Entry>, raceCarts: Option<seq<Cart>>)
    ensures MadeAll(es, raceCarts).Success? <==> forall i :: 0 <= i < |es| ==> Made(es[i], raceCarts).Success?
    ensures MadeAll(es, raceCarts).Success? ==>
      |MadeAll(es, raceCarts).value| == |es| &&
      forall i :: 0 <= i < |es| ==> MadeAll(es, raceCarts).value[i] == Made(es[i], raceCarts).value
  {
    MapResultSuccess(es, MadeFor(raceCarts));
  }

  /** A failing call fails with the error of its first bad entry. */
  lemma MadeAllFailure(es: seq<Entry>, raceCarts: Option<seq<Cart>>) returns (i: nat)
    requires MadeAll(es, raceCarts).Failure?
    ensures i < |es| && Made(es[i], raceCarts).Failure?
    ensures forall j :: 0 <= j < i ==> Made(es[j], raceCarts).Success?
    ensures MadeAll(es, raceCarts).error == Made(es[i], raceCarts).error
  {
    i := MapResultFailure(es, MadeFor(raceCarts));
  }

  function PosKey(c: Competitor): int { c.pos }

  const Leader := "Лидер"

  /** The gap column of a competitor at `pos` with theoretical lap `theor`
      when the leader's is `leaderTheor`: the leader mark exactly at
      position 1, otherwise `+` and the rendered difference. */
  function Gap(pos: int, theor: int, leaderTheor: int): (r: string)
    ensures r == Leader <==> pos == 1
    ensures pos != 1 ==> |r| > 1 && r[0] == '+'
  {
    if pos == 1 then Leader
    else
      var r := "+" + FormatTime(theor - leaderTheor);
      assert r[0] != Leader[0];
      r
  }

  /** `c` with its gap to a leader whose theoretical lap is `leaderTheor`. */
  function WithGap(c: Competitor, leaderTheor: int): Competitor {
    Competitor(c.id, c.num, c.name, c.pos, c.laps, c.theorLap, c.bestLap, c.binaryLaps,
      c.theorLapFormatted, c.displayName, Some(Gap(c.pos, c.theorLap, leaderTheor)), c.lapTimes)
  }

  /** Every competitor's gap to a leader whose theoretical lap is
      `leaderTheor`. */
  function GapsFrom(cs: seq<Competitor>, leaderTheor: int): (r: seq<Competitor>)
    ensures |r| == |cs|
    ensures forall i :: 0 <= i < |cs| ==> r[i] == WithGap(cs[i], leaderTheor)
  {
    if |cs| == 0 then [] else [WithGap(cs[0], leaderTheor)] + GapsFrom(cs[1..], leaderTheor)
  }

  /** Every competitor's gap, measured from the first one; nothing but the
      gap column changes. */
  function FillGaps(cs: seq<Competitor>): (r: seq<Competitor>)
    ensures |r| == |cs|
    ensures forall i :: 0 <= i < |cs| ==> r[i] == WithGap(cs[i], cs[0].theorLap)
    ensures forall i :: 0 <= i < |cs| ==> r[i].pos == cs[i].pos && r[i].theorLap == cs[i].theorLap
  {
    if |cs| == 0 then [] else GapsFrom(cs, cs[0].theorLap)
  }

  /** `_parse_competitors_json`: it succeeds exactly when every entry makes
      a competitor, and then gives one competitor per entry, ordered by
      position. */
  function ParseCompetitorsJson(es: seq<Entry>, raceCarts: Option<seq<Cart>>): (r: Result<seq<Competitor>, ParsingError>)
    ensures r.Success? <==> forall i :: 0 <= i < |es| ==> Made(es[i], raceCarts).Success?
    ensures r.Success? ==> |r.value| == |es| && SortedBy(r.value, PosKey)
  {
    MadeAllSuccess(es, raceCarts);
    match MadeAll(es, raceCarts)
    case Failure(err) => Failure(err)
    case Success(cs) =>
      FillGapsSorted(SortBy(cs, PosKey));
      Success(FillGaps(SortBy(cs, PosKey)))
  }

  /** Away from position 1 the gap after the `+` reads back as the
      difference of the theoretical laps, or as 0 when that is not
      positive, which renders as `+00:00.000`. */
  lemma GapReadsBack(pos: int, theor: int, leaderTheor: int)
    requires pos != 1
    ensures TimeStringToMs(Gap(pos, theor, leaderTheor)[1..]) == (if theor > leaderTheor then theor - leaderTheor else 0)
    ensures theor <= leaderTheor ==> Gap(pos, theor, leaderTheor) == "+00:00.000"
  {
    GapText(pos, theor, leaderTheor);
    FormatTimeRoundTrip(theor - leaderTheor);
  }

  lemma GapText(pos: int, theor: int, leaderTheor: int)
    requires pos != 1
    ensures Gap(pos, theor, leaderTheor)[1..] == FormatTime(theor - leaderTheor)
    ensures theor <= leaderTheor ==> Gap(pos, theor, leaderTheor) == "+00:00.000"
  {
  }

  /** A successful assembly is the gap-filled stable sort of the entries'
      competitors. */
  lemma Assembled(es: seq<Entry>, raceCarts: Option<seq<Cart>>) returns (cs: seq<Competitor>)
    requires ParseCompetitorsJson(es, raceCarts).Success?
    ensures MadeAll(es, raceCarts) == Success(cs)
    ensures ParseCompetitorsJson(es, raceCarts).value == FillGaps(SortBy(cs, PosKey))
  {
    cs := MadeAll(es, raceCarts).value;
  }

  /** The gap column of `r` at `i`: the leader mark exactly at position 1,
      otherwise the gap measured from the first competitor's theoretical
      lap (rendered as `GapReadsBack` states), so a first competitor that
      is not at position 1 shows `+00:00.000`. */
  predicate GapColumn(r: seq<Competitor>, i: int)
    requires 0 <= i < |r|
  {
    && (r[i].gapToLeader == Some(Leader) <==> r[i].pos == 1)
    && r[i].gapToLeader == Some(Gap(r[i].pos, r[i].theorLap, r[0].theorLap))
    && (r[0].pos != 1 ==> r[0].gapToLeader == Some("+00:00.000"))
  }

  lemma GapsOf(cs: seq<Competitor>, i: int)
    requires 0 <= i < |cs|
    ensures GapColumn(FillGaps(cs), i)
  {
    var r := FillGaps(cs);
    assert r[i].gapToLeader == Some(Gap(r[i].pos, r[i].theorLap, r[0].theorLap));
    assert r[0].gapToLeader == Some(Gap(r[0].pos, r[0].theorLap, r[0].theorLap));
    GapsRendered(r, i);
  }

  /** A list whose gaps are measured from its first competitor has the gap
      column. */
  lemma GapsRendered(r: seq<Competitor>, i: int)
    requires 0 <= i < |r|
    requires r[i].gapToLeader == Some(Gap(r[i].pos, r[i].theorLap, r[0].theorLap))
    requires r[0].gapToLeader == Some(Gap(r[0].pos, r[0].theorLap, r[0].theorLap))
    ensures GapColumn(r, i)
  {
    if r[0].pos != 1 {
      GapReadsBack(r[0].pos, r[0].theorLap, r[0].theorLap);
    }
  }

  /** The gap column of the assembled list, at every index. */
  lemma GapToLeader(es: seq<Entry>, raceCarts: Option<seq<Cart>>, i: int)
    requires ParseCompetitorsJson(es, raceCarts).Success?
    requires 0 <= i < |ParseCompetitorsJson(es, raceCarts).value|
    ensures GapColumn(ParseCompetitorsJson(es, raceCarts).value, i)
  {
    var cs := Assembled(es, raceCarts);
    GapsOf(SortBy(cs, PosKey), i);
  }

  lemma FillGapsSorted(t: seq<Competitor>)
    requires SortedBy(t, PosKey)
    ensures SortedBy(FillGaps(t), PosKey)
  {
  }

  /** The assembled list is the stable sort by position of the entries'
      competitors, each given its gap: one competitor per entry, ordered by
      position, entries of equal position in entry order. */
  lemma ParseCompetitorsJsonSorted(es: seq<Entry>, raceCarts: Option<seq<Cart>>) returns (t: seq<Competitor>)
    requires ParseCompetitorsJson(es, raceCarts).Success?
    ensures var r := ParseCompetitorsJson(es, raceCarts).value;
      && |r| == |t| == |es|
      && SortedBy(t, PosKey) && SortedBy(r, PosKey)
      && multiset(t) == multiset(MadeAll(es, raceCarts).value)
      && r == FillGaps(t)
    ensures forall k :: KeyFilter(t, PosKey, k) == KeyFilter(MadeAll(es, raceCarts).value, PosKey, k)
  {
    var cs := Assembled(es, raceCarts);
    t := SortBy(cs, PosKey);
    forall k ensures KeyFilter(t, PosKey, k) == KeyFilter(cs, PosKey, k) {
      SortByStable(cs, PosKey, k);
    }
    FillGapsSorted(t);
  }

  /** Every assembled competitor is the competitor of one entry with its
      gap filled in. */
  lemma ParsedFromEntry(es: seq<Entry>, raceCarts: Option<seq<Cart>>, i: int) returns (j: nat)
    requires ParseCompetitorsJson(es, raceCarts).Success?
    requires 0 <= i < |ParseCompetitorsJson(es, raceCarts).value|
    ensures j < |es| && Made(es[j], raceCarts).Success?
    ensures var r := ParseCompetitorsJson(es, raceCarts).value;
      r[i] == WithGap(Made(es[j], raceCarts).value, r[0].theorLap)
  {
    var cs := Assembled(es, raceCarts);
    var t := SortBy(cs, PosKey);
    SortByMember(cs, PosKey, i);
    MadeAllSuccess(es, raceCarts);
    j :| 0 <= j < |cs| && cs[j] == t[i];
  }

  /** The assembler fails only for an entry that is not an object or a
      field `int()` rejects. */
  lemma ParseCompetitorsJsonError(es: seq<Entry>, raceCarts: Option<seq<Cart>>)
    ensures ParseCompetitorsJson(es, raceCarts).Failure? ==>
      ParseCompetitorsJson(es, raceCarts).error in {InvalidJson, FieldNotInteger}
  {
    if ParseCompetitorsJson(es, raceCarts).Failure? {
      var i := MadeAllFailure(es, raceCarts);
      MadeFields(es[i], raceCarts);
    }
  }

  /** An empty object gives an empty list. */
  lemma NoEntries(raceCarts: Option<seq<Cart>>)
    ensures ParseCompetitorsJson([], raceCarts) == Success([])
  {
  }

  /** `FullRaceInfoParser._parse_html` on the page text, with `json.loads`
      given as `loads` (`None` where it raises JSONDecodeError). */
  function ParseFullRaceInfo(html: string, loads: string -> Option<seq<Entry>>, raceCarts: Option<seq<Cart>>): (r: Result<seq<Competitor>, ParsingError>)
    ensures Locator.ExtractJsCompetitors(html).None? ==> r == Failure(CompetitorsMissing)
  {
    match Locator.ExtractJsCompetitors(html)
    case None => Failure(CompetitorsMissing)
    case Some(lit) =>
      if |lit| == 0 then Failure(CompetitorsMissing)
      else
        match loads(lit)
        case None => Failure(InvalidJson)
        case Some(es) => ParseCompetitorsJson(es, raceCarts)
  }

  /** A located literal is never empty, so the page fails for want of the
      object only when no assignment matches, and otherwise assembles what
      `json.loads` makes of the literal. */
  lemma ParseFullRaceInfoCases(html: string, loads: string -> Option<seq<Entry>>, raceCarts: Option<seq<Cart>>)
    ensures ParseFullRaceInfo(html, loads, raceCarts) == Failure(CompetitorsMissing) <==> Locator.NoMatch(html)
    ensures !Locator.NoMatch(html) ==>
      var lit := Locator.ExtractJsCompetitors(html).value;
      && (loads(lit).None? ==> ParseFullRaceInfo(html, loads, raceCarts) == Failure(InvalidJson))
      && (loads(lit).Some? ==> ParseFullRaceInfo(html, loads, raceCarts) == ParseCompetitorsJson(loads(lit).value, raceCarts))
  {
    Locator.ExtractJsCompetitorsSpec(html);
    if !Locator.NoMatch(html) {
      var lit := Locator.ExtractJsCompetitors(html).value;
      if loads(lit).Some? {
        ParseCompetitorsJsonError(loads(lit).value, raceCarts);
      }
    }
  }
}
