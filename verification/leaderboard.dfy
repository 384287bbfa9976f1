/** The leaderboard reduction of src/database/db.py (`get_best_competitors`
    and `get_best_competitors_today`): after the query, the rows are
    grouped by user keeping each user's fastest row, ordered by best lap
    and cut to the requested length.

    The query itself is not modelled as SQL: the stored rows reach the
    model in the order the query returns them, and its `WHERE` clause is
    the predicate `Listed` (and, for today's board, the date test). */
module Leaderboard {
  import opened Wrappers
  import opened TimeCodec
  import opened StableSort

  /** One stored competitor row with the columns the leaderboard query
      selects; `bestLap` is `None` for SQL NULL. */
  datatype Row = Row(
    userId: int,
    date: string,
    raceNumber: string,
    num: string,
    name: string,
    displayName: string,
    theorLap: int,
    theorLapFormatted: string,
    bestLap: Option<string>,
    pos: int)

  /** `best_lap IS NOT NULL AND best_lap != '' AND best_lap != '-'`. */
  predicate Listed(r: Row) {
    r.bestLap.Some? && r.bestLap.value != "" && r.bestLap.value != "-"
  }

  /** Today's board also asks `date = today`. */
  function ListedOn(today: string): Row -> bool {
    (r: Row) => r.date == today && Listed(r)
  }

  /** The sort key of a row: its best lap in milliseconds. A NULL best lap
      is unreadable and sorts last. */
  function LapMs(r: Row): (k: int)
    ensures r.bestLap.None? ==> k == Unreadable
  {
    TimeStringToMs(r.bestLap.GetOr(""))
  }

  /** The rows of `table` that `keep` accepts, in table order. */
  function Select(table: seq<Row>, keep: Row -> bool): (rows: seq<Row>)
    ensures |rows| <= |table|
  {
    if |table| == 0 then []
    else (if keep(table[0]) then [table[0]] else []) + Select(table[1..], keep)
  }

  lemma {:induction false} SelectMembers(table: seq<Row>, keep: Row -> bool, r: Row)
    ensures r in Select(table, keep) <==> r in table && keep(r)
  {
    if |table| > 0 {
      SelectMembers(table[1..], keep, r);
      assert table == [table[0]] + table[1..];
    }
  }

  // ---------------------------------------------------------------------
  // The grouping loop

  /** Where user `u` sits in the grouping dictionary, if it is there. */
  function Find(best: seq<Row>, u: int): (k: Option<nat>)
    ensures k.Some? ==> k.value < |best| && best[k.value].userId == u
    ensures k.None? ==> forall j :: 0 <= j < |best| ==> best[j].userId != u
  {
    if |best| == 0 then None
    else if best[0].userId == u then Some(0)
    else
      match Find(best[1..], u)
      case None => None
      case Some(j) => Some(j + 1)
  }

  /** One turn of the loop: a new user is appended; a known user's row is
      replaced in place, keeping its position as a dictionary does, only
      when the new row is strictly faster. */
  function Step(best: seq<Row>, r: Row, key: Row -> int): seq<Row> {
    match Find(best, r.userId)
    case None => best + [r]
    case Some(k) => if key(r) < key(best[k]) then best[k := r] else best
  }

  /** `user_best.values()` after the loop has seen every row: no more rows
      than it was given. */
  function Group(rows: seq<Row>, key: Row -> int): (g: seq<Row>)
    ensures |g| <= |rows|
  {
    if |rows| == 0 then []
    else Step(Group(rows[..|rows| - 1], key), rows[|rows| - 1], key)
  }

  // ---------------------------------------------------------------------
  // What the loop computes, stated per user

  /** The users of `rows` in order of first appearance. */
  function Users(rows: seq<Row>): seq<int> {
    if |rows| == 0 then []
    else
      var us := Users(rows[..|rows| - 1]);
      var u := rows[|rows| - 1].userId;
      if u in us then us else us + [u]
  }

  /** `rows[k]` is the fastest row of user `u`, and no earlier row of `u`
      is as fast. */
  predicate IsBest(rows: seq<Row>, u: int, k: int, key: Row -> int) {
    && 0 <= k < |rows| && rows[k].userId == u
    && (forall j :: 0 <= j < |rows| && rows[j].userId == u ==> key(rows[k]) <= key(rows[j]))
    && (forall j :: 0 <= j < k && rows[j].userId == u ==> key(rows[k]) < key(rows[j]))
  }

  /** The index of user `u`'s best row, scanning left to right. */
  function BestOf(rows: seq<Row>, u: int, key: Row -> int): (k: Option<nat>)
    ensures k.Some? ==> k.value < |rows| && rows[k.value].userId == u
  {
    if |rows| == 0 then None
    else
      var last := |rows| - 1;
      var b := BestOf(rows[..last], u, key);
      if rows[last].userId != u then b
      else if b.None? || key(rows[last]) < key(rows[b.value]) then Some(last)
      else b
  }

  /** The scan finds the best row of every user that has rows, and finds
      nothing for any other user. */
  lemma {:induction false} BestOfIsBest(rows: seq<Row>, u: int, key: Row -> int)
    ensures BestOf(rows, u, key).Some? ==> IsBest(rows, u, BestOf(rows, u, key).value, key)
    ensures BestOf(rows, u, key).None? <==> forall j :: 0 <= j < |rows| ==> rows[j].userId != u
  {
    if |rows| > 0 {
      var last := |rows| - 1;
      var p := rows[..last];
      BestOfIsBest(p, u, key);
      assert forall j :: 0 <= j < last ==> p[j] == rows[j];
    }
  }

  lemma {:induction false} UsersDistinct(rows: seq<Row>)
    ensures forall i, j :: 0 <= i < j < |Users(rows)| ==> Users(rows)[i] != Users(rows)[j]
  {
    if |rows| > 0 {
      UsersDistinct(rows[..|rows| - 1]);
    }
  }

  /** A user is listed exactly when some row is theirs. */
  lemma {:induction false} UsersHas(rows: seq<Row>, u: int)
    ensures u in Users(rows) <==> exists j :: 0 <= j < |rows| && rows[j].userId == u
  {
    if |rows| > 0 {
      var last := |rows| - 1;
      var p := rows[..last];
      UsersHas(p, u);
      assert forall j :: 0 <= j < last ==> p[j] == rows[j];
      if u in Users(rows) && u !in Users(p) {
        assert rows[last].userId == u;
      }
    }
  }

  /** Users already seen keep their place as more rows come in. */
  lemma {:induction false} UsersPrefix(rows: seq<Row>, n: nat)
    requires n <= |rows|
    ensures |Users(rows[..n])| <= |Users(rows)|
    ensures Users(rows[..n]) == Users(rows)[..|Users(rows[..n])|]
  {
    if n < |rows| {
      assert rows[..|rows| - 1][..n] == rows[..n];
      UsersPrefix(rows[..|rows| - 1], n);
    } else {
      assert rows[..n] == rows;
    }
  }

  /** `best` holds, for each user in order of first appearance, that
      user's best row. */
  ghost predicate Represents(best: seq<Row>, rows: seq<Row>, key: Row -> int) {
    && |best| == |Users(rows)|
    && forall i :: 0 <= i < |best| ==>
      BestOf(rows, Users(rows)[i], key).Some? && best[i] == rows[BestOf(rows, Users(rows)[i], key).value]
  }

  /** The loop leaves one row per user, in order of first appearance: the
      user's best row. */
  lemma {:induction false} GroupRepresents(rows: seq<Row>, key: Row -> int)
    ensures Represents(Group(rows, key), rows, key)
  {
    if |rows| > 0 {
      var p, r := rows[..|rows| - 1], rows[|rows| - 1];
      GroupRepresents(p, key);
      assert rows == p + [r];
      if r.userId !in Users(p) {
        GroupNewUser(p, r, key);
      } else {
        GroupKnownUser(p, r, key);
      }
    }
  }

  /** A row whose user has not been seen is appended. */
  lemma GroupNewUser(p: seq<Row>, r: Row, key: Row -> int)
    requires Represents(Group(p, key), p, key)
    requires r.userId !in Users(p)
    ensures Represents(Group(p + [r], key), p + [r], key)
  {
    var rows := p + [r];
    assert rows[..|p|] == p;
    var u := r.userId;
    var g := Group(p, key);
    var us := Users(p);
    assert Users(rows) == us + [u];
    GroupUsers(p, key);
    assert Find(g, u).None?;
    assert Group(rows, key) == g + [r];
    assert BestOf(p, u, key).None? by {
      if BestOf(p, u, key).Some? {
        UsersHas(p, u);
      }
    }
    assert BestOf(rows, u, key) == Some(|p|);
    forall i | 0 <= i < |g|
      ensures BestOf(rows, Users(rows)[i], key).Some?
      ensures Group(rows, key)[i] == rows[BestOf(rows, Users(rows)[i], key).value]
    {
      assert Users(rows)[i] == us[i];
      assert us[i] != u;
      OtherUser(p, r, us[i], key);
    }
  }

  /** A row of a user already seen replaces at most that user's entry. */
  lemma GroupKnownUser(p: seq<Row>, r: Row, key: Row -> int)
    requires Represents(Group(p, key), p, key)
    requires r.userId in Users(p)
    ensures Represents(Group(p + [r], key), p + [r], key)
  {
    var rows := p + [r];
    assert rows[..|p|] == p;
    var u := r.userId;
    var g := Group(p, key);
    var us := Users(p);
    UsersDistinct(p);
    GroupUsers(p, key);
    assert Users(rows) == us;
    var m := Find(g, u).value;
    assert us[m] == u;
    forall i | 0 <= i < |g|
      ensures BestOf(rows, Users(rows)[i], key).Some?
      ensures Group(rows, key)[i] == rows[BestOf(rows, Users(rows)[i], key).value]
    {
      if i != m {
        assert us[i] != u;
        OtherUser(p, r, us[i], key);
      } else {
        assert g[m] == rows[BestOf(p, u, key).value];
      }
    }
  }

  /** The grouping lists the users of its rows in order. */
  lemma GroupUsers(p: seq<Row>, key: Row -> int)
    requires Represents(Group(p, key), p, key)
    ensures forall i :: 0 <= i < |Group(p, key)| ==> Group(p, key)[i].userId == Users(p)[i]
  {
  }

  /** A row of another user leaves `v`'s best row where it was. */
  lemma OtherUser(p: seq<Row>, r: Row, v: int, key: Row -> int)
    requires r.userId != v
    ensures BestOf(p + [r], v, key) == BestOf(p, v, key)
  {
    assert (p + [r])[..|p|] == p;
  }


  // ---------------------------------------------------------------------
  // Sorting and the limit

  /** Python's `s[:limit]`: a negative limit counts from the end. */
  function PyPrefix<T>(s: seq<T>, limit: int): (r: seq<T>)
    ensures |r| <= |s| && r == s[..|r|]
    ensures limit >= 0 ==> |r| == (if limit < |s| then limit else |s|)
    ensures limit < 0 ==> |r| == (if |s| + limit > 0 then |s| + limit else 0)
  {
    if limit >= 0 then (if limit < |s| then s[..limit] else s)
    else if |s| + limit > 0 then s[..|s| + limit]
    else []
  }

  /** A prefix of a sorted list is sorted. */
  lemma PrefixSorted<T>(s: seq<T>, n: nat, key: T -> int)
    requires n <= |s| && SortedBy(s, key)
    ensures SortedBy(s[..n], key)
  {
  }

  /** The board of the selected rows. */
  function Board(rows: seq<Row>, limit: int): seq<Row> {
    PyPrefix(SortBy(Group(rows, LapMs), LapMs), limit)
  }

  /** `get_best_competitors`: ordered by best lap, one row per user, at
      most `limit` rows. */
  function GetBestCompetitors(table: seq<Row>, limit: int): (b: seq<Row>)
    ensures SortedBy(b, LapMs)
    ensures forall i, j :: 0 <= i < j < |b| ==> b[i].userId != b[j].userId
    ensures limit >= 0 ==> |b| <= limit
  {
    BoardShape(Select(table, Listed), limit);
    Board(Select(table, Listed), limit)
  }

  /** `get_best_competitors_today`: ordered by best lap, one row per user,
      at most `limit` rows. */
  function GetBestCompetitorsToday(table: seq<Row>, today: string, limit: int): (b: seq<Row>)
    ensures SortedBy(b, LapMs)
    ensures forall i, j :: 0 <= i < j < |b| ==> b[i].userId != b[j].userId
    ensures limit >= 0 ==> |b| <= limit
  {
    BoardShape(Select(table, ListedOn(today)), limit);
    Board(Select(table, ListedOn(today)), limit)
  }

  /** The board is ordered by best lap; it holds one row per user, cut to
      the limit; users tied on time stay in order of first appearance. */
  lemma BoardShape(rows: seq<Row>, limit: int)
    ensures SortedBy(Board(rows, limit), LapMs)
    ensures limit >= 0 ==> |Board(rows, limit)| == (if limit < |Users(rows)| then limit else |Users(rows)|)
    ensures forall i, j :: 0 <= i < j < |Board(rows, limit)| ==> Board(rows, limit)[i].userId != Board(rows, limit)[j].userId
    ensures forall k :: KeyFilter(SortBy(Group(rows, LapMs), LapMs), LapMs, k) == KeyFilter(Group(rows, LapMs), LapMs, k)
  {
    var g := Group(rows, LapMs);
    var s := SortBy(g, LapMs);
    var b := Board(rows, limit);
    GroupRepresents(rows, LapMs);
    UsersDistinct(rows);
    PrefixSorted(s, |b|, LapMs);
    forall k ensures KeyFilter(s, LapMs, k) == KeyFilter(g, LapMs, k) {
      SortByStable(g, LapMs, k);
    }
    forall i, j | 0 <= i < j < |b| ensures b[i].userId != b[j].userId {
      UniqueUsersInSort(g, rows, i, j);
    }
  }

  function UserOf(r: Row): int { r.userId }

  lemma UniqueUsersInSort(g: seq<Row>, rows: seq<Row>, i: int, j: int)
    requires Represents(g, rows, LapMs)
    requires 0 <= i < j < |SortBy(g, LapMs)|
    ensures SortBy(g, LapMs)[i].userId != SortBy(g, LapMs)[j].userId
    ensures UserOf(SortBy(g, LapMs)[i]) != UserOf(SortBy(g, LapMs)[j])
  {
    UsersDistinct(rows);
    assert DistinctBy(g, UserOf);
    SortByDistinct(g, LapMs, UserOf);
  }

  /** Every row on the board is its user's best row. */
  lemma BoardRow(rows: seq<Row>, limit: int, i: int) returns (k: nat)
    requires 0 <= i < |Board(rows, limit)|
    ensures IsBest(rows, Board(rows, limit)[i].userId, k, LapMs)
    ensures Board(rows, limit)[i] == rows[k]
  {
    var g := Group(rows, LapMs);
    var s := SortBy(g, LapMs);
    assert Board(rows, limit)[i] == s[i];
    SortByMember(g, LapMs, i);
    GroupRepresents(rows, LapMs);
    var m :| 0 <= m < |g| && g[m] == s[i];
    var u := Users(rows)[m];
    k := BestOf(rows, u, LapMs).value;
    BestOfIsBest(rows, u, LapMs);
  }

  /** Every row on a board of selected rows is a row of the table that the
      selection accepts. */
  lemma BoardSelected(table: seq<Row>, keep: Row -> bool, limit: int, i: int)
    requires 0 <= i < |Board(Select(table, keep), limit)|
    ensures Board(Select(table, keep), limit)[i] in table
    ensures keep(Board(Select(table, keep), limit)[i])
  {
    var rows := Select(table, keep);
    var k := BoardRow(rows, limit, i);
    SelectMembers(table, keep, rows[k]);
  }

  /** The all-time board lists only rows with a best lap that is not blank
      or `-`. */
  lemma BestCompetitorsListed(table: seq<Row>, limit: int, i: int)
    requires 0 <= i < |GetBestCompetitors(table, limit)|
    ensures GetBestCompetitors(table, limit)[i] in table
    ensures Listed(GetBestCompetitors(table, limit)[i])
  {
    BoardSelected(table, Listed, limit, i);
  }

  /** Today's board lists only today's rows with a best lap. */
  lemma BestCompetitorsTodayListed(table: seq<Row>, today: string, limit: int, i: int)
    requires 0 <= i < |GetBestCompetitorsToday(table, today, limit)|
    ensures GetBestCompetitorsToday(table, today, limit)[i] in table
    ensures GetBestCompetitorsToday(table, today, limit)[i].date == today
    ensures Listed(GetBestCompetitorsToday(table, today, limit)[i])
  {
    BoardSelected(table, ListedOn(today), limit, i);
  }
}
