/**
 * The conversion loop of `convert_csv_to_json`
 * (data-processing/convert_events.py, lines 237-312): each decoded row is
 * turned into a meeting record or skipped, the records are appended in row
 * order, and the list is finally sorted by date, newest first, with
 * `list.sort(key=..., reverse=True)`, which is stable.
 */
module Conversion {
  import opened Wrappers
  import opened Text
  import opened Dates
  import opened Rows

  // ---------------------------------------------------------------------------
  // which rows survive

  /** What the loop body does with each row: a record, or `None` for a skip. */
  function Records(rows: seq<Row>, today: Date): (r: seq<Option<Meeting>>)
    ensures |r| == |rows|
    ensures forall i :: 0 <= i < |rows| ==> r[i] == RowRecord(rows[i], today)
  {
    seq(|rows|, i requires 0 <= i < |rows| => RowRecord(rows[i], today))
  }

  /** The records that were not skipped, in order. */
  function Kept(records: seq<Option<Meeting>>): seq<Meeting> {
    if records == [] then []
    else
      var last := records[|records| - 1];
      Kept(records[..|records| - 1]) + (if last.Some? then [last.value] else [])
  }

  /** The records appended by the loop, in row order. */
  function Survivors(rows: seq<Row>, today: Date): seq<Meeting> {
    Kept(Records(rows, today))
  }

  lemma KeptStep(records: seq<Option<Meeting>>, i: int)
    requires 0 <= i < |records|
    ensures Kept(records[..i + 1]) == Kept(records[..i]) + (if records[i].Some? then [records[i].value] else [])
  {
    assert records[..i + 1][..i] == records[..i];
  }

  /** Exactly the present records are kept. */
  lemma {:induction false} KeptMembers(records: seq<Option<Meeting>>)
    ensures forall m :: m in Kept(records) <==> Some(m) in records
    ensures |Kept(records)| <= |records|
  {
    if records != [] {
      var n := |records| - 1;
      KeptMembers(records[..n]);
      assert records == records[..n] + [records[n]];
    }
  }

  /** A record survives exactly when some row yields it. */
  lemma SurvivorsFromRows(rows: seq<Row>, today: Date)
    ensures forall m :: m in Survivors(rows, today) <==>
      exists i :: 0 <= i < |rows| && RowRecord(rows[i], today) == Some(m)
    ensures |Survivors(rows, today)| <= |rows|
  {
    var records := Records(rows, today);
    KeptMembers(records);
    forall m
      ensures Some(m) in records <==> exists i :: 0 <= i < |rows| && RowRecord(rows[i], today) == Some(m)
    {
      if Some(m) in records {
        var i :| 0 <= i < |records| && records[i] == Some(m);
      }
    }
  }

  /** Every surviving record is well formed. */
  lemma SurvivorsWellFormed(rows: seq<Row>, today: Date)
    ensures forall m :: m in Survivors(rows, today) ==> WellFormed(m, today)
  {
    SurvivorsFromRows(rows, today);
    forall m | m in Survivors(rows, today)
      ensures WellFormed(m, today)
    {
      var i :| 0 <= i < |rows| && RowRecord(rows[i], today) == Some(m);
      RecordWellFormed(rows[i], today);
    }
  }

  // ---------------------------------------------------------------------------
  // the stable descending sort of line 312

  /** Newest first: no element's key is after the key of any element before it. */
  predicate SortedNewestFirst<T>(s: seq<T>, key: T -> Date) {
    forall i, j :: 0 <= i < j < |s| ==> NotAfter(key(s[j]), key(s[i]))
  }

  predicate AdjacentNewestFirst<T>(s: seq<T>, key: T -> Date) {
    forall i :: 0 <= i < |s| - 1 ==> NotAfter(key(s[i + 1]), key(s[i]))
  }

  /** The elements whose key is `d`, in their order in `s`. */
  function WithKey<T>(s: seq<T>, key: T -> Date, d: Date): seq<T> {
    if s == [] then []
    else (if key(s[0]) == d then [s[0]] else []) + WithKey(s[1..], key, d)
  }

  /** Places `x` before the first element whose key is not after its own, so
      that `x` stays ahead of the elements with an equal key. */
  function Insert<T>(x: T, s: seq<T>, key: T -> Date): (r: seq<T>)
    ensures |r| == |s| + 1
    ensures r[0] == x || (s != [] && r[0] == s[0])
  {
    if s == [] || NotAfter(key(s[0]), key(x)) then [x] + s
    else [s[0]] + Insert(x, s[1..], key)
  }

  /** `s.sort(key=key, reverse=True)` on a list whose keys can all be computed. */
  function SortByKey<T>(s: seq<T>, key: T -> Date): seq<T> {
    if s == [] then [] else Insert(s[0], SortByKey(s[1..], key), key)
  }

  /** Every sort key can be computed. */
  predicate AllDatesParse(s: seq<Meeting>) {
    forall k :: 0 <= k < |s| ==> Strptime(Dotted, s[k].date).Some?
  }

  /** Line 312 with its handler at 313: the list sorted by date, newest first,
      or the list unchanged when some key raises. */
  function SortMeetings(s: seq<Meeting>): seq<Meeting> {
    if AllDatesParse(s) then SortByKey(s, MeetingDate) else s
  }

  lemma {:induction false} InsertKeepsOrder<T>(x: T, s: seq<T>, key: T -> Date)
    requires AdjacentNewestFirst(s, key)
    ensures AdjacentNewestFirst(Insert(x, s, key), key)
  {
    if s != [] && !NotAfter(key(s[0]), key(x)) {
      InsertKeepsOrder(x, s[1..], key);
    }
  }

  lemma {:induction false} InsertPermutes<T>(x: T, s: seq<T>, key: T -> Date)
    ensures multiset(Insert(x, s, key)) == multiset(s) + multiset{x}
  {
    if s != [] && !NotAfter(key(s[0]), key(x)) {
      InsertPermutes(x, s[1..], key);
      assert s == [s[0]] + s[1..];
    }
  }

  lemma WithKeyCons<T>(x: T, s: seq<T>, key: T -> Date, d: Date)
    ensures WithKey([x] + s, key, d) == (if key(x) == d then [x] else []) + WithKey(s, key, d)
  {
    assert ([x] + s)[1..] == s;
  }

  /** Inserting `x` keeps it ahead of every element with its own key. */
  lemma {:induction false} InsertStable<T>(x: T, s: seq<T>, key: T -> Date, d: Date)
    ensures WithKey(Insert(x, s, key), key, d) == WithKey([x] + s, key, d)
  {
    if s != [] && !NotAfter(key(s[0]), key(x)) {
      InsertStable(x, s[1..], key, d);
      WithKeyCons(s[0], Insert(x, s[1..], key), key, d);
      WithKeyCons(x, s[1..], key, d);
      WithKeyCons(x, s, key, d);
      WithKeyCons(s[0], s[1..], key, d);
      assert s == [s[0]] + s[1..];
    }
  }

  lemma {:induction false} AdjacentToPairwise<T>(s: seq<T>, key: T -> Date)
    requires AdjacentNewestFirst(s, key)
    ensures SortedNewestFirst(s, key)
  {
    if |s| > 1 {
      AdjacentToPairwise(s[1..], key);
      forall j | 0 < j < |s|
        ensures NotAfter(key(s[j]), key(s[0]))
      {
        assert s[j] == s[1..][j - 1];
        assert NotAfter(key(s[1]), key(s[0]));
        if j > 1 {
          assert NotAfter(key(s[1..][j - 1]), key(s[1..][0]));
        }
      }
      forall i, j | 0 <= i < j < |s|
        ensures NotAfter(key(s[j]), key(s[i]))
      {
        if i > 0 {
          assert s[i] == s[1..][i - 1] && s[j] == s[1..][j - 1];
        }
      }
    }
  }

  lemma {:induction false} SortByKeyAdjacent<T>(s: seq<T>, key: T -> Date)
    ensures AdjacentNewestFirst(SortByKey(s, key), key)
  {
    if s != [] {
      SortByKeyAdjacent(s[1..], key);
      InsertKeepsOrder(s[0], SortByKey(s[1..], key), key);
    }
  }

  /** The sort orders newest first, is a permutation, and keeps the elements
      with equal keys in their input order. */
  lemma {:induction false} SortByKeySpec<T>(s: seq<T>, key: T -> Date)
    ensures SortedNewestFirst(SortByKey(s, key), key)
    ensures multiset(SortByKey(s, key)) == multiset(s)
    ensures forall d :: WithKey(SortByKey(s, key), key, d) == WithKey(s, key, d)
  {
    SortByKeyAdjacent(s, key);
    AdjacentToPairwise(SortByKey(s, key), key);
    if s != [] {
      var rest := SortByKey(s[1..], key);
      SortByKeySpec(s[1..], key);
      InsertPermutes(s[0], rest, key);
      assert s == [s[0]] + s[1..];
      forall d
        ensures WithKey(SortByKey(s, key), key, d) == WithKey(s, key, d)
      {
        InsertStable(s[0], rest, key, d);
        WithKeyCons(s[0], rest, key, d);
        WithKeyCons(s[0], s[1..], key, d);
      }
    }
  }

  /** The sort key never raises on records the loop emits, so the sort at line
      312 always takes effect: the output is newest first, a permutation of the
      surviving records that keeps the row order among records of one date,
      and holds only well-formed records. */
  lemma OutputSpec(rows: seq<Row>, today: Date)
    ensures var s := Survivors(rows, today);
      && SortMeetings(s) == SortByKey(s, MeetingDate)
      && SortedNewestFirst(SortMeetings(s), MeetingDate)
      && multiset(SortMeetings(s)) == multiset(s)
      && (forall d :: WithKey(SortMeetings(s), MeetingDate, d) == WithKey(s, MeetingDate, d))
      && (forall m :: m in SortMeetings(s) ==> WellFormed(m, today))
  {
    SurvivorsWellFormed(rows, today);
    var s := Survivors(rows, today);
    forall k | 0 <= k < |s|
      ensures Strptime(Dotted, s[k].date).Some?
    {
      assert s[k] in s;
    }
    SortByKeySpec(s, MeetingDate);
    forall m | m in SortByKey(s, MeetingDate)
      ensures m in s
    {
      assert m in multiset(SortByKey(s, MeetingDate));
    }
  }

  // ---------------------------------------------------------------------------
  // the loop

  /** `convert_csv_to_json` from decoded rows to the sorted list it writes out,
      with `today` standing for the wall-clock date. */
  method ConvertRows(rows: seq<Row>, today: Date) returns (meetings: seq<Meeting>)
    ensures meetings == SortMeetings(Survivors(rows, today))
    ensures SortedNewestFirst(meetings, MeetingDate)
    ensures multiset(meetings) == multiset(Survivors(rows, today))
    ensures forall d :: WithKey(meetings, MeetingDate, d) == WithKey(Survivors(rows, today), MeetingDate, d)
    ensures forall m :: m in meetings ==> WellFormed(m, today)
  {
    ghost var records := Records(rows, today);
    meetings := [];
    for i := 0 to |rows|
      invariant meetings == Kept(records[..i])
    {
      var row := rows[i];
      KeptStep(records, i);
      var dateText := ParseDate(Cell(row, "Date"));
      if dateText.None? {
        continue;
      }
      var parsed := Strptime(Dotted, dateText.value);
      if parsed.None? {
        continue;
      }
      var meetingDate := parsed.value;
      if IsFreeSlot(row) {
        continue;
      }
      var presenter := Clean(Cell(row, "Presenter"));
      var eventName := Clean(Cell(row, "Event Name"));
      var sessionType := DetermineSessionType(row);
      if presenter == "" && eventName == "" {
        continue;
      }
      var location := GetLocationInfo(row, meetingDate, today);
      var meeting := Meeting(
        dateText.value,
        if presenter != "" then presenter else Placeholder,
        if eventName != "" then eventName else Placeholder,
        sessionType, None, None, None, None, None);
      if location != "" {
        meeting := meeting.(location := Some(location));
      }
      var abstractText := GetAbstractInfo(row, meetingDate, sessionType);
      if abstractText.Some? {
        meeting := meeting.(abstractText := abstractText);
      }
      var bio := GetBioInfo(row, meetingDate, sessionType);
      if bio.Some? {
        meeting := meeting.(presenterBio := bio);
      }
      var paperLinks := GetPaperLinks(row, meetingDate);
      if paperLinks.Some? {
        meeting := meeting.(paperLinks := paperLinks);
      }
      if "authors" in row && Clean(row["authors"]) != "" {
        meeting := meeting.(authors := Some(Clean(row["authors"])));
      }
      meetings := meetings + [meeting];
    }
    assert records[..|rows|] == records;
    OutputSpec(rows, today);
    meetings := SortMeetings(meetings);
  }
}
