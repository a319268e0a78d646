/**
 * What happens to one spreadsheet row (data-processing/convert_events.py,
 * lines 105-220 and the body of the loop at lines 237-297): session-type
 * classification, free-slot detection, the location policy that depends on
 * today's date, the detail policy that depends on a fixed cutover, and the
 * meeting record that is built from it all.
 */
module Rows {
  import opened Wrappers
  import opened Text
  import opened Dates

  /** One decoded spreadsheet row: column name to cell text. */
  type Row = map<string, string>

  /** `row.get(key, '')`. */
  function Cell(row: Row, key: string): string {
    if key in row then row[key] else ""
  }

  datatype SessionType = Seminar | JournalClub {
    /** The value written under the `type` key. */
    function Name(): string {
      match this
      case Seminar => "seminar"
      case JournalClub => "journal_club"
    }
  }

  const SeminarTypes: set<string> := {"seminar", "talk", "presentation"}
  const JournalClubTypes: set<string> := {"journal club", "reading group"}
  const FreeSlotPhrase := "free for booking"
  const InstituteSuffix := " (Alan Turing Institute) & online"
  const Placeholder := "TBA"

  /** Abstracts, bios and paper links are shown only for meetings after this day (line 162). */
  const DetailCutover := Date(2025, 7, 28)

  /** The Type of Session column as `determine_session_type` compares it. */
  function TypeText(row: Row): string {
    Lower(Clean(Cell(row, "Type of Session")))
  }

  /** The Event Name column as `determine_session_type` searches it. */
  function EventText(row: Row): string {
    Lower(Clean(Cell(row, "Event Name")))
  }

  /** `determine_session_type`: the explicit Type of Session column first, then
      hints in the event name, then `seminar`.  The branch for a TBA event name
      (line 116) returns the same value as the final default. */
  function DetermineSessionType(row: Row): SessionType {
    if TypeText(row) in SeminarTypes then Seminar
    else if TypeText(row) in JournalClubTypes then JournalClub
    else if Contains(EventText(row), "reading group") || Contains(EventText(row), "journal club") then JournalClub
    else Seminar
  }

  /** `is_free_slot`. */
  predicate IsFreeSlot(row: Row) {
    var presenter := Clean(Cell(row, "Presenter"));
    var eventName := Clean(Cell(row, "Event Name"));
    || Lower(presenter) == FreeSlotPhrase
    || Lower(eventName) == FreeSlotPhrase
    || (presenter == "" && eventName == "")
  }

  /** `get_location_info`, with the wall clock replaced by `today`: a midnight
      `meeting_date` is at most `datetime.now()` exactly when its day is at most
      today's date. */
  function GetLocationInfo(row: Row, meetingDate: Date, today: Date): (r: string)
    ensures r == "" <==> NotAfter(meetingDate, today)
  {
    if NotAfter(meetingDate, today) then ""
    else
      var room := Clean(Cell(row, "Room"));
      var zoom := Clean(Cell(row, "Zoom Link"));
      if room != "" && zoom != "" then room + InstituteSuffix
      else if room != "" then room + InstituteSuffix
      else if zoom != "" then "Online (Zoom)"
      else Placeholder
  }

  /** `should_include_detailed_info`. */
  predicate ShouldIncludeDetailedInfo(meetingDate: Date) {
    IsAfter(meetingDate, DetailCutover)
  }

  /** `get_abstract_info`. */
  function GetAbstractInfo(row: Row, meetingDate: Date, sessionType: SessionType): (r: Option<string>)
    ensures r.None? <==>
      !ShouldIncludeDetailedInfo(meetingDate) || (AllSpace(Cell(row, "Abstract")) && sessionType == JournalClub)
    ensures r.Some? ==> r.value != "" && Normalized(r.value)
    ensures r.Some? && !AllSpace(Cell(row, "Abstract")) ==> r.value == Clean(Cell(row, "Abstract"))
    ensures r.Some? && AllSpace(Cell(row, "Abstract")) ==> r.value == Placeholder
  {
    CleanSpec(Cell(row, "Abstract"));
    if !ShouldIncludeDetailedInfo(meetingDate) then None
    else
      var text := Clean(Cell(row, "Abstract"));
      if text != "" then Some(text)
      else match sessionType
        case Seminar => Some(Placeholder)
        case JournalClub => None
  }

  /** `get_bio_info`. */
  function GetBioInfo(row: Row, meetingDate: Date, sessionType: SessionType): (r: Option<string>)
    ensures r.Some? <==>
      ShouldIncludeDetailedInfo(meetingDate) && sessionType == Seminar && !AllSpace(Cell(row, "Bio for Speaker"))
    ensures r.Some? ==> r.value == Clean(Cell(row, "Bio for Speaker")) && r.value != "" && Normalized(r.value)
  {
    CleanSpec(Cell(row, "Bio for Speaker"));
    if !ShouldIncludeDetailedInfo(meetingDate) then None
    else if sessionType != Seminar then None
    else
      var bio := Clean(Cell(row, "Bio for Speaker"));
      if bio != "" then Some(bio) else None
  }

  /** `[link.strip() for link in pieces if link.strip()]`. */
  function TrimmedLinks(pieces: seq<string>): (links: seq<string>)
    ensures forall k :: 0 <= k < |links| ==> links[k] != "" && NoEdgeSpace(links[k])
  {
    if pieces == [] then []
    else
      var link := Strip(pieces[0]);
      StripSlice(pieces[0]);
      (if link != "" then [link] else []) + TrimmedLinks(pieces[1..])
  }

  /** `s` with every entry increased by one. */
  function Shifted(s: seq<nat>): (r: seq<nat>)
    ensures |r| == |s| && forall k :: 0 <= k < |s| ==> r[k] == s[k] + 1
  {
    seq(|s|, k requires 0 <= k < |s| => s[k] + 1)
  }

  /** The positions of the pieces that are not blank, in order. */
  function NonBlankIndices(pieces: seq<string>): seq<nat> {
    if pieces == [] then []
    else (if Strip(pieces[0]) != "" then [0] else []) + Shifted(NonBlankIndices(pieces[1..]))
  }

  /** One step of both lists: a non-blank first piece contributes the first
      link and position 0, and the rest are those of the remaining pieces. */
  lemma LinksStep(pieces: seq<string>)
    requires pieces != []
    ensures var n := if Strip(pieces[0]) != "" then 1 else 0;
      && TrimmedLinks(pieces) == (if n == 1 then [Strip(pieces[0])] else []) + TrimmedLinks(pieces[1..])
      && NonBlankIndices(pieces) == (if n == 1 then [0] else []) + Shifted(NonBlankIndices(pieces[1..]))
  {
  }

  /** The `k`-th link is the trimmed piece at the `k`-th non-blank position. */
  lemma {:induction false} LinksAtIndices(pieces: seq<string>)
    ensures var links := TrimmedLinks(pieces);
      var idx := NonBlankIndices(pieces);
      && |idx| == |links|
      && forall k :: 0 <= k < |idx| ==> 0 <= idx[k] < |pieces| && links[k] == Strip(pieces[idx[k]])
  {
    if pieces != [] {
      var rest := pieces[1..];
      LinksAtIndices(rest);
      LinksStep(pieces);
      var links', idx' := TrimmedLinks(rest), NonBlankIndices(rest);
      var n := if Strip(pieces[0]) != "" then 1 else 0;
      var links, idx := TrimmedLinks(pieces), NonBlankIndices(pieces);
      forall k | n <= k < |idx|
        ensures 0 <= idx[k] < |pieces| && links[k] == Strip(pieces[idx[k]])
      {
        assert idx[k] == idx'[k - n] + 1;
        assert links[k] == links'[k - n];
        assert pieces[idx[k]] == rest[idx'[k - n]];
      }
    }
  }

  predicate Increasing(s: seq<nat>) {
    forall k, l :: 0 <= k < l < |s| ==> s[k] < s[l]
  }

  /** Shifting an increasing sequence keeps it increasing, and position 0 may
      go in front of the result. */
  lemma ShiftedIncreasing(s: seq<nat>)
    requires Increasing(s)
    ensures Increasing(Shifted(s)) && Increasing([0] + Shifted(s))
  {
    var t := [0] + Shifted(s);
    forall k, l | 0 <= k < l < |t|
      ensures t[k] < t[l]
    {
      if k > 0 {
        assert s[k - 1] < s[l - 1];
      }
    }
  }

  /** The non-blank positions are listed in increasing order. */
  lemma {:induction false} IndicesIncrease(pieces: seq<string>)
    ensures Increasing(NonBlankIndices(pieces))
  {
    if pieces != [] {
      IndicesIncrease(pieces[1..]);
      ShiftedIncreasing(NonBlankIndices(pieces[1..]));
    }
  }

  /** Every non-blank piece has its position listed. */
  lemma {:induction false} IndicesCover(pieces: seq<string>)
    ensures forall j :: 0 <= j < |pieces| && Strip(pieces[j]) != "" ==> j in NonBlankIndices(pieces)
  {
    if pieces != [] {
      var rest := pieces[1..];
      var idx' := NonBlankIndices(rest);
      IndicesCover(rest);
      var n := if Strip(pieces[0]) != "" then 1 else 0;
      var idx := NonBlankIndices(pieces);
      assert idx == (if n == 1 then [0] else []) + Shifted(idx');
      forall j | 0 <= j < |pieces| && Strip(pieces[j]) != ""
        ensures j in idx
      {
        if j == 0 {
          assert idx[0] == 0;
        } else {
          assert Strip(rest[j - 1]) != "";
          var k :| 0 <= k < |idx'| && idx'[k] == j - 1;
          assert idx[k + n] == j;
        }
      }
    }
  }

  /** The links are the trimmed pieces at the positions of the non-blank pieces,
      in their original order: the positions increase, and every non-blank piece
      has one. */
  lemma TrimmedLinksPieces(pieces: seq<string>)
    ensures var links := TrimmedLinks(pieces);
      var idx := NonBlankIndices(pieces);
      && |idx| == |links|
      && (forall k :: 0 <= k < |idx| ==> 0 <= idx[k] < |pieces| && links[k] == Strip(pieces[idx[k]]))
      && Increasing(idx)
      && (forall j :: 0 <= j < |pieces| && Strip(pieces[j]) != "" ==> j in idx)
  {
    LinksAtIndices(pieces);
    IndicesIncrease(pieces);
    IndicesCover(pieces);
  }

  /** Every paper link is non-empty, trimmed and holds no comma. */
  predicate LinksWellFormed(links: seq<string>) {
    forall k :: 0 <= k < |links| ==> links[k] != "" && NoEdgeSpace(links[k]) && ',' !in links[k]
  }

  /** `get_paper_links`. */
  function GetPaperLinks(row: Row, meetingDate: Date): (r: Option<seq<string>>)
    ensures r.Some? ==> ShouldIncludeDetailedInfo(meetingDate) && r.value != [] && LinksWellFormed(r.value)
  {
    if !ShouldIncludeDetailedInfo(meetingDate) then None
    else
      var text := Clean(Cell(row, "Paper Links"));
      if text == "" then None
      else
        var pieces := Split(text, ',');
        SplitPiecesFree(text, ',');
        LinksCommaFree(pieces);
        var links := TrimmedLinks(pieces);
        if links != [] then Some(links) else None
  }

  /** Trimming a comma-free piece leaves it comma-free. */
  lemma {:induction false} LinksCommaFree(pieces: seq<string>)
    requires forall p :: p in pieces ==> ',' !in p
    ensures forall l :: l in TrimmedLinks(pieces) ==> ',' !in l
  {
    if pieces != [] {
      var p := pieces[0];
      StripIsSlice(p);
      assert ',' !in Strip(p) by {
        assert p in pieces;
        var i := StripStart(p);
        forall k | 0 <= k < |Strip(p)|
          ensures Strip(p)[k] != ','
        {
          assert Strip(p)[k] == p[i + k];
        }
      }
      LinksCommaFree(pieces[1..]);
      assert TrimmedLinks(pieces) == (if Strip(p) != "" then [Strip(p)] else []) + TrimmedLinks(pieces[1..]);
    }
  }

  /** A meeting record; `None` stands for a key that is absent from the JSON object. */
  datatype Meeting = Meeting(
    date: string,
    presenter: string,
    title: string,
    sessionType: SessionType,
    location: Option<string>,
    abstractText: Option<string>,
    presenterBio: Option<string>,
    paperLinks: Option<seq<string>>,
    authors: Option<string>)

  function OrPlaceholder(s: string): string {
    if s != "" then s else Placeholder
  }

  /** The record the loop body at lines 238-297 appends for `row`, or `None` when
      it skips the row.  The re-parse of the date (line 246) is guarded by the
      per-row exception handler at line 299, modelled as a skip. */
  function RowRecord(row: Row, today: Date): Option<Meeting> {
    match ParseDate(Cell(row, "Date"))
    case None => None
    case Some(dateText) =>
      match Strptime(Dotted, dateText)
      case None => None
      case Some(meetingDate) =>
        var presenter := Clean(Cell(row, "Presenter"));
        var eventName := Clean(Cell(row, "Event Name"));
        if IsFreeSlot(row) || (presenter == "" && eventName == "") then None
        else
          var sessionType := DetermineSessionType(row);
          var location := GetLocationInfo(row, meetingDate, today);
          var authors := Clean(Cell(row, "authors"));
          Some(Meeting(
            dateText, OrPlaceholder(presenter), OrPlaceholder(eventName), sessionType,
            if location != "" then Some(location) else None,
            GetAbstractInfo(row, meetingDate, sessionType),
            GetBioInfo(row, meetingDate, sessionType),
            GetPaperLinks(row, meetingDate),
            if authors != "" then Some(authors) else None))
  }

  /** The date a record is sorted by (line 312). */
  function MeetingDate(m: Meeting): Date {
    match Strptime(Dotted, m.date)
    case Some(d) => d
    case None => Date(0, 0, 0)
  }

  // ---------------------------------------------------------------------------
  // session type

  /** The explicit Type of Session wins over any hint in the event name; only
      without a recognised type does a "reading group" or "journal club" in the
      event name make a journal club, and everything else is a seminar. */
  lemma SessionTypeRule(row: Row)
    ensures DetermineSessionType(row) == JournalClub <==>
      TypeText(row) in JournalClubTypes
      || (TypeText(row) !in SeminarTypes
          && ((exists i :: OccursAt(EventText(row), "reading group", i))
              || (exists i :: OccursAt(EventText(row), "journal club", i))))
    ensures TypeText(row) in SeminarTypes ==> DetermineSessionType(row) == Seminar
  {
    ContainsSpec(EventText(row), "reading group");
    ContainsSpec(EventText(row), "journal club");
  }

  /** A row is a free slot exactly when its presenter or its event name reads
      "free for booking" once cleaned and lower-cased, or when both columns are
      blank. */
  lemma FreeSlotRule(row: Row)
    ensures IsFreeSlot(row) <==>
      || Lower(Clean(Cell(row, "Presenter"))) == FreeSlotPhrase
      || Lower(Clean(Cell(row, "Event Name"))) == FreeSlotPhrase
      || (AllSpace(Cell(row, "Presenter")) && AllSpace(Cell(row, "Event Name")))
  {
    CleanSpec(Cell(row, "Presenter"));
    CleanSpec(Cell(row, "Event Name"));
  }

  // ---------------------------------------------------------------------------
  // location and details

  /** For a meeting after today: the room wins, with or without a Zoom link; a
      Zoom link alone means online; with neither the location is TBA. */
  lemma LocationPolicy(row: Row, meetingDate: Date, today: Date)
    requires IsAfter(meetingDate, today)
    ensures var room := Clean(Cell(row, "Room"));
      !AllSpace(Cell(row, "Room")) ==> GetLocationInfo(row, meetingDate, today) == room + InstituteSuffix
    ensures AllSpace(Cell(row, "Room")) && !AllSpace(Cell(row, "Zoom Link")) ==>
      GetLocationInfo(row, meetingDate, today) == "Online (Zoom)"
    ensures AllSpace(Cell(row, "Room")) && AllSpace(Cell(row, "Zoom Link")) ==>
      GetLocationInfo(row, meetingDate, today) == Placeholder
  {
    CleanSpec(Cell(row, "Room"));
    CleanSpec(Cell(row, "Zoom Link"));
  }

  /** No abstract, bio or paper links for a meeting on or before the detail cutover. */
  lemma DetailsHiddenUntilCutover(row: Row, meetingDate: Date, sessionType: SessionType)
    requires NotAfter(meetingDate, DetailCutover)
    ensures GetAbstractInfo(row, meetingDate, sessionType).None?
    ensures GetBioInfo(row, meetingDate, sessionType).None?
    ensures GetPaperLinks(row, meetingDate).None?
  {
  }

  // ---------------------------------------------------------------------------
  // paper links lose no text

  function DropCommas(s: string): string {
    if s == [] then [] else (if s[0] == ',' then [] else [s[0]]) + DropCommas(s[1..])
  }

  /** The characters of `s` other than whitespace and commas, in order. */
  function Visible(s: string): string {
    DropCommas(NonSpace(s))
  }

  function Concat(ss: seq<string>): string {
    if ss == [] then [] else ss[0] + Concat(ss[1..])
  }

  function VisibleOfAll(ss: seq<string>): string {
    if ss == [] then [] else Visible(ss[0]) + VisibleOfAll(ss[1..])
  }

  lemma {:induction false} DropCommasAppend(a: string, b: string)
    ensures DropCommas(a + b) == DropCommas(a) + DropCommas(b)
  {
    if a == [] {
      assert a + b == b;
    } else {
      assert (a + b)[1..] == a[1..] + b;
      DropCommasAppend(a[1..], b);
    }
  }

  lemma VisibleAppend(a: string, b: string)
    ensures Visible(a + b) == Visible(a) + Visible(b)
  {
    NonSpaceAppend(a, b);
    DropCommasAppend(NonSpace(a), NonSpace(b));
  }

  lemma {:induction false} VisibleOfJoin(parts: seq<string>)
    requires |parts| >= 1
    ensures Visible(Join(parts, ',')) == VisibleOfAll(parts)
  {
    if |parts| > 1 {
      VisibleOfJoin(parts[1..]);
      VisibleAppend(parts[0] + [','], Join(parts[1..], ','));
      VisibleAppend(parts[0], [',']);
      assert Visible([',']) == [];
    }
  }

  lemma {:induction false} VisibleOfLinks(pieces: seq<string>)
    ensures Visible(Concat(TrimmedLinks(pieces))) == VisibleOfAll(pieces)
  {
    if pieces != [] {
      var p := pieces[0];
      var rest := TrimmedLinks(pieces[1..]);
      VisibleOfLinks(pieces[1..]);
      StripKeepsContent(p);
      assert Visible(Strip(p)) == Visible(p);
      if Strip(p) != "" {
        assert TrimmedLinks(pieces) == [Strip(p)] + rest;
        assert Concat([Strip(p)] + rest) == Strip(p) + Concat(rest);
        VisibleAppend(Strip(p), Concat(rest));
      } else {
        assert TrimmedLinks(pieces) == rest;
      }
    }
  }

  /** Splitting the Paper Links cell loses nothing but whitespace and the commas
      between links: when details are shown, the links hold exactly the cell's
      other characters, and when no list is produced the cell had none. */
  lemma PaperLinksKeepText(row: Row, meetingDate: Date)
    requires ShouldIncludeDetailedInfo(meetingDate)
    ensures var cell := Cell(row, "Paper Links");
      match GetPaperLinks(row, meetingDate)
      case Some(links) => Visible(Concat(links)) == Visible(cell)
      case None => Visible(cell) == []
  {
    var cell := Cell(row, "Paper Links");
    var text := Clean(cell);
    CleanSpec(cell);
    assert Visible(text) == Visible(cell);
    if text != "" {
      var pieces := Split(text, ',');
      JoinSplit(text, ',');
      VisibleOfJoin(pieces);
      VisibleOfLinks(pieces);
    }
  }

  /** With details shown, the paper links are the trimmed non-blank pieces of
      the cleaned Paper Links cell split at its commas, in order; no list is
      produced exactly when every such piece is blank. */
  lemma PaperLinksArePieces(row: Row, meetingDate: Date)
    requires ShouldIncludeDetailedInfo(meetingDate)
    ensures var pieces := Split(Clean(Cell(row, "Paper Links")), ',');
      var idx := NonBlankIndices(pieces);
      match GetPaperLinks(row, meetingDate)
      case Some(links) =>
        && |links| == |idx| && idx != []
        && forall k :: 0 <= k < |idx| ==> 0 <= idx[k] < |pieces| && links[k] == Strip(pieces[idx[k]])
      case None =>
        forall j :: 0 <= j < |pieces| ==> Strip(pieces[j]) == ""
  {
    var pieces := Split(Clean(Cell(row, "Paper Links")), ',');
    TrimmedLinksPieces(pieces);
    if Clean(Cell(row, "Paper Links")) == "" {
      assert pieces == [""];
    }
  }

  // ---------------------------------------------------------------------------
  // the record of one row

  /** A displayable name: cleaned, non-empty and not the free-slot marker. */
  predicate Shown(s: string) {
    s != "" && Normalized(s) && Lower(s) != FreeSlotPhrase
  }

  /** What every emitted record satisfies, given today's date. */
  predicate WellFormed(m: Meeting, today: Date) {
    var parsed := Strptime(Dotted, m.date);
    && parsed.Some?
    && Shown(m.presenter) && Shown(m.title)
    && (m.location.Some? <==> IsAfter(parsed.value, today))
    && (m.location.Some? ==> m.location.value != "")
    && (!ShouldIncludeDetailedInfo(parsed.value) ==>
          m.abstractText.None? && m.presenterBio.None? && m.paperLinks.None?)
    && (ShouldIncludeDetailedInfo(parsed.value) && m.sessionType == Seminar ==> m.abstractText.Some?)
    && (m.abstractText.Some? ==> m.abstractText.value != "" && Normalized(m.abstractText.value))
    && (m.presenterBio.Some? ==>
          m.sessionType == Seminar && m.presenterBio.value != "" && Normalized(m.presenterBio.value))
    && (m.paperLinks.Some? ==> m.paperLinks.value != [] && LinksWellFormed(m.paperLinks.value))
    && (m.authors.Some? ==> m.authors.value != "" && Normalized(m.authors.value))
  }

  /** A row yields a record exactly when its date is recognised and it is not a
      free slot; the re-parse guard and the empty presenter-and-title check
      after the free-slot test never skip a row on their own. */
  lemma RowKept(row: Row, today: Date)
    ensures RowRecord(row, today).Some? <==> ParseDate(Cell(row, "Date")).Some? && !IsFreeSlot(row)
  {
  }

  lemma PlaceholderShown()
    ensures Shown(Placeholder)
  {
    assert |Lower(Placeholder)| == 3;
  }

  lemma OrPlaceholderShown(raw: string)
    requires Lower(Clean(raw)) != FreeSlotPhrase
    ensures Shown(OrPlaceholder(Clean(raw)))
  {
    CleanSpec(raw);
    PlaceholderShown();
  }

  /** An emitted record is well formed. */
  lemma RecordWellFormed(row: Row, today: Date)
    requires RowRecord(row, today).Some?
    ensures WellFormed(RowRecord(row, today).value, today)
  {
    OrPlaceholderShown(Cell(row, "Presenter"));
    OrPlaceholderShown(Cell(row, "Event Name"));
    CleanSpec(Cell(row, "authors"));
  }

  /** How an emitted record reflects its row: the normalised date; the cleaned
      presenter and event name, with TBA standing in for at most one of them;
      the classified session type; the location exactly for meetings after
      today; and the cleaned authors exactly when that column has text. */
  lemma RecordFromRow(row: Row, today: Date)
    requires RowRecord(row, today).Some?
    ensures var m := RowRecord(row, today).value;
      var presenter := Clean(Cell(row, "Presenter"));
      var eventName := Clean(Cell(row, "Event Name"));
      && Some(m.date) == ParseDate(Cell(row, "Date"))
      && (presenter != "" || eventName != "")
      && m.presenter == (if presenter != "" then presenter else Placeholder)
      && m.title == (if eventName != "" then eventName else Placeholder)
      && m.sessionType == DetermineSessionType(row)
      && m.location == (if IsAfter(MeetingDate(m), today)
                        then Some(GetLocationInfo(row, MeetingDate(m), today)) else None)
      && (m.authors.Some? <==> !AllSpace(Cell(row, "authors")))
      && (m.authors.Some? ==> m.authors.value == Clean(Cell(row, "authors")))
    ensures var m := RowRecord(row, today).value;
      && m.abstractText == GetAbstractInfo(row, MeetingDate(m), m.sessionType)
      && m.presenterBio == GetBioInfo(row, MeetingDate(m), m.sessionType)
      && m.paperLinks == GetPaperLinks(row, MeetingDate(m))
  {
    CleanSpec(Cell(row, "authors"));
  }
}
