/** The events calendar page: the time labels offered in the editor, the mapping of
    `events` rows to calendar events, the new-event draft, save validation with the
    "All Day" conversion, and the updates of the local event list after a successful
    insert, update or delete. Database calls are inputs: the row an insert returns
    (`None` when it fails) and whether an update or delete succeeded. */
module Events {
  import opened Wrappers
  import opened Strings
  import opened Seqs
  import opened Profiles

  // ---------------------------------------------------------------- time labels

  const AllDay: string := "All Day"

  /** The clock hour of the i-th hour of the day: 12 for midnight and noon. */
  function ClockHour(i: nat): (h: nat)
    requires i < 24
    ensures 1 <= h <= 12
  {
    if i % 12 == 0 then 12 else i % 12
  }

  function Meridiem(i: nat): string {
    if i < 12 then "AM" else "PM"
  }

  /** `${hour}:00 ${ampm}`. */
  function HourLabel(h: nat, m: string): string {
    Decimal(h) + ":00 " + m
  }

  /** `timeOptions`: "All Day" followed by the 24 hours of the day from 12:00 AM to 11:00 PM. */
  function TimeOptions(): (r: seq<string>)
    ensures |r| == 25 && r[0] == AllDay
    ensures forall i :: 0 <= i < 24 ==> r[i + 1] == HourLabel(ClockHour(i), Meridiem(i))
  {
    [AllDay] + seq(24, i requires 0 <= i < 24 => HourLabel(ClockHour(i), Meridiem(i)))
  }

  /** A label splits back into its hour and its meridiem. */
  lemma HourLabelInjective(h1: nat, m1: string, h2: nat, m2: string)
    requires |m1| == 2 && |m2| == 2
    requires HourLabel(h1, m1) == HourLabel(h2, m2)
    ensures h1 == h2 && m1 == m2
  {
    var l1, l2 := HourLabel(h1, m1), HourLabel(h2, m2);
    var d1, d2 := Decimal(h1), Decimal(h2);
    assert |d1| == |d2|;
    assert d1 == l1[..|d1|] && d2 == l2[..|d2|];
    assert m1 == l1[|l1| - 2..] && m2 == l2[|l2| - 2..];
    DecimalInjective(h1, h2);
  }

  lemma {:induction false} HourOptionsDistinct(i: nat, j: nat)
    requires i < 24 && j < 24
    requires HourLabel(ClockHour(i), Meridiem(i)) == HourLabel(ClockHour(j), Meridiem(j))
    ensures i == j
  {
    HourLabelInjective(ClockHour(i), Meridiem(i), ClockHour(j), Meridiem(j));
  }

  /** Two different positions of `timeOptions` hold different labels. */
  lemma {:induction false} TimeOptionPairDistinct(i: nat, j: nat)
    requires i < j < 25
    ensures TimeOptions()[i] != TimeOptions()[j]
  {
    var r := TimeOptions();
    if i == 0 {
      assert IsDigit(Decimal(ClockHour(j - 1))[0]);
      assert r[j][0] == Decimal(ClockHour(j - 1))[0];
      assert r[i][0] == 'A';
    } else if r[i] == r[j] {
      HourOptionsDistinct(i - 1, j - 1);
    }
  }

  /** No two entries of `timeOptions` are the same label. */
  lemma {:induction false} TimeOptionsDistinct()
    ensures forall i, j :: 0 <= i < j < |TimeOptions()| ==> TimeOptions()[i] != TimeOptions()[j]
  {
    forall i, j | 0 <= i < j < |TimeOptions()|
      ensures TimeOptions()[i] != TimeOptions()[j]
    {
      TimeOptionPairDistinct(i, j);
    }
  }

  /** Every clock hour appears once in the morning and once in the afternoon. */
  lemma {:induction false} TimeOptionsCoverClock(h: nat, pm: bool)
    requires 1 <= h <= 12
    ensures HourLabel(h, if pm then "PM" else "AM") in TimeOptions()
  {
    var i := (if h == 12 then 0 else h) + (if pm then 12 else 0);
    assert ClockHour(i) == h;
    assert TimeOptions()[i + 1] == HourLabel(h, if pm then "PM" else "AM");
  }

  // ---------------------------------------------------------------- rows and calendar events

  /** A row of the `events` table as selected by the page; nullable columns are options. */
  datatype EventRow = EventRow(
    id: nat,
    title: string,
    description: Option<string>,
    date: Option<string>,
    createdBy: string,
    startTime: Option<string>,
    color: Option<string>)

  datatype ExtProps = ExtProps(description: string, createdBy: string, originalId: Option<nat>, startTime: Option<string>)

  /** `eventToSave`: the fields an insert or update writes. */
  datatype SavedFields = SavedFields(title: string, description: string, date: string, startTime: Option<string>, color: string)

  /** A calendar event in the page's local list. `saved` holds the top-level `date`,
      `start_time` and `color` keys a local update spreads into an event. */
  datatype CalEvent = CalEvent(
    id: string,
    title: string,
    description: string,
    start: Option<string>,
    allDay: bool,
    backgroundColor: string,
    borderColor: string,
    textColor: string,
    ext: ExtProps,
    saved: Option<SavedFields>)

  const DefaultBackground: string := "#3b82f6"
  const DefaultBorder: string := "#2563eb"
  const TextWhite: string := "#ffffff"

  /** The row mapping shared by the initial load and a successful insert: the id as a
      string for the calendar and as a number for the database, all-day exactly when
      there is no start time, and default colours for a missing colour. */
  function MapRow(row: EventRow): (e: CalEvent)
    ensures e.id == Decimal(row.id) && e.ext.originalId == Some(row.id)
    ensures e.allDay <==> !Truthy(row.startTime)
    ensures e.start == row.date && e.title == row.title && e.ext.createdBy == row.createdBy
    ensures Truthy(row.color) ==> e.backgroundColor == row.color.value && e.borderColor == row.color.value
    ensures !Truthy(row.color) ==> e.backgroundColor == DefaultBackground && e.borderColor == DefaultBorder
    ensures e.textColor == TextWhite && e.saved.None?
    ensures e.description == OrElse(row.description, "") && e.ext.description == e.description
    ensures e.ext.startTime == row.startTime
  {
    var description := OrElse(row.description, "");
    CalEvent(Decimal(row.id), row.title, description, row.date, !Truthy(row.startTime),
             OrElse(row.color, DefaultBackground), OrElse(row.color, DefaultBorder), TextWhite,
             ExtProps(description, row.createdBy, Some(row.id), row.startTime), None)
  }

  /** Calendar ids are as distinct as row ids, so matching events by `id` matches rows. */
  lemma MappedIdsMatchRowIds(a: EventRow, b: EventRow)
    ensures MapRow(a).id == MapRow(b).id <==> a.id == b.id
  {
    if MapRow(a).id == MapRow(b).id {
      DecimalInjective(a.id, b.id);
    }
  }

  predicate HasDate(row: EventRow) {
    row.date.Some?
  }

  /** The rows with a date, each mapped, in order. */
  function MapDated(rows: seq<EventRow>): (r: seq<CalEvent>)
    ensures |r| == |Filter(rows, HasDate)| <= |rows|
    ensures forall i :: 0 <= i < |r| ==> r[i] == MapRow(Filter(rows, HasDate)[i])
  {
    var kept := Filter(rows, HasDate);
    seq(|kept|, i requires 0 <= i < |kept| => MapRow(kept[i]))
  }

  /** `e` is the mapping of a row that has a date. */
  predicate FromDatedRow(rows: seq<EventRow>, e: CalEvent) {
    exists j :: 0 <= j < |rows| && rows[j].date.Some? && e == MapRow(rows[j])
  }

  /** Every mapped event comes from a dated row. */
  lemma MapDatedFromRows(rows: seq<EventRow>)
    ensures forall i :: 0 <= i < |MapDated(rows)| ==> MapDated(rows)[i].start.Some?
    ensures forall i :: 0 <= i < |MapDated(rows)| ==> FromDatedRow(rows, MapDated(rows)[i])
  {
    var kept := Filter(rows, HasDate);
    var r := MapDated(rows);
    forall i | 0 <= i < |r| ensures r[i].start.Some? && FromDatedRow(rows, r[i]) {
      assert kept[i] in rows && HasDate(kept[i]);
      var j :| 0 <= j < |rows| && rows[j] == kept[i];
      assert r[i] == MapRow(rows[j]);
    }
  }

  /** Every dated row is mapped. */
  lemma MapDatedCoversRows(rows: seq<EventRow>)
    ensures forall j :: 0 <= j < |rows| && rows[j].date.Some? ==> MapRow(rows[j]) in MapDated(rows)
  {
    var kept := Filter(rows, HasDate);
    var r := MapDated(rows);
    forall j | 0 <= j < |rows| && rows[j].date.Some? ensures MapRow(rows[j]) in r {
      assert rows[j] in kept;
      var k :| 0 <= k < |kept| && kept[k] == rows[j];
      assert r[k] == MapRow(rows[j]);
    }
  }

  /** The load in `fetchUserAndEvents`: rows whose date is null are dropped, the others
      mapped in order. */
  function LoadEvents(rows: seq<EventRow>): (r: seq<CalEvent>)
    ensures |r| <= |rows|
    ensures forall i :: 0 <= i < |r| ==> r[i].start.Some?
    ensures forall i :: 0 <= i < |r| ==> FromDatedRow(rows, r[i])
    ensures forall j :: 0 <= j < |rows| && rows[j].date.Some? ==> MapRow(rows[j]) in r
  {
    MapDatedFromRows(rows);
    MapDatedCoversRows(rows);
    MapDated(rows)
  }

  /** The key a write or delete uses, `extendedProps.originalId || id`. */
  datatype DbKey = NumKey(n: nat) | TextKey(s: string)

  function DbKeyOf(originalId: Option<nat>, id: string): (k: DbKey)
    ensures originalId.Some? && originalId.value != 0 ==> k == NumKey(originalId.value)
    ensures originalId.None? || originalId.value == 0 ==> k == TextKey(id)
  {
    if originalId.Some? && originalId.value != 0 then NumKey(originalId.value) else TextKey(id)
  }

  /** A loaded event is written back under its row's id; only a row id 0 (falsy) falls
      back to the string id "0". */
  lemma LoadedEventKey(row: EventRow)
    ensures row.id != 0 ==> DbKeyOf(MapRow(row).ext.originalId, MapRow(row).id) == NumKey(row.id)
    ensures row.id == 0 ==> DbKeyOf(MapRow(row).ext.originalId, MapRow(row).id) == TextKey("0")
  {
    if row.id == 0 {
      assert Decimal(0) == [DigitChar(0)];
    }
  }

  // ---------------------------------------------------------------- the editor

  /** The event the sidebar edits: a new-event draft or an event clicked in the calendar.
      `id` is "" for a draft (it has none). */
  datatype EventForm = EventForm(
    id: string,
    title: string,
    description: string,
    start: Option<string>,
    clickedDate: Option<string>,
    allDay: bool,
    backgroundColor: string,
    startTime: Option<string>,
    originalId: Option<nat>)

  /** `handleDateSelect`: only an administrator or a teacher gets a draft, an untitled
      all-day event on the selected date with the default colour. */
  function NewDraft(user: Option<User>, startStr: string): (d: Option<EventForm>)
    ensures d.Some? <==> user.Some? && (user.value.role == Admin || user.value.role == Teacher)
    ensures d.Some? ==> d.value.title == "" && d.value.allDay && d.value.startTime == Some(AllDay)
    ensures d.Some? ==> d.value.start == Some(startStr) && d.value.clickedDate == Some(startStr)
    ensures d.Some? ==> d.value.backgroundColor == DefaultBackground
  {
    if user.Some? && (user.value.role == Admin || user.value.role == Teacher) then
      Some(EventForm("", "", "", Some(startStr), Some(startStr), true, DefaultBackground, Some(AllDay), None))
    else None
  }

  /** `handleEventClick`: the clicked event itself is edited. */
  function EditForm(e: CalEvent): (f: EventForm)
    ensures f.id == e.id && f.title == e.title && f.start == e.start && f.clickedDate.None?
    ensures f.startTime == e.ext.startTime && f.originalId == e.ext.originalId
    ensures f.description == e.description && f.allDay == e.allDay && f.backgroundColor == e.backgroundColor
  {
    EventForm(e.id, e.title, e.description, e.start, None, e.allDay, e.backgroundColor, e.ext.startTime, e.ext.originalId)
  }

  /** The list's `onEventClick`: the first event of the page's own list whose id is the
      clicked one is edited; when there is none, nothing is selected. */
  function FindEvent(events: seq<CalEvent>, clickedId: string): (r: Option<CalEvent>)
    ensures r.None? <==> forall i :: 0 <= i < |events| ==> events[i].id != clickedId
    ensures r.Some? ==> exists i :: 0 <= i < |events| && events[i] == r.value && r.value.id == clickedId &&
                          forall k :: 0 <= k < i ==> events[k].id != clickedId
    decreases |events|
  {
    if |events| == 0 then None
    else if events[0].id == clickedId then Some(events[0])
    else
      var r := FindEvent(events[1..], clickedId);
      assert forall i :: 1 <= i < |events| ==> events[i] == events[1..][i - 1];
      if r.Some? then
        var i :| 0 <= i < |events[1..]| && events[1..][i] == r.value && forall k :: 0 <= k < i ==> events[1..][k].id != clickedId;
        assert events[i + 1] == r.value;
        r
      else r
  }

  /** Editing from the monthly list: the form of the page's own event with that id. */
  function ListClickForm(events: seq<CalEvent>, clickedId: string): (r: Option<EventForm>)
    ensures r.None? <==> forall i :: 0 <= i < |events| ==> events[i].id != clickedId
    ensures r.Some? ==> r.value.id == clickedId
    ensures r.Some? ==> exists i :: 0 <= i < |events| && r.value == EditForm(events[i])
  {
    match FindEvent(events, clickedId)
    case None => None
    case Some(e) => Some(EditForm(e))
  }

  /** The time the editor shows, `extendedProps.start_time || "All Day"`. */
  function ShownTime(startTime: Option<string>): (t: string)
    ensures Truthy(startTime) ==> t == startTime.value
    ensures !Truthy(startTime) ==> t == AllDay
  {
    OrElse(startTime, AllDay)
  }

  /** The date a save uses: the start or else the clicked date for a new event, the
      start for an existing one. */
  function SaveDate(f: EventForm, isNew: bool): (r: Option<string>)
    ensures !isNew || Truthy(f.start) ==> r == f.start
    ensures isNew && !Truthy(f.start) ==> r == f.clickedDate
  {
    if isNew && !Truthy(f.start) then f.clickedDate else f.start
  }

  /** `"All Day"` is stored as a null start time; every other label as it is. */
  function StoredStartTime(shown: Option<string>): (t: Option<string>)
    ensures shown == Some(AllDay) ==> t.None?
    ensures shown != Some(AllDay) ==> t == shown
  {
    if shown == Some(AllDay) then None else shown
  }

  datatype SaveError = TitleRequired | DateRequired

  /** The validation in `handleSaveEvent` and the `eventToSave` it builds: an empty
      title is refused first, then a missing date. */
  function ValidateSave(f: EventForm, isNew: bool): (r: Result<SavedFields, SaveError>)
    ensures f.title == "" <==> r == Err(TitleRequired)
    ensures r == Err(DateRequired) <==> f.title != "" && !Truthy(SaveDate(f, isNew))
    ensures r.Ok? ==> r.value.description == f.description
    ensures r.Ok? ==> r.value.title == f.title && Some(r.value.date) == SaveDate(f, isNew) && r.value.date != ""
    ensures r.Ok? ==> r.value.startTime == StoredStartTime(f.startTime) && r.value.color == f.backgroundColor
    ensures r.Ok? && isNew ==> (Truthy(f.start) ==> Some(r.value.date) == f.start)
  {
    if f.title == "" then Err(TitleRequired)
    else
      var date := SaveDate(f, isNew);
      if !Truthy(date) then Err(DateRequired)
      else Ok(SavedFields(f.title, f.description, date.value, StoredStartTime(f.startTime), f.backgroundColor))
  }

  /** A fresh draft, once titled, saves as an all-day event on the selected date with an
      empty description and the default colour, and reads back as all-day. */
  lemma DraftSavesAsAllDay(user: User, startStr: string, title: string, id: nat)
    requires user.role == Admin || user.role == Teacher
    requires startStr != "" && title != ""
    ensures var f := NewDraft(Some(user), startStr).value.(title := title);
            ValidateSave(f, true) == Ok(SavedFields(title, "", startStr, None, DefaultBackground)) &&
            MapRow(StoredRow(ValidateSave(f, true).value, id, user.id)).allDay
  {
  }

  /** The row the database holds after `eventToSave` is written under `id` by `createdBy`. */
  function StoredRow(s: SavedFields, id: nat, createdBy: string): EventRow {
    EventRow(id, s.title, Some(s.description), Some(s.date), createdBy, s.startTime, Some(s.color))
  }

  /** Round trip of the time field: pick a label in the editor, save, and map the stored
      row back. The event is all-day exactly for "All Day", and the editor shows the
      label that was picked. */
  lemma AllDayRoundTrip(f: EventForm, isNew: bool, picked: string, id: nat, createdBy: string)
    requires picked in TimeOptions()
    requires f.startTime == Some(picked)
    requires ValidateSave(f, isNew).Ok?
    ensures var e := MapRow(StoredRow(ValidateSave(f, isNew).value, id, createdBy));
            (e.allDay <==> picked == AllDay) && ShownTime(e.ext.startTime) == picked
  {
    var k :| 0 <= k < |TimeOptions()| && TimeOptions()[k] == picked;
    if k > 0 {
      assert picked == HourLabel(ClockHour(k - 1), Meridiem(k - 1));
      assert picked[0] != 'A' by {
        assert IsDigit(Decimal(ClockHour(k - 1))[0]);
      }
    }
  }

  // ---------------------------------------------------------------- local list updates

  /** `{ ...evt, ...eventToSave, allDay: !eventToSave.start_time, start: eventToSave.date }`. */
  function Patched(evt: CalEvent, s: SavedFields): CalEvent {
    evt.(title := s.title, description := s.description, start := Some(s.date),
         allDay := !Truthy(s.startTime), saved := Some(s))
  }

  /** The local update after a successful database update: only the events whose id is
      the edited one change, positions and length are kept, and a changed event takes
      the saved title, description, date and all-day flag while keeping its id,
      colours and extended properties. */
  function ApplyUpdate(events: seq<CalEvent>, selectedId: string, s: SavedFields): (r: seq<CalEvent>)
    ensures |r| == |events|
    ensures forall i :: 0 <= i < |r| && events[i].id != selectedId ==> r[i] == events[i]
    ensures forall i :: 0 <= i < |r| && events[i].id == selectedId ==>
      && r[i].id == events[i].id
      && r[i].title == s.title && r[i].description == s.description
      && r[i].start == Some(s.date) && (r[i].allDay <==> !Truthy(s.startTime))
      && r[i].backgroundColor == events[i].backgroundColor && r[i].borderColor == events[i].borderColor
      && r[i].ext == events[i].ext
  {
    seq(|events|, i requires 0 <= i < |events| => if events[i].id == selectedId then Patched(events[i], s) else events[i])
  }

  /** The database write a valid save issues. */
  datatype DbWrite = Insert(fields: SavedFields, createdBy: string) | Update(fields: SavedFields, key: DbKey)

  datatype SaveResult = SaveResult(events: seq<CalEvent>, error: Option<SaveError>, write: Option<DbWrite>)

  /** `handleSaveEvent`. `inserted` is the row an insert returns (`None` when it
      fails); `updateOk` says whether an update succeeds. A refused form writes
      nothing; a new event is appended at the end once inserted; an edit patches the
      list once updated; a failed write leaves the list as it was. */
  function HandleSaveEvent(events: seq<CalEvent>, f: EventForm, isNew: bool, userId: string,
                           inserted: Option<EventRow>, updateOk: bool): (r: SaveResult)
    ensures ValidateSave(f, isNew).Err? ==>
      r == SaveResult(events, Some(ValidateSave(f, isNew).error), None)
    ensures ValidateSave(f, isNew).Ok? && isNew ==>
      r.write == Some(Insert(ValidateSave(f, isNew).value, userId)) && r.error.None? &&
      r.events == (if inserted.Some? then events + [MapRow(inserted.value)] else events)
    ensures ValidateSave(f, isNew).Ok? && !isNew ==>
      r.write == Some(Update(ValidateSave(f, isNew).value, DbKeyOf(f.originalId, f.id))) && r.error.None? &&
      r.events == (if updateOk then ApplyUpdate(events, f.id, ValidateSave(f, isNew).value) else events)
  {
    match ValidateSave(f, isNew)
    case Err(e) => SaveResult(events, Some(e), None)
    case Ok(s) =>
      if isNew then
        SaveResult(if inserted.Some? then events + [MapRow(inserted.value)] else events, None, Some(Insert(s, userId)))
      else
        SaveResult(if updateOk then ApplyUpdate(events, f.id, s) else events, None,
                   Some(Update(s, DbKeyOf(f.originalId, f.id))))
  }

  /** A new event, once inserted, is the last one in the list and everything before it
      is unchanged. */
  lemma CreatedEventIsAppended(events: seq<CalEvent>, f: EventForm, userId: string, row: EventRow, updateOk: bool)
    requires ValidateSave(f, true).Ok?
    ensures var r := HandleSaveEvent(events, f, true, userId, Some(row), updateOk).events;
            |r| == |events| + 1 && r[..|events|] == events && r[|events|] == MapRow(row)
  {
  }

  predicate DifferentId(id: string, e: CalEvent) {
    e.id != id
  }

  /** `handleDeleteEvent` after the database delete succeeded: exactly the events with the
      deleted id go, the others stay in order. */
  function DeleteEvent(events: seq<CalEvent>, id: string): (r: seq<CalEvent>)
    ensures forall i :: 0 <= i < |r| ==> r[i].id != id && r[i] in events
    ensures forall i :: 0 <= i < |events| && events[i].id != id ==> events[i] in r
  {
    Filter(events, e => DifferentId(id, e))
  }

  /** `handleDeleteAllEvents` after the RPC succeeded: exactly the events the user did not
      create remain, in order. */
  function DeleteAllOwn(events: seq<CalEvent>, userId: string): (r: seq<CalEvent>)
    ensures forall i :: 0 <= i < |r| ==> r[i].ext.createdBy != userId && r[i] in events
    ensures forall i :: 0 <= i < |events| && events[i].ext.createdBy != userId ==> events[i] in r
  {
    Filter(events, (e: CalEvent) => e.ext.createdBy != userId)
  }

  /** Deleting by id keeps order: it works piecewise over any split of the list. */
  lemma DeleteEventKeepsOrder(a: seq<CalEvent>, b: seq<CalEvent>, id: string)
    ensures DeleteEvent(a + b, id) == DeleteEvent(a, id) + DeleteEvent(b, id)
  {
    FilterAppend(a, b, e => DifferentId(id, e));
  }

  /** Deleting everything one user created keeps order: it works piecewise over any
      split of the list. */
  lemma DeleteAllOwnKeepsOrder(a: seq<CalEvent>, b: seq<CalEvent>, userId: string)
    ensures DeleteAllOwn(a + b, userId) == DeleteAllOwn(a, userId) + DeleteAllOwn(b, userId)
  {
    FilterAppend(a, b, (e: CalEvent) => e.ext.createdBy != userId);
  }

  /** Deleting a loaded event removes the events of that row and of no other row. */
  lemma DeleteLoadedEvent(rows: seq<EventRow>, victim: EventRow)
    ensures forall j :: 0 <= j < |rows| && rows[j].date.Some? ==>
      (MapRow(rows[j]) in DeleteEvent(LoadEvents(rows), MapRow(victim).id) <==> rows[j].id != victim.id)
  {
    forall j | 0 <= j < |rows| && rows[j].date.Some?
      ensures MapRow(rows[j]) in DeleteEvent(LoadEvents(rows), MapRow(victim).id) <==> rows[j].id != victim.id
    {
      MappedIdsMatchRowIds(rows[j], victim);
      var loaded := LoadEvents(rows);
      if rows[j].id != victim.id {
        var k :| 0 <= k < |loaded| && loaded[k] == MapRow(rows[j]);
      }
    }
  }

  /** `handleDeleteEvent`: the database delete goes to `extendedProps?.originalId || id`;
      only when it succeeds does the event, and every event sharing its id, leave the
      list. */
  function HandleDeleteEvent(events: seq<CalEvent>, target: CalEvent, deleteOk: bool): (r: (DbKey, seq<CalEvent>))
    ensures r.0 == DbKeyOf(target.ext.originalId, target.id)
    ensures !deleteOk ==> r.1 == events
    ensures deleteOk ==> target !in r.1 && |r.1| <= |events|
    ensures deleteOk ==> forall i :: 0 <= i < |r.1| ==> r.1[i].id != target.id && r.1[i] in events
    ensures deleteOk ==> forall i :: 0 <= i < |events| && events[i].id != target.id ==> events[i] in r.1
  {
    (DbKeyOf(target.ext.originalId, target.id), if deleteOk then DeleteEvent(events, target.id) else events)
  }

  /** `handleDeleteAllEvents`: when the RPC fails nothing changes; when it succeeds none of
      the user's events remains and everyone else's do. */
  function HandleDeleteAllEvents(events: seq<CalEvent>, userId: string, rpcOk: bool): (r: seq<CalEvent>)
    ensures !rpcOk ==> r == events
    ensures rpcOk ==> forall i :: 0 <= i < |r| ==> r[i].ext.createdBy != userId && r[i] in events
    ensures rpcOk ==> forall i :: 0 <= i < |events| && events[i].ext.createdBy != userId ==> events[i] in r
  {
    if rpcOk then DeleteAllOwn(events, userId) else events
  }
}
