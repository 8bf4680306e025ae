/**
 * `ConferencePanel`: a table of conferences (name, nickname, year, venue) with
 * Add, Edit and Delete. The conferences file holds a single conference, so
 * the panel saves only the first element of its list: after Add or Edit, after
 * Delete (`null` once the list is empty), and when the window closes (only if
 * the list is not empty). At start-up the list is the saved conference, if
 * any.
 */
module ConferencePanels {
  import opened Wrappers
  import opened JavaText
  import D = Domain
  import opened Years
  import opened Persistence
  import opened Tables
  import opened Forms

  /** The table row of a conference. */
  function RowOf(c: D.Conference): (row: Row)
    ensures |row| == 4
    ensures row[0] == Text(c.name) && row[1] == Text(c.nickName)
    ensures row[2] == YearCell(c.year) && row[3] == Text(c.venue)
  {
    [Text(c.name), Text(c.nickName), YearCell(c.year), Text(c.venue)]
  }

  /** What the panel saves for a list: its first conference, or `null` when it is empty. */
  function Head(conferences: seq<D.Conference>): (h: Option<D.Conference>)
    ensures h.None? <==> |conferences| == 0
    ensures h.Some? ==> h.value == conferences[0]
  {
    if |conferences| == 0 then None else Some(conferences[0])
  }

  /** The list the panel starts with, given what `loadConference` returned. */
  function Loaded(saved: Option<D.Conference>): (cs: seq<D.Conference>)
    ensures |cs| <= 1
    ensures Head(cs) == saved
  {
    if saved.Some? then [saved.value] else []
  }

  /**
   * Only the first conference outlives the panel: reopening after a save
   * shows the first conference of the list, or nothing, and a list of two or
   * more is never restored.
   */
  lemma OnlyFirstConferencePersists(conferences: seq<D.Conference>)
    ensures Loaded(Head(conferences)) == conferences[..if |conferences| == 0 then 0 else 1]
    ensures |conferences| > 1 ==> Loaded(Head(conferences)) != conferences
  {
  }

  /** The text in the dialog's four fields. */
  datatype Form = Form(name: string, nickName: string, year: string, venue: string)

  /** The Edit button's pre-filled form; the year is written with `Year.toString`. */
  function FormOf(c: D.Conference): Form {
    Form(c.name, c.nickName, YearText(c.year), c.venue)
  }

  /**
   * What the dialog builds from its fields: the conference, or the exception
   * that refuses the form. The year is parsed before the other fields are
   * checked, so an unreadable year wins over a blank field.
   */
  function Built(form: Form): (r: Result<D.Conference, D.Failure>)
    ensures ParseYear(Trim(form.year)).Err? ==> r == Err(D.DateTimeParse)
    ensures ParseYear(Trim(form.year)).Ok? ==>
      (r.Ok? <==> !IsBlank(form.name) && !IsBlank(form.nickName) && !IsBlank(form.venue))
    ensures ParseYear(Trim(form.year)).Ok? && r.Err? ==> r.error == D.IllegalArgument(ALL_FIELDS_REQUIRED)
    ensures r.Ok? ==> r.value == D.Conference(Trim(form.name), Trim(form.nickName),
                                              ParseYear(Trim(form.year)).value, Trim(form.venue))
  {
    var year := ParseYear(Trim(form.year));
    var texts := [form.name, form.nickName, form.venue];
    var fields := RequireAll(texts, ALL_FIELDS_REQUIRED);
    assert texts[0] == form.name && texts[1] == form.nickName && texts[2] == form.venue;
    if year.Err? then Err(year.error)
    else if fields.Err? then Err(fields.error)
    else Ok(D.Conference(fields.value[0], fields.value[1], year.value, fields.value[2]))
  }

  /** A text as a successful save stores it: non-empty, and already trimmed at both ends. */
  predicate AsStored(s: string) {
    s != [] && !IsTrimmed(s[0]) && !IsTrimmed(s[|s| - 1])
  }

  /**
   * Opening a conference for editing and saving the form unchanged gives the
   * same conference back exactly when its year survives `toString` and
   * `parse`: for years from 1000 to 9999 and at or below -1000. For any other
   * year the unchanged form is refused with a parse error. (The texts are
   * taken to be as the dialog stores them: trimmed and non-empty.)
   */
  lemma {:induction false} UnchangedFormResubmits(c: D.Conference)
    requires AsStored(c.name) && AsStored(c.nickName) && AsStored(c.venue)
    ensures Built(FormOf(c)).Ok? <==> (1000 <= c.year <= 9999 || c.year <= -1000)
    ensures Built(FormOf(c)).Ok? ==> Built(FormOf(c)).value == c
    ensures Built(FormOf(c)).Err? ==> Built(FormOf(c)).error == D.DateTimeParse
  {
    var form := FormOf(c);
    TrimKeeps(form.year);
    StoredFormBuilds(form);
    YearTextRoundTrip(c.year);
  }

  /** A text as stored passes the dialog's check unchanged: trimming keeps it, and it is not blank. */
  lemma StoredTextPasses(s: string)
    requires AsStored(s)
    ensures Trim(s) == s && !IsBlank(s)
  {
    TrimKeeps(s);
    assert !IsTrimmed(s[0]);
  }

  /** A form whose texts are as stored builds exactly when its year parses, and keeps its texts. */
  lemma StoredFormBuilds(form: Form)
    requires AsStored(form.name) && AsStored(form.nickName) && AsStored(form.venue)
    requires Trim(form.year) == form.year
    ensures Built(form) == if ParseYear(form.year).Ok?
                           then Ok(D.Conference(form.name, form.nickName, ParseYear(form.year).value, form.venue))
                           else Err(D.DateTimeParse)
  {
    StoredTextPasses(form.name);
    StoredTextPasses(form.nickName);
    StoredTextPasses(form.venue);
  }

  class ConferencePanel {
    const table: TableModel
    const persistence: JsonPersistenceManager
    /** The conferences shown, in table order. */
    var conferences: seq<D.Conference>
    /** The reference of each conference object in the list, and the reference the next new one gets. */
    var refs: seq<nat>
    var nextRef: nat

    /** The table shows exactly the list. */
    predicate Shown()
      reads this, table
    {
      Mirrors(conferences, table.rows, RowOf)
    }

    /** The list holds distinct objects, one reference per conference. */
    predicate Distinct()
      reads this
    {
      |refs| == |conferences| && Identities(refs, nextRef)
    }

    predicate Valid()
      reads this, table
    {
      Shown() && Distinct()
    }

    /** The panel around the loaded conference: one row for it, or none. */
    constructor Init(persistence: JsonPersistenceManager, saved: Option<D.Conference>)
      ensures this.persistence == persistence
      ensures conferences == Loaded(saved)
      ensures fresh(table) && Valid()
    {
      var rows := new TableModel();
      var list: seq<D.Conference> := [];
      if saved.Some? {
        list := list + [saved.value];
        rows.AddRow([Text(saved.value.name), Text(saved.value.nickName), YearCell(saved.value.year), Text(saved.value.venue)]);
      }
      InitialIdentities(|list|);
      this.persistence := persistence;
      conferences := list;
      refs := seq(|list|, i => i);
      nextRef := |list|;
      table := rows;
    }

    /** `new ConferencePanel()`: loads the saved conference; a load that throws leaves no panel. */
    static method Open(persistence: JsonPersistenceManager) returns (r: Result<ConferencePanel, D.Failure>)
      ensures r.Err? <==> ConferenceOnDisk(persistence.fs.files, persistence.fs.unavailable).Err?
      ensures r.Err? ==> r.error == ConferenceOnDisk(persistence.fs.files, persistence.fs.unavailable).error
      ensures r.Ok? ==> fresh(r.value) && fresh(r.value.table) && r.value.Valid()
      ensures r.Ok? ==> r.value.persistence == persistence && |r.value.conferences| <= 1
      ensures r.Ok? ==> ConferenceOnDisk(persistence.fs.files, persistence.fs.unavailable) == Ok(Head(r.value.conferences))
    {
      var loaded := persistence.LoadConference();
      if loaded.Err? {
        return Err(loaded.error);
      }
      var panel := new ConferencePanel.Init(persistence, loaded.value);
      r := Ok(panel);
    }

    /**
     * The Edit button: the dialog's target and the form pre-filled from the
     * conference on the selected row, or `None` (a "No Selection" warning)
     * when no row is selected.
     */
    method SelectForEdit(selectedRow: int) returns (r: Option<(Target, Form)>)
      requires Valid() && selectedRow < |conferences|
      ensures r.None? <==> selectedRow < 0
      ensures r.Some? ==> r.value.0 == Target(selectedRow, refs[selectedRow])
      ensures r.Some? ==> r.value.1 == FormOf(conferences[selectedRow])
      ensures r.Some? ==> table.rows[selectedRow] == RowOf(conferences[selectedRow])
    {
      if selectedRow < 0 {
        return None;
      }
      var c := conferences[selectedRow];
      r := Some((Target(selectedRow, refs[selectedRow]), Form(c.name, c.nickName, YearText(c.year), c.venue)));
    }

    /**
     * The dialog's Save button; `editing` is the target of an Edit dialog and
     * `None` for Add. After a change the list is never empty, so its first
     * conference is saved. The dialog always builds a new conference object,
     * so a save of the same dialog after one that replaced its conference is
     * refused (see `Commit`).
     */
    method Submit(editing: Option<Target>, form: Form) returns (r: Response)
      requires Valid()
      requires editing.Some? ==> editing.value.row < |conferences|
      requires editing.Some? && editing.value.ref in refs ==> refs[editing.value.row] == editing.value.ref
      modifies this, table, persistence.fs
      ensures Valid()
      ensures persistence.fs.unavailable == old(persistence.fs.unavailable)
      ensures Built(form).Err? ==> r == Rejected(Built(form).error)
      ensures Built(form).Err? || Stale(editing, old(refs)) ==>
        conferences == old(conferences) && refs == old(refs) && persistence.fs.files == old(persistence.fs.files)
      ensures Built(form).Ok? && Stale(editing, old(refs)) ==> r == Rejected(D.IndexOutOfBounds(-1))
      ensures Built(form).Ok? && !Stale(editing, old(refs)) ==>
        && conferences == Placed(old(conferences), EditRow(editing), Built(form).value)
        && persistence.fs.files == AfterSave(old(persistence.fs.files), persistence.fs.unavailable, ConferenceData,
                                             ConferenceDocument(EncodeConference(Head(conferences))))
        && r == AfterSaving(SaveOutcome(persistence.fs.unavailable, ConferenceData))
      ensures Built(form).Ok? && editing.Some? ==> Stale(editing, refs)
      ensures r.Saved? ==> ConferenceOnDisk(persistence.fs.files, persistence.fs.unavailable) == Ok(Head(conferences))
    {
      var name := Trim(form.name);
      var nickName := Trim(form.nickName);
      var year := ParseYear(Trim(form.year));
      if year.Err? {
        return Rejected(year.error);
      }
      var venue := Trim(form.venue);
      var fields := RequireAll([form.name, form.nickName, form.venue], ALL_FIELDS_REQUIRED);
      if fields.Err? {
        return Rejected(fields.error);
      }
      var conference := D.Conference(name, nickName, year.value, venue);
      assert conference == Built(form).value;
      r := Commit(editing, conference);
    }

    /**
     * Adds `c` at the end, or puts it in place of the object the dialog was
     * opened on, in the list and in the table alike, then saves the first
     * conference. The edited position is `indexOf` that object; when it is no
     * longer in the list, `set(-1, …)` throws before anything changes.
     */
    method Commit(editing: Option<Target>, c: D.Conference) returns (r: Response)
      requires Valid()
      requires editing.Some? ==> editing.value.row < |conferences|
      requires editing.Some? && editing.value.ref in refs ==> refs[editing.value.row] == editing.value.ref
      modifies this, table, persistence.fs
      ensures Valid()
      ensures persistence.fs.unavailable == old(persistence.fs.unavailable)
      ensures Stale(editing, old(refs)) ==>
        && r == Rejected(D.IndexOutOfBounds(-1))
        && conferences == old(conferences) && refs == old(refs) && persistence.fs.files == old(persistence.fs.files)
      ensures !Stale(editing, old(refs)) ==>
        && conferences == Placed(old(conferences), EditRow(editing), c)
        && refs == Placed(old(refs), EditRow(editing), old(nextRef))
        && persistence.fs.files == AfterSave(old(persistence.fs.files), persistence.fs.unavailable, ConferenceData,
                                             ConferenceDocument(EncodeConference(Head(conferences))))
        && r == AfterSaving(SaveOutcome(persistence.fs.unavailable, ConferenceData))
      ensures editing.Some? ==> Stale(editing, refs)
      ensures r.Saved? ==> ConferenceOnDisk(persistence.fs.files, persistence.fs.unavailable) == Ok(Head(conferences))
    {
      var at: Option<nat> := None;
      if editing.Some? {
        var index := IndexOf(refs, editing.value.ref);
        if index == -1 {
          return Rejected(D.IndexOutOfBounds(index));
        }
        IndexOfDistinct(refs, nextRef, editing.value.row, editing.value.ref);
        at := Some(index);
      }
      Apply(at, c);
      var saved := persistence.SaveConference(Some(conferences[0]));
      r := AfterSaving(saved);
    }

    /** `c` added or put in place of the conference at `at`, in the list and in the table alike. */
    method Apply(at: Option<nat>, c: D.Conference)
      requires Valid() && (at.Some? ==> at.value < |conferences|)
      modifies this, table
      ensures Valid()
      ensures conferences == Placed(old(conferences), at, c)
      ensures refs == Placed(old(refs), at, old(nextRef))
      ensures at.Some? ==> old(refs)[at.value] !in refs
    {
      PlacedMirrors(conferences, table.rows, RowOf, at, c);
      Render(at, c);
      Place(at, c);
    }

    /** The list half of a save: `c`, a new object, added at the end or in place of the object at `at`. */
    method Place(at: Option<nat>, c: D.Conference)
      requires Distinct() && (at.Some? ==> at.value < |conferences|)
      modifies this
      ensures Distinct()
      ensures conferences == Placed(old(conferences), at, c)
      ensures refs == Placed(old(refs), at, old(nextRef))
      ensures at.Some? ==> old(refs)[at.value] !in refs
    {
      PlacedIdentities(refs, nextRef, at);
      conferences := Placed(conferences, at, c);
      refs := Placed(refs, at, nextRef);
      nextRef := nextRef + 1;
    }

    /** The table half of a save: a new last row, or the four cells of row `at` overwritten. */
    method Render(at: Option<nat>, c: D.Conference)
      requires at.Some? ==> at.value < |table.rows| && |table.rows[at.value]| == 4
      modifies table
      ensures table.rows == Placed(old(table.rows), at, RowOf(c))
    {
      match at {
        case None =>
          table.AddRow([Text(c.name), Text(c.nickName), YearCell(c.year), Text(c.venue)]);
        case Some(row) =>
          table.SetValueAt(Text(c.name), row, 0);
          table.SetValueAt(Text(c.nickName), row, 1);
          table.SetValueAt(YearCell(c.year), row, 2);
          table.SetValueAt(Text(c.venue), row, 3);
          assert table.rows[row] == RowOf(c);
      }
    }

    /**
     * The Delete button, after the confirmation dialog was answered
     * `confirmed`: saves the new first conference, or `null` when none is left.
     */
    method Delete(selectedRow: int, confirmed: bool) returns (r: Response)
      requires Valid() && selectedRow < |conferences|
      modifies this, table, persistence.fs
      ensures Valid()
      ensures persistence.fs.unavailable == old(persistence.fs.unavailable)
      ensures selectedRow < 0 ==> r == NoSelection
      ensures selectedRow >= 0 && !confirmed ==> r == Declined
      ensures r == NoSelection || r == Declined ==>
        conferences == old(conferences) && refs == old(refs) && persistence.fs.files == old(persistence.fs.files)
      ensures selectedRow >= 0 && confirmed ==>
        && conferences == RemoveAt(old(conferences), selectedRow)
        && refs == RemoveAt(old(refs), selectedRow)
        && persistence.fs.files == AfterSave(old(persistence.fs.files), persistence.fs.unavailable, ConferenceData,
                                             ConferenceDocument(EncodeConference(Head(conferences))))
        && r == AfterSaving(SaveOutcome(persistence.fs.unavailable, ConferenceData))
      ensures r.Saved? ==> ConferenceOnDisk(persistence.fs.files, persistence.fs.unavailable) == Ok(Head(conferences))
    {
      if selectedRow < 0 {
        return NoSelection;
      }
      if !confirmed {
        return Declined;
      }
      Remove(selectedRow);
      var saved;
      if |conferences| > 0 {
        saved := persistence.SaveConference(Some(conferences[0]));
      } else {
        saved := persistence.SaveConference(None);
      }
      r := AfterSaving(saved);
    }

    /** The conference at `row` taken out of the list and its row out of the table. */
    method Remove(row: nat)
      requires Valid() && row < |conferences|
      modifies this, table
      ensures Valid()
      ensures conferences == RemoveAt(old(conferences), row)
      ensures refs == RemoveAt(old(refs), row)
    {
      MirrorsRemoveAt(conferences, table.rows, RowOf, row);
      RemoveAtIdentities(refs, nextRef, row);
      conferences := RemoveAt(conferences, row);
      refs := RemoveAt(refs, row);
      table.RemoveRow(row);
    }

    /**
     * The window listener: when the window closes, the first conference is
     * saved; with an empty list nothing is written.
     */
    method WindowClosing() returns (r: Outcome<D.Failure>)
      requires Valid()
      modifies persistence.fs
      ensures persistence.fs.unavailable == old(persistence.fs.unavailable)
      ensures |conferences| == 0 ==> r == Pass && persistence.fs.files == old(persistence.fs.files)
      ensures |conferences| > 0 ==>
        && persistence.fs.files == AfterSave(old(persistence.fs.files), persistence.fs.unavailable, ConferenceData,
                                             ConferenceDocument(EncodeConference(Head(conferences))))
        && r == SaveOutcome(persistence.fs.unavailable, ConferenceData)
      ensures |conferences| > 0 && r.Pass? ==>
        ConferenceOnDisk(persistence.fs.files, persistence.fs.unavailable) == Ok(Head(conferences))
    {
      if |conferences| == 0 {
        return Pass;
      }
      r := persistence.SaveConference(Some(conferences[0]));
    }
  }
}
