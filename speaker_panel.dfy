/**
 * `SpeakerPanel`: the speakers loaded at start-up, shown one per table row
 * (first name, last name, shirt size, unique id), with Add, Edit and Delete.
 * Every change to the list is written to the speakers file at once.
 */
module SpeakerPanels {
  import opened Wrappers
  import opened JavaText
  import D = Domain
  import opened Persistence
  import opened Tables
  import opened Forms

  /** The table row of a speaker. */
  function RowOf(s: D.SpeakerRecord): (row: Row)
    ensures |row| == 4
    ensures row[0] == Text(s.firstName) && row[1] == Text(s.lastName)
    ensures row[2] == Text(s.shirtSize) && row[3] == Text(s.uniqueId)
  {
    [Text(s.firstName), Text(s.lastName), Text(s.shirtSize), Text(s.uniqueId)]
  }

  /**
   * What the dialog builds from its fields, `id` being the identifier the new
   * speaker draws: the speaker, or the exception that refuses the form when
   * any of the three fields is blank.
   */
  function Built(firstNameText: string, lastNameText: string, shirtSizeText: string, id: string)
    : (r: Result<D.SpeakerRecord, D.Failure>)
    ensures r.Ok? <==> !IsBlank(firstNameText) && !IsBlank(lastNameText) && !IsBlank(shirtSizeText)
    ensures r.Err? ==> r.error == D.IllegalArgument(ALL_FIELDS_REQUIRED)
    ensures r.Ok? ==> r.value == D.Speaker(Trim(firstNameText), Trim(lastNameText), Trim(shirtSizeText), id)
  {
    var texts := [firstNameText, lastNameText, shirtSizeText];
    var fields := RequireAll(texts, ALL_FIELDS_REQUIRED);
    assert texts[0] == firstNameText && texts[1] == lastNameText && texts[2] == shirtSizeText;
    if fields.Err? then Err(fields.error)
    else Ok(D.Speaker(fields.value[0], fields.value[1], fields.value[2], id))
  }

  /** The unique ids of a list of speakers, in order. */
  function IdsOf(speakers: seq<D.SpeakerRecord>): (ids: seq<string>)
    ensures |ids| == |speakers| && forall i :: 0 <= i < |ids| ==> ids[i] == speakers[i].uniqueId
  {
    seq(|speakers|, i requires 0 <= i < |speakers| => speakers[i].uniqueId)
  }

  class SpeakerPanel {
    const table: TableModel
    const persistence: JsonPersistenceManager
    const uuids: D.UuidSource
    /** The speakers shown, in table order. */
    var speakers: seq<D.SpeakerRecord>
    /** The reference of each speaker object in the list, and the reference the next new one gets. */
    var refs: seq<nat>
    var nextRef: nat

    /** The table shows exactly the list. */
    predicate Shown()
      reads this, table
    {
      Mirrors(speakers, table.rows, RowOf)
    }

    /** The list holds distinct objects, one reference per speaker. */
    predicate Distinct()
      reads this
    {
      |refs| == |speakers| && Identities(refs, nextRef)
    }

    /** The identifier source knows every id in the list, so it never hands one out again. */
    ghost predicate IdsKnown()
      reads this, uuids
    {
      uuids.Valid() && forall i :: 0 <= i < |speakers| ==> speakers[i].uniqueId in uuids.known
    }

    ghost predicate Valid()
      reads this, table, uuids
    {
      Shown() && Distinct() && IdsKnown()
    }

    /** The panel around a loaded list: one table row per speaker, in list order. */
    constructor Init(persistence: JsonPersistenceManager, uuids: D.UuidSource, speakers: seq<D.SpeakerRecord>)
      requires uuids.Valid() && forall i :: 0 <= i < |speakers| ==> speakers[i].uniqueId in uuids.known
      ensures this.persistence == persistence && this.uuids == uuids
      ensures this.speakers == speakers
      ensures fresh(table) && Valid()
    {
      var rows := new TableModel();
      for i := 0 to |speakers|
        invariant Mirrors(speakers[..i], rows.rows, RowOf)
      {
        rows.AddRow(RowOf(speakers[i]));
      }
      assert speakers[..|speakers|] == speakers;
      InitialIdentities(|speakers|);
      this.persistence := persistence;
      this.uuids := uuids;
      this.speakers := speakers;
      refs := seq(|speakers|, i => i);
      nextRef := |speakers|;
      table := rows;
    }

    /**
     * `new SpeakerPanel()`: loads the speakers, whose ids no later draw
     * repeats; a load that throws leaves no panel.
     */
    static method Open(persistence: JsonPersistenceManager, uuids: D.UuidSource) returns (r: Result<SpeakerPanel, D.Failure>)
      requires uuids.Valid()
      modifies uuids
      ensures uuids.Valid() && uuids.drawn == old(uuids.drawn) && old(uuids.known) <= uuids.known
      ensures r.Err? <==> SpeakersOnDisk(persistence.fs.files, persistence.fs.unavailable).Err?
      ensures r.Err? ==> r.error == SpeakersOnDisk(persistence.fs.files, persistence.fs.unavailable).error
      ensures r.Ok? ==> fresh(r.value) && fresh(r.value.table) && r.value.Valid()
      ensures r.Ok? ==> r.value.persistence == persistence && r.value.uuids == uuids
      ensures r.Ok? ==> SpeakersOnDisk(persistence.fs.files, persistence.fs.unavailable) == Ok(r.value.speakers)
    {
      var loaded := persistence.LoadSpeakers();
      if loaded.Err? {
        return Err(loaded.error);
      }
      var ids := IdsOf(loaded.value);
      uuids.Observe(ids);
      forall i | 0 <= i < |loaded.value|
        ensures loaded.value[i].uniqueId in uuids.known
      {
        assert ids[i] in set j | 0 <= j < |ids| :: ids[j];
      }
      var panel := new SpeakerPanel.Init(persistence, uuids, loaded.value);
      r := Ok(panel);
    }

    /**
     * The Edit button: the dialog's target and the speaker on the selected
     * row, whose fields pre-fill the dialog, or `None` (a "No Selection"
     * warning) when no row is selected.
     */
    method SelectForEdit(selectedRow: int) returns (r: Option<(Target, D.SpeakerRecord)>)
      requires Valid() && selectedRow < |speakers|
      ensures r.None? <==> selectedRow < 0
      ensures r.Some? ==> r.value.0 == Target(selectedRow, refs[selectedRow]) && r.value.1 == speakers[selectedRow]
      ensures r.Some? ==> table.rows[selectedRow] == RowOf(r.value.1)
    {
      if selectedRow < 0 {
        return None;
      }
      r := Some((Target(selectedRow, refs[selectedRow]), speakers[selectedRow]));
    }

    /**
     * The dialog's Save button; `editing` is the target of an Edit dialog and
     * `None` for Add. The dialog always builds a new speaker, so an edited
     * speaker is given a new unique id; a save of the same dialog after one
     * that replaced its speaker is refused (see `Commit`).
     */
    method Submit(editing: Option<Target>, firstNameText: string, lastNameText: string, shirtSizeText: string)
      returns (r: Response)
      requires Valid()
      requires editing.Some? ==> editing.value.row < |speakers|
      requires editing.Some? && editing.value.ref in refs ==> refs[editing.value.row] == editing.value.ref
      modifies this, table, uuids, persistence.fs
      ensures uuids.Valid() && old(uuids.known) <= uuids.known
      ensures Valid()
      ensures persistence.fs.unavailable == old(persistence.fs.unavailable)
      ensures
        var form := Built(firstNameText, lastNameText, shirtSizeText, old(uuids.Upcoming()));
        && uuids.drawn == old(uuids.drawn) + (if form.Ok? then 1 else 0)
        && (form.Err? ==> r == Rejected(form.error))
        && (form.Err? || Stale(editing, old(refs)) ==>
              speakers == old(speakers) && refs == old(refs) && persistence.fs.files == old(persistence.fs.files))
        && (form.Ok? ==> form.value.uniqueId !in old(uuids.known))
        && (form.Ok? && Stale(editing, old(refs)) ==> r == Rejected(D.IndexOutOfBounds(-1)))
        && (form.Ok? && !Stale(editing, old(refs)) ==>
              && speakers == Placed(old(speakers), EditRow(editing), form.value)
              && persistence.fs.files == AfterSave(old(persistence.fs.files), persistence.fs.unavailable, Speakers, SpeakerArray(speakers))
              && r == AfterSaving(SaveOutcome(persistence.fs.unavailable, Speakers)))
        && (form.Ok? && editing.Some? && !Stale(editing, old(refs)) ==>
              && speakers[editing.value.row].uniqueId != old(speakers)[editing.value.row].uniqueId
              && Stale(editing, refs))
      ensures r.Saved? ==> SpeakersOnDisk(persistence.fs.files, persistence.fs.unavailable) == Ok(speakers)
    {
      var form := Draw(firstNameText, lastNameText, shirtSizeText);
      if form.Err? {
        return Rejected(form.error);
      }
      if editing.Some? {
        assert speakers[editing.value.row].uniqueId in old(uuids.known);
      }
      r := Commit(editing, form.value);
    }

    /** The dialog's fields checked, then a new speaker built from them, which draws an identifier. */
    method Draw(firstNameText: string, lastNameText: string, shirtSizeText: string)
      returns (form: Result<D.SpeakerRecord, D.Failure>)
      requires IdsKnown()
      modifies uuids
      ensures uuids.Valid() && old(uuids.known) <= uuids.known
      ensures IdsKnown()
      ensures uuids.drawn == old(uuids.drawn) + (if form.Ok? then 1 else 0)
      ensures form == Built(firstNameText, lastNameText, shirtSizeText, old(uuids.Upcoming()))
      ensures form.Ok? ==> form.value.uniqueId in uuids.known && form.value.uniqueId !in old(uuids.known)
    {
      ghost var known := uuids.known;
      var fields := RequireAll([firstNameText, lastNameText, shirtSizeText], ALL_FIELDS_REQUIRED);
      if fields.Err? {
        return Err(fields.error);
      }
      var speaker := D.NewSpeaker(fields.value[0], fields.value[1], fields.value[2], uuids);
      assert known <= uuids.known;
      assert IdsKnown();
      form := Ok(speaker);
    }

    /**
     * Adds `s` at the end, or puts it in place of the object the dialog was
     * opened on, in the list and in the table alike, then saves the whole
     * list. The edited position is `indexOf` that object; when it is no longer
     * in the list, `set(-1, …)` throws before anything changes. After an edit
     * the object is gone, so saving the same dialog again is refused.
     */
    method Commit(editing: Option<Target>, s: D.SpeakerRecord) returns (r: Response)
      requires Valid() && s.uniqueId in uuids.known
      requires editing.Some? ==> editing.value.row < |speakers|
      requires editing.Some? && editing.value.ref in refs ==> refs[editing.value.row] == editing.value.ref
      modifies this, table, persistence.fs
      ensures Valid()
      ensures persistence.fs.unavailable == old(persistence.fs.unavailable)
      ensures Stale(editing, old(refs)) ==>
        && r == Rejected(D.IndexOutOfBounds(-1))
        && speakers == old(speakers) && refs == old(refs) && persistence.fs.files == old(persistence.fs.files)
      ensures !Stale(editing, old(refs)) ==>
        && speakers == Placed(old(speakers), EditRow(editing), s)
        && refs == Placed(old(refs), EditRow(editing), old(nextRef))
        && persistence.fs.files == AfterSave(old(persistence.fs.files), persistence.fs.unavailable, Speakers, SpeakerArray(speakers))
        && r == AfterSaving(SaveOutcome(persistence.fs.unavailable, Speakers))
      ensures editing.Some? ==> Stale(editing, refs)
      ensures r.Saved? ==> SpeakersOnDisk(persistence.fs.files, persistence.fs.unavailable) == Ok(speakers)
    {
      var at: Option<nat> := None;
      if editing.Some? {
        var index := IndexOf(refs, editing.value.ref);
        if index == -1 {
          return Rejected(D.IndexOutOfBounds(index));
        }
        IndexOfDistinct(refs, nextRef, editing.value.row, editing.value.ref);
        at := Some(index);
      }
      Apply(at, s);
      var saved := persistence.SaveSpeakers(speakers);
      r := AfterSaving(saved);
    }

    /** `s` added or put in place of the speaker at `at`, in the list and in the table alike. */
    method Apply(at: Option<nat>, s: D.SpeakerRecord)
      requires Valid() && (at.Some? ==> at.value < |speakers|) && s.uniqueId in uuids.known
      modifies this, table
      ensures Valid()
      ensures speakers == Placed(old(speakers), at, s)
      ensures refs == Placed(old(refs), at, old(nextRef))
      ensures at.Some? ==> old(refs)[at.value] !in refs
    {
      PlacedMirrors(speakers, table.rows, RowOf, at, s);
      Render(at, s);
      Place(at, s);
    }

    /** The list half of a save: `s`, a new object, added at the end or in place of the object at `at`. */
    method Place(at: Option<nat>, s: D.SpeakerRecord)
      requires Distinct() && IdsKnown() && (at.Some? ==> at.value < |speakers|) && s.uniqueId in uuids.known
      modifies this
      ensures Distinct() && IdsKnown()
      ensures speakers == Placed(old(speakers), at, s)
      ensures refs == Placed(old(refs), at, old(nextRef))
      ensures at.Some? ==> old(refs)[at.value] !in refs
    {
      PlacedIdentities(refs, nextRef, at);
      ghost var known := uuids.known;
      PlacedKeeps(speakers, at, s, (x: D.SpeakerRecord) => x.uniqueId in known);
      speakers := Placed(speakers, at, s);
      refs := Placed(refs, at, nextRef);
      nextRef := nextRef + 1;
    }

    /** The table half of a save: a new last row, or the four cells of row `at` overwritten. */
    method Render(at: Option<nat>, s: D.SpeakerRecord)
      requires at.Some? ==> at.value < |table.rows| && |table.rows[at.value]| == 4
      modifies table
      ensures table.rows == Placed(old(table.rows), at, RowOf(s))
    {
      match at {
        case None =>
          table.AddRow([Text(s.firstName), Text(s.lastName), Text(s.shirtSize), Text(s.uniqueId)]);
        case Some(row) =>
          table.SetValueAt(Text(s.firstName), row, 0);
          table.SetValueAt(Text(s.lastName), row, 1);
          table.SetValueAt(Text(s.shirtSize), row, 2);
          table.SetValueAt(Text(s.uniqueId), row, 3);
          assert table.rows[row] == RowOf(s);
      }
    }

    /** The Delete button, after the confirmation dialog was answered `confirmed`. */
    method Delete(selectedRow: int, confirmed: bool) returns (r: Response)
      requires Valid() && selectedRow < |speakers|
      modifies this, table, persistence.fs
      ensures Valid()
      ensures persistence.fs.unavailable == old(persistence.fs.unavailable)
      ensures selectedRow < 0 ==> r == NoSelection
      ensures selectedRow >= 0 && !confirmed ==> r == Declined
      ensures r == NoSelection || r == Declined ==>
        speakers == old(speakers) && refs == old(refs) && persistence.fs.files == old(persistence.fs.files)
      ensures selectedRow >= 0 && confirmed ==>
        && speakers == RemoveAt(old(speakers), selectedRow)
        && refs == RemoveAt(old(refs), selectedRow)
        && persistence.fs.files == AfterSave(old(persistence.fs.files), persistence.fs.unavailable, Speakers, SpeakerArray(speakers))
        && r == AfterSaving(SaveOutcome(persistence.fs.unavailable, Speakers))
      ensures r.Saved? ==> SpeakersOnDisk(persistence.fs.files, persistence.fs.unavailable) == Ok(speakers)
    {
      if selectedRow < 0 {
        return NoSelection;
      }
      if !confirmed {
        return Declined;
      }
      Remove(selectedRow);
      var saved := persistence.SaveSpeakers(speakers);
      r := AfterSaving(saved);
    }

    /** The speaker at `row` taken out of the list and its row out of the table. */
    method Remove(row: nat)
      requires Valid() && row < |speakers|
      modifies this, table
      ensures Valid()
      ensures speakers == RemoveAt(old(speakers), row)
      ensures refs == RemoveAt(old(refs), row)
    {
      MirrorsRemoveAt(speakers, table.rows, RowOf, row);
      RemoveAtIdentities(refs, nextRef, row);
      ghost var known := uuids.known;
      RemoveAtKeeps(speakers, row, (x: D.SpeakerRecord) => x.uniqueId in known);
      speakers := RemoveAt(speakers, row);
      refs := RemoveAt(refs, row);
      table.RemoveRow(row);
    }
  }
}
