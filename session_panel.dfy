/**
 * `SessionPanel`: the sessions loaded at start-up, shown one per table row
 * (title, abstract, and the speaker's first and last name joined by a space),
 * with Add and Delete; sessions cannot be edited. Every change to the list is
 * written to the sessions file at once.
 */
module SessionPanels {
  import opened Wrappers
  import opened JavaText
  import D = Domain
  import opened Persistence
  import opened Tables
  import opened Forms

  /** The text of the Speaker/Moderator column. */
  function SpeakerName(s: D.SpeakerRecord): string {
    s.firstName + " " + s.lastName
  }

  /** The table row of a session. */
  function RowOf(s: D.Session): (row: Row)
    ensures |row| == 3
    ensures row[0] == Text(s.sessionTitle) && row[1] == Text(s.sessionAbstract)
    ensures row[2] == Text(SpeakerName(s.mainSpeakerModerator))
  {
    [Text(s.sessionTitle), Text(s.sessionAbstract), Text(SpeakerName(s.mainSpeakerModerator))]
  }

  /**
   * What the dialog builds from its five fields, `id` being the identifier the
   * new speaker draws: a session embedding a new speaker, or the exception
   * that refuses the form when any field is blank.
   */
  function Built(titleText: string, abstractText: string, firstNameText: string, lastNameText: string,
                 shirtSizeText: string, id: string): (r: Result<D.Session, D.Failure>)
    ensures r.Ok? <==> !IsBlank(titleText) && !IsBlank(abstractText) && !IsBlank(firstNameText)
                       && !IsBlank(lastNameText) && !IsBlank(shirtSizeText)
    ensures r.Err? ==> r.error == D.IllegalArgument(ALL_FIELDS_REQUIRED)
    ensures r.Ok? ==> r.value == D.Session(Trim(titleText), Trim(abstractText),
                                           D.Speaker(Trim(firstNameText), Trim(lastNameText), Trim(shirtSizeText), id))
  {
    var texts := [titleText, abstractText, firstNameText, lastNameText, shirtSizeText];
    var fields := RequireAll(texts, ALL_FIELDS_REQUIRED);
    assert texts[0] == titleText && texts[1] == abstractText && texts[2] == firstNameText;
    assert texts[3] == lastNameText && texts[4] == shirtSizeText;
    if fields.Err? then Err(fields.error)
    else Ok(D.Session(fields.value[0], fields.value[1], D.Speaker(fields.value[2], fields.value[3], fields.value[4], id)))
  }

  /** The unique ids of the speakers of a list of sessions, in order. */
  function SpeakerIdsOf(sessions: seq<D.Session>): (ids: seq<string>)
    ensures |ids| == |sessions| && forall i :: 0 <= i < |ids| ==> ids[i] == sessions[i].mainSpeakerModerator.uniqueId
  {
    seq(|sessions|, i requires 0 <= i < |sessions| => sessions[i].mainSpeakerModerator.uniqueId)
  }

  class SessionPanel {
    const table: TableModel
    const persistence: JsonPersistenceManager
    const uuids: D.UuidSource
    /** The sessions shown, in table order. */
    var sessions: seq<D.Session>

    /** The table shows exactly the list. */
    predicate Shown()
      reads this, table
    {
      Mirrors(sessions, table.rows, RowOf)
    }

    /** The identifier source knows the id of every session's speaker, so it never hands one out again. */
    ghost predicate IdsKnown()
      reads this, uuids
    {
      uuids.Valid() && forall i :: 0 <= i < |sessions| ==> sessions[i].mainSpeakerModerator.uniqueId in uuids.known
    }

    ghost predicate Valid()
      reads this, table, uuids
    {
      Shown() && IdsKnown()
    }

    /** The panel around a loaded list: one table row per session, in list order. */
    constructor Init(persistence: JsonPersistenceManager, uuids: D.UuidSource, sessions: seq<D.Session>)
      requires uuids.Valid() && forall i :: 0 <= i < |sessions| ==> sessions[i].mainSpeakerModerator.uniqueId in uuids.known
      ensures this.persistence == persistence && this.uuids == uuids
      ensures this.sessions == sessions
      ensures fresh(table) && Valid()
    {
      var rows := new TableModel();
      for i := 0 to |sessions|
        invariant Mirrors(sessions[..i], rows.rows, RowOf)
      {
        rows.AddRow(RowOf(sessions[i]));
      }
      assert sessions[..|sessions|] == sessions;
      this.persistence := persistence;
      this.uuids := uuids;
      this.sessions := sessions;
      table := rows;
    }

    /**
     * `new SessionPanel()`: loads the sessions, whose speakers' ids no later
     * draw repeats; a load that throws leaves no panel.
     */
    static method Open(persistence: JsonPersistenceManager, uuids: D.UuidSource) returns (r: Result<SessionPanel, D.Failure>)
      requires uuids.Valid()
      modifies uuids
      ensures uuids.Valid() && uuids.drawn == old(uuids.drawn) && old(uuids.known) <= uuids.known
      ensures r.Err? <==> SessionsOnDisk(persistence.fs.files, persistence.fs.unavailable).Err?
      ensures r.Err? ==> r.error == SessionsOnDisk(persistence.fs.files, persistence.fs.unavailable).error
      ensures r.Ok? ==> fresh(r.value) && fresh(r.value.table) && r.value.Valid()
      ensures r.Ok? ==> r.value.persistence == persistence && r.value.uuids == uuids
      ensures r.Ok? ==> SessionsOnDisk(persistence.fs.files, persistence.fs.unavailable) == Ok(r.value.sessions)
    {
      var loaded := persistence.LoadSessions();
      if loaded.Err? {
        return Err(loaded.error);
      }
      var ids := SpeakerIdsOf(loaded.value);
      uuids.Observe(ids);
      forall i | 0 <= i < |loaded.value|
        ensures loaded.value[i].mainSpeakerModerator.uniqueId in uuids.known
      {
        assert ids[i] in set j | 0 <= j < |ids| :: ids[j];
      }
      var panel := new SessionPanel.Init(persistence, uuids, loaded.value);
      r := Ok(panel);
    }

    /**
     * The dialog's Save button: appends a new session whose speaker, built
     * from the form, draws an identifier no earlier speaker holds.
     */
    method Submit(titleText: string, abstractText: string, firstNameText: string, lastNameText: string, shirtSizeText: string)
      returns (r: Response)
      requires Valid()
      modifies this, table, uuids, persistence.fs
      ensures uuids.Valid() && old(uuids.known) <= uuids.known
      ensures Valid()
      ensures persistence.fs.unavailable == old(persistence.fs.unavailable)
      ensures
        var form := Built(titleText, abstractText, firstNameText, lastNameText, shirtSizeText, old(uuids.Upcoming()));
        && uuids.drawn == old(uuids.drawn) + (if form.Ok? then 1 else 0)
        && (form.Err? ==> r == Rejected(form.error))
        && (form.Err? ==> sessions == old(sessions) && persistence.fs.files == old(persistence.fs.files))
        && (form.Ok? ==> form.value.mainSpeakerModerator.uniqueId !in old(uuids.known))
        && (form.Ok? ==> sessions == old(sessions) + [form.value])
        && (form.Ok? ==> persistence.fs.files == AfterSave(old(persistence.fs.files), persistence.fs.unavailable, Sessions, SessionArray(sessions)))
        && (form.Ok? ==> r == AfterSaving(SaveOutcome(persistence.fs.unavailable, Sessions)))
      ensures r.Saved? ==> SessionsOnDisk(persistence.fs.files, persistence.fs.unavailable) == Ok(sessions)
    {
      var form := Draw(titleText, abstractText, firstNameText, lastNameText, shirtSizeText);
      if form.Err? {
        return Rejected(form.error);
      }
      r := Commit(form.value);
    }

    /** The dialog's fields checked, then a session with a new speaker built from them, which draws an identifier. */
    method Draw(titleText: string, abstractText: string, firstNameText: string, lastNameText: string, shirtSizeText: string)
      returns (form: Result<D.Session, D.Failure>)
      requires IdsKnown()
      modifies uuids
      ensures uuids.Valid() && old(uuids.known) <= uuids.known
      ensures IdsKnown()
      ensures uuids.drawn == old(uuids.drawn) + (if form.Ok? then 1 else 0)
      ensures form == Built(titleText, abstractText, firstNameText, lastNameText, shirtSizeText, old(uuids.Upcoming()))
      ensures form.Ok? ==> form.value.mainSpeakerModerator.uniqueId in uuids.known
      ensures form.Ok? ==> form.value.mainSpeakerModerator.uniqueId !in old(uuids.known)
    {
      ghost var known := uuids.known;
      var texts := [titleText, abstractText, firstNameText, lastNameText, shirtSizeText];
      var fields := RequireAll(texts, ALL_FIELDS_REQUIRED);
      if fields.Err? {
        return Err(fields.error);
      }
      var speaker := D.NewSpeaker(fields.value[2], fields.value[3], fields.value[4], uuids);
      assert known <= uuids.known;
      assert IdsKnown();
      form := Ok(D.Session(fields.value[0], fields.value[1], speaker));
    }

    /** Appends `s` to the list and its row to the table, then saves the whole list. */
    method Commit(s: D.Session) returns (r: Response)
      requires Valid() && s.mainSpeakerModerator.uniqueId in uuids.known
      modifies this, table, persistence.fs
      ensures Valid()
      ensures sessions == old(sessions) + [s]
      ensures persistence.fs.unavailable == old(persistence.fs.unavailable)
      ensures persistence.fs.files == AfterSave(old(persistence.fs.files), persistence.fs.unavailable, Sessions, SessionArray(sessions))
      ensures r == AfterSaving(SaveOutcome(persistence.fs.unavailable, Sessions))
      ensures r.Saved? ==> SessionsOnDisk(persistence.fs.files, persistence.fs.unavailable) == Ok(sessions)
    {
      sessions := sessions + [s];
      table.AddRow([Text(s.sessionTitle), Text(s.sessionAbstract),
                    Text(s.mainSpeakerModerator.firstName + " " + s.mainSpeakerModerator.lastName)]);
      var saved := persistence.SaveSessions(sessions);
      r := AfterSaving(saved);
    }

    /** The Delete button, after the confirmation dialog was answered `confirmed`. */
    method Delete(selectedRow: int, confirmed: bool) returns (r: Response)
      requires Valid() && selectedRow < |sessions|
      modifies this, table, persistence.fs
      ensures Valid()
      ensures persistence.fs.unavailable == old(persistence.fs.unavailable)
      ensures selectedRow < 0 ==> r == NoSelection
      ensures selectedRow >= 0 && !confirmed ==> r == Declined
      ensures r == NoSelection || r == Declined ==>
        sessions == old(sessions) && persistence.fs.files == old(persistence.fs.files)
      ensures selectedRow >= 0 && confirmed ==>
        && sessions == RemoveAt(old(sessions), selectedRow)
        && persistence.fs.files == AfterSave(old(persistence.fs.files), persistence.fs.unavailable, Sessions, SessionArray(sessions))
        && r == AfterSaving(SaveOutcome(persistence.fs.unavailable, Sessions))
      ensures r.Saved? ==> SessionsOnDisk(persistence.fs.files, persistence.fs.unavailable) == Ok(sessions)
    {
      if selectedRow < 0 {
        return NoSelection;
      }
      if !confirmed {
        return Declined;
      }
      Remove(selectedRow);
      var saved := persistence.SaveSessions(sessions);
      r := AfterSaving(saved);
    }

    /** The session at `row` taken out of the list and its row out of the table. */
    method Remove(row: nat)
      requires Valid() && row < |sessions|
      modifies this, table
      ensures Valid()
      ensures sessions == RemoveAt(old(sessions), row)
    {
      MirrorsRemoveAt(sessions, table.rows, RowOf, row);
      ghost var known := uuids.known;
      RemoveAtKeeps(sessions, row, (x: D.Session) => x.mainSpeakerModerator.uniqueId in known);
      sessions := RemoveAt(sessions, row);
      table.RemoveRow(row);
    }
  }
}
