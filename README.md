# Conference management: records, JSON persistence and editing panels

This project models the core of a small Swing application that keeps the
data of a conference. The data is one conference, with its speakers,
attendees, sessions, staff members and vendors/sponsors.

- **Person records.** An allowed person has a first and a last name. An attendee adds
  a payment type and a random unique id. A vendor/sponsor adds a booth name
  and a unique id. The closed set of person kinds is the datatype
  `Domain.Person`. The mutable Java objects are the classes
  `Persons.AllowedPerson`, `Attendees.Attendee` and
  `VendorSponsors.VendorSponsor`.
- **`JsonPersistenceManager`.** It writes each kind of data as JSON to its own
  fixed file and reads it back:
  - a missing file loads as an empty list, or as no conference;
  - an I/O failure becomes a `RuntimeException`;
  - years are written as plain integers.

  The file system is a class `Persistence.FileSystem`: a map from path to
  stored document, plus a set of paths whose reads and writes fail. The JSON
  text is abstracted to a `Document` value per kind.
- **The six panels.** There is one panel each for conferences, speakers,
  attendees, sessions, staff and vendors/sponsors. Each is a class holding
  the panel's list (a `seq`) and its `Tables.TableModel`. The panels with an
  Edit button also keep a reference number per list element, standing for
  the Java object in that position. `Valid()` states three things:
  - row *i* of the table shows element *i* of the list;
  - the list holds distinct objects;
  - the identifier source knows every id in the list.

  The button listeners are methods:
  - `SelectForEdit` is the Edit button. It returns the `Tables.Target` the
    dialog is opened on: the selected row and the object on it.
  - `Submit` is the dialog's Save button. It checks the form and builds the
    new record (`Draw`, specified by the pure function `Built`), then hands
    it to `Commit`.
  - `Commit` finds the edited object with `indexOf`, changes the list and
    the table alike, and saves.
  - `Delete` is the Delete button with its confirmation answer.

  Every change is followed by a save of the whole list. For conferences, the
  first element is saved; after the last one is deleted, `null` is saved.

Behaviour the proofs make explicit:

- Only the first conference survives a restart (`ConferencePanels.OnlyFirstConferencePersists`).
- An edit replaces the record with a newly built one. The edited speaker,
  attendee or vendor/sponsor therefore gets a new unique id, one that no
  stored or earlier record holds.
- An edit locates the old object with `indexOf`. After an edit the old
  object is gone from the list. When the save of that edit fails, the dialog
  stays open with the list already changed. Pressing Save again makes
  `indexOf` return -1, and `set(-1, …)` throws IndexOutOfBoundsException:
  the retry is refused and changes nothing (`Commit`, `Tables.IndexOf`).
- The conference dialog pre-fills the year with `Year.toString` and reads it
  back with `Year.parse`. That round trip succeeds only for years 1000 to
  9999 and years at or below -1000 (`Years.YearTextRoundTrip`).
  - Consequence: a conference whose year is, say, 999 or 10000 cannot be
    saved again unchanged from the edit dialog. Its save fails with a
    date-time parse error (`ConferencePanels.UnchangedFormResubmits`).
  - The stored JSON itself round-trips every year (`Persistence.YearRoundTrip`).

Each kind is read and written only through its own file. So a save changes
only the load result of that kind (`Persistence.SaveLeavesOtherKinds`), and a
load after a successful save returns exactly what was saved, in order
(`Persistence.ConferenceSaveLoad`, `Persistence.ListSaveLoad`).

Speaker.java, Staff.java, Session.java, Conference.java and PaymentType.java
are not part of this model. Their fields are taken from how the panels and
the persistence manager use them:

- Speaker: first name, last name, shirt size and a unique id;
- Staff: first name, last name and hat size;
- Session: title, abstract and main speaker/moderator;
- Conference: name, nickname, year and venue;
- PaymentType: an opaque named value.

## Model

| member | source | states |
|---|---|---|
| Domain.ExactlyOneKind | java8/src/main/java/conf/AllowedPerson.java:5-17 | every person is exactly one of attendee, speaker, staff member or vendor/sponsor; all kinds but staff carry a unique id |
| Domain.UuidSource.constructor | java8/src/main/java/conf/Attendee.java:7 | a fresh identifier source has drawn and recorded nothing |
| Domain.UuidSource.Next | java8/src/main/java/conf/Attendee.java:7 | each drawn identifier differs from every identifier drawn or recorded before, and is then recorded |
| Domain.UuidSource.Observe | java8/src/main/java/conf/ui/AttendeePanel.java:32 | the ids of loaded records are recorded, so no later draw repeats an id already stored |
| Domain.NewSpeaker | java8/src/main/java/conf/ui/SpeakerPanel.java:207 | `new Speaker(first, last, shirt)` keeps the three fields as given and draws one new, never-issued unique id |
| Persons.AllowedPerson.constructor | java8/src/main/java/conf/AllowedPerson.java:25-28 | both names are stored exactly as given, with no validation |
| Persons.AllowedPerson.GetFirstName | java8/src/main/java/conf/AllowedPerson.java:30-32 | returns the current first name |
| Persons.AllowedPerson.SetFirstName | java8/src/main/java/conf/AllowedPerson.java:34-36 | sets the first name and leaves the last name unchanged |
| Persons.AllowedPerson.GetLastName | java8/src/main/java/conf/AllowedPerson.java:38-40 | returns the current last name |
| Persons.AllowedPerson.SetLastName | java8/src/main/java/conf/AllowedPerson.java:42-44 | sets the last name and leaves the first name unchanged |
| Persons.AllowedPerson.ToString | java8/src/main/java/conf/AllowedPerson.java:46-52 | renders `AllowedPerson{firstName='…', lastName='…'}` |
| Attendees.Attendee.Value | java8/src/main/java/conf/Attendee.java:5-7 | the record value of an attendee object carries its names, payment type and id |
| Attendees.Attendee.Init | java8/src/main/java/conf/Attendee.java:9-15 | the names, a present payment type and the id are stored as given |
| Attendees.Attendee.New | java8/src/main/java/conf/Attendee.java:9-15 | a missing payment type raises IllegalArgumentException("Invalid Payment type") and yields no attendee; otherwise the fields are stored as given; either way a new, never-issued id is drawn, since the field initialiser runs before the constructor body |
| Attendees.Attendee.GetPaymentType | java8/src/main/java/conf/Attendee.java:17-19 | returns the current payment type |
| Attendees.Attendee.SetPaymentType | java8/src/main/java/conf/Attendee.java:21-23 | overwrites only the payment type, with no null check; names and id are unchanged |
| Attendees.Attendee.GetUniqueId | java8/src/main/java/conf/Attendee.java:25-27 | returns the id fixed at construction (a `const` field) |
| Attendees.Attendee.ToString | java8/src/main/java/conf/Attendee.java:29-36 | renders the two names and the payment type, in that format |
| Attendees.ToStringIgnoresUniqueId | java8/src/main/java/conf/Attendee.java:29-36 | two attendees equal except for their unique ids render alike |
| VendorSponsors.VendorSponsor.Value | java8/src/main/java/conf/VendorSponsor.java:5-7 | the record value of a vendor/sponsor object carries its names, booth name and id |
| VendorSponsors.VendorSponsor.constructor | java8/src/main/java/conf/VendorSponsor.java:7-12 | the three names are stored unchanged, and a new, never-issued id is drawn |
| VendorSponsors.VendorSponsor.GetBoothName | java8/src/main/java/conf/VendorSponsor.java:14-16 | returns the current booth name |
| VendorSponsors.VendorSponsor.SetBoothName | java8/src/main/java/conf/VendorSponsor.java:18-20 | overwrites only the booth name; the names and id are unchanged |
| VendorSponsors.VendorSponsor.GetUniqueId | java8/src/main/java/conf/VendorSponsor.java:22-24 | returns the id fixed at construction (a `const` field) |
| VendorSponsors.VendorSponsor.ToString | java8/src/main/java/conf/VendorSponsor.java:26-33 | renders the two names and the booth name, in that format |
| VendorSponsors.ToStringIgnoresUniqueId | java8/src/main/java/conf/VendorSponsor.java:26-33 | two vendors/sponsors equal except for their unique ids render alike |
| JavaText.TrimStartShape | java8/src/main/java/conf/ui/AttendeePanel.java:200-201 | the leading cut of `trim` is a suffix that starts above U+0020 (or is empty), and everything cut off is at most U+0020 |
| JavaText.TrimEndShape | java8/src/main/java/conf/ui/AttendeePanel.java:200-201 | the trailing cut of `trim` is a prefix that ends above U+0020 (or is empty), and everything cut off is at most U+0020 |
| JavaText.TrimShape | java8/src/main/java/conf/ui/AttendeePanel.java:200-201 | `String.trim` yields the slice between the first and the last character above U+0020; everything cut off is at most U+0020 |
| JavaText.TrimEmptyIffBlank | java8/src/main/java/conf/ui/AttendeePanel.java:204 | `s.trim().isEmpty()` holds exactly when every character of `s` is at most U+0020 |
| JavaText.TrimIdempotent | java8/src/main/java/conf/ui/ConferencePanel.java:229-236 | trimming an already trimmed field changes nothing |
| Years.YearText | java8/src/main/java/conf/ui/ConferencePanel.java:197 | `Year.toString`: the decimal digits of the year, with a leading '-' when it is negative |
| Years.ParseYear | java8/src/main/java/conf/ui/ConferencePanel.java:233 | JDK 8's `Year.parse`, both directions: with no sign it accepts exactly four digits; with '+' five to ten digits; with '-' four to ten digits, not all zero; the value, with the written sign, must lie within ±999,999,999; any other text is refused; the only failure is DateTimeParseException |
| Years.YearTextRoundTrip | java8/src/main/java/conf/ui/ConferencePanel.java:197-233 | under JDK 8's `Year.parse`, `Year.parse(y.toString())` gives `y` back exactly when 1000 <= y <= 9999 or y <= -1000, and fails otherwise |
| Persistence.FileOf | java8/src/main/java/conf/persistence/JsonPersistenceManager.java:15-20 | each kind is stored in one of the six fixed file names |
| Persistence.FileOfInjective | java8/src/main/java/conf/persistence/JsonPersistenceManager.java:15-20 | different kinds use different files |
| Persistence.WriteYear | java8/src/main/java/conf/persistence/JsonPersistenceManager.java:29-31 | a year is written as its value, which fits in a Java int |
| Persistence.ReadYear | java8/src/main/java/conf/persistence/JsonPersistenceManager.java:34-36 | `Year.of(nextInt())` succeeds exactly for integers in ±999,999,999, gives that year back, and fails with NumberFormatException outside the int range and DateTimeException inside it |
| Persistence.YearRoundTrip | java8/src/main/java/conf/persistence/JsonPersistenceManager.java:27-37 | a year written by the adapter is read back unchanged |
| Persistence.ConferenceRoundTrip | java8/src/main/java/conf/persistence/JsonPersistenceManager.java:43-57 | decoding the encoding of a conference, or of `null`, gives it back |
| Persistence.ReadDocument | java8/src/main/java/conf/persistence/JsonPersistenceManager.java:51-61 | a missing file reads as absent; an existing file that cannot be read raises "Failed to load … data"; otherwise its content is returned |
| Persistence.SaveOutcome | java8/src/main/java/conf/persistence/JsonPersistenceManager.java:41-49 | a save fails, with "Failed to save … data", exactly when its file cannot be written |
| Persistence.AfterSave | java8/src/main/java/conf/persistence/JsonPersistenceManager.java:41-49 | a successful save replaces exactly its kind's file; every other file is unchanged, and a failed save changes nothing |
| Persistence.LoadAfterSave | java8/src/main/java/conf/persistence/JsonPersistenceManager.java:41-62 | after a successful save, reading the same kind gives exactly the saved document |
| Persistence.SaveForgetsEarlierContents | java8/src/main/java/conf/persistence/JsonPersistenceManager.java:43-44 | what a kind loads after a save does not depend on the file's earlier contents |
| Persistence.SaveLeavesOtherKinds | java8/src/main/java/conf/persistence/JsonPersistenceManager.java:15-20 | saving one kind leaves every other kind's load result unchanged |
| Persistence.MissingFileLoadsEmpty | java8/src/main/java/conf/persistence/JsonPersistenceManager.java:51-182 | with its file absent, the conference loads as `null` and every list as empty, without error |
| Persistence.ConferenceSaveLoad | java8/src/main/java/conf/persistence/JsonPersistenceManager.java:41-62 | `saveConference(c)` then `loadConference()` returns `c`, including `null` |
| Persistence.ListSaveLoad | java8/src/main/java/conf/persistence/JsonPersistenceManager.java:64-182 | saving a list of any kind then loading that kind returns the same elements in the same order |
| Persistence.IoFailures | java8/src/main/java/conf/persistence/JsonPersistenceManager.java:45-61 | an unreadable existing file makes the load fail with a runtime error, and an unwritable file makes the save change nothing |
| Persistence.FileSystem.Exists | java8/src/main/java/conf/persistence/JsonPersistenceManager.java:53 | `Files.exists` holds exactly for stored paths |
| Persistence.FileSystem.Read | java8/src/main/java/conf/persistence/JsonPersistenceManager.java:56 | reading a stored path gives its content, or an IOException when the path fails |
| Persistence.FileSystem.Write | java8/src/main/java/conf/persistence/JsonPersistenceManager.java:44 | writing replaces the path's content, or raises an IOException and changes nothing when the path fails |
| Persistence.JsonPersistenceManager.constructor | java8/src/main/java/conf/persistence/JsonPersistenceManager.java:24-39 | the manager works on the given file store |
| Persistence.JsonPersistenceManager.Save | java8/src/main/java/conf/persistence/JsonPersistenceManager.java:41-49 | writes one kind's document to its file; failure is a runtime error and changes nothing |
| Persistence.JsonPersistenceManager.Load | java8/src/main/java/conf/persistence/JsonPersistenceManager.java:51-62 | reads one kind's file: absent if missing, a runtime error if unreadable |
| Persistence.JsonPersistenceManager.SaveConference | java8/src/main/java/conf/persistence/JsonPersistenceManager.java:41-49 | replaces the conference file only, and on success `loadConference` then returns the saved conference (or `null`) |
| Persistence.JsonPersistenceManager.LoadConference | java8/src/main/java/conf/persistence/JsonPersistenceManager.java:51-62 | returns the stored conference, `null` when the file is missing, or the runtime error |
| Persistence.JsonPersistenceManager.SaveSpeakers | java8/src/main/java/conf/persistence/JsonPersistenceManager.java:64-72 | replaces the speakers file only; on success the same list loads back |
| Persistence.JsonPersistenceManager.LoadSpeakers | java8/src/main/java/conf/persistence/JsonPersistenceManager.java:74-86 | returns the stored speakers in order, empty when the file is missing |
| Persistence.JsonPersistenceManager.SaveAttendees | java8/src/main/java/conf/persistence/JsonPersistenceManager.java:88-96 | replaces the attendees file only; on success the same list loads back |
| Persistence.JsonPersistenceManager.LoadAttendees | java8/src/main/java/conf/persistence/JsonPersistenceManager.java:98-110 | returns the stored attendees in order, empty when the file is missing |
| Persistence.JsonPersistenceManager.SaveSessions | java8/src/main/java/conf/persistence/JsonPersistenceManager.java:112-120 | replaces the sessions file only; on success the same list loads back |
| Persistence.JsonPersistenceManager.LoadSessions | java8/src/main/java/conf/persistence/JsonPersistenceManager.java:122-134 | returns the stored sessions in order, empty when the file is missing |
| Persistence.JsonPersistenceManager.SaveStaff | java8/src/main/java/conf/persistence/JsonPersistenceManager.java:136-144 | replaces the staff file only; on success the same list loads back |
| Persistence.JsonPersistenceManager.LoadStaff | java8/src/main/java/conf/persistence/JsonPersistenceManager.java:146-158 | returns the stored staff in order, empty when the file is missing |
| Persistence.JsonPersistenceManager.SaveVendors | java8/src/main/java/conf/persistence/JsonPersistenceManager.java:160-168 | replaces the vendors file only; on success the same list loads back |
| Persistence.JsonPersistenceManager.LoadVendors | java8/src/main/java/conf/persistence/JsonPersistenceManager.java:170-182 | returns the stored vendors/sponsors in order, empty when the file is missing |
| Tables.RemoveAt | java8/src/main/java/conf/ui/AttendeePanel.java:112-113 | `List.remove(i)` / `removeRow(i)`: one element fewer, those before `i` kept, those after shifted down by one, the same multiset less the removed element |
| Tables.Placed | java8/src/main/java/conf/ui/AttendeePanel.java:210-227 | add appends the new element at the end, keeping all earlier ones; edit replaces only the edited position and keeps the length |
| Tables.MirrorsRemoveAt | java8/src/main/java/conf/ui/AttendeePanel.java:112-113 | removing the same index from the list and the table keeps row *i* showing element *i* |
| Tables.IndexOf | java8/src/main/java/conf/ui/AttendeePanel.java:221 | `List.indexOf` under reference equality: -1 exactly when the object is absent, otherwise its first position |
| Tables.IndexOfDistinct | java8/src/main/java/conf/ui/AttendeePanel.java:221-223 | while the list holds distinct objects, `indexOf` of the object on the selected row is that row |
| Tables.InitialIdentities | java8/src/main/java/conf/ui/AttendeePanel.java:32 | the objects of a freshly loaded list are distinct |
| Tables.PlacedIdentities | java8/src/main/java/conf/ui/AttendeePanel.java:210-222 | adding a new object, or setting it in place of one, keeps the objects distinct, and the replaced object is no longer in the list |
| Tables.RemoveAtIdentities | java8/src/main/java/conf/ui/AttendeePanel.java:112 | removing one element keeps the objects distinct |
| Tables.PlacedMirrors | java8/src/main/java/conf/ui/AttendeePanel.java:210-227 | adding to or replacing in the list and the table alike keeps row *i* showing element *i* |
| Tables.TableModel.constructor | java8/src/main/java/conf/ui/AttendeePanel.java:39 | a new table model has no rows |
| Tables.TableModel.AddRow | java8/src/main/java/conf/ui/AttendeePanel.java:213 | appends one row |
| Tables.TableModel.RemoveRow | java8/src/main/java/conf/ui/AttendeePanel.java:113 | removes exactly the given row |
| Tables.TableModel.SetValueAt | java8/src/main/java/conf/ui/AttendeePanel.java:224 | changes exactly one cell |
| Forms.AfterSaving | java8/src/main/java/conf/ui/AttendeePanel.java:231-239 | a save that throws is caught and reported, and the dialog stays open; otherwise the change is saved |
| Forms.RequireAll | java8/src/main/java/conf/ui/SpeakerPanel.java:199-205 | the form passes exactly when no field is blank after trimming; it then yields the trimmed, non-empty fields, and otherwise IllegalArgumentException with the given message |
| AttendeePanels.RowOf | java8/src/main/java/conf/ui/AttendeePanel.java:64-69 | an attendee's row is first name, last name, payment type, unique id |
| AttendeePanels.Built | java8/src/main/java/conf/ui/AttendeePanel.java:200-208 | blank names give "First name and last name are required"; otherwise a missing payment type gives "Invalid Payment type"; otherwise an attendee with the trimmed names |
| AttendeePanels.AttendeePanel.Init | java8/src/main/java/conf/ui/AttendeePanel.java:62-70 | the panel holds the given list, its table shows one row per attendee in list order, and the attendees are distinct objects, whose ids the identifier source knows |
| AttendeePanels.AttendeePanel.Open | java8/src/main/java/conf/ui/AttendeePanel.java:30-32 | the panel's list is exactly what the load returns, and the loaded ids are recorded so that no later new attendee repeats one; loading draws no identifier and forgets none already known, so panels can share one source; a load that throws leaves no panel |
| AttendeePanels.AttendeePanel.SelectForEdit | java8/src/main/java/conf/ui/AttendeePanel.java:90-101 | with no selected row nothing is edited; otherwise the dialog is opened on the selected row and the object on it, whose fields pre-fill the dialog and whose row is on display |
| AttendeePanels.AttendeePanel.Submit | java8/src/main/java/conf/ui/AttendeePanel.java:198-240 | a blank field refuses the form and changes nothing; otherwise the new attendee is appended, or replaces the object the dialog was opened on, and the whole list is saved; the new attendee's id was never issued nor loaded, so an edited attendee always gets a different id; exactly one id is drawn unless a name is blank, even when a missing payment type then refuses the form; no known id is forgotten; when that object is no longer in the list (an edit whose save failed, saved again) `set(-1, …)` throws IndexOutOfBoundsException and nothing changes |
| AttendeePanels.AttendeePanel.Draw | java8/src/main/java/conf/ui/AttendeePanel.java:200-208 | the form is checked, then `new` draws exactly one identifier, never issued nor loaded, for the attendee it builds; a form refused for a blank name draws none, and one refused for a missing payment type draws one, because the id is drawn before the constructor's check |
| AttendeePanels.AttendeePanel.Commit | java8/src/main/java/conf/ui/AttendeePanel.java:210-231 | `indexOf` of the edited object is -1 exactly when it is no longer in the list, and then the save is refused with nothing changed; otherwise list and table change alike and the whole list is saved, and an edited object is gone from the list afterwards |
| AttendeePanels.AttendeePanel.Apply | java8/src/main/java/conf/ui/AttendeePanel.java:210-227 | the list and the table take the same change, so row *i* still shows element *i* and the objects stay distinct |
| AttendeePanels.AttendeePanel.Place | java8/src/main/java/conf/ui/AttendeePanel.java:212-222 | `add` appends a new object, `set` puts it in place of one element; the replaced object is no longer in the list |
| AttendeePanels.AttendeePanel.Render | java8/src/main/java/conf/ui/AttendeePanel.java:213-227 | `addRow` appends the new row, or the four `setValueAt` calls rewrite exactly the edited row |
| AttendeePanels.AttendeePanel.Delete | java8/src/main/java/conf/ui/AttendeePanel.java:103-123 | with no selection or without YES nothing changes; otherwise exactly the selected element and row are removed, the rest keep their order, and the list is saved |
| AttendeePanels.AttendeePanel.Remove | java8/src/main/java/conf/ui/AttendeePanel.java:112-113 | `remove(i)` and `removeRow(i)` take out the same position, so row *i* still shows element *i* |
| SpeakerPanels.RowOf | java8/src/main/java/conf/ui/SpeakerPanel.java:63-68 | a speaker's row is first name, last name, shirt size, unique id |
| SpeakerPanels.Built | java8/src/main/java/conf/ui/SpeakerPanel.java:199-207 | any blank field gives "All fields are required"; otherwise a speaker with the trimmed fields |
| SpeakerPanels.SpeakerPanel.Init | java8/src/main/java/conf/ui/SpeakerPanel.java:61-69 | the panel holds the given list, its table shows one row per speaker in list order, and the speakers are distinct objects, whose ids the identifier source knows |
| SpeakerPanels.SpeakerPanel.Open | java8/src/main/java/conf/ui/SpeakerPanel.java:29-31 | the panel's list is exactly what the load returns, and the loaded ids are recorded so that no later new speaker repeats one; loading draws no identifier and forgets none already known, so panels can share one source; a load that throws leaves no panel |
| SpeakerPanels.SpeakerPanel.SelectForEdit | java8/src/main/java/conf/ui/SpeakerPanel.java:91-102 | with no selected row nothing is edited; otherwise the dialog is opened on the selected row and the object on it, whose fields pre-fill the dialog and whose row is on display |
| SpeakerPanels.SpeakerPanel.Submit | java8/src/main/java/conf/ui/SpeakerPanel.java:197-238 | a blank field refuses the form and changes nothing; otherwise the new speaker is appended, or replaces the object the dialog was opened on, and the whole list is saved; the new speaker's id was never issued nor loaded, so an edited speaker always gets a different id; exactly one id is drawn when the form passes; no known id is forgotten; when that object is no longer in the list (an edit whose save failed, saved again) `set(-1, …)` throws IndexOutOfBoundsException and nothing changes |
| SpeakerPanels.SpeakerPanel.Draw | java8/src/main/java/conf/ui/SpeakerPanel.java:199-207 | the form is checked, then `new` draws exactly one identifier, never issued nor loaded, for the speaker it builds; a refused form draws none |
| SpeakerPanels.SpeakerPanel.Commit | java8/src/main/java/conf/ui/SpeakerPanel.java:209-229 | `indexOf` of the edited object is -1 exactly when it is no longer in the list, and then the save is refused with nothing changed; otherwise list and table change alike and the whole list is saved, and an edited object is gone from the list afterwards |
| SpeakerPanels.SpeakerPanel.Apply | java8/src/main/java/conf/ui/SpeakerPanel.java:209-227 | the list and the table take the same change, so row *i* still shows element *i* and the objects stay distinct |
| SpeakerPanels.SpeakerPanel.Place | java8/src/main/java/conf/ui/SpeakerPanel.java:211-222 | `add` appends a new object, `set` puts it in place of one element; the replaced object is no longer in the list |
| SpeakerPanels.SpeakerPanel.Render | java8/src/main/java/conf/ui/SpeakerPanel.java:212-227 | `addRow` appends the new row, or the four `setValueAt` calls rewrite exactly the edited row |
| SpeakerPanels.SpeakerPanel.Delete | java8/src/main/java/conf/ui/SpeakerPanel.java:104-123 | with no selection or without YES nothing changes; otherwise exactly the selected element and row are removed, the rest keep their order, and the list is saved |
| SpeakerPanels.SpeakerPanel.Remove | java8/src/main/java/conf/ui/SpeakerPanel.java:113-114 | `remove(i)` and `removeRow(i)` take out the same position, so row *i* still shows element *i* |
| StaffPanels.RowOf | java8/src/main/java/conf/ui/StaffPanel.java:63-67 | a staff member's row is first name, last name, hat size, and has no id column |
| StaffPanels.Built | java8/src/main/java/conf/ui/StaffPanel.java:196-204 | any blank field gives "All fields are required"; otherwise a staff member with the trimmed fields |
| StaffPanels.StaffPanel.Init | java8/src/main/java/conf/ui/StaffPanel.java:61-68 | the panel holds the given list, its table shows one row per staff member in list order, and the staff members are distinct objects |
| StaffPanels.StaffPanel.Open | java8/src/main/java/conf/ui/StaffPanel.java:29-31 | the panel's list is exactly what the load returns; a load that throws leaves no panel |
| StaffPanels.StaffPanel.SelectForEdit | java8/src/main/java/conf/ui/StaffPanel.java:88-99 | with no selected row nothing is edited; otherwise the dialog is opened on the selected row and the object on it, whose fields pre-fill the dialog and whose row is on display |
| StaffPanels.StaffPanel.Submit | java8/src/main/java/conf/ui/StaffPanel.java:194-234 | a blank field refuses the form and changes nothing; otherwise the new staff member is appended, or replaces the object the dialog was opened on, and the whole list is saved; when that object is no longer in the list (an edit whose save failed, saved again) `set(-1, …)` throws IndexOutOfBoundsException and nothing changes |
| StaffPanels.StaffPanel.Commit | java8/src/main/java/conf/ui/StaffPanel.java:206-225 | `indexOf` of the edited object is -1 exactly when it is no longer in the list, and then the save is refused with nothing changed; otherwise list and table change alike and the whole list is saved, and an edited object is gone from the list afterwards |
| StaffPanels.StaffPanel.Apply | java8/src/main/java/conf/ui/StaffPanel.java:206-221 | the list and the table take the same change, so row *i* still shows element *i* and the objects stay distinct |
| StaffPanels.StaffPanel.Place | java8/src/main/java/conf/ui/StaffPanel.java:208-217 | `add` appends a new object, `set` puts it in place of one element; the replaced object is no longer in the list |
| StaffPanels.StaffPanel.Render | java8/src/main/java/conf/ui/StaffPanel.java:209-221 | `addRow` appends the new row, or the three `setValueAt` calls rewrite exactly the edited row |
| StaffPanels.StaffPanel.Delete | java8/src/main/java/conf/ui/StaffPanel.java:101-121 | with no selection or without YES nothing changes; otherwise exactly the selected element and row are removed, the rest keep their order, and the list is saved |
| StaffPanels.StaffPanel.Remove | java8/src/main/java/conf/ui/StaffPanel.java:110-111 | `remove(i)` and `removeRow(i)` take out the same position, so row *i* still shows element *i* |
| VendorSponsorPanels.RowOf | java8/src/main/java/conf/ui/VendorSponsorPanel.java:63-68 | a vendor/sponsor's row is first name, last name, booth name, unique id |
| VendorSponsorPanels.Built | java8/src/main/java/conf/ui/VendorSponsorPanel.java:197-205 | any blank field gives "All fields are required"; otherwise a vendor/sponsor with the trimmed fields |
| VendorSponsorPanels.VendorSponsorPanel.Init | java8/src/main/java/conf/ui/VendorSponsorPanel.java:61-69 | the panel holds the given list, its table shows one row per vendor/sponsor in list order, and the vendors/sponsors are distinct objects, whose ids the identifier source knows |
| VendorSponsorPanels.VendorSponsorPanel.Open | java8/src/main/java/conf/ui/VendorSponsorPanel.java:29-31 | the panel's list is exactly what the load returns, and the loaded ids are recorded so that no later new vendor/sponsor repeats one; loading draws no identifier and forgets none already known, so panels can share one source; a load that throws leaves no panel |
| VendorSponsorPanels.VendorSponsorPanel.SelectForEdit | java8/src/main/java/conf/ui/VendorSponsorPanel.java:89-100 | with no selected row nothing is edited; otherwise the dialog is opened on the selected row and the object on it, whose fields pre-fill the dialog and whose row is on display |
| VendorSponsorPanels.VendorSponsorPanel.Submit | java8/src/main/java/conf/ui/VendorSponsorPanel.java:195-237 | a blank field refuses the form and changes nothing; otherwise the new vendor/sponsor is appended, or replaces the object the dialog was opened on, and the whole list is saved; the new vendor/sponsor's id was never issued nor loaded, so an edited vendor/sponsor always gets a different id; exactly one id is drawn when the form passes; no known id is forgotten; when that object is no longer in the list (an edit whose save failed, saved again) `set(-1, …)` throws IndexOutOfBoundsException and nothing changes |
| VendorSponsorPanels.VendorSponsorPanel.Draw | java8/src/main/java/conf/ui/VendorSponsorPanel.java:197-205 | the form is checked, then `new` draws exactly one identifier, never issued nor loaded, for the vendor/sponsor it builds; a refused form draws none |
| VendorSponsorPanels.VendorSponsorPanel.Commit | java8/src/main/java/conf/ui/VendorSponsorPanel.java:207-228 | `indexOf` of the edited object is -1 exactly when it is no longer in the list, and then the save is refused with nothing changed; otherwise list and table change alike and the whole list is saved, and an edited object is gone from the list afterwards |
| VendorSponsorPanels.VendorSponsorPanel.Apply | java8/src/main/java/conf/ui/VendorSponsorPanel.java:207-224 | the list and the table take the same change, so row *i* still shows element *i* and the objects stay distinct |
| VendorSponsorPanels.VendorSponsorPanel.Place | java8/src/main/java/conf/ui/VendorSponsorPanel.java:209-219 | `add` appends a new object, `set` puts it in place of one element; the replaced object is no longer in the list |
| VendorSponsorPanels.VendorSponsorPanel.Render | java8/src/main/java/conf/ui/VendorSponsorPanel.java:210-224 | `addRow` appends the new row, or the four `setValueAt` calls rewrite exactly the edited row |
| VendorSponsorPanels.VendorSponsorPanel.Delete | java8/src/main/java/conf/ui/VendorSponsorPanel.java:102-122 | with no selection or without YES nothing changes; otherwise exactly the selected element and row are removed, the rest keep their order, and the list is saved |
| VendorSponsorPanels.VendorSponsorPanel.Remove | java8/src/main/java/conf/ui/VendorSponsorPanel.java:111-112 | `remove(i)` and `removeRow(i)` take out the same position, so row *i* still shows element *i* |
| SessionPanels.RowOf | java8/src/main/java/conf/ui/SessionPanel.java:64-68 | a session's row is title, abstract, and the speaker's first name + " " + last name |
| SessionPanels.Built | java8/src/main/java/conf/ui/SessionPanel.java:226-239 | any of the five fields blank gives "All fields are required"; otherwise a session with the trimmed title and abstract, embedding a new speaker built from the three trimmed speaker fields |
| SessionPanels.SessionPanel.Init | java8/src/main/java/conf/ui/SessionPanel.java:62-69 | the panel holds the given list, its table shows one row per session in list order, and the identifier source knows every session speaker's id |
| SessionPanels.SessionPanel.Open | java8/src/main/java/conf/ui/SessionPanel.java:30-32 | the panel's list is exactly what `loadSessions()` returns, and the loaded speakers' ids are recorded so no later new speaker repeats one; loading draws no identifier and forgets none already known, so panels can share one source; a load that throws leaves no panel |
| SessionPanels.SessionPanel.Submit | java8/src/main/java/conf/ui/SessionPanel.java:224-258 | a blank field refuses the form, changes nothing and draws no id; otherwise the new session, whose new speaker has an id never issued nor loaded, is appended with its row and the whole list is saved (sessions have no edit); no known id is forgotten |
| SessionPanels.SessionPanel.Draw | java8/src/main/java/conf/ui/SessionPanel.java:226-239 | the five fields are checked, then `new Speaker` draws exactly one new identifier for the session's speaker |
| SessionPanels.SessionPanel.Commit | java8/src/main/java/conf/ui/SessionPanel.java:241-249 | appends the session and its row, then saves the whole list |
| SessionPanels.SessionPanel.Delete | java8/src/main/java/conf/ui/SessionPanel.java:87-107 | with no selection or without YES nothing changes; otherwise exactly the selected session and row are removed and the list is saved |
| SessionPanels.SessionPanel.Remove | java8/src/main/java/conf/ui/SessionPanel.java:96-97 | `remove(i)` and `removeRow(i)` take out the same position, so row *i* still shows element *i* |
| ConferencePanels.RowOf | java8/src/main/java/conf/ui/ConferencePanel.java:84-89 | a conference's row is name, nickname, year, venue |
| ConferencePanels.Head | java8/src/main/java/conf/ui/ConferencePanel.java:258-260 | the conference that is saved is the list's first element, or none when the list is empty |
| ConferencePanels.Loaded | java8/src/main/java/conf/ui/ConferencePanel.java:78-90 | the list shown after loading holds the loaded conference if there is one and is otherwise empty; it never holds more than one |
| ConferencePanels.OnlyFirstConferencePersists | java8/src/main/java/conf/ui/ConferencePanel.java:78-90 | reopening after a save shows only the first conference; a list of two or more is never restored |
| ConferencePanels.Built | java8/src/main/java/conf/ui/ConferencePanel.java:231-240 | a year that `Year.parse` rejects gives DateTimeParseException before anything else is checked; then a blank name, nickname or venue gives "All fields are required"; otherwise the conference with the trimmed texts and the parsed year |
| ConferencePanels.StoredFormBuilds | java8/src/main/java/conf/ui/ConferencePanel.java:231-240 | a form whose name, nickname and venue are non-empty and already trimmed, and whose year text is trimmed, builds exactly when the year parses, and then keeps the texts unchanged; otherwise it fails with a date-time parse error |
| ConferencePanels.StoredTextPasses | java8/src/main/java/conf/ui/ConferencePanel.java:230-237 | a name, nickname or venue that is non-empty and already trimmed passes the blank check and is kept unchanged by `trim` |
| ConferencePanels.UnchangedFormResubmits | java8/src/main/java/conf/ui/ConferencePanel.java:194-236 | for a conference with trimmed, non-empty texts, the edit dialog pre-filled from it saves it back unchanged exactly when its year is 1000..9999 or <= -1000; otherwise it fails with a date-time parse error |
| ConferencePanels.ConferencePanel.Init | java8/src/main/java/conf/ui/ConferencePanel.java:78-90 | the panel shows the loaded conference, if any, as its only row |
| ConferencePanels.ConferencePanel.Open | java8/src/main/java/conf/ui/ConferencePanel.java:78-90 | the list holds at most one conference, the one `loadConference()` returns; a load that throws leaves no panel |
| ConferencePanels.ConferencePanel.SelectForEdit | java8/src/main/java/conf/ui/ConferencePanel.java:110-121 | with no selected row nothing is edited; otherwise the dialog is opened on the selected row and object and pre-filled with its texts, the year via `Year.toString` |
| ConferencePanels.ConferencePanel.Submit | java8/src/main/java/conf/ui/ConferencePanel.java:229-269 | a refused form changes nothing; otherwise the conference is appended (so the list can grow beyond one) or replaces the object the dialog was opened on, and the first element of the list is saved; when that object is no longer in the list `set(-1, …)` throws and nothing changes |
| ConferencePanels.ConferencePanel.Commit | java8/src/main/java/conf/ui/ConferencePanel.java:242-260 | `indexOf` of the edited object is -1 exactly when it is no longer in the list, and then nothing changes; otherwise list and table change alike, then element 0 is saved whatever else the list holds |
| ConferencePanels.ConferencePanel.Apply | java8/src/main/java/conf/ui/ConferencePanel.java:242-255 | the list and the table take the same change, so row *i* still shows element *i* and the objects stay distinct |
| ConferencePanels.ConferencePanel.Place | java8/src/main/java/conf/ui/ConferencePanel.java:244-249 | `add` appends a new object, `set` puts it in place of one element; the replaced object is no longer in the list |
| ConferencePanels.ConferencePanel.Render | java8/src/main/java/conf/ui/ConferencePanel.java:245-254 | `addRow` appends the new row, or the four `setValueAt` calls rewrite exactly the edited row |
| ConferencePanels.ConferencePanel.Delete | java8/src/main/java/conf/ui/ConferencePanel.java:123-148 | with no selection or without YES nothing changes; otherwise the selected element and row are removed, then the new first conference is saved, or `null` when the list is empty |
| ConferencePanels.ConferencePanel.Remove | java8/src/main/java/conf/ui/ConferencePanel.java:132-133 | `remove(i)` and `removeRow(i)` take out the same position, so row *i* still shows element *i* |
| ConferencePanels.ConferencePanel.WindowClosing | java8/src/main/java/conf/ui/ConferencePanel.java:93-105 | closing the window saves the first conference when the list is non-empty and writes nothing otherwise |

## Left out

- Swing layout, styling, buttons (StyledButton.java), dialogs and the cancel
  button are left out. So is ConferenceManagementApp.java, which only builds
  the window and its tabs. The panels' listener bodies are methods; the
  selected row and the confirmation answer are parameters.
- The JSON text format (Gson, pretty printing) is left out. The model keeps one
  abstract document per file kind. A file holding a document of the wrong
  kind reads as a JSON syntax error; this simplifies files written outside
  the program: Gson would read one list kind's array as another's, ignoring
  unknown fields and leaving missing ones `null`, and a list file holding
  `null` makes `Arrays.asList` throw a NullPointerException. Malformed JSON
  text is not modelled.
- `UUID.randomUUID()` is modelled by a counter-based `UuidSource`. It
  records every id it hands out and every id loaded from disk, and a new id
  differs from all of them. This keeps the uniqueness of the ids, which for
  random UUIDs holds only with overwhelming probability, but not their
  format or randomness.
- `Years.ParseYear`: follows JDK 8's `Year.parse`, whose year field is four
  to ten ASCII digits with the "exceeds pad" sign rule. Other JDK versions
  are not modelled.
- Edits find the old object with `indexOf`, which compares with `equals`.
  Attendee and VendorSponsor do not override `equals`, so this is reference
  equality, which the reference numbers model. Speaker.java, Staff.java and
  Conference.java are not part of this model; their `equals` is taken to be
  reference equality as well.
- The edit writes the table row `getSelectedRow()` returns when Save is
  pressed. The dialogs are modal, so the model takes this to be the row the
  dialog was opened on.
- Persistence.FileSystem.Write: a failing write changes nothing in the
  model. `Files.write` may already have truncated or partly written the file
  before its IOException; that is not modelled.
- Persistence.AfterSave: a failed save leaves every file unchanged, for the
  same reason as `Persistence.FileSystem.Write`; truncation is not modelled.
- Persistence.IoFailures: one set of failing paths, `unavailable`, stands
  for both read and write failures. A file that can be read but not
  written, or the reverse, is not modelled.
- Persistence.ListSaveLoad, Persistence.ConferenceSaveLoad,
  Persistence.LoadAfterSave: the round trip of strings assumes that the
  platform default charset, which `getBytes()` and `new String(bytes)` use,
  encodes every character stored (UTF-8, say). Under a charset such as
  windows-1252 a character it cannot encode is saved as `?` and does not
  load back; charsets are not modelled.
- Persistence.JsonPersistenceManager.Save: inherits both simplifications: a
  failed save changes no file, and one set of failing paths covers reads
  and writes.
- Delete listeners do not catch a failing save. In the source the exception
  escapes to the Swing event thread after the list and table have changed.
  The model reports it as `NotSaved` with the same state change.
- The `Alumnus` sub-kind exists only as a comment in the source and is not
  modelled. `InvalidAttendee` is not modelled either: it is the kind the
  closed hierarchy excludes.
- The no-argument `AllowedPerson()` constructor is left out; it leaves both
  names `null` and no modelled operation uses it.
- `e.printStackTrace()` output is left out.
