/**
 * `JsonPersistenceManager`: one JSON document per kind of record, each in its
 * own fixed file. Saving writes the whole document; loading a kind whose file
 * does not exist gives an empty list (no conference, for the conference);
 * an `IOException` is rethrown as a `RuntimeException`.
 *
 * The disk is a map from file name to the document stored there. The JSON
 * codec is taken to be faithful, except for `java.time.Year`, whose adapter
 * writes a bare integer: a stored conference therefore holds its year as an
 * `int`, and reading it back goes through the adapter.
 */
module Persistence {
  import opened Wrappers
  import opened Domain

  const DATA_FILE := "conference_data.json"
  const SPEAKERS_FILE := "speakers_data.json"
  const ATTENDEES_FILE := "attendees_data.json"
  const SESSIONS_FILE := "sessions_data.json"
  const STAFF_FILE := "staff_data.json"
  const VENDORS_FILE := "vendors_data.json"

  /** The six kinds of document. */
  datatype Kind = ConferenceData | Speakers | Attendees | Sessions | StaffMembers | Vendors

  /** The file each kind is kept in. */
  function FileOf(k: Kind): (path: string)
    ensures path in {DATA_FILE, SPEAKERS_FILE, ATTENDEES_FILE, SESSIONS_FILE, STAFF_FILE, VENDORS_FILE}
  {
    match k
    case ConferenceData => DATA_FILE
    case Speakers => SPEAKERS_FILE
    case Attendees => ATTENDEES_FILE
    case Sessions => SESSIONS_FILE
    case StaffMembers => STAFF_FILE
    case Vendors => VENDORS_FILE
  }

  /** No two kinds share a file. */
  lemma FileOfInjective(k: Kind, other: Kind)
    requires other != k
    ensures FileOf(other) != FileOf(k)
  {
  }

  /** The word the error messages use for each kind. */
  function Noun(k: Kind): string {
    match k
    case ConferenceData => "conference"
    case Speakers => "speakers"
    case Attendees => "attendees"
    case Sessions => "sessions"
    case StaffMembers => "staff"
    case Vendors => "vendors"
  }

  function SaveError(k: Kind): Failure {
    Runtime("Failed to save " + Noun(k) + " data")
  }

  function LoadError(k: Kind): Failure {
    Runtime("Failed to load " + Noun(k) + " data")
  }

  // ---------------------------------------------------------------------
  // The type adapter for java.time.Year

  const INT_MIN: int := -0x8000_0000
  const INT_MAX: int := 0x7fff_ffff

  /** `out.value(value.getValue())`: a year is written as a bare integer. */
  function WriteYear(y: Year): (n: int)
    ensures INT_MIN <= n <= INT_MAX
  {
    y
  }

  /**
   * `Year.of(in.nextInt())`: `nextInt` refuses a number outside `int`, and
   * `Year.of` refuses one outside the range of `Year`.
   */
  function ReadYear(n: int): (r: Result<Year, Failure>)
    ensures r.Ok? <==> MIN_YEAR <= n <= MAX_YEAR
    ensures r.Ok? ==> WriteYear(r.value) == n
    ensures r.Err? ==> r.error == (if INT_MIN <= n <= INT_MAX then DateTime else NumberFormat)
  {
    if n < INT_MIN || INT_MAX < n then Err(NumberFormat)
    else if n < MIN_YEAR || MAX_YEAR < n then Err(DateTime)
    else Ok(n)
  }

  /** Reading back what the adapter wrote gives the same year. */
  lemma YearRoundTrip(y: Year)
    ensures ReadYear(WriteYear(y)) == Ok(y)
  {
  }

  // ---------------------------------------------------------------------
  // Documents

  /** A conference as its JSON object holds it: the year is a bare number. */
  datatype ConferenceJson = ConferenceJson(name: string, nickName: string, year: int, venue: string)

  /**
   * What a file can hold: the document one of the six `saveX` methods wrote,
   * or text the reader cannot take (written by something else).
   * `ConferenceDocument(None)` is the JSON `null` that `saveConference(null)` writes.
   */
  datatype Document =
    | ConferenceDocument(conference: Option<ConferenceJson>)
    | SpeakerArray(speakers: seq<SpeakerRecord>)
    | AttendeeArray(attendees: seq<AttendeeRecord>)
    | SessionArray(sessions: seq<Session>)
    | StaffArray(staff: seq<StaffRecord>)
    | VendorArray(vendors: seq<VendorRecord>)
    | Unparsable

  function EncodeConference(c: Option<Conference>): Option<ConferenceJson> {
    match c
    case None => None
    case Some(c) => Some(ConferenceJson(c.name, c.nickName, WriteYear(c.year), c.venue))
  }

  function DecodeConference(j: Option<ConferenceJson>): Result<Option<Conference>, Failure> {
    match j
    case None => Ok(None)
    case Some(j) =>
      match ReadYear(j.year)
      case Err(e) => Err(e)
      case Ok(y) => Ok(Some(Conference(j.name, j.nickName, y, j.venue)))
  }

  /** Decoding an encoded conference gives it back, name, nickname, year and venue alike; `null` stays `null`. */
  lemma {:induction false} ConferenceRoundTrip(c: Option<Conference>)
    ensures DecodeConference(EncodeConference(c)) == Ok(c)
  {
    if c.Some? {
      YearRoundTrip(c.value.year);
    }
  }

  // ---------------------------------------------------------------------
  // What a load returns, as a function of the disk

  /**
   * The first steps of every `loadX`: an absent file is not an error; an
   * existing file whose reading raises an `IOException` is.
   */
  function ReadDocument(files: map<string, Document>, unavailable: set<string>, k: Kind): (r: Result<Option<Document>, Failure>)
    ensures FileOf(k) !in files ==> r == Ok(None)
    ensures FileOf(k) in files && FileOf(k) in unavailable ==> r == Err(LoadError(k))
    ensures FileOf(k) in files && FileOf(k) !in unavailable ==> r == Ok(Some(files[FileOf(k)]))
  {
    var path := FileOf(k);
    if path !in files then Ok(None)
    else if path in unavailable then Err(LoadError(k))
    else Ok(Some(files[path]))
  }

  function ConferenceOnDisk(files: map<string, Document>, unavailable: set<string>): Result<Option<Conference>, Failure> {
    match ReadDocument(files, unavailable, ConferenceData)
    case Err(e) => Err(e)
    case Ok(None) => Ok(None)
    case Ok(Some(ConferenceDocument(j))) => DecodeConference(j)
    case Ok(Some(_)) => Err(JsonSyntax)
  }

  function SpeakersOnDisk(files: map<string, Document>, unavailable: set<string>): Result<seq<SpeakerRecord>, Failure> {
    match ReadDocument(files, unavailable, Speakers)
    case Err(e) => Err(e)
    case Ok(None) => Ok([])
    case Ok(Some(SpeakerArray(xs))) => Ok(xs)
    case Ok(Some(_)) => Err(JsonSyntax)
  }

  function AttendeesOnDisk(files: map<string, Document>, unavailable: set<string>): Result<seq<AttendeeRecord>, Failure> {
    match ReadDocument(files, unavailable, Attendees)
    case Err(e) => Err(e)
    case Ok(None) => Ok([])
    case Ok(Some(AttendeeArray(xs))) => Ok(xs)
    case Ok(Some(_)) => Err(JsonSyntax)
  }

  function SessionsOnDisk(files: map<string, Document>, unavailable: set<string>): Result<seq<Session>, Failure> {
    match ReadDocument(files, unavailable, Sessions)
    case Err(e) => Err(e)
    case Ok(None) => Ok([])
    case Ok(Some(SessionArray(xs))) => Ok(xs)
    case Ok(Some(_)) => Err(JsonSyntax)
  }

  function StaffOnDisk(files: map<string, Document>, unavailable: set<string>): Result<seq<StaffRecord>, Failure> {
    match ReadDocument(files, unavailable, StaffMembers)
    case Err(e) => Err(e)
    case Ok(None) => Ok([])
    case Ok(Some(StaffArray(xs))) => Ok(xs)
    case Ok(Some(_)) => Err(JsonSyntax)
  }

  function VendorsOnDisk(files: map<string, Document>, unavailable: set<string>): Result<seq<VendorRecord>, Failure> {
    match ReadDocument(files, unavailable, Vendors)
    case Err(e) => Err(e)
    case Ok(None) => Ok([])
    case Ok(Some(VendorArray(xs))) => Ok(xs)
    case Ok(Some(_)) => Err(JsonSyntax)
  }

  // ---------------------------------------------------------------------
  // What a save does to the disk

  /** The result of `saveX`: it throws exactly when writing the file raises an `IOException`. */
  function SaveOutcome(unavailable: set<string>, k: Kind): (r: Outcome<Failure>)
    ensures r.Fail? <==> FileOf(k) in unavailable
    ensures r.Fail? ==> r.error == SaveError(k)
  {
    if FileOf(k) in unavailable then Fail(SaveError(k)) else Pass
  }

  /** The disk after `saveX`: the kind's file holds the new document in full, or nothing changed. */
  function AfterSave(files: map<string, Document>, unavailable: set<string>, k: Kind, doc: Document): (r: map<string, Document>)
    ensures FileOf(k) !in unavailable ==> FileOf(k) in r && r[FileOf(k)] == doc
    ensures forall path :: path != FileOf(k) ==> (path in r <==> path in files)
    ensures forall path :: path != FileOf(k) && path in files ==> r[path] == files[path]
    ensures FileOf(k) in unavailable ==> r == files
  {
    if FileOf(k) in unavailable then files else files[FileOf(k) := doc]
  }

  // ---------------------------------------------------------------------
  // Properties of saving and loading

  /** A load right after a successful save of the same kind reads exactly the document saved. */
  lemma {:induction false} LoadAfterSave(files: map<string, Document>, unavailable: set<string>, k: Kind, doc: Document)
    requires FileOf(k) !in unavailable
    ensures ReadDocument(AfterSave(files, unavailable, k, doc), unavailable, k) == Ok(Some(doc))
  {
  }

  /** Whatever the file held before, the load after a save is the same: a save overwrites the whole document. */
  lemma {:induction false} SaveForgetsEarlierContents(files1: map<string, Document>, files2: map<string, Document>,
                                                     unavailable: set<string>, k: Kind, doc: Document)
    requires FileOf(k) !in unavailable
    ensures ReadDocument(AfterSave(files1, unavailable, k, doc), unavailable, k)
         == ReadDocument(AfterSave(files2, unavailable, k, doc), unavailable, k)
  {
    LoadAfterSave(files1, unavailable, k, doc);
    LoadAfterSave(files2, unavailable, k, doc);
  }

  /** Each kind reads and writes only its own file: saving one kind leaves every other kind's load as it was. */
  lemma {:induction false} SaveLeavesOtherKinds(files: map<string, Document>, unavailable: set<string>,
                                                k: Kind, doc: Document, other: Kind)
    requires other != k
    ensures ReadDocument(AfterSave(files, unavailable, k, doc), unavailable, other) == ReadDocument(files, unavailable, other)
    ensures ConferenceOnDisk(AfterSave(files, unavailable, k, doc), unavailable) == ConferenceOnDisk(files, unavailable)
            || k == ConferenceData
  {
    var after := AfterSave(files, unavailable, k, doc);
    FileOfInjective(k, other);
    assert (FileOf(other) in after) == (FileOf(other) in files);
    if k != ConferenceData {
      FileOfInjective(k, ConferenceData);
      assert ReadDocument(after, unavailable, ConferenceData) == ReadDocument(files, unavailable, ConferenceData);
    }
  }

  /** A kind whose file does not exist loads as empty, or as no conference, without an error. */
  lemma MissingFileLoadsEmpty(files: map<string, Document>, unavailable: set<string>)
    ensures DATA_FILE !in files ==> ConferenceOnDisk(files, unavailable) == Ok(None)
    ensures SPEAKERS_FILE !in files ==> SpeakersOnDisk(files, unavailable) == Ok([])
    ensures ATTENDEES_FILE !in files ==> AttendeesOnDisk(files, unavailable) == Ok([])
    ensures SESSIONS_FILE !in files ==> SessionsOnDisk(files, unavailable) == Ok([])
    ensures STAFF_FILE !in files ==> StaffOnDisk(files, unavailable) == Ok([])
    ensures VENDORS_FILE !in files ==> VendorsOnDisk(files, unavailable) == Ok([])
  {
  }

  /** `saveConference(c)` then `loadConference()` gives `c` back, `null` included. */
  lemma {:induction false} ConferenceSaveLoad(files: map<string, Document>, unavailable: set<string>, c: Option<Conference>)
    requires DATA_FILE !in unavailable
    ensures ConferenceOnDisk(AfterSave(files, unavailable, ConferenceData, ConferenceDocument(EncodeConference(c))), unavailable) == Ok(c)
  {
    LoadAfterSave(files, unavailable, ConferenceData, ConferenceDocument(EncodeConference(c)));
    ConferenceRoundTrip(c);
  }

  /** Saving a list of any kind and loading the same kind gives the same elements in the same order. */
  lemma {:induction false} ListSaveLoad(files: map<string, Document>, unavailable: set<string>,
                                        speakers: seq<SpeakerRecord>, attendees: seq<AttendeeRecord>,
                                        sessions: seq<Session>, staff: seq<StaffRecord>, vendors: seq<VendorRecord>)
    ensures SPEAKERS_FILE !in unavailable ==>
      SpeakersOnDisk(AfterSave(files, unavailable, Speakers, SpeakerArray(speakers)), unavailable) == Ok(speakers)
    ensures ATTENDEES_FILE !in unavailable ==>
      AttendeesOnDisk(AfterSave(files, unavailable, Attendees, AttendeeArray(attendees)), unavailable) == Ok(attendees)
    ensures SESSIONS_FILE !in unavailable ==>
      SessionsOnDisk(AfterSave(files, unavailable, Sessions, SessionArray(sessions)), unavailable) == Ok(sessions)
    ensures STAFF_FILE !in unavailable ==>
      StaffOnDisk(AfterSave(files, unavailable, StaffMembers, StaffArray(staff)), unavailable) == Ok(staff)
    ensures VENDORS_FILE !in unavailable ==>
      VendorsOnDisk(AfterSave(files, unavailable, Vendors, VendorArray(vendors)), unavailable) == Ok(vendors)
  {
  }

  /** A file that exists but cannot be read makes the load throw; a failed save leaves every load as it was. */
  lemma IoFailures(files: map<string, Document>, unavailable: set<string>, k: Kind, doc: Document)
    ensures FileOf(k) in files && FileOf(k) in unavailable ==> ReadDocument(files, unavailable, k) == Err(LoadError(k))
    ensures FileOf(k) in unavailable ==> AfterSave(files, unavailable, k, doc) == files
  {
  }

  // ---------------------------------------------------------------------
  // The disk and the manager

  /** The local file system, reduced to the six data files. */
  class FileSystem {
    var files: map<string, Document>
    /** Paths on which reading or writing raises an `IOException`. */
    var unavailable: set<string>

    constructor (files: map<string, Document>, unavailable: set<string>)
      ensures this.files == files && this.unavailable == unavailable
    {
      this.files := files;
      this.unavailable := unavailable;
    }

    /** `Files.exists`. */
    method Exists(path: string) returns (b: bool)
      ensures b <==> path in files
    {
      b := path in files;
    }

    /** `Files.readAllBytes` of an existing file, decoded; `None` when it raises an `IOException`. */
    method Read(path: string) returns (r: Option<Document>)
      requires path in files
      ensures r.None? <==> path in unavailable
      ensures r.Some? ==> r.value == files[path]
    {
      if path in unavailable {
        r := None;
      } else {
        r := Some(files[path]);
      }
    }

    /** `Files.write`: replaces the whole file, or raises an `IOException` and changes nothing. */
    method Write(path: string, doc: Document) returns (ok: bool)
      modifies this
      ensures ok <==> path !in old(unavailable)
      ensures unavailable == old(unavailable)
      ensures files == if ok then old(files)[path := doc] else old(files)
    {
      ok := path !in unavailable;
      if ok {
        files := files[path := doc];
      }
    }
  }

  class JsonPersistenceManager {
    const fs: FileSystem

    constructor (fs: FileSystem)
      ensures this.fs == fs
    {
      this.fs := fs;
    }

    /** Writes `doc` as the whole of the kind's file; an `IOException` becomes a `RuntimeException`. */
    method Save(k: Kind, doc: Document) returns (r: Outcome<Failure>)
      modifies fs
      ensures fs.unavailable == old(fs.unavailable)
      ensures r == SaveOutcome(fs.unavailable, k)
      ensures fs.files == AfterSave(old(fs.files), fs.unavailable, k, doc)
    {
      var ok := fs.Write(FileOf(k), doc);
      r := if ok then Pass else Fail(SaveError(k));
    }

    /** Reads the kind's file: `None` when it does not exist. */
    method Load(k: Kind) returns (r: Result<Option<Document>, Failure>)
      ensures r == ReadDocument(fs.files, fs.unavailable, k)
    {
      var present := fs.Exists(FileOf(k));
      if !present {
        return Ok(None);
      }
      var read := fs.Read(FileOf(k));
      if read.None? {
        return Err(LoadError(k));
      }
      r := Ok(Some(read.value));
    }

    method SaveConference(conference: Option<Conference>) returns (r: Outcome<Failure>)
      modifies fs
      ensures fs.unavailable == old(fs.unavailable)
      ensures r == SaveOutcome(fs.unavailable, ConferenceData)
      ensures fs.files == AfterSave(old(fs.files), fs.unavailable, ConferenceData, ConferenceDocument(EncodeConference(conference)))
      ensures r.Pass? ==> ConferenceOnDisk(fs.files, fs.unavailable) == Ok(conference)
    {
      r := Save(ConferenceData, ConferenceDocument(EncodeConference(conference)));
      if r.Pass? {
        ConferenceSaveLoad(old(fs.files), fs.unavailable, conference);
      }
    }

    method LoadConference() returns (r: Result<Option<Conference>, Failure>)
      ensures r == ConferenceOnDisk(fs.files, fs.unavailable)
    {
      var doc := Load(ConferenceData);
      match doc
      case Err(e) => r := Err(e);
      case Ok(None) => r := Ok(None);
      case Ok(Some(ConferenceDocument(j))) => r := DecodeConference(j);
      case Ok(Some(_)) => r := Err(JsonSyntax);
    }

    method SaveSpeakers(speakers: seq<SpeakerRecord>) returns (r: Outcome<Failure>)
      modifies fs
      ensures fs.unavailable == old(fs.unavailable)
      ensures r == SaveOutcome(fs.unavailable, Speakers)
      ensures fs.files == AfterSave(old(fs.files), fs.unavailable, Speakers, SpeakerArray(speakers))
      ensures r.Pass? ==> SpeakersOnDisk(fs.files, fs.unavailable) == Ok(speakers)
    {
      r := Save(Speakers, SpeakerArray(speakers));
      if r.Pass? {
        LoadAfterSave(old(fs.files), fs.unavailable, Speakers, SpeakerArray(speakers));
      }
    }

    method LoadSpeakers() returns (r: Result<seq<SpeakerRecord>, Failure>)
      ensures r == SpeakersOnDisk(fs.files, fs.unavailable)
    {
      var doc := Load(Speakers);
      match doc
      case Err(e) => r := Err(e);
      case Ok(None) => r := Ok([]);
      case Ok(Some(SpeakerArray(xs))) => r := Ok(xs);
      case Ok(Some(_)) => r := Err(JsonSyntax);
    }

    method SaveAttendees(attendees: seq<AttendeeRecord>) returns (r: Outcome<Failure>)
      modifies fs
      ensures fs.unavailable == old(fs.unavailable)
      ensures r == SaveOutcome(fs.unavailable, Attendees)
      ensures fs.files == AfterSave(old(fs.files), fs.unavailable, Attendees, AttendeeArray(attendees))
      ensures r.Pass? ==> AttendeesOnDisk(fs.files, fs.unavailable) == Ok(attendees)
    {
      r := Save(Attendees, AttendeeArray(attendees));
      if r.Pass? {
        LoadAfterSave(old(fs.files), fs.unavailable, Attendees, AttendeeArray(attendees));
      }
    }

    method LoadAttendees() returns (r: Result<seq<AttendeeRecord>, Failure>)
      ensures r == AttendeesOnDisk(fs.files, fs.unavailable)
    {
      var doc := Load(Attendees);
      match doc
      case Err(e) => r := Err(e);
      case Ok(None) => r := Ok([]);
      case Ok(Some(AttendeeArray(xs))) => r := Ok(xs);
      case Ok(Some(_)) => r := Err(JsonSyntax);
    }

    method SaveSessions(sessions: seq<Session>) returns (r: Outcome<Failure>)
      modifies fs
      ensures fs.unavailable == old(fs.unavailable)
      ensures r == SaveOutcome(fs.unavailable, Sessions)
      ensures fs.files == AfterSave(old(fs.files), fs.unavailable, Sessions, SessionArray(sessions))
      ensures r.Pass? ==> SessionsOnDisk(fs.files, fs.unavailable) == Ok(sessions)
    {
      r := Save(Sessions, SessionArray(sessions));
      if r.Pass? {
        LoadAfterSave(old(fs.files), fs.unavailable, Sessions, SessionArray(sessions));
      }
    }

    method LoadSessions() returns (r: Result<seq<Session>, Failure>)
      ensures r == SessionsOnDisk(fs.files, fs.unavailable)
    {
      var doc := Load(Sessions);
      match doc
      case Err(e) => r := Err(e);
      case Ok(None) => r := Ok([]);
      case Ok(Some(SessionArray(xs))) => r := Ok(xs);
      case Ok(Some(_)) => r := Err(JsonSyntax);
    }

    method SaveStaff(staff: seq<StaffRecord>) returns (r: Outcome<Failure>)
      modifies fs
      ensures fs.unavailable == old(fs.unavailable)
      ensures r == SaveOutcome(fs.unavailable, StaffMembers)
      ensures fs.files == AfterSave(old(fs.files), fs.unavailable, StaffMembers, StaffArray(staff))
      ensures r.Pass? ==> StaffOnDisk(fs.files, fs.unavailable) == Ok(staff)
    {
      r := Save(StaffMembers, StaffArray(staff));
      if r.Pass? {
        LoadAfterSave(old(fs.files), fs.unavailable, StaffMembers, StaffArray(staff));
      }
    }

    method LoadStaff() returns (r: Result<seq<StaffRecord>, Failure>)
      ensures r == StaffOnDisk(fs.files, fs.unavailable)
    {
      var doc := Load(StaffMembers);
      match doc
      case Err(e) => r := Err(e);
      case Ok(None) => r := Ok([]);
      case Ok(Some(StaffArray(xs))) => r := Ok(xs);
      case Ok(Some(_)) => r := Err(JsonSyntax);
    }

    method SaveVendors(vendors: seq<VendorRecord>) returns (r: Outcome<Failure>)
      modifies fs
      ensures fs.unavailable == old(fs.unavailable)
      ensures r == SaveOutcome(fs.unavailable, Vendors)
      ensures fs.files == AfterSave(old(fs.files), fs.unavailable, Vendors, VendorArray(vendors))
      ensures r.Pass? ==> VendorsOnDisk(fs.files, fs.unavailable) == Ok(vendors)
    {
      r := Save(Vendors, VendorArray(vendors));
      if r.Pass? {
        LoadAfterSave(old(fs.files), fs.unavailable, Vendors, VendorArray(vendors));
      }
    }

    method LoadVendors() returns (r: Result<seq<VendorRecord>, Failure>)
      ensures r == VendorsOnDisk(fs.files, fs.unavailable)
    {
      var doc := Load(Vendors);
      match doc
      case Err(e) => r := Err(e);
      case Ok(None) => r := Ok([]);
      case Ok(Some(VendorArray(xs))) => r := Ok(xs);
      case Ok(Some(_)) => r := Err(JsonSyntax);
    }
  }
}
