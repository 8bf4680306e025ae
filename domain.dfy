/**
 * The records of the conference tool as values: the closed person hierarchy,
 * conferences, sessions, calendar years, the exceptions the core throws, and
 * the source of unique identifiers that stands in for `UUID.randomUUID`.
 */
module Domain {
  import opened Wrappers

  /**
   * A constant of the `PaymentType` enum, known by its name (what `toString`
   * prints). Which constants the enum declares is not part of this model.
   */
  datatype PaymentType = PaymentType(name: string)

  /**
   * The permitted kinds of person, and no others. Every kind carries the
   * `firstName` and `lastName` of `AllowedPerson`. Attendees, speakers and
   * vendors/sponsors carry a `uniqueId`; staff members do not.
   * An Attendee's payment type is optional because `setPaymentType` accepts
   * `null`.
   */
  datatype Person =
    | Attendee(firstName: string, lastName: string, paymentType: Option<PaymentType>, uniqueId: string)
    | Speaker(firstName: string, lastName: string, shirtSize: string, uniqueId: string)
    | Staff(firstName: string, lastName: string, hatSize: string)
    | VendorSponsor(firstName: string, lastName: string, boothName: string, uniqueId: string)

  type AttendeeRecord = p: Person | p.Attendee? witness Attendee("", "", None, "")
  type SpeakerRecord = p: Person | p.Speaker? witness Speaker("", "", "", "")
  type StaffRecord = p: Person | p.Staff? witness Staff("", "", "")
  type VendorRecord = p: Person | p.VendorSponsor? witness VendorSponsor("", "", "", "")

  /** Whether a kind of person is given a `uniqueId` when it is constructed. */
  predicate HasUniqueId(p: Person) {
    !p.Staff?
  }

  /** The hierarchy is closed: a person is of exactly one of the four kinds. */
  lemma ExactlyOneKind(p: Person)
    ensures p.Attendee? || p.Speaker? || p.Staff? || p.VendorSponsor?
    ensures HasUniqueId(p) <==> !p.Staff?
  {
  }

  /** The range of `java.time.Year`. */
  const MIN_YEAR: int := -999_999_999
  const MAX_YEAR: int := 999_999_999

  /** A `java.time.Year`, by its value. */
  type Year = y: int | MIN_YEAR <= y <= MAX_YEAR

  datatype Conference = Conference(name: string, nickName: string, year: Year, venue: string)

  /** A session embeds a complete speaker record, not a reference to one. */
  datatype Session = Session(sessionTitle: string, sessionAbstract: string, mainSpeakerModerator: SpeakerRecord)

  /** The exceptions that reach the core's callers. */
  datatype Failure =
    | IllegalArgument(message: string)  // IllegalArgumentException
    | DateTimeParse                     // Year.parse rejected the text
    | DateTime                          // Year.of was given a value out of range
    | NumberFormat                      // JsonReader.nextInt met a number that is not an int
    | JsonSyntax                        // the document is not the JSON the reader expects
    | IndexOutOfBounds(index: int)      // ArrayList.set at an index that indexOf did not find
    | Runtime(message: string)          // the persistence manager's wrapper around an IOException

  /** The decimal digits of `n`, most significant first. */
  function Decimal(n: nat): (r: string)
    ensures |r| >= 1
    ensures n < 10 <==> |r| == 1
    ensures forall i :: 0 <= i < |r| ==> '0' <= r[i] <= '9'
  {
    if n < 10 then [(48 + n) as char] else Decimal(n / 10) + [(48 + n % 10) as char]
  }

  /** The stem of the `n`-th identifier handed out. */
  function IdText(n: nat): (r: string)
    ensures |r| > 5
  {
    "uuid-" + Decimal(n)
  }

  /** The length of an identifier. */
  function Width(id: string): nat {
    |id|
  }

  /**
   * The source of the `uniqueId` of every new Attendee, Speaker and
   * VendorSponsor, standing in for `UUID.randomUUID().toString()`. It is
   * shown the identifiers already in use (those loaded from disk), and each
   * identifier it hands out differs from every identifier it has handed out
   * or been shown: it is longer than all of them.
   */
  class UuidSource {
    /** How many identifiers have been handed out. */
    var drawn: nat
    /** No known identifier is longer than this. */
    var longest: nat
    /** The identifiers handed out or shown so far. */
    ghost var known: set<string>

    ghost predicate Valid()
      reads this
    {
      forall id :: id in known ==> Width(id) <= longest
    }

    constructor ()
      ensures drawn == 0 && known == {} && Valid()
    {
      drawn := 0;
      longest := 0;
      known := {};
    }

    /** The identifier the next call of `Next` hands out. */
    function Upcoming(): (id: string)
      reads this
      ensures |id| > longest
    {
      IdText(drawn) + seq(longest, _ => '0')
    }

    method Next() returns (id: string)
      requires Valid()
      modifies this
      ensures Valid()
      ensures drawn == old(drawn) + 1
      ensures id == old(Upcoming())
      ensures id !in old(known)
      ensures known == old(known) + {id}
    {
      id := Upcoming();
      drawn := drawn + 1;
      longest := |id|;
      known := known + {id};
    }

    /** Records identifiers that are already in use, so that no later draw repeats one. */
    method Observe(ids: seq<string>)
      requires Valid()
      modifies this
      ensures Valid() && drawn == old(drawn)
      ensures known == old(known) + set i | 0 <= i < |ids| :: ids[i]
    {
      for k := 0 to |ids|
        invariant Valid() && drawn == old(drawn)
        invariant known == old(known) + set i | 0 <= i < k :: ids[i]
      {
        if |ids[k]| > longest {
          longest := |ids[k]|;
        }
        known := known + {ids[k]};
        assert (set i | 0 <= i < k + 1 :: ids[i]) == (set i | 0 <= i < k :: ids[i]) + {ids[k]};
      }
    }
  }

  /** Construction of a Speaker: the three fields as given and a new identifier. */
  method NewSpeaker(firstName: string, lastName: string, shirtSize: string, uuids: UuidSource)
    returns (s: SpeakerRecord)
    requires uuids.Valid()
    modifies uuids
    ensures uuids.Valid() && uuids.drawn == old(uuids.drawn) + 1
    ensures s == Speaker(firstName, lastName, shirtSize, old(uuids.Upcoming()))
    ensures s.uniqueId !in old(uuids.known) && uuids.known == old(uuids.known) + {s.uniqueId}
  {
    var id := uuids.Next();
    s := Speaker(firstName, lastName, shirtSize, id);
  }
}
