/**
 * `Attendee`: an AllowedPerson with a payment type, which construction
 * refuses to leave out, and a `uniqueId` fixed when the object is created.
 */
module Attendees {
  import opened Wrappers
  import D = Domain
  import opened Persons

  const INVALID_PAYMENT_TYPE := "Invalid Payment type"

  /** How `toString` prints a payment type, `null` included. */
  function PaymentText(paymentType: Option<D.PaymentType>): string {
    match paymentType
    case None => "null"
    case Some(p) => p.name
  }

  class Attendee {
    /** The inherited AllowedPerson part: first and last name. */
    const person: AllowedPerson
    var paymentType: Option<D.PaymentType>
    /** Final: assigned once, when the object is created. */
    const uniqueId: string

    /** The attendee as a value of the closed person hierarchy. */
    function Value(): (p: D.AttendeeRecord)
      reads this, person
      ensures p.firstName == person.firstName && p.lastName == person.lastName
      ensures p.paymentType == paymentType && p.uniqueId == uniqueId
    {
      D.Attendee(person.firstName, person.lastName, paymentType, uniqueId)
    }

    constructor Init(firstName: string, lastName: string, paymentType: D.PaymentType, uniqueId: string)
      ensures fresh(person)
      ensures Value() == D.Attendee(firstName, lastName, Some(paymentType), uniqueId)
    {
      person := new AllowedPerson(firstName, lastName);
      this.paymentType := Some(paymentType);
      this.uniqueId := uniqueId;
    }

    /**
     * `new Attendee(firstName, lastName, paymentType)`. The field initialiser
     * draws the identifier before the constructor body runs, so an identifier
     * is consumed even when a `null` payment type makes construction throw.
     */
    static method New(firstName: string, lastName: string, paymentType: Option<D.PaymentType>, uuids: D.UuidSource)
      returns (r: Result<Attendee, D.Failure>)
      requires uuids.Valid()
      modifies uuids
      ensures uuids.Valid() && uuids.drawn == old(uuids.drawn) + 1
      ensures uuids.known == old(uuids.known) + {old(uuids.Upcoming())}
      ensures paymentType.None? <==> r.Err?
      ensures r.Err? ==> r.error == D.IllegalArgument(INVALID_PAYMENT_TYPE)
      ensures r.Ok? ==> fresh(r.value) && fresh(r.value.person)
      ensures r.Ok? ==> r.value.Value() == D.Attendee(firstName, lastName, paymentType, old(uuids.Upcoming()))
      ensures r.Ok? ==> r.value.uniqueId !in old(uuids.known)
    {
      var id := uuids.Next();
      if paymentType.None? {
        return Err(D.IllegalArgument(INVALID_PAYMENT_TYPE));
      }
      var a := new Attendee.Init(firstName, lastName, paymentType.value, id);
      r := Ok(a);
    }

    method GetPaymentType() returns (r: Option<D.PaymentType>)
      ensures r == paymentType
    {
      r := paymentType;
    }

    /** No null check: after this call the payment type may be absent. */
    method SetPaymentType(paymentType: Option<D.PaymentType>)
      modifies this
      ensures this.paymentType == paymentType
      ensures Value() == D.Attendee(old(Value()).firstName, old(Value()).lastName, paymentType, old(Value()).uniqueId)
    {
      this.paymentType := paymentType;
    }

    method GetUniqueId() returns (r: string)
      ensures r == uniqueId
    {
      r := uniqueId;
    }

    /** The rendering names the three fields and leaves out `uniqueId`. */
    function ToString(): (r: string)
      reads this, person
      ensures r == "\n\tAttendee{firstName='" + person.firstName + "', lastName='" + person.lastName
                   + "', paymentType='" + PaymentText(paymentType) + "'}"
    {
      Rendering(person.firstName, person.lastName, PaymentText(paymentType))
    }
  }

  /** The text of `Attendee.toString` for the given field values. */
  function Rendering(firstName: string, lastName: string, payment: string): string {
    "\n\tAttendee{firstName='" + firstName + "', lastName='" + lastName + "', paymentType='" + payment + "'}"
  }

  /** Two attendees that differ only in their identifiers print alike. */
  lemma ToStringIgnoresUniqueId(a: Attendee, b: Attendee)
    requires a.person.firstName == b.person.firstName && a.person.lastName == b.person.lastName
    requires a.paymentType == b.paymentType
    ensures a.ToString() == b.ToString()
  {
  }
}
