/**
 * `AllowedPerson`: the mutable first and last name that every kind of person
 * shares. Its subclasses Attendee and VendorSponsor hold one of these as their
 * inherited part (see the Attendees and VendorSponsors modules).
 */
module Persons {

  /** `name='value'`, the shape of each field in the `toString` renderings. */
  function Quoted(name: string, value: string): string {
    name + "='" + value + "'"
  }

  class AllowedPerson {
    var firstName: string
    var lastName: string

    /** Stores both names exactly as given; nothing is validated. */
    constructor (firstName: string, lastName: string)
      ensures this.firstName == firstName && this.lastName == lastName
    {
      this.firstName := firstName;
      this.lastName := lastName;
    }

    method GetFirstName() returns (r: string)
      ensures r == firstName
    {
      r := firstName;
    }

    method SetFirstName(firstName: string)
      modifies this
      ensures this.firstName == firstName
      ensures lastName == old(lastName)
    {
      this.firstName := firstName;
    }

    method GetLastName() returns (r: string)
      ensures r == lastName
    {
      r := lastName;
    }

    method SetLastName(lastName: string)
      modifies this
      ensures this.lastName == lastName
      ensures firstName == old(firstName)
    {
      this.lastName := lastName;
    }

    function ToString(): (r: string)
      reads this
      ensures r == "AllowedPerson{firstName='" + firstName + "', lastName='" + lastName + "'}"
    {
      "AllowedPerson{" + Quoted("firstName", firstName) + ", " + Quoted("lastName", lastName) + "}"
    }
  }
}
