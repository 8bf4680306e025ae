/**
 * `VendorSponsor`: an AllowedPerson with a booth name and a `uniqueId` fixed
 * when the object is created. Its constructor validates nothing.
 */
module VendorSponsors {
  import D = Domain
  import opened Persons

  class VendorSponsor {
    /** The inherited AllowedPerson part: first and last name. */
    const person: AllowedPerson
    var boothName: string
    /** Final: assigned once, when the object is created. */
    const uniqueId: string

    /** The vendor/sponsor as a value of the closed person hierarchy. */
    function Value(): (p: D.VendorRecord)
      reads this, person
      ensures p.firstName == person.firstName && p.lastName == person.lastName
      ensures p.boothName == boothName && p.uniqueId == uniqueId
    {
      D.VendorSponsor(person.firstName, person.lastName, boothName, uniqueId)
    }

    /** Stores the three fields as given and draws a new identifier. */
    constructor (firstName: string, lastName: string, boothName: string, uuids: D.UuidSource)
      requires uuids.Valid()
      modifies uuids
      ensures fresh(person)
      ensures uuids.Valid() && uuids.drawn == old(uuids.drawn) + 1
      ensures Value() == D.VendorSponsor(firstName, lastName, boothName, old(uuids.Upcoming()))
      ensures uniqueId !in old(uuids.known) && uuids.known == old(uuids.known) + {uniqueId}
    {
      var id := uuids.Next();
      person := new AllowedPerson(firstName, lastName);
      this.boothName := boothName;
      uniqueId := id;
    }

    method GetBoothName() returns (r: string)
      ensures r == boothName
    {
      r := boothName;
    }

    method SetBoothName(boothName: string)
      modifies this
      ensures this.boothName == boothName
      ensures Value() == D.VendorSponsor(old(Value()).firstName, old(Value()).lastName, boothName, old(Value()).uniqueId)
    {
      this.boothName := boothName;
    }

    method GetUniqueId() returns (r: string)
      ensures r == uniqueId
    {
      r := uniqueId;
    }

    /** The rendering names the three fields and leaves out `uniqueId`. */
    function ToString(): (r: string)
      reads this, person
      ensures r == "\n\tVendorSponsor{firstName='" + person.firstName + "', lastName='" + person.lastName
                   + "', boothName='" + boothName + "'}"
    {
      Rendering(person.firstName, person.lastName, boothName)
    }
  }

  /** The text of `VendorSponsor.toString` for the given field values. */
  function Rendering(firstName: string, lastName: string, boothName: string): string {
    "\n\tVendorSponsor{firstName='" + firstName + "', lastName='" + lastName + "', boothName='" + boothName + "'}"
  }

  /** Two vendors/sponsors that differ only in their identifiers print alike. */
  lemma ToStringIgnoresUniqueId(a: VendorSponsor, b: VendorSponsor)
    requires a.person.firstName == b.person.firstName && a.person.lastName == b.person.lastName
    requires a.boothName == b.boothName
    ensures a.ToString() == b.ToString()
  {
  }
}
