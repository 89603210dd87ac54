/** A named group of contacts: a set of references with add, remove and listing. */
module Groups {
  import Seqs
  import Contacts

  class Group {
    var name: string
    var description: string
    /** The members; the Go map from contact pointers to empty structs is a set. */
    var contacts: set<Contacts.Contact>

    /** Replaces the name; the Go setter always returns a nil error. */
    method SetName(name: string)
      modifies this`name
      ensures this.name == name
    {
      this.name := name;
    }

    /** Replaces the description; the Go setter always returns a nil error. */
    method SetDescription(description: string)
      modifies this`description
      ensures this.description == description
    {
      this.description := description;
    }

    /** Every member exactly once, in an order the model leaves open as the map does. */
    method Members() returns (members: seq<Contacts.Contact>)
      ensures forall c :: c in members <==> c in contacts
      ensures Seqs.Distinct(members)
      ensures |members| == |contacts|
    {
      members := [];
      var rest := contacts;
      while rest != {}
        invariant rest <= contacts
        invariant forall c :: c in members <==> c in contacts && c !in rest
        invariant Seqs.Distinct(members)
        invariant |members| + |rest| == |contacts|
        decreases |rest|
      {
        var c :| c in rest;
        members := members + [c];
        rest := rest - {c};
      }
    }

    /** Makes contact a member; adding a member again changes nothing. */
    method AddContact(contact: Contacts.Contact)
      modifies this`contacts
      ensures contacts == old(contacts) + {contact}
      ensures contact in contacts
      ensures forall c :: c != contact ==> (c in contacts <==> c in old(contacts))
      ensures contact in old(contacts) ==> contacts == old(contacts)
    {
      contacts := contacts + {contact};
    }

    /** Removes contact from the members; removing a non-member changes nothing. */
    method RemoveContact(contact: Contacts.Contact)
      modifies this`contacts
      ensures contacts == old(contacts) - {contact}
      ensures contact !in contacts
      ensures forall c :: c != contact ==> (c in contacts <==> c in old(contacts))
      ensures contact !in old(contacts) ==> contacts == old(contacts)
    {
      contacts := contacts - {contact};
    }
  }
}
