/**
 * The e-mail list and the field values of a contact. A contact has one primary address
 * and an ordered list of further verified addresses; the container lookup that tells
 * whether an address already belongs to some contact is passed in as the set of
 * addresses it would find.
 */
module Contacts {
  import opened Wrappers
  import Seqs
  import Taxonomy

  /** An e-mail address; the empty string stands for Go's zero value of the type. */
  type EmailAddress = string

  datatype ContactError =
    | AddressInUse     // the container already knows the address
    | RemovesPrimary   // the primary address cannot be removed

  /** A value stored for a field; it knows the field it belongs to. */
  datatype FieldValue = FieldValue(field: Taxonomy.Field, data: string)

  /**
   * All addresses after making address the primary one, as the documentation describes
   * it: an address of the contact moves to the front and the others keep their order;
   * a new address goes in front of all the old ones, which move down the list.
   */
  function Promoted(addresses: seq<EmailAddress>, address: EmailAddress): (r: seq<EmailAddress>)
    ensures |r| > 0 && r[0] == address
    ensures address in addresses ==> |r| == |addresses|
    ensures address !in addresses ==> r[1..] == addresses
  {
    if address in addresses then [address] + Seqs.Removed(addresses, address) else [address] + addresses
  }

  /** Making an address primary neither loses nor duplicates any address. */
  lemma PromotedMultiset(addresses: seq<EmailAddress>, address: EmailAddress)
    ensures address in addresses ==> multiset(Promoted(addresses, address)) == multiset(addresses)
    ensures address !in addresses ==>
              multiset(Promoted(addresses, address)) == multiset(addresses) + multiset{address}
  {
    var r := Promoted(addresses, address);
    if address in addresses {
      Seqs.RemovedMultiset(addresses, address);
      assert r == [address] + Seqs.Removed(addresses, address);
    } else {
      assert r == [address] + addresses;
    }
  }

  /** Promoting keeps a duplicate-free address list duplicate-free. */
  lemma PromotedDistinct(addresses: seq<EmailAddress>, address: EmailAddress)
    requires Seqs.Distinct(addresses)
    ensures Seqs.Distinct(Promoted(addresses, address))
  {
    var r := Promoted(addresses, address);
    if address in addresses {
      PromotedMultiset(addresses, address);
      Seqs.DistinctPermutation(addresses, r);
    } else {
      forall i, j | 0 <= i < j < |r| ensures r[i] != r[j] {
        assert r[j] == addresses[j - 1];
        if 0 < i {
          assert r[i] == addresses[i - 1];
        }
      }
    }
  }

  /**
   * All addresses after SetPrimaryEmailAddress as the Go code computes them. An address
   * of the contact is handled as documented; when the address is new, the secondary
   * list becomes the old list of all addresses with its last entry cut off.
   */
  function PromotedAsWritten(addresses: seq<EmailAddress>, address: EmailAddress): (r: seq<EmailAddress>)
    requires |addresses| > 0
    ensures |r| > 0 && r[0] == address
    ensures address !in addresses ==> |r| == |addresses|
  {
    if address in addresses then [address] + Seqs.Removed(addresses, address)
    else [address] + addresses[..|addresses| - 1]
  }

  /** For an address of the contact the code does what the documentation says. */
  lemma PromotedAsWrittenKnown(addresses: seq<EmailAddress>, address: EmailAddress)
    requires |addresses| > 0 && address in addresses
    ensures PromotedAsWritten(addresses, address) == Promoted(addresses, address)
  {
  }

  /** For a new address the code loses the last old address: one fewer than documented. */
  lemma PromotedAsWrittenNew(addresses: seq<EmailAddress>, address: EmailAddress)
    requires |addresses| > 0 && address !in addresses
    ensures |PromotedAsWritten(addresses, address)| == |Promoted(addresses, address)| - 1
    ensures Seqs.Distinct(addresses) ==> addresses[|addresses| - 1] !in PromotedAsWritten(addresses, address)
  {
    var last := addresses[|addresses| - 1];
    if Seqs.Distinct(addresses) {
      var r := PromotedAsWritten(addresses, address);
      forall i | 0 <= i < |r| ensures r[i] != last {
        if 0 < i {
          assert r[i] == addresses[i - 1];
        }
      }
    }
  }

  /** The smallest case: primary a with secondary b, then making c primary drops b. */
  lemma PromotedAsWrittenExample()
    ensures PromotedAsWritten(["a", "b"], "c") == ["c", "a"]
    ensures Promoted(["a", "b"], "c") == ["c", "a", "b"]
  {
    assert "c" !in ["a", "b"];
  }

  class Contact {
    var email: EmailAddress
    var verifiedEmails: seq<EmailAddress>
    /** The field values, keyed by the id of their field. */
    var fields: map<nat, FieldValue>

    /** The primary address followed by the verified ones, in their order. */
    function EmailAddresses(): (r: seq<EmailAddress>)
      reads this`email, this`verifiedEmails
      ensures |r| == |verifiedEmails| + 1 && r[0] == email
      ensures forall i :: 0 <= i < |verifiedEmails| ==> r[i + 1] == verifiedEmails[i]
    {
      [email] + verifiedEmails
    }

    /**
     * Adds email at the end of the verified list unless the container already knows it;
     * inUse is the set of addresses the container's lookup finds. The zero address is
     * refused by a panic, so it is excluded here.
     */
    method VerifyEmailAddress(email: EmailAddress, inUse: set<EmailAddress>) returns (err: Option<ContactError>)
      requires email != ""
      modifies this`verifiedEmails
      ensures err == if email in inUse then Some(AddressInUse) else None
      ensures err.Some? ==> verifiedEmails == old(verifiedEmails)
      ensures err.None? ==> verifiedEmails == old(verifiedEmails) + [email]
    {
      if email in inUse {
        return Some(AddressInUse);
      }
      verifiedEmails := verifiedEmails + [email];
      return None;
    }

    /**
     * Makes email the primary address. An address of the contact is found by a scan of
     * all addresses and taken out of the list, so the old primary becomes the first
     * verified one. Any other address goes through VerifyEmailAddress first, which panics
     * on the zero address and reports an address in use.
     */
    method SetPrimaryEmailAddress(email: EmailAddress, inUse: set<EmailAddress>) returns (err: Option<ContactError>)
      requires email != "" || email in EmailAddresses()
      modifies this`email, this`verifiedEmails
      ensures err == if email !in old(EmailAddresses()) && email in inUse then Some(AddressInUse) else None
      ensures err.Some? ==> this.email == old(this.email) && verifiedEmails == old(verifiedEmails)
      ensures err.None? ==> EmailAddresses() == PromotedAsWritten(old(EmailAddresses()), email)
      ensures email in old(EmailAddresses()) ==> multiset(EmailAddresses()) == old(multiset(EmailAddresses()))
      ensures email == old(this.email) ==> this.email == old(this.email) && verifiedEmails == old(verifiedEmails)
    {
      var emails := [this.email] + verifiedEmails;
      ghost var all := EmailAddresses();
      for i := 0 to |emails|
        invariant forall j :: 0 <= j < i ==> emails[j] != email
      {
        if emails[i] == email {
          assert Seqs.IndexOf(emails, email) == i;
          this.email := email;
          verifiedEmails := emails[..i] + emails[i + 1..];
          assert EmailAddresses() == [email] + Seqs.Removed(all, email);
          PromotedMultiset(all, email);
          return None;
        }
      }
      err := VerifyEmailAddress(email, inUse);
      if err.Some? {
        return err;
      }
      this.email := email;
      verifiedEmails := emails[..|emails| - 1];
      assert EmailAddresses() == [email] + all[..|all| - 1];
    }

    /**
     * Removes the first occurrence of a verified address; the primary address cannot be
     * removed, and an address the contact does not have is ignored.
     */
    method RemoveEmailAddress(email: EmailAddress) returns (err: Option<ContactError>)
      modifies this`verifiedEmails
      ensures err == if email == this.email then Some(RemovesPrimary) else None
      ensures err.Some? ==> verifiedEmails == old(verifiedEmails)
      ensures err.None? ==> verifiedEmails == Seqs.Removed(old(verifiedEmails), email)
      ensures email in old(verifiedEmails) && err.None? ==>
                multiset(verifiedEmails) == old(multiset(verifiedEmails)) - multiset{email}
    {
      if email == this.email {
        return Some(RemovesPrimary);
      }
      for i := 0 to |verifiedEmails|
        invariant verifiedEmails == old(verifiedEmails)
        invariant forall j :: 0 <= j < i ==> verifiedEmails[j] != email
      {
        if email == verifiedEmails[i] {
          assert Seqs.IndexOf(verifiedEmails, email) == i;
          Seqs.RemovedMultiset(verifiedEmails, email);
          verifiedEmails := verifiedEmails[..i] + verifiedEmails[i + 1..];
          return None;
        }
      }
      return None;
    }

    /** The value stored for field, if one was set. */
    function Field(field: Taxonomy.Field): (r: Option<FieldValue>)
      reads this`fields
      ensures r.Some? <==> field.id in fields
      ensures r.Some? ==> r.value == fields[field.id]
    {
      if field.id in fields then Some(fields[field.id]) else None
    }

    /** Stores value under its own field's id, replacing what was stored there. */
    method SetField(value: FieldValue)
      modifies this`fields
      ensures fields == old(fields)[value.field.id := value]
      ensures Field(value.field) == Some(value)
      ensures forall f: Taxonomy.Field :: f.id != value.field.id ==>
                Field(f) == if f.id in old(fields) then Some(old(fields)[f.id]) else None
    {
      fields := fields[value.field.id := value];
    }
  }
}
