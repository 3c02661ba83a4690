/** `ContactService.getConsolidatedContact`: read a contact and the live
    rows linked to it, and project them onto de-duplicated emails and
    phone numbers and the list of secondary ids.

    `Consolidate` is the answer as a function of the table;
    `GetConsolidatedContact` builds it with the source's loop over the
    secondaries and is proved to agree with `Consolidate`. */
module Consolidation {
  import opened Contacts
  import opened Store

  /** The response body. The JSON key of the first field is spelled
      `primaryContatctId` on the wire. */
  datatype ConsolidatedContact = ConsolidatedContact(
    primaryContactId: nat,
    emails: seq<string>,
    phoneNumbers: seq<string>,
    secondaryContactIds: seq<nat>)

  /** No value occurs twice. */
  predicate NoDuplicates(s: seq<string>) {
    forall i, j :: 0 <= i < j < |s| ==> s[i] != s[j]
  }

  /** `if (v) set.add(v)` on a JavaScript `Set`, whose iteration order is
      the order of first insertion. */
  function AddIfTruthy(seen: seq<string>, v: Option<string>): seq<string> {
    if Truthy(v) && v.value !in seen then seen + [v.value] else seen
  }

  /** `Array.from` of a `Set` fed the truthy values of `vs` in order. */
  function Collect(vs: seq<Option<string>>): (r: seq<string>)
    ensures NoDuplicates(r)
    ensures forall x :: x in r <==> x != "" && Some(x) in vs
    ensures |vs| > 0 && Truthy(vs[0]) ==> |r| > 0 && r[0] == vs[0].value
  {
    if vs == [] then []
    else
      var previous := Collect(vs[..|vs| - 1]);
      assert vs == vs[..|vs| - 1] + [vs[|vs| - 1]];
      assert |vs| > 1 ==> vs[..|vs| - 1][0] == vs[0];
      AddIfTruthy(previous, vs[|vs| - 1])
  }

  /** Feeding more values never reorders the ones already collected: the
      result lists values in the order they first appear. */
  lemma {:induction false} CollectExtends(vs: seq<Option<string>>, k: nat)
    requires k <= |vs|
    ensures Collect(vs[..k]) <= Collect(vs)
  {
    if k < |vs| {
      CollectExtends(vs[..|vs| - 1], k);
      assert vs[..|vs| - 1][..k] == vs[..k];
    } else {
      assert vs[..k] == vs;
    }
  }

  function Emails(cs: seq<Contact>): seq<Option<string>> {
    seq(|cs|, i requires 0 <= i < |cs| => cs[i].email)
  }

  function PhoneNumbers(cs: seq<Contact>): seq<Option<string>> {
    seq(|cs|, i requires 0 <= i < |cs| => cs[i].phoneNumber)
  }

  /** `getConsolidatedContact(primaryContactId)` against the table `rs`. */
  function Consolidate(rs: seq<Contact>, primaryContactId: nat): Result<ConsolidatedContact> {
    match FindUnique(rs, primaryContactId)
    case None => Failure(ContactNotFound)
    case Some(primary) =>
      var secondaries := Select(rs, LinkedTo(primary.id));
      Success(ConsolidatedContact(
        primary.id,
        Collect([primary.email] + Emails(secondaries)),
        Collect([primary.phoneNumber] + PhoneNumbers(secondaries)),
        Ids(secondaries)))
  }

  /** Feeding one more value. */
  lemma CollectSnoc(vs: seq<Option<string>>, v: Option<string>)
    ensures Collect(vs + [v]) == AddIfTruthy(Collect(vs), v)
  {
    assert (vs + [v])[..|vs|] == vs;
  }

  lemma EmailsSnoc(cs: seq<Contact>, c: Contact)
    ensures Emails(cs + [c]) == Emails(cs) + [c.email]
  {
  }

  lemma PhoneNumbersSnoc(cs: seq<Contact>, c: Contact)
    ensures PhoneNumbers(cs + [c]) == PhoneNumbers(cs) + [c.phoneNumber]
  {
  }

  /** One more secondary fed to both sets. */
  lemma NextSecondary(primary: Contact, secondary: seq<Contact>, i: nat)
    requires i < |secondary|
    ensures Collect([primary.email] + Emails(secondary[..i + 1]))
         == AddIfTruthy(Collect([primary.email] + Emails(secondary[..i])), secondary[i].email)
    ensures Collect([primary.phoneNumber] + PhoneNumbers(secondary[..i + 1]))
         == AddIfTruthy(Collect([primary.phoneNumber] + PhoneNumbers(secondary[..i])), secondary[i].phoneNumber)
    ensures Ids(secondary[..i + 1]) == Ids(secondary[..i]) + [secondary[i].id]
  {
    var before, c := secondary[..i], secondary[i];
    assert secondary[..i + 1] == before + [c];
    EmailsSnoc(before, c);
    assert [primary.email] + (Emails(before) + [c.email]) == ([primary.email] + Emails(before)) + [c.email];
    CollectSnoc([primary.email] + Emails(before), c.email);
    PhoneNumbersSnoc(before, c);
    assert [primary.phoneNumber] + (PhoneNumbers(before) + [c.phoneNumber])
        == ([primary.phoneNumber] + PhoneNumbers(before)) + [c.phoneNumber];
    CollectSnoc([primary.phoneNumber] + PhoneNumbers(before), c.phoneNumber);
  }

  /** `getConsolidatedContact` against the store: it only reads. */
  method GetConsolidatedContact(db: ContactStore, primaryContactId: nat) returns (r: Result<ConsolidatedContact>)
    ensures r == Consolidate(db.records, primaryContactId)
  {
    var found := db.FindById(primaryContactId);
    if found.None? {
      return Failure(ContactNotFound);
    }
    var primary := found.value;
    var secondary := db.FindMany(LinkedTo(primary.id));

    var emails: seq<string> := [];
    var phoneNumbers: seq<string> := [];
    var secondaryContactIds: seq<nat> := [];
    if Truthy(primary.email) { emails := emails + [primary.email.value]; }
    if Truthy(primary.phoneNumber) { phoneNumbers := phoneNumbers + [primary.phoneNumber.value]; }

    var i := 0;
    while i < |secondary|
      invariant 0 <= i <= |secondary|
      invariant emails == Collect([primary.email] + Emails(secondary[..i]))
      invariant phoneNumbers == Collect([primary.phoneNumber] + PhoneNumbers(secondary[..i]))
      invariant secondaryContactIds == Ids(secondary[..i])
    {
      var contact := secondary[i];
      NextSecondary(primary, secondary, i);
      if Truthy(contact.email) && contact.email.value !in emails {
        emails := emails + [contact.email.value];
      }
      if Truthy(contact.phoneNumber) && contact.phoneNumber.value !in phoneNumbers {
        phoneNumbers := phoneNumbers + [contact.phoneNumber.value];
      }
      secondaryContactIds := secondaryContactIds + [contact.id];
      i := i + 1;
    }
    assert secondary[..i] == secondary;
    r := Success(ConsolidatedContact(primary.id, emails, phoneNumbers, secondaryContactIds));
  }

  /** The call fails exactly when no row at all has the id; a soft-deleted
      row is still found, since `findUnique` does not filter on
      `deletedAt`. On success the reported id is the requested one. */
  lemma ConsolidateFailsOnlyForUnknownId(rs: seq<Contact>, primaryContactId: nat)
    ensures Consolidate(rs, primaryContactId).Failure? <==> forall c :: c in rs ==> c.id != primaryContactId
    ensures Consolidate(rs, primaryContactId).Failure? ==> Consolidate(rs, primaryContactId).error == ContactNotFound
    ensures Consolidate(rs, primaryContactId).Success? ==>
      Consolidate(rs, primaryContactId).value.primaryContactId == primaryContactId
  {
  }

  /** The emails listed: no duplicates, no empty strings, exactly the truthy
      emails of the contact and of the live rows linked to it, the
      contact's own first when it has one. */
  lemma ConsolidatedEmails(rs: seq<Contact>, primaryContactId: nat)
    requires Consolidate(rs, primaryContactId).Success?
    ensures var v := Consolidate(rs, primaryContactId).value;
      var primary := FindUnique(rs, primaryContactId).value;
      && NoDuplicates(v.emails)
      && (forall x :: x in v.emails <==>
            x != "" && (primary.email == Some(x) ||
                        exists c :: c in rs && Matches(LinkedTo(primaryContactId), c) && c.email == Some(x)))
      && (Truthy(primary.email) ==> v.emails[0] == primary.email.value)
  {
    var primary := FindUnique(rs, primaryContactId).value;
    EmailsOfSelect(rs, LinkedTo(primaryContactId));
    var vs := [primary.email] + Emails(Select(rs, LinkedTo(primaryContactId)));
    assert forall v :: v in vs <==> v == primary.email || v in Emails(Select(rs, LinkedTo(primaryContactId)));
  }

  lemma EmailsOfSelect(rs: seq<Contact>, w: Where)
    ensures forall x :: Some(x) in Emails(Select(rs, w)) <==> exists c :: c in rs && Matches(w, c) && c.email == Some(x)
  {
    var selected := Select(rs, w);
    var vs := Emails(selected);
    forall x ensures Some(x) in vs <==> exists c :: c in rs && Matches(w, c) && c.email == Some(x) {
      if Some(x) in vs {
        var k :| 0 <= k < |vs| && vs[k] == Some(x);
        assert selected[k] in selected;
      }
      if c :| c in rs && Matches(w, c) && c.email == Some(x) {
        assert c in selected;
        var k :| 0 <= k < |selected| && selected[k] == c;
        assert vs[k] == Some(x);
      }
    }
  }

  /** The phone numbers listed: the same guarantees as for emails. */
  lemma ConsolidatedPhoneNumbers(rs: seq<Contact>, primaryContactId: nat)
    requires Consolidate(rs, primaryContactId).Success?
    ensures var v := Consolidate(rs, primaryContactId).value;
      var primary := FindUnique(rs, primaryContactId).value;
      && NoDuplicates(v.phoneNumbers)
      && (forall x :: x in v.phoneNumbers <==>
            x != "" && (primary.phoneNumber == Some(x) ||
                        exists c :: c in rs && Matches(LinkedTo(primaryContactId), c) && c.phoneNumber == Some(x)))
      && (Truthy(primary.phoneNumber) ==> v.phoneNumbers[0] == primary.phoneNumber.value)
  {
    var primary := FindUnique(rs, primaryContactId).value;
    PhoneNumbersOfSelect(rs, LinkedTo(primaryContactId));
    var vs := [primary.phoneNumber] + PhoneNumbers(Select(rs, LinkedTo(primaryContactId)));
    assert forall v :: v in vs <==> v == primary.phoneNumber || v in PhoneNumbers(Select(rs, LinkedTo(primaryContactId)));
  }

  lemma PhoneNumbersOfSelect(rs: seq<Contact>, w: Where)
    ensures forall x :: Some(x) in PhoneNumbers(Select(rs, w)) <==>
      exists c :: c in rs && Matches(w, c) && c.phoneNumber == Some(x)
  {
    var selected := Select(rs, w);
    var vs := PhoneNumbers(selected);
    forall x ensures Some(x) in vs <==> exists c :: c in rs && Matches(w, c) && c.phoneNumber == Some(x) {
      if Some(x) in vs {
        var k :| 0 <= k < |vs| && vs[k] == Some(x);
        assert selected[k] in selected;
      }
      if c :| c in rs && Matches(w, c) && c.phoneNumber == Some(x) {
        assert c in selected;
        var k :| 0 <= k < |selected| && selected[k] == c;
        assert vs[k] == Some(x);
      }
    }
  }

  /** The secondary ids listed: exactly the ids of the live rows linked to
      the contact, each once, in ascending (fetch) order on a valid table. */
  lemma ConsolidatedSecondaryIds(rs: seq<Contact>, nextId: nat, primaryContactId: nat)
    requires ValidTable(rs, nextId)
    requires Consolidate(rs, primaryContactId).Success?
    ensures var ids := Consolidate(rs, primaryContactId).value.secondaryContactIds;
      && (forall x :: x in ids <==> exists c :: c in rs && Matches(LinkedTo(primaryContactId), c) && c.id == x)
      && (forall i, j :: 0 <= i < j < |ids| ==> ids[i] < ids[j])
  {
    var primary := FindUnique(rs, primaryContactId).value;
    var secondaries := Select(rs, LinkedTo(primary.id));
    FilterKeepsOrder(rs, (c: Contact) => Matches(LinkedTo(primary.id), c));
    IdsOfSelect(rs, LinkedTo(primaryContactId));
    OrderedIdsAscend(secondaries);
  }

  /** The ids a query returns are the ids of the rows it matches. */
  lemma IdsOfSelect(rs: seq<Contact>, w: Where)
    ensures forall x :: x in Ids(Select(rs, w)) <==> exists c :: c in rs && Matches(w, c) && c.id == x
  {
    var selected := Select(rs, w);
    var ids := Ids(selected);
    forall x ensures x in ids <==> exists c :: c in rs && Matches(w, c) && c.id == x {
      if x in ids {
        var k :| 0 <= k < |ids| && ids[k] == x;
        assert selected[k] in selected;
      }
      if c :| c in rs && Matches(w, c) && c.id == x {
        assert c in selected;
        var k :| 0 <= k < |selected| && selected[k] == c;
        assert ids[k] == x;
      }
    }
  }

  /** Ordered rows list their ids in ascending order. */
  lemma OrderedIdsAscend(cs: seq<Contact>)
    requires Ordered(cs)
    ensures forall i, j :: 0 <= i < j < |Ids(cs)| ==> Ids(cs)[i] < Ids(cs)[j]
  {
  }
}
