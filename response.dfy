/** The two operations as the controller chains them: `identifyContact`,
    then `getConsolidatedContact` of the contact it returns. Whatever truthy
    email or phone number the request carried shows up in that view. */
module Response {
  import opened Contacts
  import opened Store
  import opened Identity
  import opened Consolidation

  /** After the record step, every truthy requested value sits on a live
      row that is the survivor or is linked to it. */
  lemma RecordCoversRequest(rs: seq<Contact>, nextId: nat, email: Option<string>, phoneNumber: Option<string>,
                            survivor: Contact)
    ensures var st := Record(rs, nextId, email, phoneNumber, survivor);
      && (Truthy(email) ==>
            exists c :: c in st.records && Matches(IdOrLinkedTo(survivor.id), c) && c.email == email)
      && (Truthy(phoneNumber) ==>
            exists c :: c in st.records && Matches(IdOrLinkedTo(survivor.id), c) && c.phoneNumber == phoneNumber)
  {
    var cluster := Select(rs, IdOrLinkedTo(survivor.id));
    var st := Record(rs, nextId, email, phoneNumber, survivor);
    if !HasExactPair(cluster, email, phoneNumber) && BringsNewValue(cluster, email, phoneNumber) {
      var added := NewRow(nextId, email, phoneNumber, Some(survivor.id), Secondary);
      assert st.records == rs + [added];
      assert added in st.records && Matches(IdOrLinkedTo(survivor.id), added);
    } else if HasExactPair(cluster, email, phoneNumber) {
      var c :| c in cluster && StrictEquals(c.email, email) && StrictEquals(c.phoneNumber, phoneNumber);
      assert c in st.records;
    } else {
      if Truthy(email) {
        var c :| c in cluster && StrictEquals(c.email, email);
        assert c in st.records;
      }
      if Truthy(phoneNumber) {
        var c :| c in cluster && StrictEquals(c.phoneNumber, phoneNumber);
        assert c in st.records;
      }
    }
  }

  /** On a valid table holding a row with id `id`, a live row that is that
      row or is linked to it contributes its truthy email to the view. */
  lemma ClusterEmailInView(rs: seq<Contact>, nextId: nat, id: nat, c: Contact)
    requires ValidTable(rs, nextId)
    requires exists p :: p in rs && p.id == id
    requires c in rs && Matches(IdOrLinkedTo(id), c) && Truthy(c.email)
    ensures Consolidate(rs, id).Success? && c.email.value in Consolidate(rs, id).value.emails
  {
    ConsolidatedEmails(rs, id);
    var primary := FindUnique(rs, id).value;
    if c.id == id {
      IdsAreUnique(rs, nextId, primary, c);
    } else {
      assert Matches(LinkedTo(id), c);
    }
  }

  /** The same for phone numbers. */
  lemma ClusterPhoneNumberInView(rs: seq<Contact>, nextId: nat, id: nat, c: Contact)
    requires ValidTable(rs, nextId)
    requires exists p :: p in rs && p.id == id
    requires c in rs && Matches(IdOrLinkedTo(id), c) && Truthy(c.phoneNumber)
    ensures Consolidate(rs, id).Success? && c.phoneNumber.value in Consolidate(rs, id).value.phoneNumbers
  {
    ConsolidatedPhoneNumbers(rs, id);
    var primary := FindUnique(rs, id).value;
    if c.id == id {
      IdsAreUnique(rs, nextId, primary, c);
    } else {
      assert Matches(LinkedTo(id), c);
    }
  }

  /** What the controller answers after a call on a valid table that
      succeeds: the view of the returned contact exists and lists every
      truthy value the request carried. */
  predicate ViewShowsRequest(records: seq<Contact>, result: Result<Contact>,
                             email: Option<string>, phoneNumber: Option<string>)
  {
    result.Success? ==>
      var view := Consolidate(records, result.value.id);
      && view.Success?
      && (Truthy(email) ==> email.value in view.value.emails)
      && (Truthy(phoneNumber) ==> phoneNumber.value in view.value.phoneNumbers)
  }

  /** A table that holds the returned contact's row, with every truthy
      requested value on a live row of its cluster, shows the request in
      the returned contact's view. */
  lemma CoverageGivesView(records: seq<Contact>, nextId: nat, returned: Contact,
                          email: Option<string>, phoneNumber: Option<string>)
    requires ValidTable(records, nextId)
    requires exists p :: p in records && p.id == returned.id
    requires Truthy(email) ==>
      exists c :: c in records && Matches(IdOrLinkedTo(returned.id), c) && c.email == email
    requires Truthy(phoneNumber) ==>
      exists c :: c in records && Matches(IdOrLinkedTo(returned.id), c) && c.phoneNumber == phoneNumber
    ensures ViewShowsRequest(records, Success(returned), email, phoneNumber)
  {
    if Truthy(email) {
      var c :| c in records && Matches(IdOrLinkedTo(returned.id), c) && c.email == email;
      ClusterEmailInView(records, nextId, returned.id, c);
    }
    if Truthy(phoneNumber) {
      var c :| c in records && Matches(IdOrLinkedTo(returned.id), c) && c.phoneNumber == phoneNumber;
      ClusterPhoneNumberInView(records, nextId, returned.id, c);
    }
    ConsolidateFailsOnlyForUnknownId(records, returned.id);
  }

  /** The merge-and-record path returns the survivor, keeps a row with its
      id, and keeps the table valid. */
  lemma ResolveKeepsSurvivorRow(rs: seq<Contact>, nextId: nat, email: Option<string>, phoneNumber: Option<string>,
                                matched: seq<Contact>)
    requires ValidTable(rs, nextId) && |matched| > 0
    requires forall m :: m in matched ==> m in rs
    ensures var survivor := Survivor(Related(rs, matched), Candidate(matched));
      var st := Resolve(rs, nextId, email, phoneNumber, matched);
      && st.result == Success(survivor)
      && ValidTable(st.records, st.nextId)
      && exists p :: p in st.records && p.id == survivor.id
  {
    var related := Related(rs, matched);
    var survivor := Survivor(related, Candidate(matched));
    var merged := Merged(rs, related, survivor);
    var st := Resolve(rs, nextId, email, phoneNumber, matched);
    assert st == Record(merged, nextId, email, phoneNumber, survivor);
    RecordAppendsAtMostOne(merged, nextId, email, phoneNumber, survivor);
    ResolveKeepsTableValid(rs, nextId, email, phoneNumber, matched);
    MergedOnlyDemotesPrimaries(rs, nextId, related, survivor);
    if |Primaries(related)| > 1 {
      assert Oldest(Primaries(related)) in related;
    }
    var k :| 0 <= k < |rs| && rs[k] == survivor;
    assert st.records[k] == merged[k] && merged[k].id == survivor.id;
  }

  /** The merge-and-record path shows the request in the survivor's view. */
  lemma ResolveShowsRequest(rs: seq<Contact>, nextId: nat, email: Option<string>, phoneNumber: Option<string>,
                            matched: seq<Contact>)
    requires ValidTable(rs, nextId) && |matched| > 0
    requires forall m :: m in matched ==> m in rs
    ensures var st := Resolve(rs, nextId, email, phoneNumber, matched);
      ViewShowsRequest(st.records, st.result, email, phoneNumber)
  {
    var related := Related(rs, matched);
    var survivor := Survivor(related, Candidate(matched));
    var st := Resolve(rs, nextId, email, phoneNumber, matched);
    ResolveKeepsSurvivorRow(rs, nextId, email, phoneNumber, matched);
    assert st == Record(Merged(rs, related, survivor), nextId, email, phoneNumber, survivor);
    RecordCoversRequest(Merged(rs, related, survivor), nextId, email, phoneNumber, survivor);
    CoverageGivesView(st.records, st.nextId, survivor, email, phoneNumber);
  }

  /** `identifyContact` followed by `getConsolidatedContact` of its result,
      on any valid table: when the first call succeeds the second does too,
      and its emails and phone numbers include every truthy value the
      request carried. */
  lemma IdentifyThenConsolidateShowsRequest(rs: seq<Contact>, nextId: nat,
                                            email: Option<string>, phoneNumber: Option<string>)
    requires ValidTable(rs, nextId)
    ensures var st := Identify(rs, nextId, email, phoneNumber);
      ViewShowsRequest(st.records, st.result, email, phoneNumber)
  {
    if LookupQuery(email, phoneNumber).Some? {
      var matched := Matched(rs, email, phoneNumber);
      if |matched| == 0 {
        var created := NewRow(nextId, email, phoneNumber, None, Primary);
        AppendKeepsTableValid(rs, nextId, created);
        var records := rs + [created];
        assert created in records && Matches(IdOrLinkedTo(nextId), created);
        CoverageGivesView(records, nextId + 1, created, email, phoneNumber);
      } else {
        IdentifyResolves(rs, nextId, email, phoneNumber);
        ResolveShowsRequest(rs, nextId, email, phoneNumber, matched);
      }
    }
  }
}
