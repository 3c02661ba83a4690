/** `ContactService.identifyContact`: find the rows that share the request's
    email or phone number, pick the primary, merge clusters whose primaries
    turn out to be one identity, and record new information as a secondary.

    `Identify` is the whole call as a function of the table before it;
    `IdentifyContact` performs it against a `ContactStore`, one query and
    one write at a time, and is proved to agree with `Identify`. */
module Identity {
  import opened Contacts
  import opened Store

  /** The `where` clause of the first lookup, or `None` when the call is
      rejected because neither identifier is truthy. */
  function LookupQuery(email: Option<string>, phoneNumber: Option<string>): (r: Option<Where>)
    ensures r.None? <==> !Truthy(email) && !Truthy(phoneNumber)
    ensures r.Some? ==> forall c :: Matches(r.value, c) <==> SharesIdentifier(c, email, phoneNumber)
  {
    if Truthy(email) && Truthy(phoneNumber) then Some(EmailOrPhone(email.value, phoneNumber.value))
    else if Truthy(email) then Some(EmailIs(email.value))
    else if Truthy(phoneNumber) then Some(PhoneIs(phoneNumber.value))
    else None
  }

  /** A live row carries one of the request's truthy identifiers. */
  predicate SharesIdentifier(c: Contact, email: Option<string>, phoneNumber: Option<string>) {
    IsLive(c) && ((Truthy(email) && c.email == email) || (Truthy(phoneNumber) && c.phoneNumber == phoneNumber))
  }

  /** The rows the first lookup returns (empty when the call is rejected). */
  function Matched(rs: seq<Contact>, email: Option<string>, phoneNumber: Option<string>): (r: seq<Contact>)
    ensures forall c :: c in r <==> c in rs && SharesIdentifier(c, email, phoneNumber)
  {
    match LookupQuery(email, phoneNumber)
    case None => []
    case Some(w) => Select(rs, w)
  }

  /** The candidate primary: the oldest matched primary, or, when no
      matched row is primary, the oldest matched row whatever its
      precedence. */
  function Candidate(matched: seq<Contact>): (r: Contact)
    requires |matched| > 0
    ensures r in matched
    ensures (exists c :: c in matched && c.linkPrecedence == Primary) ==>
      r.linkPrecedence == Primary &&
      forall c :: c in matched && c.linkPrecedence == Primary ==> r.createdAt <= c.createdAt
    ensures (forall c :: c in matched ==> c.linkPrecedence == Secondary) ==>
      forall c :: c in matched ==> r.createdAt <= c.createdAt
  {
    var primaries := Primaries(matched);
    if |primaries| > 0 then Oldest(primaries)
    else
      assert forall c :: c in matched ==> c.linkPrecedence == Secondary;
      Oldest(matched)
  }

  /** Ids of matched rows that are primary and linked to nothing: the roots
      of other clusters the request touched. */
  function UnlinkedPrimaryIds(matched: seq<Contact>): seq<nat> {
    Ids(Filter(matched, (c: Contact) => c.linkedId.None? && c.linkPrecedence == Primary))
  }

  /** The candidate's cluster together with the other matched roots. */
  function Related(rs: seq<Contact>, matched: seq<Contact>): seq<Contact>
    requires |matched| > 0
  {
    Select(rs, InClusters(Candidate(matched).id, UnlinkedPrimaryIds(matched)))
  }

  /** The rows the second lookup gathers: the live rows that are the
      candidate, point at the candidate, or are a matched unlinked primary. */
  lemma RelatedRows(rs: seq<Contact>, matched: seq<Contact>)
    requires |matched| > 0
    ensures forall c :: c in Related(rs, matched) <==>
      && c in rs && IsLive(c)
      && (|| c.id == Candidate(matched).id
          || c.linkedId == Some(Candidate(matched).id)
          || exists m :: m in matched && m.linkedId.None? && m.linkPrecedence == Primary && m.id == c.id)
  {
    var roots := Filter(matched, (c: Contact) => c.linkedId.None? && c.linkPrecedence == Primary);
    var ids := UnlinkedPrimaryIds(matched);
    forall x ensures x in ids <==> exists m :: m in matched && m.linkedId.None? && m.linkPrecedence == Primary && m.id == x {
      if x in ids {
        var k :| 0 <= k < |ids| && ids[k] == x;
        assert roots[k] in roots;
      }
      if m :| m in matched && m.linkedId.None? && m.linkPrecedence == Primary && m.id == x {
        assert m in roots;
        var k :| 0 <= k < |roots| && roots[k] == m;
        assert ids[k] == x;
      }
    }
  }

  /** The primary the call settles on: the oldest primary of the related
      rows when there are several, the candidate otherwise. */
  function Survivor(related: seq<Contact>, candidate: Contact): Contact {
    var primaries := Primaries(related);
    if |primaries| > 1 then Oldest(primaries) else candidate
  }

  /** A primary turned into a secondary of `winner`. */
  function Demoted(c: Contact, winner: nat): Contact {
    c.(linkedId := Some(winner), linkPrecedence := Secondary)
  }

  /** The demotion loop: every listed id except the winner's is updated to
      point at the winner. */
  function DemoteAll(rs: seq<Contact>, ids: seq<nat>, winner: nat): (r: seq<Contact>)
    ensures |r| == |rs|
    ensures forall i :: 0 <= i < |rs| ==>
      r[i] == if rs[i].id in ids && rs[i].id != winner then Demoted(rs[i], winner) else rs[i]
  {
    if ids == [] then rs
    else
      var previous := DemoteAll(rs, ids[..|ids| - 1], winner);
      var id := ids[|ids| - 1];
      assert forall x :: x in ids <==> x in ids[..|ids| - 1] || x == id;
      if id == winner then previous else UpdateLink(previous, id, winner, Secondary)
  }

  /** The table after the merge step. */
  function Merged(rs: seq<Contact>, related: seq<Contact>, survivor: Contact): seq<Contact> {
    var primaries := Primaries(related);
    if |primaries| > 1 then DemoteAll(rs, Ids(primaries), survivor.id) else rs
  }

  /** Some row of the cluster has exactly the requested pair, compared
      with `===`. */
  predicate HasExactPair(cluster: seq<Contact>, email: Option<string>, phoneNumber: Option<string>) {
    exists c :: c in cluster && StrictEquals(c.email, email) && StrictEquals(c.phoneNumber, phoneNumber)
  }

  /** The request carries a truthy email or phone number that no row of
      the cluster has. */
  predicate BringsNewValue(cluster: seq<Contact>, email: Option<string>, phoneNumber: Option<string>) {
    || (Truthy(email) && !exists c :: c in cluster && StrictEquals(c.email, email))
    || (Truthy(phoneNumber) && !exists c :: c in cluster && StrictEquals(c.phoneNumber, phoneNumber))
  }

  /** What one call produces: its result and the table after it. */
  datatype Step = Step(result: Result<Contact>, records: seq<Contact>, nextId: nat)

  /** `identifyContact(email, phoneNumber)` against a table `rs` whose next
      autoincrement id is `nextId`. */
  function Identify(rs: seq<Contact>, nextId: nat, email: Option<string>, phoneNumber: Option<string>): Step {
    if LookupQuery(email, phoneNumber).None? then Step(Failure(MissingIdentifier), rs, nextId)
    else
      var matched := Matched(rs, email, phoneNumber);
      if |matched| == 0 then
        var c := NewRow(nextId, email, phoneNumber, None, Primary);
        Step(Success(c), rs + [c], nextId + 1)
      else
        Resolve(rs, nextId, email, phoneNumber, matched)
  }

  /** The rest of the call once the lookup found `matched`: choose the
      primary and merge clusters. */
  function Resolve(rs: seq<Contact>, nextId: nat, email: Option<string>, phoneNumber: Option<string>,
                   matched: seq<Contact>): Step
    requires |matched| > 0
  {
    var related := Related(rs, matched);
    var survivor := Survivor(related, Candidate(matched));
    Record(Merged(rs, related, survivor), nextId, email, phoneNumber, survivor)
  }

  /** Re-read the survivor's cluster from the merged table `rs` and insert
      a secondary when the request brings new information. */
  function Record(rs: seq<Contact>, nextId: nat, email: Option<string>, phoneNumber: Option<string>,
                  survivor: Contact): Step
  {
    var cluster := Select(rs, IdOrLinkedTo(survivor.id));
    if !HasExactPair(cluster, email, phoneNumber) && BringsNewValue(cluster, email, phoneNumber) then
      var c := NewRow(nextId, email, phoneNumber, Some(survivor.id), Secondary);
      Step(Success(survivor), rs + [c], nextId + 1)
    else
      Step(Success(survivor), rs, nextId)
  }

  /** The merge step on a valid table leaves it valid. */
  lemma DemoteAllKeepsTableValid(rs: seq<Contact>, nextId: nat, ids: seq<nat>, winner: nat)
    requires ValidTable(rs, nextId)
    ensures ValidTable(DemoteAll(rs, ids, winner), nextId)
  {
    var r := DemoteAll(rs, ids, winner);
    assert forall i :: 0 <= i < |r| ==> r[i].id == rs[i].id && r[i].createdAt == rs[i].createdAt;
    forall x | x in r ensures x.id < nextId && x.createdAt < nextId {
      var i :| 0 <= i < |r| && r[i] == x;
      assert rs[i] in rs;
    }
  }

  /** Every call keeps the table valid. */
  lemma IdentifyKeepsTableValid(rs: seq<Contact>, nextId: nat, email: Option<string>, phoneNumber: Option<string>)
    requires ValidTable(rs, nextId)
    ensures var st := Identify(rs, nextId, email, phoneNumber); ValidTable(st.records, st.nextId)
  {
    if LookupQuery(email, phoneNumber).Some? {
      var matched := Matched(rs, email, phoneNumber);
      if |matched| == 0 {
        AppendKeepsTableValid(rs, nextId, NewRow(nextId, email, phoneNumber, None, Primary));
      } else {
        ResolveKeepsTableValid(rs, nextId, email, phoneNumber, matched);
      }
    }
  }

  lemma ResolveKeepsTableValid(rs: seq<Contact>, nextId: nat, email: Option<string>, phoneNumber: Option<string>,
                               matched: seq<Contact>)
    requires ValidTable(rs, nextId) && |matched| > 0
    ensures var st := Resolve(rs, nextId, email, phoneNumber, matched); ValidTable(st.records, st.nextId)
  {
    var related := Related(rs, matched);
    var survivor := Survivor(related, Candidate(matched));
    var merged := Merged(rs, related, survivor);
    DemoteAllKeepsTableValid(rs, nextId, Ids(Primaries(related)), survivor.id);
    AppendKeepsTableValid(merged, nextId, NewRow(nextId, email, phoneNumber, Some(survivor.id), Secondary));
  }

  /** The call fails, and writes nothing, exactly when neither identifier
      is truthy. */
  lemma IdentifyRejectsMissingIdentifiers(rs: seq<Contact>, nextId: nat, email: Option<string>, phoneNumber: Option<string>)
    ensures var st := Identify(rs, nextId, email, phoneNumber);
      && (st.result.Failure? <==> !Truthy(email) && !Truthy(phoneNumber))
      && (st.result.Failure? ==> st.result.error == MissingIdentifier && st.records == rs && st.nextId == nextId)
  {
  }

  /** When no live row shares an identifier, the call inserts exactly one
      row, a primary linked to nothing that carries the request's values,
      and returns it. */
  lemma IdentifyCreatesPrimaryWhenNothingMatches(rs: seq<Contact>, nextId: nat, email: Option<string>, phoneNumber: Option<string>)
    requires Truthy(email) || Truthy(phoneNumber)
    requires forall c :: c in rs ==> !SharesIdentifier(c, email, phoneNumber)
    ensures var st := Identify(rs, nextId, email, phoneNumber);
      && st.result.Success?
      && st.records == rs + [st.result.value] && st.nextId == nextId + 1
      && st.result.value.id == nextId && IsLive(st.result.value)
      && st.result.value.email == email && st.result.value.phoneNumber == phoneNumber
      && st.result.value.linkPrecedence == Primary && st.result.value.linkedId == None
  {
  }

  /** Once the lookup matched something, the call is `Resolve`. */
  lemma IdentifyResolves(rs: seq<Contact>, nextId: nat, email: Option<string>, phoneNumber: Option<string>)
    requires |Matched(rs, email, phoneNumber)| > 0
    ensures Identify(rs, nextId, email, phoneNumber) == Resolve(rs, nextId, email, phoneNumber, Matched(rs, email, phoneNumber))
  {
  }

  /** The record step keeps the table as a prefix and appends at most the
      one secondary the new-information test calls for. */
  lemma RecordAppendsAtMostOne(rs: seq<Contact>, nextId: nat, email: Option<string>, phoneNumber: Option<string>,
                               survivor: Contact)
    ensures var st := Record(rs, nextId, email, phoneNumber, survivor);
      var cluster := Select(rs, IdOrLinkedTo(survivor.id));
      && st.result == Success(survivor)
      && |rs| <= |st.records|
      && (forall i :: 0 <= i < |rs| ==> st.records[i] == rs[i])
      && (|st.records| == |rs| + 1 <==> !HasExactPair(cluster, email, phoneNumber) && BringsNewValue(cluster, email, phoneNumber))
      && (|st.records| == |rs| + 1 ==>
            st.records[|rs|] == NewRow(nextId, email, phoneNumber, Some(survivor.id), Secondary) && st.nextId == nextId + 1)
      && (|st.records| != |rs| + 1 ==> |st.records| == |rs| && st.nextId == nextId)
  {
  }

  /** Whenever some live row shares an identifier, nothing is created as a
      primary: the result is the survivor read from the table, and the only
      possible insert is one secondary linked to it. */
  lemma IdentifyInsertsAtMostOneSecondary(rs: seq<Contact>, nextId: nat, email: Option<string>, phoneNumber: Option<string>)
    requires exists c :: c in rs && SharesIdentifier(c, email, phoneNumber)
    ensures var matched := Matched(rs, email, phoneNumber);
      var related := Related(rs, matched);
      var survivor := Survivor(related, Candidate(matched));
      var cluster := Select(Merged(rs, related, survivor), IdOrLinkedTo(survivor.id));
      var st := Identify(rs, nextId, email, phoneNumber);
      && st.result == Success(survivor) && survivor in rs
      && |rs| <= |st.records| <= |rs| + 1
      && (|st.records| == |rs| + 1 <==> !HasExactPair(cluster, email, phoneNumber) && BringsNewValue(cluster, email, phoneNumber))
      && (|st.records| == |rs| + 1 ==>
            st.records[|rs|] == NewRow(nextId, email, phoneNumber, Some(survivor.id), Secondary) && st.nextId == nextId + 1)
      && (|st.records| == |rs| ==> st.nextId == nextId)
  {
    var c :| c in rs && SharesIdentifier(c, email, phoneNumber);
    var matched := Matched(rs, email, phoneNumber);
    assert c in matched;
    IdentifyResolves(rs, nextId, email, phoneNumber);
    var related := Related(rs, matched);
    var survivor := Survivor(related, Candidate(matched));
    var merged := Merged(rs, related, survivor);
    RecordAppendsAtMostOne(merged, nextId, email, phoneNumber, survivor);
    if |Primaries(related)| > 1 {
      assert Oldest(Primaries(related)) in related;
    }
  }

  /** How the rows of `rs` leave a step: each is unchanged or is a primary
      demoted to a secondary of the returned row, and at most one row is
      appended, with the counter moving along. */
  ghost predicate RelinksOnly(rs: seq<Contact>, nextId: nat, st: Step) {
    && |rs| <= |st.records| <= |rs| + 1
    && st.nextId == nextId + (|st.records| - |rs|)
    && forall i :: 0 <= i < |rs| ==>
         st.records[i] == rs[i] ||
         (rs[i].linkPrecedence == Primary && st.result.Success? && st.records[i] == Demoted(rs[i], st.result.value.id))
  }

  /** How a row leaves the call on a valid table: unchanged, or a primary
      demoted to a secondary of the returned row. Emails, phone numbers,
      ids, creation and deletion times are never rewritten, and at most
      one row is appended. */
  lemma IdentifyOnlyRelinksPrimaries(rs: seq<Contact>, nextId: nat, email: Option<string>, phoneNumber: Option<string>)
    requires ValidTable(rs, nextId)
    ensures var st := Identify(rs, nextId, email, phoneNumber);
      && |rs| <= |st.records| <= |rs| + 1
      && st.nextId == nextId + (|st.records| - |rs|)
      && forall i :: 0 <= i < |rs| ==>
           && st.records[i].email == rs[i].email && st.records[i].phoneNumber == rs[i].phoneNumber
           && (st.records[i] == rs[i] ||
               (rs[i].linkPrecedence == Primary && st.result.Success? && st.records[i] == Demoted(rs[i], st.result.value.id)))
  {
    var st := Identify(rs, nextId, email, phoneNumber);
    IdentifyRelinksOnly(rs, nextId, email, phoneNumber);
    assert RelinksOnly(rs, nextId, st);
  }

  lemma IdentifyRelinksOnly(rs: seq<Contact>, nextId: nat, email: Option<string>, phoneNumber: Option<string>)
    requires ValidTable(rs, nextId)
    ensures RelinksOnly(rs, nextId, Identify(rs, nextId, email, phoneNumber))
  {
    if LookupQuery(email, phoneNumber).Some? {
      var matched := Matched(rs, email, phoneNumber);
      if |matched| > 0 {
        IdentifyResolves(rs, nextId, email, phoneNumber);
        ResolveRelinksOnly(rs, nextId, email, phoneNumber, matched);
      } else {
        var st := Identify(rs, nextId, email, phoneNumber);
        assert st.records == rs + [NewRow(nextId, email, phoneNumber, None, Primary)];
        assert forall i :: 0 <= i < |rs| ==> st.records[i] == rs[i];
      }
    }
  }

  lemma ResolveRelinksOnly(rs: seq<Contact>, nextId: nat, email: Option<string>, phoneNumber: Option<string>,
                           matched: seq<Contact>)
    requires ValidTable(rs, nextId) && |matched| > 0
    ensures RelinksOnly(rs, nextId, Resolve(rs, nextId, email, phoneNumber, matched))
  {
    var related := Related(rs, matched);
    var survivor := Survivor(related, Candidate(matched));
    var merged := Merged(rs, related, survivor);
    var st := Resolve(rs, nextId, email, phoneNumber, matched);
    assert st == Record(merged, nextId, email, phoneNumber, survivor);
    RecordAppendsAtMostOne(merged, nextId, email, phoneNumber, survivor);
    assert st.result == Success(survivor);
    MergedOnlyDemotesPrimaries(rs, nextId, related, survivor);
    assert forall i :: 0 <= i < |rs| ==> st.records[i] == merged[i];
  }

  /** The merge step only demotes primaries, to secondaries of the survivor. */
  lemma MergedOnlyDemotesPrimaries(rs: seq<Contact>, nextId: nat, related: seq<Contact>, survivor: Contact)
    requires ValidTable(rs, nextId)
    requires forall x :: x in related ==> x in rs
    ensures var merged := Merged(rs, related, survivor);
      && |merged| == |rs|
      && forall i :: 0 <= i < |rs| ==>
           merged[i] == rs[i] || (rs[i].linkPrecedence == Primary && merged[i] == Demoted(rs[i], survivor.id))
  {
    var primaries := Primaries(related);
    if |primaries| > 1 {
      forall i | 0 <= i < |rs| && rs[i].id in Ids(primaries) ensures rs[i].linkPrecedence == Primary {
        PrimaryIdsArePrimaries(rs, nextId, related, rs[i]);
      }
    }
  }

  /** On a valid table, a row whose id is among the related primaries' ids
      is one of those primaries. */
  lemma PrimaryIdsArePrimaries(rs: seq<Contact>, nextId: nat, related: seq<Contact>, c: Contact)
    requires ValidTable(rs, nextId)
    requires forall x :: x in related ==> x in rs
    requires c in rs && c.id in Ids(Primaries(related))
    ensures c in Primaries(related) && c.linkPrecedence == Primary
  {
    var primaries := Primaries(related);
    var k :| 0 <= k < |primaries| && Ids(primaries)[k] == c.id;
    assert primaries[k] in related;
    IdsAreUnique(rs, nextId, primaries[k], c);
  }

  /** Demoting the related primaries other than the oldest, on a valid
      table, changes exactly those rows. */
  lemma DemotionTouchesOnlyOtherPrimaries(rs: seq<Contact>, nextId: nat, related: seq<Contact>)
    requires ValidTable(rs, nextId)
    requires forall x :: x in related ==> x in rs
    requires |Primaries(related)| > 0
    ensures var primaries := Primaries(related);
      var oldest := Oldest(primaries);
      var merged := DemoteAll(rs, Ids(primaries), oldest.id);
      forall i :: 0 <= i < |rs| ==>
        merged[i] == if rs[i] in related && rs[i].linkPrecedence == Primary && rs[i] != oldest
                     then Demoted(rs[i], oldest.id) else rs[i]
  {
    forall i | 0 <= i < |rs| {
      DemotionAt(rs, nextId, related, i);
    }
  }

  lemma DemotionAt(rs: seq<Contact>, nextId: nat, related: seq<Contact>, i: nat)
    requires ValidTable(rs, nextId)
    requires forall x :: x in related ==> x in rs
    requires |Primaries(related)| > 0 && i < |rs|
    ensures var primaries := Primaries(related);
      var oldest := Oldest(primaries);
      DemoteAll(rs, Ids(primaries), oldest.id)[i]
        == if rs[i] in related && rs[i].linkPrecedence == Primary && rs[i] != oldest
           then Demoted(rs[i], oldest.id) else rs[i]
  {
    var primaries := Primaries(related);
    var oldest := Oldest(primaries);
    if rs[i] in related && rs[i].linkPrecedence == Primary && rs[i] != oldest {
      var k :| 0 <= k < |primaries| && primaries[k] == rs[i];
      assert Ids(primaries)[k] == rs[i].id;
    } else if rs[i].id in Ids(primaries) {
      PrimaryIdsArePrimaries(rs, nextId, related, rs[i]);
    }
  }

  /** The merge (source lines 77-93): when the related rows hold several
      primaries, the oldest of them is returned and stays primary, every
      other one becomes a secondary linked to it, and no other row changes
      (secondaries of a demoted primary keep their old `linkedId`). Among
      the related rows exactly one primary remains. */
  lemma IdentifyMergesPrimaries(rs: seq<Contact>, nextId: nat, email: Option<string>, phoneNumber: Option<string>)
    requires ValidTable(rs, nextId)
    requires |Matched(rs, email, phoneNumber)| > 0
    requires |Primaries(Related(rs, Matched(rs, email, phoneNumber)))| > 1
    ensures var related := Related(rs, Matched(rs, email, phoneNumber));
      var oldest := Oldest(Primaries(related));
      var st := Identify(rs, nextId, email, phoneNumber);
      && oldest in related && oldest.linkPrecedence == Primary
      && (forall c :: c in related && c.linkPrecedence == Primary ==> oldest.createdAt <= c.createdAt)
      && st.result == Success(oldest)
      && (forall i :: 0 <= i < |rs| ==>
            st.records[i] == if rs[i] in related && rs[i].linkPrecedence == Primary && rs[i] != oldest
                             then Demoted(rs[i], oldest.id) else rs[i])
      && (forall i :: 0 <= i < |rs| && rs[i] in related ==>
            (st.records[i].linkPrecedence == Primary <==> rs[i] == oldest))
  {
    var matched := Matched(rs, email, phoneNumber);
    var related := Related(rs, matched);
    var oldest := Oldest(Primaries(related));
    var st := Identify(rs, nextId, email, phoneNumber);
    IdentifyResolves(rs, nextId, email, phoneNumber);
    assert st == Resolve(rs, nextId, email, phoneNumber, matched);
    ResolveMergesPrimaries(rs, nextId, email, phoneNumber, matched);
    assert oldest in related && oldest.linkPrecedence == Primary;
    OnePrimaryRemains(rs, st.records, related, oldest);
  }

  /** After the demotion, the oldest is the only primary left among the
      related rows. */
  lemma OnePrimaryRemains(rs: seq<Contact>, records: seq<Contact>, related: seq<Contact>, oldest: Contact)
    requires oldest.linkPrecedence == Primary && |rs| <= |records|
    requires forall i :: 0 <= i < |rs| ==>
      records[i] == if rs[i] in related && rs[i].linkPrecedence == Primary && rs[i] != oldest
                    then Demoted(rs[i], oldest.id) else rs[i]
    ensures forall i :: 0 <= i < |rs| && rs[i] in related ==>
      (records[i].linkPrecedence == Primary <==> rs[i] == oldest)
  {
  }

  lemma ResolveMergesPrimaries(rs: seq<Contact>, nextId: nat, email: Option<string>, phoneNumber: Option<string>,
                               matched: seq<Contact>)
    requires ValidTable(rs, nextId)
    requires |matched| > 0 && |Primaries(Related(rs, matched))| > 1
    ensures var related := Related(rs, matched);
      var oldest := Oldest(Primaries(related));
      var st := Resolve(rs, nextId, email, phoneNumber, matched);
      && st.result == Success(oldest)
      && forall i :: 0 <= i < |rs| ==>
           st.records[i] == if rs[i] in related && rs[i].linkPrecedence == Primary && rs[i] != oldest
                            then Demoted(rs[i], oldest.id) else rs[i]
  {
    var related := Related(rs, matched);
    var primaries := Primaries(related);
    var oldest := Oldest(primaries);
    var merged := DemoteAll(rs, Ids(primaries), oldest.id);
    var st := Resolve(rs, nextId, email, phoneNumber, matched);
    assert st == Record(merged, nextId, email, phoneNumber, oldest);
    RecordAppendsAtMostOne(merged, nextId, email, phoneNumber, oldest);
    assert st.result == Success(oldest);
    assert forall i :: 0 <= i < |rs| ==> st.records[i] == merged[i];
    DemotionTouchesOnlyOtherPrimaries(rs, nextId, related);
  }

  /** The other branch of the merge test (source lines 78-93): when the
      related rows hold at most one primary, the candidate is returned and
      no existing row changes; at most the one secondary is appended. */
  lemma IdentifyWithoutMerge(rs: seq<Contact>, nextId: nat, email: Option<string>, phoneNumber: Option<string>)
    requires |Matched(rs, email, phoneNumber)| > 0
    requires |Primaries(Related(rs, Matched(rs, email, phoneNumber)))| <= 1
    ensures var st := Identify(rs, nextId, email, phoneNumber);
      && st.result == Success(Candidate(Matched(rs, email, phoneNumber)))
      && |rs| <= |st.records|
      && forall i :: 0 <= i < |rs| ==> st.records[i] == rs[i]
  {
    var matched := Matched(rs, email, phoneNumber);
    IdentifyResolves(rs, nextId, email, phoneNumber);
    ResolveWithoutMerge(rs, nextId, email, phoneNumber, matched);
  }

  lemma ResolveWithoutMerge(rs: seq<Contact>, nextId: nat, email: Option<string>, phoneNumber: Option<string>,
                            matched: seq<Contact>)
    requires |matched| > 0 && |Primaries(Related(rs, matched))| <= 1
    ensures var st := Resolve(rs, nextId, email, phoneNumber, matched);
      && st.result == Success(Candidate(matched))
      && |rs| <= |st.records|
      && forall i :: 0 <= i < |rs| ==> st.records[i] == rs[i]
  {
    var candidate := Candidate(matched);
    assert Survivor(Related(rs, matched), candidate) == candidate;
    assert Merged(rs, Related(rs, matched), candidate) == rs;
    RecordAppendsAtMostOne(rs, nextId, email, phoneNumber, candidate);
  }

  /** A request missing one field never finds an exact-pair row: `undefined`
      is not `===` to a stored `null`. */
  lemma OneFieldNeverMatchesExactPair(cluster: seq<Contact>, email: Option<string>, phoneNumber: Option<string>)
    requires email.None? || phoneNumber.None?
    ensures !HasExactPair(cluster, email, phoneNumber)
  {
  }

  /** One more pass of the demotion loop. */
  lemma DemoteAllStep(rs: seq<Contact>, ids: seq<nat>, i: nat, winner: nat)
    requires i < |ids|
    ensures DemoteAll(rs, ids[..i + 1], winner)
         == if ids[i] == winner then DemoteAll(rs, ids[..i], winner)
            else UpdateLink(DemoteAll(rs, ids[..i], winner), ids[i], winner, Secondary)
  {
    assert ids[..i + 1][..i] == ids[..i];
  }

  /** Demotion changes no id. */
  lemma DemoteAllKeepsIds(rs: seq<Contact>, ids: seq<nat>, winner: nat)
    ensures Ids(DemoteAll(rs, ids, winner)) == Ids(rs)
  {
  }

  /** The demotion loop: each listed primary other than `winner` is updated
      to a secondary of `winner`, one `update` at a time. */
  method DemoteOthers(db: ContactStore, ids: seq<nat>, winner: nat)
    requires db.Valid()
    requires forall id :: id in ids ==> id in Ids(db.records)
    modifies db
    ensures db.Valid() && db.nextId == old(db.nextId)
    ensures db.records == DemoteAll(old(db.records), ids, winner)
  {
    ghost var rs := db.records;
    var i := 0;
    while i < |ids|
      invariant 0 <= i <= |ids|
      invariant db.Valid() && db.nextId == old(db.nextId)
      invariant db.records == DemoteAll(rs, ids[..i], winner)
    {
      var id := ids[i];
      DemoteAllStep(rs, ids, i, winner);
      if id != winner {
        DemoteAllKeepsIds(rs, ids[..i], winner);
        assert id in ids;
        db.Update(id, winner, Secondary);
      }
      i := i + 1;
    }
    assert ids[..i] == ids;
  }

  /** Choosing the primary and merging (source lines 49-93) against the
      store, once the lookup has found `matched`; returns the primary. */
  method ResolveMatched(db: ContactStore, email: Option<string>, phoneNumber: Option<string>,
                        matched: seq<Contact>) returns (primary: Contact)
    requires db.Valid() && |matched| > 0
    modifies db
    ensures db.Valid()
    ensures Resolve(old(db.records), old(db.nextId), email, phoneNumber, matched)
         == Step(Success(primary), db.records, db.nextId)
  {
    ghost var rs := db.records;
    primary := Candidate(matched);
    var related := db.FindMany(InClusters(primary.id, UnlinkedPrimaryIds(matched)));
    var currentPrimaries := Primaries(related);
    var currentPrimaryIds := Ids(currentPrimaries);
    if |currentPrimaryIds| > 1 {
      var oldest := Oldest(currentPrimaries);
      forall id | id in currentPrimaryIds ensures id in Ids(rs) {
        var k :| 0 <= k < |currentPrimaryIds| && currentPrimaryIds[k] == id;
        assert currentPrimaries[k] in related;
        var j :| 0 <= j < |rs| && rs[j] == currentPrimaries[k];
        assert Ids(rs)[j] == id;
      }
      DemoteOthers(db, currentPrimaryIds, oldest.id);
      primary := oldest;
    }
    assert related == Related(rs, matched);
    assert primary == Survivor(related, Candidate(matched));
    assert db.records == Merged(rs, related, primary);
    RecordNewInformation(db, email, phoneNumber, primary);
  }

  /** Re-reading the cluster and inserting a secondary for new information
      (source lines 95-129) against the store. */
  method RecordNewInformation(db: ContactStore, email: Option<string>, phoneNumber: Option<string>,
                              primary: Contact)
    requires db.Valid()
    modifies db
    ensures db.Valid()
    ensures Record(old(db.records), old(db.nextId), email, phoneNumber, primary)
         == Step(Success(primary), db.records, db.nextId)
  {
    var finalRelated := db.FindMany(IdOrLinkedTo(primary.id));
    if !HasExactPair(finalRelated, email, phoneNumber) {
      if BringsNewValue(finalRelated, email, phoneNumber) {
        var _ := db.Create(email, phoneNumber, Some(primary.id), Secondary);
      }
    }
  }

  /** `identifyContact` against the store. */
  method IdentifyContact(db: ContactStore, email: Option<string>, phoneNumber: Option<string>)
    returns (r: Result<Contact>)
    requires db.Valid()
    modifies db
    ensures db.Valid()
    ensures var st := Identify(old(db.records), old(db.nextId), email, phoneNumber);
      r == st.result && db.records == st.records && db.nextId == st.nextId
  {
    var matched: seq<Contact>;
    if Truthy(email) && Truthy(phoneNumber) {
      matched := db.FindMany(EmailOrPhone(email.value, phoneNumber.value));
    } else if Truthy(email) {
      matched := db.FindMany(EmailIs(email.value));
    } else if Truthy(phoneNumber) {
      matched := db.FindMany(PhoneIs(phoneNumber.value));
    } else {
      return Failure(MissingIdentifier);
    }
    assert matched == Matched(db.records, email, phoneNumber);

    var primary: Contact;
    if |matched| > 0 {
      primary := ResolveMatched(db, email, phoneNumber, matched);
    } else {
      primary := db.Create(email, phoneNumber, None, Primary);
    }
    r := Success(primary);
  }
}
