/** Repeating a request. On a valid table whose link columns agree (a row
    is primary exactly when it is linked to nothing), a second identical
    call to `identifyContact` returns the same contact and writes nothing:
    the merge has left the candidate as the only primary the request can
    reach, and the record step has already stored what was new. */
module Idempotence {
  import opened Contacts
  import opened Store
  import opened Identity

  /** On a valid table the creation time determines the row. */
  lemma CreatedAtIsUnique(rs: seq<Contact>, nextId: nat, a: Contact, b: Contact)
    requires ValidTable(rs, nextId)
    requires a in rs && b in rs && a.createdAt == b.createdAt
    ensures a == b
  {
    var i :| 0 <= i < |rs| && rs[i] == a;
    var j :| 0 <= j < |rs| && rs[j] == b;
    assert !(i < j) && !(j < i);
  }

  /** The demotion loop keeps the link columns in agreement. */
  lemma DemoteAllKeepsCoherent(rs: seq<Contact>, ids: seq<nat>, winner: nat)
    requires Coherent(rs)
    ensures Coherent(DemoteAll(rs, ids, winner))
  {
    var r := DemoteAll(rs, ids, winner);
    forall x | x in r ensures x.linkPrecedence == Primary <==> x.linkedId.None? {
      var i :| 0 <= i < |r| && r[i] == x;
      assert rs[i] in rs;
    }
  }

  /** Every call keeps the link columns in agreement: a new primary is
      linked to nothing, a new or demoted secondary is linked to a row. */
  lemma IdentifyKeepsCoherent(rs: seq<Contact>, nextId: nat, email: Option<string>, phoneNumber: Option<string>)
    requires Coherent(rs)
    ensures Coherent(Identify(rs, nextId, email, phoneNumber).records)
  {
    if LookupQuery(email, phoneNumber).Some? && |Matched(rs, email, phoneNumber)| > 0 {
      ResolveKeepsCoherent(rs, nextId, email, phoneNumber, Matched(rs, email, phoneNumber));
    }
  }

  lemma ResolveKeepsCoherent(rs: seq<Contact>, nextId: nat, email: Option<string>, phoneNumber: Option<string>,
                             matched: seq<Contact>)
    requires Coherent(rs) && |matched| > 0
    ensures Coherent(Resolve(rs, nextId, email, phoneNumber, matched).records)
  {
    var related := Related(rs, matched);
    var survivor := Survivor(related, Candidate(matched));
    DemoteAllKeepsCoherent(rs, Ids(Primaries(related)), survivor.id);
    var merged := Merged(rs, related, survivor);
    assert Resolve(rs, nextId, email, phoneNumber, matched) == Record(merged, nextId, email, phoneNumber, survivor);
  }

  /** On a valid coherent table a related primary is the candidate itself
      or a matched primary: a row linked to the candidate is a secondary. */
  lemma RelatedPrimaryIsMatched(rs: seq<Contact>, nextId: nat, email: Option<string>, phoneNumber: Option<string>,
                                c: Contact)
    requires ValidTable(rs, nextId) && Coherent(rs)
    requires |Matched(rs, email, phoneNumber)| > 0
    requires c in Related(rs, Matched(rs, email, phoneNumber)) && c.linkPrecedence == Primary
    ensures c == Candidate(Matched(rs, email, phoneNumber)) || c in Matched(rs, email, phoneNumber)
  {
    var matched := Matched(rs, email, phoneNumber);
    var candidate := Candidate(matched);
    RelatedRows(rs, matched);
    if c.id == candidate.id {
      IdsAreUnique(rs, nextId, c, candidate);
    } else if m :| m in matched && m.linkedId.None? && m.linkPrecedence == Primary && m.id == c.id {
      IdsAreUnique(rs, nextId, c, m);
    }
  }

  /** On a valid coherent table the merge settles on the candidate: every
      related primary is the candidate or a matched primary created after
      it. */
  lemma SurvivorIsCandidate(rs: seq<Contact>, nextId: nat, email: Option<string>, phoneNumber: Option<string>)
    requires ValidTable(rs, nextId) && Coherent(rs)
    requires |Matched(rs, email, phoneNumber)| > 0
    ensures var matched := Matched(rs, email, phoneNumber);
      Survivor(Related(rs, matched), Candidate(matched)) == Candidate(matched)
  {
    var matched := Matched(rs, email, phoneNumber);
    var candidate := Candidate(matched);
    var related := Related(rs, matched);
    var primaries := Primaries(related);
    if |primaries| > 1 {
      var oldest := Oldest(primaries);
      RelatedPrimaryIsMatched(rs, nextId, email, phoneNumber, oldest);
      assert candidate.linkPrecedence == Primary && candidate.createdAt <= oldest.createdAt;
      RelatedRows(rs, matched);
      assert candidate in primaries;
      CreatedAtIsUnique(rs, nextId, oldest, candidate);
    }
  }

  /** The merge changes nothing when every related primary has the
      survivor's id. */
  lemma MergeIsNoOpForLonePrimary(rs: seq<Contact>, related: seq<Contact>, survivor: Contact)
    requires forall c :: c in related && c.linkPrecedence == Primary ==> c.id == survivor.id
    ensures Merged(rs, related, survivor) == rs
  {
    var primaries := Primaries(related);
    if |primaries| > 1 {
      var r := DemoteAll(rs, Ids(primaries), survivor.id);
      forall i | 0 <= i < |rs| ensures r[i] == rs[i] {
        if rs[i].id in Ids(primaries) {
          var k :| 0 <= k < |primaries| && Ids(primaries)[k] == rs[i].id;
          assert primaries[k] in primaries;
        }
      }
    }
  }

  /** When the survivor's cluster already holds a row carrying the
      request's email and phone number, the record step writes nothing. */
  lemma RecordWritesNothingWhenCarried(rs: seq<Contact>, nextId: nat, email: Option<string>, phoneNumber: Option<string>,
                                       survivor: Contact, carrier: Contact)
    requires carrier in rs && Matches(IdOrLinkedTo(survivor.id), carrier)
    requires carrier.email == email && carrier.phoneNumber == phoneNumber
    ensures Record(rs, nextId, email, phoneNumber, survivor) == Step(Success(survivor), rs, nextId)
  {
    var cluster := Select(rs, IdOrLinkedTo(survivor.id));
    assert carrier in cluster;
    assert !BringsNewValue(cluster, email, phoneNumber);
  }

  /** The record step, repeated on its own output, writes nothing more. */
  lemma RecordIsIdempotent(rs: seq<Contact>, nextId: nat, email: Option<string>, phoneNumber: Option<string>,
                           survivor: Contact)
    ensures var st := Record(rs, nextId, email, phoneNumber, survivor);
      Record(st.records, st.nextId, email, phoneNumber, survivor) == st
  {
    var cluster := Select(rs, IdOrLinkedTo(survivor.id));
    if !HasExactPair(cluster, email, phoneNumber) && BringsNewValue(cluster, email, phoneNumber) {
      var added := NewRow(nextId, email, phoneNumber, Some(survivor.id), Secondary);
      RecordWritesNothingWhenCarried(rs + [added], nextId + 1, email, phoneNumber, survivor, added);
    }
  }

  /** A matched primary on a coherent table is linked to nothing, so the
      second lookup gathers it, and the candidate with it. */
  lemma MatchedPrimaryIsRelated(rs: seq<Contact>, nextId: nat, email: Option<string>, phoneNumber: Option<string>,
                                c: Contact)
    requires Coherent(rs)
    requires c in rs && SharesIdentifier(c, email, phoneNumber) && c.linkPrecedence == Primary
    ensures |Matched(rs, email, phoneNumber)| > 0
    ensures var matched := Matched(rs, email, phoneNumber);
      var primaries := Primaries(Related(rs, matched));
      c in primaries && Candidate(matched) in primaries
  {
    var matched := Matched(rs, email, phoneNumber);
    assert c in matched;
    RelatedRows(rs, matched);
    assert c in Related(rs, matched);
    assert Candidate(matched) in Related(rs, matched);
  }

  /** Two members of a sequence of at most one element are the same. */
  lemma AtMostOne(s: seq<Contact>, a: Contact, b: Contact)
    requires |s| <= 1 && a in s && b in s
    ensures a == b
  {
  }

  /** The rows of `rs` as the merge leaves them: a merged row that is still
      a primary and shares an identifier with the request is the candidate. */
  lemma MergedPrimaryIsCandidate(rs: seq<Contact>, nextId: nat, email: Option<string>, phoneNumber: Option<string>,
                                 i: nat)
    requires ValidTable(rs, nextId) && Coherent(rs)
    requires |Matched(rs, email, phoneNumber)| > 0 && i < |rs|
    ensures var matched := Matched(rs, email, phoneNumber);
      var candidate := Candidate(matched);
      var merged := Merged(rs, Related(rs, matched), candidate);
      && |merged| == |rs|
      && (merged[i].linkPrecedence == Primary && SharesIdentifier(merged[i], email, phoneNumber) ==> merged[i] == candidate)
  {
    var matched := Matched(rs, email, phoneNumber);
    var candidate := Candidate(matched);
    var related := Related(rs, matched);
    var merged := Merged(rs, related, candidate);
    MergedOnlyDemotesPrimaries(rs, nextId, related, candidate);
    if merged[i].linkPrecedence == Primary && SharesIdentifier(merged[i], email, phoneNumber) {
      assert merged[i] == rs[i];
      MatchedPrimaryIsRelated(rs, nextId, email, phoneNumber, rs[i]);
      if |Primaries(related)| > 1 {
        SurvivorIsCandidate(rs, nextId, email, phoneNumber);
        DemotionAt(rs, nextId, related, i);
      } else {
        AtMostOne(Primaries(related), rs[i], candidate);
      }
    }
  }

  /** After a call that matched, the candidate is the only primary among
      the rows sharing an identifier with the request. */
  lemma OnlyCandidateStaysMatchedPrimary(rs: seq<Contact>, nextId: nat, email: Option<string>, phoneNumber: Option<string>)
    requires ValidTable(rs, nextId) && Coherent(rs)
    requires |Matched(rs, email, phoneNumber)| > 0
    ensures var matched := Matched(rs, email, phoneNumber);
      var st := Resolve(rs, nextId, email, phoneNumber, matched);
      forall c :: c in st.records && SharesIdentifier(c, email, phoneNumber) && c.linkPrecedence == Primary ==>
        c == Candidate(matched)
  {
    var matched := Matched(rs, email, phoneNumber);
    var candidate := Candidate(matched);
    var merged := Merged(rs, Related(rs, matched), candidate);
    var st := Resolve(rs, nextId, email, phoneNumber, matched);
    SurvivorIsCandidate(rs, nextId, email, phoneNumber);
    assert st == Record(merged, nextId, email, phoneNumber, candidate);
    RecordAppendsAtMostOne(merged, nextId, email, phoneNumber, candidate);
    forall c | c in st.records && SharesIdentifier(c, email, phoneNumber) && c.linkPrecedence == Primary
      ensures c == candidate
    {
      var i :| 0 <= i < |st.records| && st.records[i] == c;
      MergedPrimaryIsCandidate(rs, nextId, email, phoneNumber, if i < |rs| then i else 0);
    }
  }

  /** When the candidate is a secondary, no row the request reaches after
      the call is older than it. */
  lemma SecondaryCandidateStaysOldestMatch(rs: seq<Contact>, nextId: nat, email: Option<string>, phoneNumber: Option<string>)
    requires ValidTable(rs, nextId)
    requires |Matched(rs, email, phoneNumber)| > 0
    requires Candidate(Matched(rs, email, phoneNumber)).linkPrecedence == Secondary
    ensures var matched := Matched(rs, email, phoneNumber);
      var st := Resolve(rs, nextId, email, phoneNumber, matched);
      forall c :: c in st.records && SharesIdentifier(c, email, phoneNumber) ==>
        Candidate(matched).createdAt <= c.createdAt
  {
    var matched := Matched(rs, email, phoneNumber);
    var st := Resolve(rs, nextId, email, phoneNumber, matched);
    forall c | c in st.records && SharesIdentifier(c, email, phoneNumber)
      ensures Candidate(matched).createdAt <= c.createdAt
    {
      var i :| 0 <= i < |st.records| && st.records[i] == c;
      ReachedRowNotOlder(rs, nextId, email, phoneNumber, i);
    }
  }

  lemma ReachedRowNotOlder(rs: seq<Contact>, nextId: nat, email: Option<string>, phoneNumber: Option<string>, i: nat)
    requires ValidTable(rs, nextId)
    requires |Matched(rs, email, phoneNumber)| > 0
    requires Candidate(Matched(rs, email, phoneNumber)).linkPrecedence == Secondary
    ensures var matched := Matched(rs, email, phoneNumber);
      var st := Resolve(rs, nextId, email, phoneNumber, matched);
      i < |st.records| && SharesIdentifier(st.records[i], email, phoneNumber) ==>
        Candidate(matched).createdAt <= st.records[i].createdAt
  {
    var matched := Matched(rs, email, phoneNumber);
    var st := Resolve(rs, nextId, email, phoneNumber, matched);
    if i < |rs| {
      ResolveKeepsColumns(rs, nextId, email, phoneNumber, matched, i);
      if SharesIdentifier(st.records[i], email, phoneNumber) {
        assert SharesIdentifier(rs[i], email, phoneNumber);
        assert rs[i] in matched;
      }
    } else {
      LastRowIsNewest(rs, nextId, email, phoneNumber, matched);
    }
  }

  /** The merge-and-record step rewrites only link columns of the rows
      it was given. */
  lemma ResolveKeepsColumns(rs: seq<Contact>, nextId: nat, email: Option<string>, phoneNumber: Option<string>,
                            matched: seq<Contact>, i: nat)
    requires ValidTable(rs, nextId) && |matched| > 0 && i < |rs|
    ensures var st := Resolve(rs, nextId, email, phoneNumber, matched);
      && i < |st.records|
      && st.records[i].email == rs[i].email && st.records[i].phoneNumber == rs[i].phoneNumber
      && st.records[i].createdAt == rs[i].createdAt && st.records[i].deletedAt == rs[i].deletedAt
  {
    ResolveRelinksOnly(rs, nextId, email, phoneNumber, matched);
  }

  /** A row the call appends is created after every row of `rs`. */
  lemma LastRowIsNewest(rs: seq<Contact>, nextId: nat, email: Option<string>, phoneNumber: Option<string>,
                        matched: seq<Contact>)
    requires ValidTable(rs, nextId) && |matched| > 0
    requires forall m :: m in matched ==> m in rs
    ensures var st := Resolve(rs, nextId, email, phoneNumber, matched);
      |st.records| == |rs| + 1 ==> Candidate(matched).createdAt < st.records[|rs|].createdAt
  {
    var related := Related(rs, matched);
    var survivor := Survivor(related, Candidate(matched));
    var merged := Merged(rs, related, survivor);
    MergedOnlyDemotesPrimaries(rs, nextId, related, survivor);
    assert Resolve(rs, nextId, email, phoneNumber, matched) == Record(merged, nextId, email, phoneNumber, survivor);
    RecordAppendsAtMostOne(merged, nextId, email, phoneNumber, survivor);
  }

  /** After a call that matched, the candidate's row is still in the table,
      unchanged, and is what the call returned. */
  lemma CandidateRowKept(rs: seq<Contact>, nextId: nat, email: Option<string>, phoneNumber: Option<string>)
    requires ValidTable(rs, nextId) && Coherent(rs)
    requires |Matched(rs, email, phoneNumber)| > 0
    ensures var matched := Matched(rs, email, phoneNumber);
      var st := Resolve(rs, nextId, email, phoneNumber, matched);
      && st.result == Success(Candidate(matched))
      && Candidate(matched) in st.records
  {
    var matched := Matched(rs, email, phoneNumber);
    var candidate := Candidate(matched);
    var related := Related(rs, matched);
    var merged := Merged(rs, related, candidate);
    var st := Resolve(rs, nextId, email, phoneNumber, matched);
    SurvivorIsCandidate(rs, nextId, email, phoneNumber);
    assert st == Record(merged, nextId, email, phoneNumber, candidate);
    RecordAppendsAtMostOne(merged, nextId, email, phoneNumber, candidate);
    MergedOnlyDemotesPrimaries(rs, nextId, related, candidate);
    var k :| 0 <= k < |rs| && rs[k] == candidate;
    if |Primaries(related)| > 1 {
      DemotionAt(rs, nextId, related, k);
    }
    assert st.records[k] == candidate;
  }

  /** A call on a valid coherent table where `kept` is the only primary
      the request reaches, and, when `kept` is a secondary, no reached row
      is older than it, settles on `kept` without merging. */
  lemma SettlesOnKeptRow(rs: seq<Contact>, nextId: nat, email: Option<string>, phoneNumber: Option<string>,
                         kept: Contact)
    requires ValidTable(rs, nextId) && Coherent(rs)
    requires kept in rs && SharesIdentifier(kept, email, phoneNumber)
    requires forall c :: c in rs && SharesIdentifier(c, email, phoneNumber) && c.linkPrecedence == Primary ==> c == kept
    requires kept.linkPrecedence == Secondary ==>
      forall c :: c in rs && SharesIdentifier(c, email, phoneNumber) ==> kept.createdAt <= c.createdAt
    ensures Identify(rs, nextId, email, phoneNumber) == Record(rs, nextId, email, phoneNumber, kept)
  {
    var matched := Matched(rs, email, phoneNumber);
    assert kept in matched;
    IdentifyResolves(rs, nextId, email, phoneNumber);
    var candidate := Candidate(matched);
    if kept.linkPrecedence == Secondary {
      CreatedAtIsUnique(rs, nextId, candidate, kept);
    }
    assert candidate == kept;
    SurvivorIsCandidate(rs, nextId, email, phoneNumber);
    var related := Related(rs, matched);
    forall c | c in related && c.linkPrecedence == Primary ensures c.id == kept.id {
      RelatedPrimaryIsMatched(rs, nextId, email, phoneNumber, c);
    }
    MergeIsNoOpForLonePrimary(rs, related, kept);
  }

  /** The second of two identical calls after a first that matched. */
  lemma ResolveThenRepeat(rs: seq<Contact>, nextId: nat, email: Option<string>, phoneNumber: Option<string>)
    requires ValidTable(rs, nextId) && Coherent(rs)
    requires |Matched(rs, email, phoneNumber)| > 0
    ensures var st := Resolve(rs, nextId, email, phoneNumber, Matched(rs, email, phoneNumber));
      Identify(st.records, st.nextId, email, phoneNumber) == st
  {
    var matched := Matched(rs, email, phoneNumber);
    var candidate := Candidate(matched);
    var merged := Merged(rs, Related(rs, matched), candidate);
    var st := Resolve(rs, nextId, email, phoneNumber, matched);
    SurvivorIsCandidate(rs, nextId, email, phoneNumber);
    assert st == Record(merged, nextId, email, phoneNumber, candidate);
    ResolveKeepsTableValid(rs, nextId, email, phoneNumber, matched);
    ResolveKeepsCoherent(rs, nextId, email, phoneNumber, matched);
    CandidateRowKept(rs, nextId, email, phoneNumber);
    OnlyCandidateStaysMatchedPrimary(rs, nextId, email, phoneNumber);
    if candidate.linkPrecedence == Secondary {
      SecondaryCandidateStaysOldestMatch(rs, nextId, email, phoneNumber);
    }
    SettlesOnKeptRow(st.records, st.nextId, email, phoneNumber, candidate);
    RecordIsIdempotent(merged, nextId, email, phoneNumber, candidate);
  }

  /** The second of two identical calls after a first that created a
      new primary. */
  lemma CreateThenRepeat(rs: seq<Contact>, nextId: nat, email: Option<string>, phoneNumber: Option<string>)
    requires ValidTable(rs, nextId) && Coherent(rs)
    requires Truthy(email) || Truthy(phoneNumber)
    requires forall c :: c in rs ==> !SharesIdentifier(c, email, phoneNumber)
    ensures var created := NewRow(nextId, email, phoneNumber, None, Primary);
      Identify(rs + [created], nextId + 1, email, phoneNumber) == Step(Success(created), rs + [created], nextId + 1)
  {
    var created := NewRow(nextId, email, phoneNumber, None, Primary);
    var records := rs + [created];
    AppendKeepsTableValid(rs, nextId, created);
    SettlesOnKeptRow(records, nextId + 1, email, phoneNumber, created);
    RecordWritesNothingWhenCarried(records, nextId + 1, email, phoneNumber, created, created);
  }

  /** Submitting the same request twice: on a valid coherent table the
      second call returns what the first returned and leaves the table and
      the id counter as the first left them. */
  lemma IdentifyIsIdempotent(rs: seq<Contact>, nextId: nat, email: Option<string>, phoneNumber: Option<string>)
    requires ValidTable(rs, nextId) && Coherent(rs)
    ensures var st := Identify(rs, nextId, email, phoneNumber);
      Identify(st.records, st.nextId, email, phoneNumber) == st
  {
    if LookupQuery(email, phoneNumber).Some? {
      var matched := Matched(rs, email, phoneNumber);
      if |matched| == 0 {
        assert forall c :: c in rs ==> !SharesIdentifier(c, email, phoneNumber);
        CreateThenRepeat(rs, nextId, email, phoneNumber);
      } else {
        IdentifyResolves(rs, nextId, email, phoneNumber);
        ResolveThenRepeat(rs, nextId, email, phoneNumber);
      }
    }
  }
}
