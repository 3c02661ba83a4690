/** Worked examples: what `Identify` and `Consolidate` give on small
    literal tables, proved as lemmas. They include the two behaviours that
    break the expected invariant (every secondary points directly at its
    cluster's primary): demoted primaries keep their secondaries, and the
    fallback candidate can be a secondary. */
module Scenarios {
  import opened Contacts
  import opened Store
  import opened Identity
  import opened Consolidation

  /** A live primary created at time `id`. */
  function PrimaryRow(id: nat, email: Option<string>, phoneNumber: Option<string>): Contact {
    NewRow(id, email, phoneNumber, None, Primary)
  }

  /** A live secondary of `linkedId` created at time `id`. */
  function SecondaryRow(id: nat, email: Option<string>, phoneNumber: Option<string>, linkedId: nat): Contact {
    NewRow(id, email, phoneNumber, Some(linkedId), Secondary)
  }

  lemma FilterOfTwo(a: Contact, b: Contact, p: Contact -> bool)
    ensures Filter([a, b], p) == (if p(a) then [a] else []) + (if p(b) then [b] else [])
  {
    assert [a, b][1..] == [b] && [b][1..] == [];
  }

  lemma FilterOfThree(a: Contact, b: Contact, c: Contact, p: Contact -> bool)
    ensures Filter([a, b, c], p) == (if p(a) then [a] else []) + (if p(b) then [b] else []) + (if p(c) then [c] else [])
  {
    assert [a, b, c][1..] == [b, c];
    FilterOfTwo(b, c, p);
  }

  lemma CollectOfTwo(a: Option<string>, b: Option<string>)
    ensures Collect([a, b]) == AddIfTruthy(AddIfTruthy([], a), b)
  {
    assert [a][..0] == [];
    assert Collect([a]) == AddIfTruthy([], a);
    assert [a, b][..1] == [a];
  }

  lemma CollectOneEach(e: string, p: string)
    requires e != "" && p != ""
    ensures Collect([Some(e), None]) == [e]
    ensures Collect([None, Some(p)]) == [p]
  {
    CollectOfTwo(Some(e), None);
    CollectOfTwo(None, Some(p));
  }

  /** The lookup on table [p1, p2] for ("a", "555"). */
  lemma LookupOfTwoPrimaries(p1: Contact, p2: Contact)
    requires p1 == PrimaryRow(1, Some("a"), None) && p2 == PrimaryRow(2, None, Some("555"))
    ensures Matched([p1, p2], Some("a"), Some("555")) == [p1, p2]
  {
    FilterOfTwo(p1, p2, (c: Contact) => Matches(EmailOrPhone("a", "555"), c));
  }

  lemma ClusterOfTwoPrimaries(p1: Contact, p2: Contact)
    requires p1 == PrimaryRow(1, Some("a"), None) && p2 == PrimaryRow(2, None, Some("555"))
    ensures Candidate([p1, p2]) == p1
    ensures UnlinkedPrimaryIds([p1, p2]) == [1, 2]
  {
    FilterOfTwo(p1, p2, (c: Contact) => c.linkPrecedence == Primary);
    assert Primaries([p1, p2]) == [p1, p2];
    FilterOfTwo(p1, p2, (c: Contact) => c.linkedId.None? && c.linkPrecedence == Primary);
  }

  lemma MergeStepOfTwoPrimaries(p1: Contact, p2: Contact)
    requires p1 == PrimaryRow(1, Some("a"), None) && p2 == PrimaryRow(2, None, Some("555"))
    ensures Related([p1, p2], [p1, p2]) == [p1, p2]
    ensures Survivor([p1, p2], p1) == p1
    ensures Merged([p1, p2], [p1, p2], p1) == [p1, SecondaryRow(2, None, Some("555"), 1)]
  {
    ClusterOfTwoPrimaries(p1, p2);
    FilterOfTwo(p1, p2, (c: Contact) => Matches(InClusters(1, [1, 2]), c));
    FilterOfTwo(p1, p2, (c: Contact) => c.linkPrecedence == Primary);
    assert Primaries([p1, p2]) == [p1, p2];
    assert Ids([p1, p2]) == [1, 2];
    var merged := DemoteAll([p1, p2], [1, 2], 1);
    assert merged[0] == p1 && merged[1] == SecondaryRow(2, None, Some("555"), 1);
  }

  lemma RecordAfterMerge(p1: Contact, s2: Contact)
    requires p1 == PrimaryRow(1, Some("a"), None) && s2 == SecondaryRow(2, None, Some("555"), 1)
    ensures Record([p1, s2], 3, Some("a"), Some("555"), p1) == Step(Success(p1), [p1, s2], 3)
  {
    FilterOfTwo(p1, s2, (c: Contact) => Matches(IdOrLinkedTo(1), c));
    assert Select([p1, s2], IdOrLinkedTo(1)) == [p1, s2];
    assert p1 in [p1, s2] && s2 in [p1, s2];
  }

  lemma ViewAfterMerge(p1: Contact, s2: Contact)
    requires p1 == PrimaryRow(1, Some("a"), None) && s2 == SecondaryRow(2, None, Some("555"), 1)
    ensures Consolidate([p1, s2], 1) == Success(ConsolidatedContact(1, ["a"], ["555"], [2]))
  {
    FilterOfTwo(p1, s2, (c: Contact) => Matches(LinkedTo(1), c));
    assert Select([p1, s2], LinkedTo(1)) == [s2];
    assert FindUnique([p1, s2], 1) == Some(p1);
    assert [p1.email] + Emails([s2]) == [Some("a"), None];
    assert [p1.phoneNumber] + PhoneNumbers([s2]) == [None, Some("555")];
    CollectOneEach("a", "555");
    assert Ids([s2]) == [2];
  }

  /** Two primaries, 1 with email "a" and 2 with phone "555": the request
      ("a", "555") demotes 2 under 1, inserts nothing (both values are
      already in the merged cluster) and returns 1, whose consolidated view
      is ["a"], ["555"], [2]. */
  lemma MergeOfTwoPrimaries()
    ensures var p1, p2 := PrimaryRow(1, Some("a"), None), PrimaryRow(2, None, Some("555"));
      var s2 := SecondaryRow(2, None, Some("555"), 1);
      && Identify([p1, p2], 3, Some("a"), Some("555")) == Step(Success(p1), [p1, s2], 3)
      && Consolidate([p1, s2], 1) == Success(ConsolidatedContact(1, ["a"], ["555"], [2]))
  {
    var p1, p2 := PrimaryRow(1, Some("a"), None), PrimaryRow(2, None, Some("555"));
    var s2 := SecondaryRow(2, None, Some("555"), 1);
    LookupOfTwoPrimaries(p1, p2);
    ClusterOfTwoPrimaries(p1, p2);
    MergeStepOfTwoPrimaries(p1, p2);
    RecordAfterMerge(p1, s2);
    assert Resolve([p1, p2], 3, Some("a"), Some("555"), [p1, p2]) == Step(Success(p1), [p1, s2], 3);
    ViewAfterMerge(p1, s2);
  }

  /** Asking again with the same pair changes nothing. */
  lemma MergeRequestRepeated()
    ensures var p1, s2 := PrimaryRow(1, Some("a"), None), SecondaryRow(2, None, Some("555"), 1);
      Identify([p1, s2], 3, Some("a"), Some("555")) == Step(Success(p1), [p1, s2], 3)
  {
    var p1, s2 := PrimaryRow(1, Some("a"), None), SecondaryRow(2, None, Some("555"), 1);
    FilterOfTwo(p1, s2, (c: Contact) => Matches(EmailOrPhone("a", "555"), c));
    assert Matched([p1, s2], Some("a"), Some("555")) == [p1, s2];
    RepeatedCluster(p1, s2);
    RecordAfterMerge(p1, s2);
  }

  lemma RepeatedCluster(p1: Contact, s2: Contact)
    requires p1 == PrimaryRow(1, Some("a"), None) && s2 == SecondaryRow(2, None, Some("555"), 1)
    ensures Candidate([p1, s2]) == p1
    ensures Related([p1, s2], [p1, s2]) == [p1, s2]
    ensures Survivor([p1, s2], p1) == p1
    ensures Merged([p1, s2], [p1, s2], p1) == [p1, s2]
  {
    FilterOfTwo(p1, s2, (c: Contact) => c.linkPrecedence == Primary);
    assert Primaries([p1, s2]) == [p1];
    FilterOfTwo(p1, s2, (c: Contact) => c.linkedId.None? && c.linkPrecedence == Primary);
    assert UnlinkedPrimaryIds([p1, s2]) == [1];
    FilterOfTwo(p1, s2, (c: Contact) => Matches(InClusters(1, [1]), c));
  }

  /** When the request matches only a secondary, the fallback candidate is
      that secondary: it comes back as the primary, and the new row is
      linked to it rather than to the cluster's primary. */
  lemma RequestMatchingOnlyASecondary()
    ensures var p1, s2 := PrimaryRow(1, Some("x"), None), SecondaryRow(2, Some("e"), None, 1);
      Identify([p1, s2], 3, Some("e"), Some("555"))
        == Step(Success(s2), [p1, s2, SecondaryRow(3, Some("e"), Some("555"), 2)], 4)
  {
    var p1, s2 := PrimaryRow(1, Some("x"), None), SecondaryRow(2, Some("e"), None, 1);
    FilterOfTwo(p1, s2, (c: Contact) => Matches(EmailOrPhone("e", "555"), c));
    assert Matched([p1, s2], Some("e"), Some("555")) == [s2];
    LoneSecondaryCluster(p1, s2);
    LoneSecondaryRecord(p1, s2);
  }

  lemma LoneSecondaryCluster(p1: Contact, s2: Contact)
    requires p1 == PrimaryRow(1, Some("x"), None) && s2 == SecondaryRow(2, Some("e"), None, 1)
    ensures Candidate([s2]) == s2
    ensures Related([p1, s2], [s2]) == [s2]
    ensures Survivor([s2], s2) == s2
    ensures Merged([p1, s2], [s2], s2) == [p1, s2]
  {
    assert [s2][1..] == [];
    assert Primaries([s2]) == [];
    assert UnlinkedPrimaryIds([s2]) == [];
    FilterOfTwo(p1, s2, (c: Contact) => Matches(InClusters(2, []), c));
  }

  lemma LoneSecondaryRecord(p1: Contact, s2: Contact)
    requires p1 == PrimaryRow(1, Some("x"), None) && s2 == SecondaryRow(2, Some("e"), None, 1)
    ensures Record([p1, s2], 3, Some("e"), Some("555"), s2)
      == Step(Success(s2), [p1, s2, SecondaryRow(3, Some("e"), Some("555"), 2)], 4)
  {
    FilterOfTwo(p1, s2, (c: Contact) => Matches(IdOrLinkedTo(2), c));
    assert Select([p1, s2], IdOrLinkedTo(2)) == [s2];
    assert !HasExactPair([s2], Some("e"), Some("555"));
    assert BringsNewValue([s2], Some("e"), Some("555"));
  }

  /** A secondary of a primary that a merge demotes keeps pointing at the
      demoted row: it is not re-linked to the survivor, so it drops out of
      the survivor's consolidated view. */
  lemma DemotedPrimaryKeepsItsSecondaries()
    ensures var p1, p2 := PrimaryRow(1, Some("a"), None), PrimaryRow(2, None, Some("555"));
      var s2, s3 := SecondaryRow(2, None, Some("555"), 1), SecondaryRow(3, Some("b"), Some("555"), 2);
      && Identify([p1, p2, s3], 4, Some("a"), Some("555")) == Step(Success(p1), [p1, s2, s3], 4)
      && Consolidate([p1, s2, s3], 1) == Success(ConsolidatedContact(1, ["a"], ["555"], [2]))
  {
    var p1, p2 := PrimaryRow(1, Some("a"), None), PrimaryRow(2, None, Some("555"));
    var s2, s3 := SecondaryRow(2, None, Some("555"), 1), SecondaryRow(3, Some("b"), Some("555"), 2);
    FilterOfThree(p1, p2, s3, (c: Contact) => Matches(EmailOrPhone("a", "555"), c));
    assert Matched([p1, p2, s3], Some("a"), Some("555")) == [p1, p2, s3];
    ThreeRowCluster(p1, p2, s3);
    ThreeRowMerge(p1, p2, s3);
    ThreeRowRecord(p1, s2, s3);
    ThreeRowView(p1, s2, s3);
  }

  lemma ThreeRowCluster(p1: Contact, p2: Contact, s3: Contact)
    requires p1 == PrimaryRow(1, Some("a"), None) && p2 == PrimaryRow(2, None, Some("555"))
    requires s3 == SecondaryRow(3, Some("b"), Some("555"), 2)
    ensures Candidate([p1, p2, s3]) == p1
    ensures Related([p1, p2, s3], [p1, p2, s3]) == [p1, p2]
  {
    FilterOfThree(p1, p2, s3, (c: Contact) => c.linkPrecedence == Primary);
    assert Primaries([p1, p2, s3]) == [p1, p2];
    FilterOfThree(p1, p2, s3, (c: Contact) => c.linkedId.None? && c.linkPrecedence == Primary);
    assert UnlinkedPrimaryIds([p1, p2, s3]) == [1, 2];
    FilterOfThree(p1, p2, s3, (c: Contact) => Matches(InClusters(1, [1, 2]), c));
  }

  lemma ThreeRowMerge(p1: Contact, p2: Contact, s3: Contact)
    requires p1 == PrimaryRow(1, Some("a"), None) && p2 == PrimaryRow(2, None, Some("555"))
    requires s3 == SecondaryRow(3, Some("b"), Some("555"), 2)
    ensures Survivor([p1, p2], p1) == p1
    ensures Merged([p1, p2, s3], [p1, p2], p1) == [p1, SecondaryRow(2, None, Some("555"), 1), s3]
  {
    MergeStepOfTwoPrimaries(p1, p2);
    FilterOfTwo(p1, p2, (c: Contact) => c.linkPrecedence == Primary);
    assert Ids(Primaries([p1, p2])) == [1, 2];
    var merged := DemoteAll([p1, p2, s3], [1, 2], 1);
    assert merged[0] == p1 && merged[1] == SecondaryRow(2, None, Some("555"), 1) && merged[2] == s3;
  }

  lemma ThreeRowRecord(p1: Contact, s2: Contact, s3: Contact)
    requires p1 == PrimaryRow(1, Some("a"), None) && s2 == SecondaryRow(2, None, Some("555"), 1)
    requires s3 == SecondaryRow(3, Some("b"), Some("555"), 2)
    ensures Record([p1, s2, s3], 4, Some("a"), Some("555"), p1) == Step(Success(p1), [p1, s2, s3], 4)
  {
    FilterOfThree(p1, s2, s3, (c: Contact) => Matches(IdOrLinkedTo(1), c));
    assert Select([p1, s2, s3], IdOrLinkedTo(1)) == [p1, s2];
    assert p1 in [p1, s2] && s2 in [p1, s2];
  }

  lemma ThreeRowView(p1: Contact, s2: Contact, s3: Contact)
    requires p1 == PrimaryRow(1, Some("a"), None) && s2 == SecondaryRow(2, None, Some("555"), 1)
    requires s3 == SecondaryRow(3, Some("b"), Some("555"), 2)
    ensures Consolidate([p1, s2, s3], 1) == Success(ConsolidatedContact(1, ["a"], ["555"], [2]))
  {
    FilterOfThree(p1, s2, s3, (c: Contact) => Matches(LinkedTo(1), c));
    assert Select([p1, s2, s3], LinkedTo(1)) == [s2];
    assert FindUnique([p1, s2, s3], 1) == Some(p1);
    assert [p1.email] + Emails([s2]) == [Some("a"), None];
    assert [p1.phoneNumber] + PhoneNumbers([s2]) == [None, Some("555")];
    CollectOneEach("a", "555");
    assert Ids([s2]) == [2];
  }

  /** Three calls from an empty table: an email alone, a phone number
      alone, then both together, which merges the two primaries. */
  lemma WalkThroughFromEmptyTable()
    ensures var p1, p2 := PrimaryRow(1, Some("a"), None), PrimaryRow(2, None, Some("555"));
      var first := Identify([], 1, Some("a"), None);
      var second := Identify(first.records, first.nextId, None, Some("555"));
      var third := Identify(second.records, second.nextId, Some("a"), Some("555"));
      && first == Step(Success(p1), [p1], 2)
      && second == Step(Success(p2), [p1, p2], 3)
      && third == Step(Success(p1), [p1, SecondaryRow(2, None, Some("555"), 1)], 3)
  {
    FirstCallOnEmptyTable();
    SecondCallWithNewPhone();
    MergeOfTwoPrimaries();
  }

  lemma FirstCallOnEmptyTable()
    ensures Identify([], 1, Some("a"), None) == Step(Success(PrimaryRow(1, Some("a"), None)), [PrimaryRow(1, Some("a"), None)], 2)
  {
    assert Matched([], Some("a"), None) == [];
  }

  lemma SecondCallWithNewPhone()
    ensures var p1, p2 := PrimaryRow(1, Some("a"), None), PrimaryRow(2, None, Some("555"));
      Identify([p1], 2, None, Some("555")) == Step(Success(p2), [p1, p2], 3)
  {
    var p1 := PrimaryRow(1, Some("a"), None);
    assert [p1][1..] == [];
    assert Matched([p1], None, Some("555")) == [];
  }
}
