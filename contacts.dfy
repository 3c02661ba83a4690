/** The `Contact` record of the identity service and the small list
    operations (`filter`, `map`, sort-then-take-first) the service applies
    to lists of records. */
module Contacts {

  datatype Option<+T> = None | Some(value: T)

  /** `linkPrecedence`: either "primary" or "secondary". */
  datatype Precedence = Primary | Secondary

  /** One row of the `Contact` table. A NULL column is `None`; timestamps
      are natural numbers from the store's insertion counter, and
      `updatedAt` is not modelled. */
  datatype Contact = Contact(
    id: nat,
    email: Option<string>,
    phoneNumber: Option<string>,
    linkedId: Option<nat>,
    linkPrecedence: Precedence,
    createdAt: nat,
    deletedAt: Option<nat>)

  /** Errors the service throws. */
  datatype Error =
    | MissingIdentifier   // "Either email or phoneNumber must be provided."
    | ContactNotFound     // "Primary contact not found."

  datatype Result<+T> = Success(value: T) | Failure(error: Error)

  /** JavaScript truthiness of an optional string: a missing value and the
      empty string are both false. */
  predicate Truthy(v: Option<string>) {
    v.Some? && v.value != ""
  }

  /** `stored === requested`, where a missing stored column is `null` and a
      missing request field is `undefined`: two missing values are never
      equal, two present strings are equal when they are the same string. */
  predicate StrictEquals(stored: Option<string>, requested: Option<string>) {
    stored.Some? && requested.Some? && stored.value == requested.value
  }

  /** `deletedAt: null` */
  predicate IsLive(c: Contact) {
    c.deletedAt.None?
  }

  /** Ids strictly increase along the sequence, and so do creation times:
      the order in which a store hands out rows. */
  ghost predicate Ordered(cs: seq<Contact>) {
    forall i, j :: 0 <= i < j < |cs| ==> cs[i].id < cs[j].id && cs[i].createdAt < cs[j].createdAt
  }

  /** `list.filter(p)` */
  function Filter(s: seq<Contact>, p: Contact -> bool): (r: seq<Contact>)
    ensures |r| <= |s|
    ensures forall x :: x in r <==> x in s && p(x)
  {
    if s == [] then []
    else (if p(s[0]) then [s[0]] else []) + Filter(s[1..], p)
  }

  /** Filtering keeps the relative order of what it keeps. */
  lemma {:induction false} FilterKeepsOrder(s: seq<Contact>, p: Contact -> bool)
    requires Ordered(s)
    ensures Ordered(Filter(s, p))
  {
    if s != [] {
      OrderedTail(s);
      FilterKeepsOrder(s[1..], p);
      if p(s[0]) {
        OrderedCons(s[0], Filter(s[1..], p));
      }
    }
  }

  lemma OrderedTail(s: seq<Contact>)
    requires Ordered(s) && |s| > 0
    ensures Ordered(s[1..])
    ensures forall x :: x in s[1..] ==> s[0].id < x.id && s[0].createdAt < x.createdAt
  {
    forall x | x in s[1..] ensures s[0].id < x.id && s[0].createdAt < x.createdAt {
      var k :| 0 <= k < |s[1..]| && s[1..][k] == x;
      assert s[k + 1] == x;
    }
  }

  lemma OrderedCons(a: Contact, t: seq<Contact>)
    requires Ordered(t)
    requires forall x :: x in t ==> a.id < x.id && a.createdAt < x.createdAt
    ensures Ordered([a] + t)
  {
    var r := [a] + t;
    forall i, j | 0 <= i < j < |r| ensures r[i].id < r[j].id && r[i].createdAt < r[j].createdAt {
      assert r[j] == t[j - 1];
      if i > 0 {
        assert r[i] == t[i - 1];
      }
    }
  }

  /** `list.map(c => c.id)` */
  function Ids(cs: seq<Contact>): seq<nat> {
    seq(|cs|, i requires 0 <= i < |cs| => cs[i].id)
  }

  /** `list.filter(c => c.linkPrecedence === 'primary')` */
  function Primaries(cs: seq<Contact>): seq<Contact> {
    Filter(cs, (c: Contact) => c.linkPrecedence == Primary)
  }

  /** `list.sort((a, b) => a.createdAt - b.createdAt)[0]`: a record of the
      list created no later than any other. */
  function Oldest(cs: seq<Contact>): (r: Contact)
    requires |cs| > 0
    ensures r in cs
    ensures forall c :: c in cs ==> r.createdAt <= c.createdAt
  {
    if |cs| == 1 then cs[0]
    else
      var o := Oldest(cs[1..]);
      if cs[0].createdAt <= o.createdAt then cs[0] else o
  }
}
