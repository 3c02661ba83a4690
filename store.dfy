/** The in-memory stand-in for the Prisma `contact` table: the `where`
    clauses the service issues, `findMany`, `findUnique`, `create` and
    `update`. */
module Store {
  import opened Contacts

  /** The `where` clauses of the service's `findMany` calls. Every one of
      them also demands `deletedAt: null`. */
  datatype Where =
    | EmailOrPhone(email: string, phoneNumber: string)  // OR: [{ email }, { phoneNumber }]
    | EmailIs(email: string)                            // { email }
    | PhoneIs(phoneNumber: string)                      // { phoneNumber }
    | InClusters(id: nat, primaryIds: seq<nat>)         // OR: [{ id }, { linkedId: id }, { id: { in: primaryIds } }]
    | IdOrLinkedTo(id: nat)                             // OR: [{ id }, { linkedId: id }]
    | LinkedTo(id: nat)                                 // { linkedId: id }

  predicate Matches(w: Where, c: Contact) {
    IsLive(c) &&
    match w
    case EmailOrPhone(e, p) => c.email == Some(e) || c.phoneNumber == Some(p)
    case EmailIs(e) => c.email == Some(e)
    case PhoneIs(p) => c.phoneNumber == Some(p)
    case InClusters(id, ids) => c.id == id || c.linkedId == Some(id) || c.id in ids
    case IdOrLinkedTo(id) => c.id == id || c.linkedId == Some(id)
    case LinkedTo(id) => c.linkedId == Some(id)
  }

  /** `findMany({ where })`: the matching rows, in the order the table
      holds them. */
  function Select(rs: seq<Contact>, w: Where): seq<Contact> {
    Filter(rs, (c: Contact) => Matches(w, c))
  }

  /** A table as the store keeps it: rows in insertion order with strictly
      increasing ids and creation times, all below the next id to hand out. */
  ghost predicate ValidTable(rs: seq<Contact>, nextId: nat) {
    Ordered(rs) && forall c :: c in rs ==> c.id < nextId && c.createdAt < nextId
  }

  /** The link columns agree: a row is primary exactly when it is linked to
      nothing. Each of the three writes `identifyContact` issues keeps this. */
  ghost predicate Coherent(rs: seq<Contact>) {
    forall c :: c in rs ==> (c.linkPrecedence == Primary <==> c.linkedId.None?)
  }

  /** `findMany({ where, orderBy: { createdAt: 'asc' } })` needs no sort:
      on a valid table every query already comes back oldest first. */
  lemma SelectIsOldestFirst(rs: seq<Contact>, nextId: nat, w: Where)
    requires ValidTable(rs, nextId)
    ensures forall i, j :: 0 <= i < j < |Select(rs, w)| ==> Select(rs, w)[i].createdAt < Select(rs, w)[j].createdAt
  {
    FilterKeepsOrder(rs, (c: Contact) => Matches(w, c));
  }

  /** On a valid table the id determines the row. */
  lemma IdsAreUnique(rs: seq<Contact>, nextId: nat, a: Contact, b: Contact)
    requires ValidTable(rs, nextId)
    requires a in rs && b in rs && a.id == b.id
    ensures a == b
  {
    var i :| 0 <= i < |rs| && rs[i] == a;
    var j :| 0 <= j < |rs| && rs[j] == b;
    assert !(i < j) && !(j < i);
  }

  /** `findUnique({ where: { id } })`: the row with that id, deleted or not. */
  function FindUnique(rs: seq<Contact>, id: nat): (r: Option<Contact>)
    ensures r.Some? <==> exists c :: c in rs && c.id == id
    ensures r.Some? ==> r.value in rs && r.value.id == id
  {
    if rs == [] then None
    else if rs[0].id == id then Some(rs[0])
    else FindUnique(rs[1..], id)
  }

  /** The row `create` inserts: the next id, created now, not deleted. */
  function NewRow(id: nat, email: Option<string>, phoneNumber: Option<string>,
                  linkedId: Option<nat>, precedence: Precedence): Contact {
    Contact(id, email, phoneNumber, linkedId, precedence, id, None)
  }

  /** `update({ where: { id }, data: { linkedId, linkPrecedence } })`: the
      rows with that id get the new link columns, their other columns stay,
      and every other row is untouched. */
  function UpdateLink(rs: seq<Contact>, id: nat, linkedId: nat, precedence: Precedence): (r: seq<Contact>)
    ensures |r| == |rs|
    ensures forall i :: 0 <= i < |rs| ==>
      && r[i].id == rs[i].id && r[i].email == rs[i].email && r[i].phoneNumber == rs[i].phoneNumber
      && r[i].createdAt == rs[i].createdAt && r[i].deletedAt == rs[i].deletedAt
    ensures forall i :: 0 <= i < |rs| && rs[i].id == id ==>
      r[i].linkedId == Some(linkedId) && r[i].linkPrecedence == precedence
    ensures forall i :: 0 <= i < |rs| && rs[i].id != id ==> r[i] == rs[i]
  {
    seq(|rs|, i requires 0 <= i < |rs| =>
      if rs[i].id == id then rs[i].(linkedId := Some(linkedId), linkPrecedence := precedence) else rs[i])
  }

  /** Issuing the same `update` twice leaves the table as issuing it once. */
  lemma UpdateLinkIsIdempotent(rs: seq<Contact>, id: nat, linkedId: nat, precedence: Precedence)
    ensures UpdateLink(UpdateLink(rs, id, linkedId, precedence), id, linkedId, precedence)
         == UpdateLink(rs, id, linkedId, precedence)
  {
  }

  /** Appending a row created now keeps a valid table valid. */
  lemma AppendKeepsTableValid(rs: seq<Contact>, nextId: nat, c: Contact)
    requires ValidTable(rs, nextId)
    requires c.id == nextId && c.createdAt == nextId
    ensures ValidTable(rs + [c], nextId + 1)
  {
    var r := rs + [c];
    forall i, j | 0 <= i < j < |r| ensures r[i].id < r[j].id && r[i].createdAt < r[j].createdAt {
      assert r[i] == rs[i];
      if j < |rs| {
        assert r[j] == rs[j];
      } else {
        assert rs[i] in rs;
      }
    }
  }

  /** Rewriting link columns keeps a valid table valid. */
  lemma UpdateLinkKeepsTableValid(rs: seq<Contact>, nextId: nat, id: nat, linkedId: nat, precedence: Precedence)
    requires ValidTable(rs, nextId)
    ensures ValidTable(UpdateLink(rs, id, linkedId, precedence), nextId)
  {
    var r := UpdateLink(rs, id, linkedId, precedence);
    forall x | x in r ensures x.id < nextId && x.createdAt < nextId {
      var i :| 0 <= i < |r| && r[i] == x;
      assert rs[i] in rs;
    }
  }

  /** The Prisma client, reduced to the `contact` table the service uses. */
  class ContactStore {
    var records: seq<Contact>
    var nextId: nat

    ghost predicate Valid()
      reads this
    {
      ValidTable(records, nextId)
    }

    /** An empty table; autoincrement ids start at 1. */
    constructor ()
      ensures Valid() && records == [] && nextId == 1
    {
      records := [];
      nextId := 1;
    }

    function FindMany(w: Where): seq<Contact>
      reads this
    {
      Select(records, w)
    }

    function FindById(id: nat): Option<Contact>
      reads this
    {
      FindUnique(records, id)
    }

    /** `create({ data })`: appends one row and returns it. */
    method Create(email: Option<string>, phoneNumber: Option<string>,
                  linkedId: Option<nat>, precedence: Precedence) returns (c: Contact)
      requires Valid()
      modifies this
      ensures Valid()
      ensures c == NewRow(old(nextId), email, phoneNumber, linkedId, precedence)
      ensures records == old(records) + [c] && nextId == old(nextId) + 1
    {
      c := NewRow(nextId, email, phoneNumber, linkedId, precedence);
      AppendKeepsTableValid(records, nextId, c);
      records := records + [c];
      nextId := nextId + 1;
    }

    /** `update({ where: { id }, data })` on the link columns. Prisma throws
        when no row has the id; the service only passes ids it has just read. */
    method Update(id: nat, linkedId: nat, precedence: Precedence)
      requires Valid()
      requires id in Ids(records)
      modifies this
      ensures Valid()
      ensures records == UpdateLink(old(records), id, linkedId, precedence)
      ensures nextId == old(nextId)
    {
      var r := UpdateLink(records, id, linkedId, precedence);
      UpdateLinkKeepsTableValid(records, nextId, id, linkedId, precedence);
      records := r;
    }
  }
}
