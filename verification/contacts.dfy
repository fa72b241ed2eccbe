/** The contact-submission backend: `create`, `list` and `updateStatus` over
    the `contacts` table. Neither mutation checks the caller's role, and
    `create` checks only that its arguments are strings. */
module Contacts {
  import opened Wrappers
  import Store

  /** Triage state of a submission. */
  datatype Status = New | Contacted | Closed

  /** The user fields of a `contacts` document. */
  datatype Contact = Contact(
    name: string,
    email: string,
    company: Option<string>,
    phone: Option<string>,
    subject: string,
    message: string,
    status: Status)

  /** The arguments `create` accepts; the optional ones may be left out. */
  datatype CreateArgs = CreateArgs(
    name: string,
    email: string,
    company: Option<string>,
    phone: Option<string>,
    subject: string,
    message: string)

  type Contacts = Store.Table<Contact>

  /** `create`: inserts one submission with status `new`, every other field
      taken verbatim from the arguments (an omitted company or phone stays
      absent, an empty string is stored as given), and returns its id. The
      records already stored are untouched. */
  function Create(t: Contacts, a: CreateArgs, now: nat): (res: (Contacts, Store.Id))
    requires Store.Valid(t)
    ensures Store.Valid(res.0)
    ensures res.1 !in t.docs && res.1 in res.0.docs
    ensures var d := res.0.docs[res.1];
      && d.id == res.1 && d.creationTime == now
      && d.value.status == New
      && d.value.name == a.name && d.value.email == a.email
      && d.value.company == a.company && d.value.phone == a.phone
      && d.value.subject == a.subject && d.value.message == a.message
    ensures forall id :: id in t.docs ==> id in res.0.docs && res.0.docs[id] == t.docs[id]
    ensures Store.Size(res.0) == Store.Size(t) + 1
  {
    Store.Insert(t, Contact(a.name, a.email, a.company, a.phone, a.subject, a.message, New), now)
  }

  /** `list`: every stored submission exactly once, newest first. */
  function List(t: Contacts): (r: seq<Store.Doc<Contact>>)
    requires Store.Valid(t)
    ensures |r| == Store.Size(t)
    ensures forall d :: d in r <==> d.id in t.docs && t.docs[d.id] == d
    ensures forall i, j :: 0 <= i < j < |r| ==> r[i].id != r[j].id
  {
    Store.Desc(t)
  }

  /** `updateStatus`: overwrites the status of submission `id` whatever it
      was before; its other fields, its id and creation time, and every
      other submission stay as they were. The id must name a stored
      submission. */
  function UpdateStatus(t: Contacts, id: Store.Id, s: Status): (t': Contacts)
    requires Store.Valid(t) && id in t.docs
    ensures Store.Valid(t')
    ensures t'.docs.Keys == t.docs.Keys && Store.Size(t') == Store.Size(t)
    ensures t'.docs[id].value.status == s
    ensures var before := t.docs[id]; var after := t'.docs[id];
      && after.id == before.id && after.creationTime == before.creationTime
      && after.value.name == before.value.name && after.value.email == before.value.email
      && after.value.company == before.value.company && after.value.phone == before.value.phone
      && after.value.subject == before.value.subject && after.value.message == before.value.message
    ensures forall other :: other in t.docs && other != id ==> t'.docs[other] == t.docs[other]
  {
    Store.Replace(t, id, t.docs[id].value.(status := s))
  }

  /** Setting the same status twice is the same as setting it once. */
  lemma UpdateStatusIdempotent(t: Contacts, id: Store.Id, s: Status)
    requires Store.Valid(t) && id in t.docs
    ensures UpdateStatus(UpdateStatus(t, id, s), id, s) == UpdateStatus(t, id, s)
  {
  }

  /** Statuses form a complete transition graph: from any status any status
      (itself included) is reached in one `updateStatus`. */
  lemma AnyTransitionAllowed(t: Contacts, id: Store.Id, from: Status, to: Status)
    requires Store.Valid(t) && id in t.docs && t.docs[id].value.status == from
    ensures UpdateStatus(t, id, to).docs[id].value.status == to
    ensures UpdateStatus(UpdateStatus(t, id, to), id, from) == t
  {
    assert UpdateStatus(UpdateStatus(t, id, to), id, from).docs == t.docs;
  }

  /** A freshly created submission heads the listing, with status `new`,
      ahead of the previous listing unchanged. */
  lemma ListAfterCreate(t: Contacts, a: CreateArgs, now: nat)
    requires Store.Valid(t)
    ensures var (t', id) := Create(t, a, now);
      && List(t') == [Store.Doc(id, now, Contact(a.name, a.email, a.company, a.phone, a.subject, a.message, New))] + List(t)
      && List(t')[0].value.status == New
  {
    Store.DescAfterInsert(t, Contact(a.name, a.email, a.company, a.phone, a.subject, a.message, New), now);
  }

  /** After `updateStatus(id, s)` a fresh `list` shows submission `id` with
      status `s` in its old place, and every other row as before. */
  lemma ListAfterUpdateStatus(t: Contacts, id: Store.Id, s: Status)
    requires Store.Valid(t) && id in t.docs
    ensures var a := List(t); var b := List(UpdateStatus(t, id, s));
      && |b| == |a|
      && (forall i :: 0 <= i < |a| ==> b[i].id == a[i].id)
      && (forall i :: 0 <= i < |a| && a[i].id == id ==> b[i].value == a[i].value.(status := s))
      && (forall i :: 0 <= i < |a| && a[i].id != id ==> b[i] == a[i])
  {
    Store.DescAfterReplace(t, id, t.docs[id].value.(status := s));
  }
}
