/** The document table the backend's queries and mutations run against: a
    map from ids to documents plus the order in which they were inserted.
    Every document carries the store-assigned id and creation time. */
module Store {
  import Seqs

  type Id = nat

  /** A stored document: system fields `_id` and `_creationTime`, and the
      user fields. */
  datatype Doc<T> = Doc(id: Id, creationTime: nat, value: T)

  /** `nextId` is the id the store hands out on the next insert. */
  datatype Table<T> = Table(docs: map<Id, Doc<T>>, order: seq<Id>, nextId: Id)

  /** The insertion order lists every stored id exactly once, every
      document knows its own id, and no id reaches the allocator. */
  ghost predicate Valid<T>(t: Table<T>) {
    && (forall i, j :: 0 <= i < j < |t.order| ==> t.order[i] != t.order[j])
    && (forall id :: id in t.docs <==> id in t.order)
    && (forall id :: id in t.docs ==> t.docs[id].id == id && id < t.nextId)
  }

  function Size<T>(t: Table<T>): nat {
    |t.docs|
  }

  function Empty<T>(): (t: Table<T>)
    ensures Valid(t) && Size(t) == 0
  {
    Table(map[], [], 0)
  }

  /** Distinct elements: as many keys as positions in the order. */
  lemma SizeIsOrderLength<T>(t: Table<T>)
    requires Valid(t)
    ensures Size(t) == |t.order|
  {
    assert t.docs.Keys == Elements(t.order);
    DistinctCard(t.order);
  }

  ghost function Elements(s: seq<Id>): set<Id> {
    set x | x in s
  }

  /** A sequence without repetitions has as many elements as positions. */
  lemma {:induction false} DistinctCard(s: seq<Id>)
    requires forall i, j :: 0 <= i < j < |s| ==> s[i] != s[j]
    ensures |Elements(s)| == |s|
  {
    if s == [] {
      assert Elements(s) == {};
    } else {
      var n := |s| - 1;
      var p := s[..n];
      assert forall i :: 0 <= i < n ==> p[i] == s[i];
      DistinctCard(p);
      assert s == p + [s[n]];
      assert Elements(s) == Elements(p) + {s[n]};
      assert s[n] !in Elements(p);
    }
  }

  /** `db.insert`: adds one document under a fresh id, stamped with `now`,
      and returns that id. Every document already stored is kept as it was
      and the table grows by exactly one. */
  function Insert<T>(t: Table<T>, v: T, now: nat): (res: (Table<T>, Id))
    requires Valid(t)
    ensures Valid(res.0)
    ensures res.1 !in t.docs && res.1 in res.0.docs
    ensures res.0.docs[res.1] == Doc(res.1, now, v)
    ensures forall id :: id in t.docs ==> id in res.0.docs && res.0.docs[id] == t.docs[id]
    ensures res.0.docs.Keys == t.docs.Keys + {res.1}
    ensures Size(res.0) == Size(t) + 1
    ensures res.0.order == t.order + [res.1]
  {
    var id := t.nextId;
    var t' := Table(t.docs[id := Doc(id, now, v)], t.order + [id], id + 1);
    InsertKeepsValid(t, t', id);
    assert t'.docs.Keys == t.docs.Keys + {id};
    assert |t'.docs.Keys| == |t.docs.Keys| + 1;
    (t', id)
  }

  lemma InsertKeepsValid<T>(t: Table<T>, t': Table<T>, id: Id)
    requires Valid(t) && id == t.nextId
    requires t'.order == t.order + [id] && t'.nextId == id + 1
    requires t'.docs.Keys == t.docs.Keys + {id} && t'.docs[id].id == id
    requires forall k :: k in t.docs ==> t'.docs[k] == t.docs[k]
    ensures Valid(t')
  {
    assert id !in t.order;
    forall i, j | 0 <= i < j < |t'.order| ensures t'.order[i] != t'.order[j] {
      if j == |t.order| {
        assert t'.order[i] == t.order[i];
      }
    }
  }

  /** `db.patch` with a replacement for the user fields of document `id`:
      the document keeps its id and creation time, and nothing else in the
      table changes. */
  function Replace<T>(t: Table<T>, id: Id, v: T): (t': Table<T>)
    requires Valid(t) && id in t.docs
    ensures Valid(t')
    ensures t'.docs.Keys == t.docs.Keys && t'.order == t.order
    ensures t'.docs[id] == Doc(id, t.docs[id].creationTime, v)
    ensures forall other :: other in t.docs && other != id ==> t'.docs[other] == t.docs[other]
    ensures Size(t') == Size(t)
  {
    Table(t.docs[id := t.docs[id].(value := v)], t.order, t.nextId)
  }

  /** The documents of `order`, last one first. */
  function Newest<T>(docs: map<Id, Doc<T>>, order: seq<Id>): (r: seq<Doc<T>>)
    requires forall i :: 0 <= i < |order| ==> order[i] in docs
    ensures |r| == |order|
    ensures forall i :: 0 <= i < |order| ==> r[i] == docs[order[|order| - 1 - i]]
  {
    if order == [] then []
    else [docs[order[|order| - 1]]] + Newest(docs, order[..|order| - 1])
  }

  /** `query(...).order("desc").collect()`: every stored document exactly
      once, the most recently inserted first. */
  function Desc<T(!new)>(t: Table<T>): (r: seq<Doc<T>>)
    requires Valid(t)
    ensures |r| == Size(t)
    ensures forall d :: d in r <==> d.id in t.docs && t.docs[d.id] == d
    ensures forall i, j :: 0 <= i < j < |r| ==> r[i].id != r[j].id
    ensures Seqs.Distinct(r)
  {
    SizeIsOrderLength(t);
    NewestMembers(t);
    NewestDistinct(t);
    Newest(t.docs, t.order)
  }

  lemma NewestMembers<T(!new)>(t: Table<T>)
    requires Valid(t)
    ensures forall d :: d in Newest(t.docs, t.order) <==> d.id in t.docs && t.docs[d.id] == d
  {
    var r := Newest(t.docs, t.order);
    forall d: Doc<T> | d.id in t.docs && t.docs[d.id] == d ensures d in r {
      var k :| 0 <= k < |t.order| && t.order[k] == d.id;
      assert r[|t.order| - 1 - k] == d;
    }
  }

  lemma NewestDistinct<T>(t: Table<T>)
    requires Valid(t)
    ensures forall i, j :: 0 <= i < j < |t.order| ==> Newest(t.docs, t.order)[i].id != Newest(t.docs, t.order)[j].id
  {
  }

  /** After an insert, the new document heads the descending listing and
      the previous listing follows unchanged. */
  lemma DescAfterInsert<T(!new)>(t: Table<T>, v: T, now: nat)
    requires Valid(t)
    ensures var (t', id) := Insert(t, v, now);
      Desc(t') == [Doc(id, now, v)] + Desc(t)
  {
    var (t', id) := Insert(t, v, now);
    NewestAppend(t.docs, t'.docs, t.order, id);
  }

  /** Listing an order with one more id at its end: that id's document
      first, then the listing of the rest, over any documents that agree on
      the rest. */
  lemma NewestAppend<T>(docs: map<Id, Doc<T>>, docs': map<Id, Doc<T>>, order: seq<Id>, id: Id)
    requires forall i :: 0 <= i < |order| ==> order[i] in docs
    requires id in docs' && forall k :: k in docs ==> k in docs' && docs'[k] == docs[k]
    ensures Newest(docs', order + [id]) == [docs'[id]] + Newest(docs, order)
  {
    var o := order + [id];
    assert o[..|o| - 1] == order;
    NewestFrame(docs, docs', order);
  }

  /** The listing of `order` depends only on the documents it names. */
  lemma {:induction false} NewestFrame<T>(docs: map<Id, Doc<T>>, docs': map<Id, Doc<T>>, order: seq<Id>)
    requires forall i :: 0 <= i < |order| ==> order[i] in docs && order[i] in docs'
    requires forall i :: 0 <= i < |order| ==> docs[order[i]] == docs'[order[i]]
    ensures Newest(docs, order) == Newest(docs', order)
  {
    if order != [] {
      NewestFrame(docs, docs', order[..|order| - 1]);
    }
  }

  /** A replacement keeps every document at its place in the listing and
      changes only the user fields of the one replaced. */
  lemma DescAfterReplace<T(!new)>(t: Table<T>, id: Id, v: T)
    requires Valid(t) && id in t.docs
    ensures var a := Desc(t); var b := Desc(Replace(t, id, v));
      && |b| == |a|
      && (forall i :: 0 <= i < |a| ==> b[i].id == a[i].id && b[i].creationTime == a[i].creationTime)
      && (forall i :: 0 <= i < |a| && a[i].id != id ==> b[i] == a[i])
      && (forall i :: 0 <= i < |a| && a[i].id == id ==> b[i].value == v)
  {
  }

  /** The descending listing is the reverse of the insertion order. */
  lemma DescIsReverseInsertion<T(!new)>(t: Table<T>)
    requires Valid(t)
    ensures |Desc(t)| == |t.order|
    ensures forall i :: 0 <= i < |t.order| ==> Desc(t)[i] == t.docs[t.order[|t.order| - 1 - i]]
  {
  }

  /** The listing of the empty table is empty. */
  lemma DescEmpty<T(!new)>()
    ensures Desc(Empty<T>()) == []
  {
  }

  /** Creation times grow along `order`. */
  predicate Ascending<T>(docs: map<Id, Doc<T>>, order: seq<Id>) {
    forall i, j :: 0 <= i < j < |order| && order[i] in docs && order[j] in docs ==>
      docs[order[i]].creationTime < docs[order[j]].creationTime
  }

  /** Creation times grow along the insertion order. The backend's clock
      guarantees this; the model takes the clock as a parameter, so it is a
      property of the tables that a well-behaved clock produces. */
  ghost predicate Chronological<T>(t: Table<T>) {
    Valid(t) && Ascending(t.docs, t.order)
  }

  /** The clock reads later than every stored creation time. */
  ghost predicate Later<T>(t: Table<T>, now: nat) {
    forall id :: id in t.docs ==> t.docs[id].creationTime < now
  }

  lemma EmptyChronological<T>()
    ensures Chronological(Empty<T>())
  {
  }

  lemma AscendingAppend<T>(docs: map<Id, Doc<T>>, docs': map<Id, Doc<T>>, order: seq<Id>, id: Id)
    requires id in docs' && forall k :: k in docs ==> k in docs' && docs'[k] == docs[k]
    requires forall i :: 0 <= i < |order| ==> order[i] in docs && docs[order[i]].creationTime < docs'[id].creationTime
    requires Ascending(docs, order)
    ensures Ascending(docs', order + [id])
  {
    var o := order + [id];
    forall i, j | 0 <= i < j < |o| && o[i] in docs' && o[j] in docs'
      ensures docs'[o[i]].creationTime < docs'[o[j]].creationTime
    {
      assert o[i] == order[i];
      if j < |order| {
        assert o[j] == order[j];
      }
    }
  }

  /** Inserting at a later clock value keeps the table chronological. */
  lemma InsertChronological<T>(t: Table<T>, v: T, now: nat)
    requires Chronological(t) && Later(t, now)
    ensures Chronological(Insert(t, v, now).0)
  {
    var (t', id) := Insert(t, v, now);
    assert forall i :: 0 <= i < |t.order| ==> t.order[i] in t.docs;
    AscendingAppend(t.docs, t'.docs, t.order, id);
  }

  /** A replacement keeps every creation time, so the table stays
      chronological. */
  lemma ReplaceChronological<T>(t: Table<T>, id: Id, v: T)
    requires Chronological(t) && id in t.docs
    ensures Chronological(Replace(t, id, v))
  {
  }

  /** In a chronological table the descending listing is ordered by
      creation time, newest first. */
  lemma DescByCreationTime<T(!new)>(t: Table<T>)
    requires Chronological(t)
    ensures forall i, j :: 0 <= i < j < |Desc(t)| ==> Desc(t)[i].creationTime > Desc(t)[j].creationTime
  {
    assert Desc(t) == Newest(t.docs, t.order);
    assert forall i :: 0 <= i < |t.order| ==> t.order[i] in t.docs;
    NewestByTime(t.docs, t.order);
  }

  lemma NewestByTime<T>(docs: map<Id, Doc<T>>, order: seq<Id>)
    requires forall i :: 0 <= i < |order| ==> order[i] in docs
    requires Ascending(docs, order)
    ensures var r := Newest(docs, order);
      forall i, j :: 0 <= i < j < |r| ==> r[i].creationTime > r[j].creationTime
  {
    var r := Newest(docs, order);
    var n := |order|;
    forall i, j | 0 <= i < j < |r| ensures r[i].creationTime > r[j].creationTime {
      assert r[i] == docs[order[n - 1 - i]];
      assert r[j] == docs[order[n - 1 - j]];
    }
  }
}
