/**
 * The queue collection as an in-memory sequence of documents, in insertion
 * order. Each function stands for one query the controller sends
 * (backend/controllers/queueController.js): find by id, find by filter,
 * sort, find-by-id-and-update and find-by-id-and-delete.
 */
module QueueStore {
  import opened Wrappers
  import opened QueueSchema

  /** Document ids are keys: no two stored entries share one. */
  predicate UniqueIds(es: seq<QueueEntry>)
  {
    forall i, j :: 0 <= i < j < |es| ==> es[i].id != es[j].id
  }

  /** findById */
  function Find(es: seq<QueueEntry>, id: nat): (r: Option<QueueEntry>)
    ensures r.Some? ==> r.value in es && r.value.id == id
    ensures r.None? ==> forall e :: e in es ==> e.id != id
  {
    if es == [] then None else if es[0].id == id then Some(es[0]) else Find(es[1..], id)
  }

  /** A query document: a field left as None is not constrained. */
  datatype Filter = Filter(serviceType: Option<string>, status: Option<string>)

  predicate Matches(e: QueueEntry, f: Filter)
  {
    && (f.serviceType.None? || e.serviceType == f.serviceType.value)
    && (f.status.None? || StatusName(e.status) == f.status.value)
  }

  /** find(filter): the matching entries, in store order. */
  function Select(es: seq<QueueEntry>, f: Filter): (r: seq<QueueEntry>)
    ensures |r| <= |es|
    ensures forall x :: x in r ==> x in es && Matches(x, f)
  {
    if es == [] then [] else (if Matches(es[0], f) then [es[0]] else []) + Select(es[1..], f)
  }

  /** The result of find(filter) holds exactly the stored entries that match. */
  lemma {:induction false} SelectMembers(es: seq<QueueEntry>, f: Filter)
    ensures forall e :: e in Select(es, f) <==> e in es && Matches(e, f)
  {
    if es != [] {
      SelectMembers(es[1..], f);
      assert es == [es[0]] + es[1..];
    }
  }

  /** findByIdAndDelete: every entry with that id is dropped, the rest keep their order. */
  function RemoveId(es: seq<QueueEntry>, id: nat): (r: seq<QueueEntry>)
    ensures |r| <= |es|
    ensures forall x :: x in r ==> x in es && x.id != id
  {
    if es == [] then [] else (if es[0].id == id then [] else [es[0]]) + RemoveId(es[1..], id)
  }

  /** Deleting by id keeps exactly the entries with other ids. */
  lemma {:induction false} RemoveIdMembers(es: seq<QueueEntry>, id: nat)
    ensures forall e :: e in RemoveId(es, id) <==> e in es && e.id != id
  {
    if es != [] {
      RemoveIdMembers(es[1..], id);
      assert es == [es[0]] + es[1..];
    }
  }

  /** findByIdAndUpdate(id, {status}) */
  function SetStatus(es: seq<QueueEntry>, id: nat, status: Status): (r: seq<QueueEntry>)
    ensures |r| == |es|
    ensures forall k :: 0 <= k < |es| ==> r[k] == if es[k].id == id then es[k].(status := status) else es[k]
  {
    if es == [] then []
    else [if es[0].id == id then es[0].(status := status) else es[0]] + SetStatus(es[1..], id, status)
  }

  /** findByIdAndUpdate(id, {position, estimatedWaitTime}) */
  function SetPlace(es: seq<QueueEntry>, id: nat, position: int, wait: int): (r: seq<QueueEntry>)
    ensures |r| == |es|
    ensures forall k :: 0 <= k < |es| ==>
      r[k] == if es[k].id == id then es[k].(position := position, estimatedWaitTime := wait) else es[k]
  {
    if es == [] then []
    else
      [if es[0].id == id then es[0].(position := position, estimatedWaitTime := wait) else es[0]]
      + SetPlace(es[1..], id, position, wait)
  }

  // ---------------------------------------------------------------------------
  // sort({field: 1})

  datatype SortField = ByJoinedAt | ByPosition

  function SortKey(e: QueueEntry, field: SortField): int
  {
    match field
    case ByJoinedAt => e.joinedAt
    case ByPosition => e.position
  }

  /** Ascending by the sort field; entries with equal keys are ordered by id. */
  predicate Before(a: QueueEntry, b: QueueEntry, field: SortField)
  {
    SortKey(a, field) < SortKey(b, field) || (SortKey(a, field) == SortKey(b, field) && a.id < b.id)
  }

  predicate SortedBy(xs: seq<QueueEntry>, field: SortField)
  {
    forall i, j :: 0 <= i < j < |xs| ==> !Before(xs[j], xs[i], field)
  }

  function Insert(x: QueueEntry, ys: seq<QueueEntry>, field: SortField): (r: seq<QueueEntry>)
    ensures multiset(r) == multiset(ys) + multiset{x}
  {
    if ys == [] then [x]
    else if Before(ys[0], x, field) then
      assert ys == [ys[0]] + ys[1..];
      [ys[0]] + Insert(x, ys[1..], field)
    else [x] + ys
  }

  /** Inserting into a sorted sequence keeps it sorted. */
  lemma {:induction false} InsertSorted(x: QueueEntry, ys: seq<QueueEntry>, field: SortField)
    requires SortedBy(ys, field)
    ensures SortedBy(Insert(x, ys, field), field)
  {
    if ys != [] {
      var r := Insert(x, ys, field);
      if Before(ys[0], x, field) {
        var rest := Insert(x, ys[1..], field);
        InsertSorted(x, ys[1..], field);
        assert r == [ys[0]] + rest;
        forall j | 0 <= j < |rest| ensures !Before(rest[j], ys[0], field) {
          assert rest[j] in multiset(rest);
          assert rest[j] == x || rest[j] in ys[1..];
        }
      } else {
        assert r == [x] + ys;
        forall j | 0 <= j < |ys| ensures !Before(ys[j], x, field) {
          assert j == 0 || !Before(ys[j], ys[0], field);
        }
      }
    }
  }

  /** The sorted result of a query: a permutation of its input, in ascending order. */
  function SortBy(xs: seq<QueueEntry>, field: SortField): (r: seq<QueueEntry>)
    ensures multiset(r) == multiset(xs)
    ensures SortedBy(r, field)
  {
    if xs == [] then []
    else
      assert xs == [xs[0]] + xs[1..];
      InsertSorted(xs[0], SortBy(xs[1..], field), field);
      Insert(xs[0], SortBy(xs[1..], field), field)
  }

  // ---------------------------------------------------------------------------
  // How the queries compose

  lemma {:induction false} SelectUnique(es: seq<QueueEntry>, f: Filter)
    requires UniqueIds(es)
    ensures UniqueIds(Select(es, f))
  {
    if es != [] {
      SelectUnique(es[1..], f);
      var rest := Select(es[1..], f);
      SelectMembers(es[1..], f);
      forall j | 0 <= j < |rest| ensures rest[j].id != es[0].id {
        assert rest[j] in es[1..];
      }
    }
  }

  lemma {:induction false} RemoveIdUnique(es: seq<QueueEntry>, id: nat)
    requires UniqueIds(es)
    ensures UniqueIds(RemoveId(es, id))
  {
    if es != [] {
      RemoveIdUnique(es[1..], id);
      var rest := RemoveId(es[1..], id);
      RemoveIdMembers(es[1..], id);
      forall j | 0 <= j < |rest| ensures rest[j].id != es[0].id {
        assert rest[j] in es[1..];
      }
    }
  }

  lemma {:induction false} InsertUnique(x: QueueEntry, ys: seq<QueueEntry>, field: SortField)
    requires UniqueIds(ys)
    requires forall y :: y in ys ==> y.id != x.id
    ensures UniqueIds(Insert(x, ys, field))
  {
    if ys != [] && Before(ys[0], x, field) {
      InsertUnique(x, ys[1..], field);
      var rest := Insert(x, ys[1..], field);
      forall j | 0 <= j < |rest| ensures rest[j].id != ys[0].id {
        assert rest[j] in multiset(rest);
      }
    }
  }

  lemma {:induction false} SortByUnique(xs: seq<QueueEntry>, field: SortField)
    requires UniqueIds(xs)
    ensures UniqueIds(SortBy(xs, field))
  {
    if xs != [] {
      SortByUnique(xs[1..], field);
      forall y | y in SortBy(xs[1..], field) ensures y.id != xs[0].id {
        assert y in multiset(SortBy(xs[1..], field));
      }
      InsertUnique(xs[0], SortBy(xs[1..], field), field);
    }
  }

  lemma {:induction false} SelectAppend(es: seq<QueueEntry>, x: QueueEntry, f: Filter)
    ensures Select(es + [x], f) == Select(es, f) + (if Matches(x, f) then [x] else [])
  {
    if es == [] {
      assert es + [x] == [x];
    } else {
      assert (es + [x])[1..] == es[1..] + [x];
      SelectAppend(es[1..], x, f);
    }
  }

  lemma SelectCons(x: QueueEntry, r: seq<QueueEntry>, f: Filter)
    ensures Select([x] + r, f) == (if Matches(x, f) then [x] else []) + Select(r, f)
  {
    assert ([x] + r)[0] == x && ([x] + r)[1..] == r;
  }

  lemma RemoveIdCons(x: QueueEntry, r: seq<QueueEntry>, id: nat)
    ensures RemoveId([x] + r, id) == (if x.id == id then [] else [x]) + RemoveId(r, id)
  {
    assert ([x] + r)[0] == x && ([x] + r)[1..] == r;
  }

  lemma {:induction false} SelectRemoveId(es: seq<QueueEntry>, f: Filter, id: nat)
    ensures Select(RemoveId(es, id), f) == RemoveId(Select(es, f), id)
  {
    if es != [] {
      var x, r := es[0], es[1..];
      assert es == [x] + r;
      SelectRemoveId(r, f, id);
      RemoveIdCons(x, r, id);
      SelectCons(x, r, f);
      if x.id == id {
        assert RemoveId(es, id) == RemoveId(r, id);
        if Matches(x, f) {
          RemoveIdCons(x, Select(r, f), id);
        } else {
          assert Select(es, f) == Select(r, f);
        }
      } else {
        assert RemoveId(es, id) == [x] + RemoveId(r, id);
        SelectCons(x, RemoveId(r, id), f);
        if Matches(x, f) {
          RemoveIdCons(x, Select(r, f), id);
        } else {
          assert Select(es, f) == Select(r, f);
          assert Select(RemoveId(es, id), f) == Select(RemoveId(r, id), f);
        }
      }
    }
  }

  /** An update that moves the entry with `id` out of the filter acts on the filter's result like a delete. */
  lemma {:induction false} SelectSetStatusLeaving(es: seq<QueueEntry>, f: Filter, id: nat, status: Status)
    requires f.status.Some? && StatusName(status) != f.status.value
    ensures Select(SetStatus(es, id, status), f) == RemoveId(Select(es, f), id)
  {
    if es != [] {
      var x, r := es[0], es[1..];
      assert es == [x] + r;
      SelectSetStatusLeaving(r, f, id, status);
      var updated := SetStatus(es, id, status);
      var y := updated[0];
      assert updated[1..] == SetStatus(r, id, status);
      assert updated == [y] + SetStatus(r, id, status);
      SelectCons(y, SetStatus(r, id, status), f);
      SelectCons(x, r, f);
      if x.id == id {
        assert !Matches(y, f);
        assert Select(updated, f) == Select(SetStatus(r, id, status), f);
        if Matches(x, f) {
          RemoveIdCons(x, Select(r, f), id);
        } else {
          assert Select(es, f) == Select(r, f);
        }
      } else {
        assert y == x;
        if Matches(x, f) {
          RemoveIdCons(x, Select(r, f), id);
        } else {
          assert Select(es, f) == Select(r, f);
          assert Select(updated, f) == Select(SetStatus(r, id, status), f);
        }
      }
    }
  }

  /** Sorting a sequence whose new last element follows all the others appends it. */
  lemma {:induction false} InsertBeforeLast(z: QueueEntry, ys: seq<QueueEntry>, x: QueueEntry, field: SortField)
    requires Before(z, x, field)
    ensures Insert(z, ys + [x], field) == Insert(z, ys, field) + [x]
  {
    if ys == [] {
      assert ys + [x] == [x];
    } else {
      assert (ys + [x])[0] == ys[0];
      assert (ys + [x])[1..] == ys[1..] + [x];
      InsertBeforeLast(z, ys[1..], x, field);
    }
  }

  lemma {:induction false} SortByAppendLast(xs: seq<QueueEntry>, x: QueueEntry, field: SortField)
    requires forall y :: y in xs ==> Before(y, x, field)
    ensures SortBy(xs + [x], field) == SortBy(xs, field) + [x]
  {
    if xs == [] {
      assert xs + [x] == [x];
    } else {
      assert (xs + [x])[0] == xs[0];
      assert (xs + [x])[1..] == xs[1..] + [x];
      SortByAppendLast(xs[1..], x, field);
      InsertBeforeLast(xs[0], SortBy(xs[1..], field), x, field);
    }
  }

  lemma {:induction false} RemoveIdAbsent(es: seq<QueueEntry>, id: nat)
    requires forall e :: e in es ==> e.id != id
    ensures RemoveId(es, id) == es
  {
    if es != [] {
      RemoveIdAbsent(es[1..], id);
    }
  }

  lemma {:induction false} RemoveInserted(x: QueueEntry, ys: seq<QueueEntry>, field: SortField)
    requires forall y :: y in ys ==> y.id != x.id
    ensures RemoveId(Insert(x, ys, field), x.id) == ys
  {
    if ys == [] {
      assert Insert(x, ys, field) == [x] + [];
      RemoveIdCons(x, [], x.id);
    } else if Before(ys[0], x, field) {
      assert ys[0] in ys;
      assert forall z :: z in ys[1..] ==> z in ys;
      RemoveInserted(x, ys[1..], field);
      RemoveInsertedPastHead(x, ys, field);
    } else {
      assert Insert(x, ys, field) == [x] + ys;
      RemoveIdCons(x, ys, x.id);
      RemoveIdAbsent(ys, x.id);
    }
  }

  lemma RemoveInsertedPastHead(x: QueueEntry, ys: seq<QueueEntry>, field: SortField)
    requires ys != [] && ys[0].id != x.id && Before(ys[0], x, field)
    requires RemoveId(Insert(x, ys[1..], field), x.id) == ys[1..]
    ensures RemoveId(Insert(x, ys, field), x.id) == ys
  {
    var y, rest := ys[0], ys[1..];
    assert Insert(x, ys, field) == [y] + Insert(x, rest, field);
    RemoveIdCons(y, Insert(x, rest, field), x.id);
    assert ys == [y] + rest;
  }

  /** Inserting an element that comes first puts it at the front. */
  lemma InsertFront(x: QueueEntry, ys: seq<QueueEntry>, field: SortField)
    requires forall y :: y in ys ==> !Before(y, x, field)
    ensures Insert(x, ys, field) == [x] + ys
  {
  }

  lemma InsertCons(x: QueueEntry, y: QueueEntry, r: seq<QueueEntry>, field: SortField)
    ensures Insert(x, [y] + r, field) == if Before(y, x, field) then [y] + Insert(x, r, field) else [x, y] + r
  {
    assert ([y] + r)[0] == y && ([y] + r)[1..] == r;
  }

  /** Removing the head of a sorted sequence, then inserting something no later than it, puts that in front. */
  lemma InsertAfterHeadRemoved(x: QueueEntry, ys: seq<QueueEntry>, id: nat, field: SortField)
    requires ys != [] && ys[0].id == id && !Before(ys[0], x, field)
    requires SortedBy(ys, field)
    ensures Insert(x, RemoveId(ys[1..], id), field) == [x] + RemoveId(ys[1..], id)
  {
    var r := ys[1..];
    RemoveIdMembers(r, id);
    forall z | z in RemoveId(r, id) ensures !Before(z, x, field) {
      var j :| 0 <= j < |r| && r[j] == z;
      assert !Before(ys[j + 1], ys[0], field);
    }
    InsertFront(x, RemoveId(r, id), field);
  }

  /** The step of InsertRemoveId when the head of `ys` stays in front of `x`. */
  lemma InsertRemoveIdPastHead(x: QueueEntry, ys: seq<QueueEntry>, id: nat, field: SortField)
    requires ys != [] && x.id != id && Before(ys[0], x, field)
    requires Insert(x, RemoveId(ys[1..], id), field) == RemoveId(Insert(x, ys[1..], field), id)
    ensures Insert(x, RemoveId(ys, id), field) == RemoveId(Insert(x, ys, field), id)
  {
    var y, r := ys[0], ys[1..];
    var inserted := Insert(x, r, field);
    assert Insert(x, ys, field) == [y] + inserted;
    assert ([y] + inserted)[0] == y && ([y] + inserted)[1..] == inserted;
    if y.id == id {
      assert RemoveId(ys, id) == RemoveId(r, id);
      calc {
        Insert(x, RemoveId(ys, id), field);
        Insert(x, RemoveId(r, id), field);
        RemoveId(inserted, id);
        RemoveId([y] + inserted, id);
        RemoveId(Insert(x, ys, field), id);
      }
    } else {
      var kept := RemoveId(r, id);
      assert RemoveId(ys, id) == [y] + kept;
      assert ([y] + kept)[0] == y && ([y] + kept)[1..] == kept;
      calc {
        Insert(x, RemoveId(ys, id), field);
        Insert(x, [y] + kept, field);
        [y] + Insert(x, kept, field);
        [y] + RemoveId(inserted, id);
        RemoveId([y] + inserted, id);
      }
    }
  }

  /** The step of InsertRemoveId when `x` goes in front of the head of `ys`. */
  lemma InsertRemoveIdAtHead(x: QueueEntry, ys: seq<QueueEntry>, id: nat, field: SortField)
    requires ys != [] && x.id != id && !Before(ys[0], x, field)
    requires SortedBy(ys, field)
    ensures Insert(x, RemoveId(ys, id), field) == RemoveId(Insert(x, ys, field), id)
  {
    var y, r := ys[0], ys[1..];
    assert Insert(x, ys, field) == [x] + ys;
    assert ([x] + ys)[0] == x && ([x] + ys)[1..] == ys;
    assert RemoveId(Insert(x, ys, field), id) == [x] + RemoveId(ys, id);
    if y.id == id {
      assert RemoveId(ys, id) == RemoveId(r, id);
      InsertAfterHeadRemoved(x, ys, id, field);
    } else {
      var kept := RemoveId(r, id);
      assert RemoveId(ys, id) == [y] + kept;
      assert ([y] + kept)[0] == y && ([y] + kept)[1..] == kept;
      assert Insert(x, [y] + kept, field) == [x] + ([y] + kept);
    }
  }

  lemma {:induction false} InsertRemoveId(x: QueueEntry, ys: seq<QueueEntry>, id: nat, field: SortField)
    requires x.id != id
    requires SortedBy(ys, field)
    ensures Insert(x, RemoveId(ys, id), field) == RemoveId(Insert(x, ys, field), id)
  {
    if ys == [] {
      RemoveIdCons(x, [], id);
    } else if Before(ys[0], x, field) {
      assert SortedBy(ys[1..], field);
      InsertRemoveId(x, ys[1..], id, field);
      InsertRemoveIdPastHead(x, ys, id, field);
    } else {
      InsertRemoveIdAtHead(x, ys, id, field);
    }
  }

  /** For distinct ids, deleting before or after the sort gives the same sequence. */
  lemma {:induction false} SortByRemoveId(xs: seq<QueueEntry>, id: nat, field: SortField)
    requires UniqueIds(xs)
    ensures SortBy(RemoveId(xs, id), field) == RemoveId(SortBy(xs, field), id)
  {
    if xs != [] {
      var x, rest := xs[0], xs[1..];
      assert UniqueIds(rest);
      HeadIdFresh(xs, field);
      if x.id == id {
        RemoveIdAbsent(rest, id);
        assert RemoveId(xs, id) == rest;
        RemoveInserted(x, SortBy(rest, field), field);
      } else {
        SortByRemoveId(rest, id, field);
        SortByRemoveIdKeptHead(xs, id, field);
      }
    }
  }

  lemma HeadIdFresh(xs: seq<QueueEntry>, field: SortField)
    requires xs != [] && UniqueIds(xs)
    ensures forall y :: y in SortBy(xs[1..], field) ==> y.id != xs[0].id
    ensures forall y :: y in xs[1..] ==> y.id != xs[0].id
  {
    forall y | y in xs[1..] ensures y.id != xs[0].id {
      var j :| 0 <= j < |xs[1..]| && xs[1..][j] == y;
      assert xs[j + 1] == y;
    }
    forall y | y in SortBy(xs[1..], field) ensures y.id != xs[0].id {
      assert y in multiset(SortBy(xs[1..], field));
    }
  }

  lemma SortByRemoveIdKeptHead(xs: seq<QueueEntry>, id: nat, field: SortField)
    requires xs != [] && xs[0].id != id
    requires SortBy(RemoveId(xs[1..], id), field) == RemoveId(SortBy(xs[1..], field), id)
    ensures SortBy(RemoveId(xs, id), field) == RemoveId(SortBy(xs, field), id)
  {
    var x, rest := xs[0], xs[1..];
    var kept := RemoveId(rest, id);
    assert RemoveId(xs, id) == [x] + kept;
    assert ([x] + kept)[0] == x && ([x] + kept)[1..] == kept;
    assert SortedBy(SortBy(rest, field), field);
    InsertRemoveId(x, SortBy(rest, field), id, field);
  }

  /** With distinct ids, deleting the entry at index k cuts it out. */
  lemma {:induction false} RemoveIdAt(es: seq<QueueEntry>, k: nat)
    requires UniqueIds(es) && k < |es|
    ensures RemoveId(es, es[k].id) == es[..k] + es[k + 1..]
  {
    var id := es[k].id;
    if k == 0 {
      RemoveIdAbsent(es[1..], id);
    } else {
      assert UniqueIds(es[1..]);
      assert es[1..][k - 1] == es[k];
      RemoveIdAt(es[1..], k - 1);
      assert es[1..][..k - 1] + es[1..][k..] == es[1..k] + es[k + 1..];
      assert es[..k] == [es[0]] + es[1..k];
    }
  }
}
