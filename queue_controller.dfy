/**
 * The queue engine of backend/controllers/queueController.js: positions and
 * estimated waits, the renumbering pass over a service's waiting entries,
 * the remaining-wait formula, and the request handlers as methods of a
 * store object whose entries they update.
 */
module QueueController {
  import opened Wrappers
  import opened QueueSchema
  import opened QueueStore

  /** Average service time per student, in minutes. */
  const AVERAGE_SERVICE_TIME: int := 15

  const MS_PER_MINUTE: int := 60000

  /** The estimated wait of an entry at `position`: one service time per entry up to and including it. */
  function CalculateWaitTime(position: int): (wait: int)
    ensures position >= 0 ==> wait >= 0
    ensures wait % AVERAGE_SERVICE_TIME == 0 && wait / AVERAGE_SERVICE_TIME == position
  {
    position * AVERAGE_SERVICE_TIME
  }

  function Max(a: int, b: int): int { if a >= b then a else b }

  /**
   * The estimate still left at time `now`: the stored estimate minus the
   * whole minutes elapsed since joining (rounded down, as Math.floor does),
   * never below zero.
   */
  function RecalculateWaitTime(entry: QueueEntry, now: int): (remaining: int)
    ensures remaining >= 0
    ensures entry.joinedAt <= now && entry.estimatedWaitTime >= 0 ==> remaining <= entry.estimatedWaitTime
    ensures now - entry.joinedAt >= entry.estimatedWaitTime * MS_PER_MINUTE ==> remaining == 0
  {
    var elapsedMinutes := (now - entry.joinedAt) / MS_PER_MINUTE;
    Max(0, entry.estimatedWaitTime - elapsedMinutes)
  }

  // ---------------------------------------------------------------------------
  // Renumbering (updateQueuePositions)

  function WaitingFilter(serviceType: string): Filter
  {
    Filter(Some(serviceType), Some(StatusName(Waiting)))
  }

  predicate IsWaitingOf(e: QueueEntry, serviceType: string)
  {
    e.serviceType == serviceType && e.status == Waiting
  }

  lemma MatchesWaiting(e: QueueEntry, serviceType: string)
    ensures Matches(e, WaitingFilter(serviceType)) <==> IsWaitingOf(e, serviceType)
  {
    if e.status != Waiting {
      assert |StatusName(e.status)| != |StatusName(Waiting)|;
    }
  }

  /**
   * The renumbering query: the waiting entries of one service, earliest
   * join first (equal join times in id order).
   */
  function WaitingByJoinTime(es: seq<QueueEntry>, serviceType: string): (order: seq<QueueEntry>)
    ensures SortedBy(order, ByJoinedAt)
    ensures forall e :: e in order <==> e in es && IsWaitingOf(e, serviceType)
  {
    SelectMembers(es, WaitingFilter(serviceType));
    forall e ensures Matches(e, WaitingFilter(serviceType)) <==> IsWaitingOf(e, serviceType) {
      MatchesWaiting(e, serviceType);
    }
    var selected := Select(es, WaitingFilter(serviceType));
    var order := SortBy(selected, ByJoinedAt);
    assert forall e :: e in order <==> e in multiset(selected);
    order
  }

  /** Index of the first entry of `order` with this id; |order| when there is none. */
  function RankOf(order: seq<QueueEntry>, id: nat): (k: nat)
    ensures k <= |order|
    ensures k < |order| ==> order[k].id == id
    ensures forall i :: 0 <= i < k ==> order[i].id != id
  {
    if order == [] then 0 else if order[0].id == id then 0 else 1 + RankOf(order[1..], id)
  }

  /** The fields one step of the renumbering loop writes. */
  function Reposition(e: QueueEntry, position: int): QueueEntry
  {
    e.(position := position, estimatedWaitTime := CalculateWaitTime(position))
  }

  /** What the renumbering pass over `order` does to a stored entry. */
  function RenumberEntry(e: QueueEntry, order: seq<QueueEntry>): QueueEntry
  {
    var k := RankOf(order, e.id);
    if k < |order| then Reposition(e, k + 1) else e
  }

  function Renumbering(es: seq<QueueEntry>, order: seq<QueueEntry>): (r: seq<QueueEntry>)
    ensures |r| == |es|
    ensures forall k :: 0 <= k < |es| ==> r[k] == RenumberEntry(es[k], order)
  {
    if es == [] then [] else [RenumberEntry(es[0], order)] + Renumbering(es[1..], order)
  }

  /** The store after renumbering `serviceType`. */
  function Renumbered(es: seq<QueueEntry>, serviceType: string): (r: seq<QueueEntry>)
    ensures |r| == |es|
    ensures forall k :: 0 <= k < |es| ==>
      r[k] == es[k].(position := r[k].position, estimatedWaitTime := r[k].estimatedWaitTime)
  {
    Renumbering(es, WaitingByJoinTime(es, serviceType))
  }

  /** The i-th entry of `order` sits at position i + 1 with the wait that position implies. */
  predicate Consecutive(order: seq<QueueEntry>)
  {
    forall i :: 0 <= i < |order| ==>
      order[i].position == i + 1 && order[i].estimatedWaitTime == CalculateWaitTime(i + 1)
  }

  /** The waiting entries of the service, in join order, sit at positions 1..N. */
  predicate Numbered(es: seq<QueueEntry>, serviceType: string)
  {
    Consecutive(WaitingByJoinTime(es, serviceType))
  }

  lemma {:induction false} RankOfAppend(p: seq<QueueEntry>, x: QueueEntry, id: nat)
    ensures RankOf(p + [x], id) ==
      if RankOf(p, id) < |p| then RankOf(p, id) else if x.id == id then |p| else |p| + 1
  {
    if p == [] {
      assert p + [x] == [x];
    } else {
      assert (p + [x])[1..] == p[1..] + [x];
      RankOfAppend(p[1..], x, id);
    }
  }

  /** One iteration of the renumbering loop extends the pass by one entry. */
  lemma RenumberingStep(es: seq<QueueEntry>, p: seq<QueueEntry>, x: QueueEntry)
    requires forall y :: y in p ==> y.id != x.id
    ensures Renumbering(es, p + [x]) == SetPlace(Renumbering(es, p), x.id, |p| + 1, CalculateWaitTime(|p| + 1))
  {
    var lhs := Renumbering(es, p + [x]);
    var rhs := SetPlace(Renumbering(es, p), x.id, |p| + 1, CalculateWaitTime(|p| + 1));
    forall k | 0 <= k < |es| ensures lhs[k] == rhs[k] {
      RankOfAppend(p, x, es[k].id);
      if RankOf(p, es[k].id) < |p| {
        assert p[RankOf(p, es[k].id)] in p;
      }
    }
  }

  /** The answer of the wait-time request. */
  datatype WaitInfo = WaitInfo(position: int, estimatedWaitTime: int, originalWaitTime: int, status: Status)

  /** The listing filter: a query parameter that is absent or empty does not constrain. */
  function ListFilter(serviceType: Option<string>, status: Option<string>): (f: Filter)
    ensures f.serviceType.None? <==> serviceType.None? || serviceType == Some("")
    ensures f.serviceType.Some? ==> f.serviceType == serviceType
    ensures f.status.None? <==> status.None? || status == Some("")
    ensures f.status.Some? ==> f.status == status
  {
    Filter(
      if serviceType == Some("") then None else serviceType,
      if status == Some("") then None else status)
  }

  // ---------------------------------------------------------------------------
  // The store and the request handlers

  class QueueEngine {
    /** The stored entries, in insertion order. */
    var entries: seq<QueueEntry>
    /** The id the next stored entry receives. */
    var nextId: nat

    ghost predicate Valid()
      reads this
    {
      UniqueIds(entries) && forall e :: e in entries ==> e.id < nextId
    }

    constructor ()
      ensures Valid() && entries == [] && nextId == 0
    {
      entries := [];
      nextId := 0;
    }

    /** POST /api/queue */
    method Join(studentName: Option<string>, serviceType: Option<string>, contactNumber: Option<string>, now: int)
      returns (r: Result<QueueEntry, Error>)
      requires Valid()
      modifies this
      ensures Valid()
      ensures r.Ok? <==> Supplied(studentName) && Supplied(serviceType) && Supplied(contactNumber)
      ensures r.Err? ==> r.error.ValidationError? && entries == old(entries) && nextId == old(nextId)
      ensures r.Ok? ==>
        var position := |Select(old(entries), WaitingFilter(serviceType.value))| + 1;
        && r.value == QueueEntry(old(nextId), studentName.value, serviceType.value, contactNumber.value,
                                 position, CalculateWaitTime(position), Waiting, now)
        && entries == old(entries) + [r.value]
        && nextId == old(nextId) + 1
    {
      var currentQueueCount := |Select(entries, Filter(serviceType, Some(StatusName(Waiting))))|;
      var position := currentQueueCount + 1;
      var estimatedWaitTime := CalculateWaitTime(position);
      r := NewEntry(
        EntryFields(studentName, serviceType, contactNumber, Some(position), Some(estimatedWaitTime), None, None),
        nextId, now);
      if r.Ok? {
        entries := entries + [r.value];
        nextId := nextId + 1;
      }
    }

    /** GET /api/queue */
    method List(serviceType: Option<string>, status: Option<string>) returns (r: seq<QueueEntry>)
      ensures multiset(r) == multiset(Select(entries, ListFilter(serviceType, status)))
      ensures forall e :: e in r <==> e in entries && Matches(e, ListFilter(serviceType, status))
      ensures forall i, j :: 0 <= i < j < |r| ==> r[i].position <= r[j].position
    {
      var filter := ListFilter(serviceType, status);
      SelectMembers(entries, filter);
      r := SortBy(Select(entries, filter), ByPosition);
      assert forall e :: e in r <==> e in multiset(Select(entries, filter));
    }

    /** GET /api/queue/:id */
    method Get(id: nat) returns (r: Result<QueueEntry, Error>)
      ensures r.Ok? ==> r.value in entries && r.value.id == id
      ensures r.Err? ==> r.error == NotFound && forall e :: e in entries ==> e.id != id
    {
      var found := Find(entries, id);
      r := if found.Some? then Ok(found.value) else Err(NotFound);
    }

    /** updateQueuePositions: rewrite position and wait of each waiting entry of the service, in join order. */
    method Renumber(serviceType: string)
      requires Valid()
      modifies this
      ensures Valid() && nextId == old(nextId)
      ensures entries == Renumbered(old(entries), serviceType)
    {
      var waitingEntries := WaitingByJoinTime(entries, serviceType);
      ghost var initial := entries;
      var i := 0;
      while i < |waitingEntries|
        invariant 0 <= i <= |waitingEntries|
        invariant entries == Renumbering(initial, waitingEntries[..i])
        invariant nextId == old(nextId)
      {
        var newPosition := i + 1;
        var newWaitTime := CalculateWaitTime(newPosition);
        RenumberingLoopStep(initial, serviceType, i);
        entries := SetPlace(entries, waitingEntries[i].id, newPosition, newWaitTime);
        i := i + 1;
      }
      assert waitingEntries[..i] == waitingEntries;
      RenumberedKeepsIds(initial, serviceType, nextId);
    }

    /** PUT /api/queue/:id */
    method UpdateStatus(id: nat, status: Option<string>) returns (r: Result<QueueEntry, Error>)
      requires Valid()
      modifies this
      ensures Valid() && nextId == old(nextId)
      ensures !StatusAdmitted(status) ==> r == Err(ValidationError(["status"])) && entries == old(entries)
      ensures StatusAdmitted(status) && Find(old(entries), id).None? ==>
        r == Err(NotFound) && entries == old(entries)
      ensures StatusAdmitted(status) && Find(old(entries), id).Some? && status.None? ==>
        r == Ok(Find(old(entries), id).value) && entries == old(entries)
      ensures StatusAdmitted(status) && Find(old(entries), id).Some? && status.Some? ==>
        var t := Find(old(entries), id).value;
        var newStatus := ParseStatus(status.value).value;
        var updated := SetStatus(old(entries), id, newStatus);
        && r == Ok(t.(status := newStatus))
        && entries == if IsTerminal(newStatus) then Renumbered(updated, t.serviceType) else updated
    {
      if !StatusAdmitted(status) {
        return Err(ValidationError(["status"]));
      }
      var found := Find(entries, id);
      if found.None? {
        return Err(NotFound);
      }
      var queueEntry := found.value;
      if status.Some? {
        var newStatus := ParseStatus(status.value).value;
        SetStatusKeepsIds(entries, id, newStatus);
        entries := SetStatus(entries, id, newStatus);
        queueEntry := queueEntry.(status := newStatus);
        if newStatus == Completed || newStatus == Cancelled {
          Renumber(queueEntry.serviceType);
        }
      }
      r := Ok(queueEntry);
    }

    /** DELETE /api/queue/:id */
    method Leave(id: nat) returns (r: Result<QueueEntry, Error>)
      requires Valid()
      modifies this
      ensures Valid() && nextId == old(nextId)
      ensures Find(old(entries), id).None? ==> r == Err(NotFound) && entries == old(entries)
      ensures Find(old(entries), id).Some? ==>
        var t := Find(old(entries), id).value;
        r == Ok(t) && entries == Renumbered(RemoveId(old(entries), id), t.serviceType)
    {
      var found := Find(entries, id);
      if found.None? {
        return Err(NotFound);
      }
      var queueEntry := found.value;
      RemoveIdUnique(entries, id);
      RemoveIdMembers(entries, id);
      entries := RemoveId(entries, id);
      Renumber(queueEntry.serviceType);
      r := Ok(queueEntry);
    }

    /** GET /api/queue/:id/waittime */
    method WaitTime(id: nat, now: int) returns (r: Result<WaitInfo, Error>)
      ensures r.Err? ==> r.error == NotFound && forall e :: e in entries ==> e.id != id
      ensures r.Ok? ==> exists t :: (t in entries && t.id == id &&
        r.value == WaitInfo(t.position, RecalculateWaitTime(t, now), t.estimatedWaitTime, t.status))
      ensures r.Ok? ==> 0 <= r.value.estimatedWaitTime
    {
      var found := Find(entries, id);
      if found.None? {
        return Err(NotFound);
      }
      var queueEntry := found.value;
      var remainingWait := RecalculateWaitTime(queueEntry, now);
      r := Ok(WaitInfo(queueEntry.position, remainingWait, queueEntry.estimatedWaitTime, queueEntry.status));
    }
  }

  // ---------------------------------------------------------------------------
  // Facts the handlers need

  lemma WaitingByJoinTimeUnique(es: seq<QueueEntry>, serviceType: string)
    requires UniqueIds(es)
    ensures UniqueIds(WaitingByJoinTime(es, serviceType))
  {
    SelectUnique(es, WaitingFilter(serviceType));
    SortByUnique(Select(es, WaitingFilter(serviceType)), ByJoinedAt);
  }

  /** The loop step of Renumber, with the distinct-id side condition discharged. */
  lemma RenumberingLoopStep(es: seq<QueueEntry>, serviceType: string, i: nat)
    requires UniqueIds(es) && i < |WaitingByJoinTime(es, serviceType)|
    ensures var order := WaitingByJoinTime(es, serviceType);
      Renumbering(es, order[..i + 1]) ==
      SetPlace(Renumbering(es, order[..i]), order[i].id, i + 1, CalculateWaitTime(i + 1))
  {
    WaitingByJoinTimeUnique(es, serviceType);
    RenumberingOrderStep(es, WaitingByJoinTime(es, serviceType), i);
  }

  lemma RenumberingOrderStep(es: seq<QueueEntry>, order: seq<QueueEntry>, i: nat)
    requires UniqueIds(order) && i < |order|
    ensures Renumbering(es, order[..i + 1]) ==
      SetPlace(Renumbering(es, order[..i]), order[i].id, i + 1, CalculateWaitTime(i + 1))
  {
    PrefixIdsDiffer(order, i);
    RenumberingStep(es, order[..i], order[i]);
    assert order[..i + 1] == order[..i] + [order[i]];
  }

  lemma PrefixIdsDiffer(order: seq<QueueEntry>, i: nat)
    requires UniqueIds(order) && i < |order|
    ensures forall y :: y in order[..i] ==> y.id != order[i].id
  {
    forall y | y in order[..i] ensures y.id != order[i].id {
      var j :| 0 <= j < i && order[..i][j] == y;
      assert order[j] == y;
    }
  }

  lemma RenumberedKeepsIds(es: seq<QueueEntry>, serviceType: string, bound: nat)
    requires UniqueIds(es) && forall e :: e in es ==> e.id < bound
    ensures UniqueIds(Renumbered(es, serviceType))
    ensures forall e :: e in Renumbered(es, serviceType) ==> e.id < bound
  {
    var order := WaitingByJoinTime(es, serviceType);
    RenumberingKeepsIds(es, order);
    forall e | e in Renumbering(es, order) ensures e.id < bound {
      var k :| 0 <= k < |es| && es[k].id == e.id;
      assert es[k] in es;
    }
  }

  lemma RenumberingKeepsIds(es: seq<QueueEntry>, order: seq<QueueEntry>)
    ensures forall k :: 0 <= k < |es| ==> Renumbering(es, order)[k].id == es[k].id
    ensures UniqueIds(es) ==> UniqueIds(Renumbering(es, order))
    ensures forall e :: e in Renumbering(es, order) ==> exists k :: 0 <= k < |es| && es[k].id == e.id
  {
    var r := Renumbering(es, order);
    forall k | 0 <= k < |r| ensures r[k].id == es[k].id {
      assert r[k] == RenumberEntry(es[k], order);
    }
    forall e | e in r ensures exists k :: 0 <= k < |es| && es[k].id == e.id {
      var k :| 0 <= k < |r| && r[k] == e;
      assert es[k].id == e.id;
    }
  }

  lemma SetStatusKeepsIds(es: seq<QueueEntry>, id: nat, status: Status)
    ensures UniqueIds(es) ==> UniqueIds(SetStatus(es, id, status))
    ensures forall e :: e in SetStatus(es, id, status) ==> exists k :: 0 <= k < |es| && es[k].id == e.id
  {
    var r := SetStatus(es, id, status);
    forall k | 0 <= k < |r| ensures r[k].id == es[k].id {
      assert r[k] == if es[k].id == id then es[k].(status := status) else es[k];
    }
    forall e | e in r ensures exists k :: 0 <= k < |es| && es[k].id == e.id {
      var k :| 0 <= k < |r| && r[k] == e;
      assert es[k].id == e.id;
    }
  }
}
