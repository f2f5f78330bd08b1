/**
 * What the queue engine guarantees across requests: a renumbering pass
 * leaves the waiting entries of a service at positions 1..N in join order,
 * it is idempotent and touches nothing else, a departure moves everybody
 * behind the departing student up by one, and a join at the back keeps the
 * numbering. Also the behaviour over time of the remaining-wait formula.
 */
module QueueControllerLaws {
  import opened Wrappers
  import opened QueueSchema
  import opened QueueStore
  import opened QueueController

  // ---------------------------------------------------------------------------
  // Renumbering commutes with the queries it does not affect

  lemma {:induction false} SelectRenumbering(es: seq<QueueEntry>, order: seq<QueueEntry>, f: Filter)
    ensures Select(Renumbering(es, order), f) == Renumbering(Select(es, f), order)
  {
    if es != [] {
      var x, r := es[0], es[1..];
      assert es == [x] + r;
      var x' := RenumberEntry(x, order);
      assert Renumbering(es, order) == [x'] + Renumbering(r, order);
      assert Matches(x', f) == Matches(x, f);
      SelectCons(x', Renumbering(r, order), f);
      SelectCons(x, r, f);
      SelectRenumbering(r, order, f);
      var head := if Matches(x, f) then [x] else [];
      assert Renumbering(head + Select(r, f), order) == Renumbering(head, order) + Renumbering(Select(r, f), order);
    }
  }

  lemma {:induction false} InsertRenumbering(x: QueueEntry, ys: seq<QueueEntry>, order: seq<QueueEntry>)
    ensures Insert(RenumberEntry(x, order), Renumbering(ys, order), ByJoinedAt)
         == Renumbering(Insert(x, ys, ByJoinedAt), order)
  {
    var x' := RenumberEntry(x, order);
    if ys == [] {
    } else {
      var y, r := ys[0], ys[1..];
      assert ys == [y] + r;
      var y' := RenumberEntry(y, order);
      assert Renumbering(ys, order) == [y'] + Renumbering(r, order);
      assert Before(y', x', ByJoinedAt) == Before(y, x, ByJoinedAt);
      InsertCons(x', y', Renumbering(r, order), ByJoinedAt);
      InsertCons(x, y, r, ByJoinedAt);
      if Before(y, x, ByJoinedAt) {
        InsertRenumbering(x, r, order);
        assert Renumbering([y] + Insert(x, r, ByJoinedAt), order)
            == [y'] + Renumbering(Insert(x, r, ByJoinedAt), order);
      } else {
        assert Renumbering([x, y] + r, order) == [x', y'] + Renumbering(r, order);
      }
    }
  }

  lemma {:induction false} SortByRenumbering(xs: seq<QueueEntry>, order: seq<QueueEntry>)
    ensures SortBy(Renumbering(xs, order), ByJoinedAt) == Renumbering(SortBy(xs, ByJoinedAt), order)
  {
    if xs != [] {
      var x, r := xs[0], xs[1..];
      var x' := RenumberEntry(x, order);
      var rs := Renumbering(xs, order);
      assert rs == [x'] + Renumbering(r, order);
      assert rs[0] == x' && rs[1..] == Renumbering(r, order);
      SortByRenumbering(r, order);
      InsertRenumbering(x, SortBy(r, ByJoinedAt), order);
    }
  }

  /** In a sequence with distinct ids, the rank of the i-th entry's id is i. */
  lemma {:induction false} RankOfUnique(xs: seq<QueueEntry>, i: nat)
    requires UniqueIds(xs) && i < |xs|
    ensures RankOf(xs, xs[i].id) == i
  {
    if i > 0 {
      assert xs[1..][i - 1] == xs[i];
      RankOfUnique(xs[1..], i - 1);
    }
  }

  // ---------------------------------------------------------------------------
  // The renumbering pass

  /** After the pass, the waiting entries keep their join order and carry the new places. */
  lemma WaitingAfterRenumber(es: seq<QueueEntry>, serviceType: string)
    ensures var order := WaitingByJoinTime(es, serviceType);
      WaitingByJoinTime(Renumbered(es, serviceType), serviceType) == Renumbering(order, order)
  {
    var order := WaitingByJoinTime(es, serviceType);
    var f := WaitingFilter(serviceType);
    SelectRenumbering(es, order, f);
    SortByRenumbering(Select(es, f), order);
  }

  /** Renumbering an order by itself puts its i-th entry at place i + 1. */
  lemma SelfRenumbering(order: seq<QueueEntry>)
    requires UniqueIds(order)
    ensures |Renumbering(order, order)| == |order|
    ensures forall i :: 0 <= i < |order| ==> Renumbering(order, order)[i] == Reposition(order[i], i + 1)
    ensures Consecutive(Renumbering(order, order))
  {
    forall i | 0 <= i < |order| ensures Renumbering(order, order)[i] == Reposition(order[i], i + 1) {
      RankOfUnique(order, i);
    }
  }

  /** The renumbering pass numbers the service's waiting entries 1..N in join order. */
  lemma RenumberedIsNumbered(es: seq<QueueEntry>, serviceType: string)
    requires UniqueIds(es)
    ensures var order := WaitingByJoinTime(es, serviceType);
      var order' := WaitingByJoinTime(Renumbered(es, serviceType), serviceType);
      && |order'| == |order|
      && (forall i :: 0 <= i < |order| ==> order'[i] == Reposition(order[i], i + 1))
    ensures Numbered(Renumbered(es, serviceType), serviceType)
  {
    var order := WaitingByJoinTime(es, serviceType);
    WaitingAfterRenumber(es, serviceType);
    WaitingByJoinTimeUnique(es, serviceType);
    SelfRenumbering(order);
  }

  /** The entry of the renumbering order that carries a stored entry's id is that entry. */
  lemma OrderEntryIsStored(es: seq<QueueEntry>, serviceType: string, k: nat)
    requires UniqueIds(es) && k < |es|
    requires RankOf(WaitingByJoinTime(es, serviceType), es[k].id) < |WaitingByJoinTime(es, serviceType)|
    ensures var order := WaitingByJoinTime(es, serviceType);
      order[RankOf(order, es[k].id)] == es[k]
  {
    var order := WaitingByJoinTime(es, serviceType);
    var x := order[RankOf(order, es[k].id)];
    assert x in order;
    var m :| 0 <= m < |es| && es[m] == x;
  }

  /**
   * The pass changes only position and estimated wait, and only those of
   * the service's waiting entries.
   */
  lemma RenumberFrame(es: seq<QueueEntry>, serviceType: string)
    requires UniqueIds(es)
    ensures |Renumbered(es, serviceType)| == |es|
    ensures forall k :: 0 <= k < |es| ==>
      var r := Renumbered(es, serviceType)[k];
      && r == es[k].(position := r.position, estimatedWaitTime := r.estimatedWaitTime)
      && (!IsWaitingOf(es[k], serviceType) ==> r == es[k])
  {
    var order := WaitingByJoinTime(es, serviceType);
    forall k | 0 <= k < |es| && !IsWaitingOf(es[k], serviceType)
      ensures Renumbered(es, serviceType)[k] == es[k]
    {
      if RankOf(order, es[k].id) < |order| {
        OrderEntryIsStored(es, serviceType, k);
        assert order[RankOf(order, es[k].id)] in order;
      }
    }
  }

  /** A store that is already numbered is left as it is. */
  lemma NumberedIsFixpoint(es: seq<QueueEntry>, serviceType: string)
    requires UniqueIds(es) && Numbered(es, serviceType)
    ensures Renumbered(es, serviceType) == es
  {
    var order := WaitingByJoinTime(es, serviceType);
    forall k | 0 <= k < |es| ensures Renumbered(es, serviceType)[k] == es[k] {
      if RankOf(order, es[k].id) < |order| {
        OrderEntryIsStored(es, serviceType, k);
      }
    }
  }

  /** Running the pass twice is running it once. */
  lemma RenumberIdempotent(es: seq<QueueEntry>, serviceType: string)
    requires UniqueIds(es)
    ensures Renumbered(Renumbered(es, serviceType), serviceType) == Renumbered(es, serviceType)
  {
    RenumberedIsNumbered(es, serviceType);
    RenumberingKeepsIds(es, WaitingByJoinTime(es, serviceType));
    NumberedIsFixpoint(Renumbered(es, serviceType), serviceType);
  }

  // ---------------------------------------------------------------------------
  // Departures

  /** The order with its j-th entry taken out. */
  function Without(order: seq<QueueEntry>, j: nat): seq<QueueEntry>
    requires j < |order|
  {
    order[..j] + order[j + 1..]
  }

  lemma WithoutAt(order: seq<QueueEntry>, j: nat, i: nat)
    requires j < |order| && i < |order| - 1
    ensures Without(order, j)[i] == if i < j then order[i] else order[i + 1]
  {
    if i < j {
      assert Without(order, j)[i] == order[..j][i];
    } else {
      assert Without(order, j)[i] == order[j + 1..][i - j];
    }
  }

  lemma WithoutUnique(order: seq<QueueEntry>, j: nat)
    requires UniqueIds(order) && j < |order|
    ensures UniqueIds(Without(order, j))
  {
    var p := Without(order, j);
    forall a, b | 0 <= a < b < |p| ensures p[a].id != p[b].id {
      var a' := if a < j then a else a + 1;
      var b' := if b < j then b else b + 1;
      assert p[a] == order[a'] && p[b] == order[b'];
    }
  }

  /**
   * Renumbering a consecutive order with its j-th entry gone: those ahead
   * keep their places, those behind move up one place and wait one service
   * time less.
   */
  lemma ShiftDown(order: seq<QueueEntry>, j: nat)
    requires UniqueIds(order) && Consecutive(order) && j < |order|
    ensures var p := Without(order, j);
      var r := Renumbering(p, p);
      && |r| == |order| - 1
      && (forall i :: 0 <= i < j ==> r[i] == order[i])
      && (forall i :: j <= i < |r| ==>
            r[i] == order[i + 1].(position := order[i + 1].position - 1,
                                  estimatedWaitTime := order[i + 1].estimatedWaitTime - AVERAGE_SERVICE_TIME))
  {
    var p := Without(order, j);
    WithoutUnique(order, j);
    SelfRenumbering(p);
    ShiftDownAhead(order, j, p);
    ShiftDownBehind(order, j, p);
  }

  lemma ShiftDownAhead(order: seq<QueueEntry>, j: nat, p: seq<QueueEntry>)
    requires Consecutive(order) && j < |order| && p == Without(order, j)
    requires forall i :: 0 <= i < |p| ==> Renumbering(p, p)[i] == Reposition(p[i], i + 1)
    ensures forall i :: 0 <= i < j ==> Renumbering(p, p)[i] == order[i]
  {
    forall i | 0 <= i < j ensures Renumbering(p, p)[i] == order[i] {
      KeptInPlace(order, j, i);
    }
  }

  lemma KeptInPlace(order: seq<QueueEntry>, j: nat, i: nat)
    requires Consecutive(order) && i < j < |order|
    ensures Reposition(Without(order, j)[i], i + 1) == order[i]
  {
    WithoutAt(order, j, i);
    RepositionInPlace(order[i], i + 1);
  }

  lemma ShiftDownBehind(order: seq<QueueEntry>, j: nat, p: seq<QueueEntry>)
    requires Consecutive(order) && j < |order| && p == Without(order, j)
    requires forall i :: 0 <= i < |p| ==> Renumbering(p, p)[i] == Reposition(p[i], i + 1)
    ensures forall i :: j <= i < |p| ==>
      Renumbering(p, p)[i] == order[i + 1].(position := order[i + 1].position - 1,
                                            estimatedWaitTime := order[i + 1].estimatedWaitTime - AVERAGE_SERVICE_TIME)
  {
    forall i | j <= i < |p| ensures Renumbering(p, p)[i] == order[i + 1].(position := order[i + 1].position - 1,
                                  estimatedWaitTime := order[i + 1].estimatedWaitTime - AVERAGE_SERVICE_TIME) {
      ShiftedUp(order, j, i);
    }
  }

  lemma ShiftedUp(order: seq<QueueEntry>, j: nat, i: nat)
    requires Consecutive(order) && j <= i < |order| - 1
    ensures Reposition(Without(order, j)[i], i + 1)
         == order[i + 1].(position := order[i + 1].position - 1,
                          estimatedWaitTime := order[i + 1].estimatedWaitTime - AVERAGE_SERVICE_TIME)
  {
    WithoutAt(order, j, i);
    RepositionUp(order[i + 1], i + 1);
  }

  lemma RepositionInPlace(e: QueueEntry, k: int)
    requires e.position == k && e.estimatedWaitTime == CalculateWaitTime(k)
    ensures Reposition(e, k) == e
  {
  }

  lemma RepositionUp(e: QueueEntry, k: int)
    requires e.position == k + 1 && e.estimatedWaitTime == CalculateWaitTime(k + 1)
    ensures Reposition(e, k) == e.(position := e.position - 1, estimatedWaitTime := e.estimatedWaitTime - AVERAGE_SERVICE_TIME)
  {
  }

  /** Deleting an entry takes it out of every service's renumbering order. */
  lemma DeleteLeavesOrder(es: seq<QueueEntry>, serviceType: string, id: nat)
    requires UniqueIds(es)
    ensures WaitingByJoinTime(RemoveId(es, id), serviceType) == RemoveId(WaitingByJoinTime(es, serviceType), id)
  {
    var f := WaitingFilter(serviceType);
    SelectRemoveId(es, f, id);
    SelectUnique(es, f);
    SortByRemoveId(Select(es, f), id, ByJoinedAt);
  }

  /** Moving an entry out of Waiting takes it out of every service's renumbering order. */
  lemma StatusLeavesOrder(es: seq<QueueEntry>, serviceType: string, id: nat, status: Status)
    requires UniqueIds(es) && status != Waiting
    ensures WaitingByJoinTime(SetStatus(es, id, status), serviceType)
         == RemoveId(WaitingByJoinTime(es, serviceType), id)
  {
    var f := WaitingFilter(serviceType);
    assert |StatusName(status)| != |StatusName(Waiting)|;
    SelectSetStatusLeaving(es, f, id, status);
    SelectUnique(es, f);
    SortByRemoveId(Select(es, f), id, ByJoinedAt);
  }

  /**
   * Leaving the queue (Leave): in a numbered store, the students who joined
   * before the leaver keep their places; everybody behind moves up one place
   * and waits one service time less.
   */
  lemma LeaveShiftsDown(es: seq<QueueEntry>, serviceType: string, j: nat)
    requires UniqueIds(es) && Numbered(es, serviceType)
    requires j < |WaitingByJoinTime(es, serviceType)|
    ensures var order := WaitingByJoinTime(es, serviceType);
      var order' := WaitingByJoinTime(Renumbered(RemoveId(es, order[j].id), serviceType), serviceType);
      && |order'| == |order| - 1
      && (forall i :: 0 <= i < j ==> order'[i] == order[i])
      && (forall i :: j <= i < |order'| ==>
            order'[i] == order[i + 1].(position := order[i + 1].position - 1,
                                       estimatedWaitTime := order[i + 1].estimatedWaitTime - AVERAGE_SERVICE_TIME))
  {
    var order := WaitingByJoinTime(es, serviceType);
    var es' := RemoveId(es, order[j].id);
    WaitingByJoinTimeUnique(es, serviceType);
    DeleteLeavesOrder(es, serviceType, order[j].id);
    RemoveIdAt(order, j);
    WaitingAfterRenumber(es', serviceType);
    ShiftDown(order, j);
  }

  /**
   * Completing or cancelling (UpdateStatus with a terminal status) a waiting
   * student has the same effect on the others' places as leaving.
   */
  lemma CompleteShiftsDown(es: seq<QueueEntry>, serviceType: string, j: nat, status: Status)
    requires UniqueIds(es) && Numbered(es, serviceType) && IsTerminal(status)
    requires j < |WaitingByJoinTime(es, serviceType)|
    ensures var order := WaitingByJoinTime(es, serviceType);
      var order' := WaitingByJoinTime(Renumbered(SetStatus(es, order[j].id, status), serviceType), serviceType);
      && |order'| == |order| - 1
      && (forall i :: 0 <= i < j ==> order'[i] == order[i])
      && (forall i :: j <= i < |order'| ==>
            order'[i] == order[i + 1].(position := order[i + 1].position - 1,
                                       estimatedWaitTime := order[i + 1].estimatedWaitTime - AVERAGE_SERVICE_TIME))
  {
    var order := WaitingByJoinTime(es, serviceType);
    var es' := SetStatus(es, order[j].id, status);
    WaitingByJoinTimeUnique(es, serviceType);
    StatusLeavesOrder(es, serviceType, order[j].id, status);
    RemoveIdAt(order, j);
    WaitingAfterRenumber(es', serviceType);
    ShiftDown(order, j);
  }

  /**
   * Calling a student (status In Progress) does not renumber: unless the
   * student was last, the waiting entries behind keep their old places and
   * the store is no longer numbered.
   */
  lemma InProgressKeepsStalePlaces(es: seq<QueueEntry>, serviceType: string, j: nat)
    requires UniqueIds(es) && Numbered(es, serviceType)
    requires j + 1 < |WaitingByJoinTime(es, serviceType)|
    ensures var order := WaitingByJoinTime(es, serviceType);
      !Numbered(SetStatus(es, order[j].id, InProgress), serviceType)
  {
    var order := WaitingByJoinTime(es, serviceType);
    WaitingByJoinTimeUnique(es, serviceType);
    StatusLeavesOrder(es, serviceType, order[j].id, InProgress);
    RemoveIdAt(order, j);
    var order' := WaitingByJoinTime(SetStatus(es, order[j].id, InProgress), serviceType);
    assert order'[j] == order[j + 1];
  }

  /**
   * A join while a student of the service is In Progress is given the
   * place the last waiting student already holds.
   */
  lemma JoinDuringServiceRepeatsPlace(es: seq<QueueEntry>, serviceType: string, j: nat)
    requires UniqueIds(es) && Numbered(es, serviceType)
    requires j + 1 < |WaitingByJoinTime(es, serviceType)|
    ensures var order := WaitingByJoinTime(es, serviceType);
      var es' := SetStatus(es, order[j].id, InProgress);
      var last := order[|order| - 1];
      && last in es' && IsWaitingOf(last, serviceType)
      && last.position == |Select(es', WaitingFilter(serviceType))| + 1
  {
    var order := WaitingByJoinTime(es, serviceType);
    var es' := SetStatus(es, order[j].id, InProgress);
    var last := order[|order| - 1];
    WaitingByJoinTimeUnique(es, serviceType);
    assert last in order;
    assert last.id != order[j].id;
    SetStatusKeepsOthers(es, order[j].id, InProgress, last);
    StatusLeavesOrder(es, serviceType, order[j].id, InProgress);
    RemoveIdAt(order, j);
    OrderLength(es', serviceType);
  }

  /** The renumbering order has as many entries as the count query returns. */
  lemma OrderLength(es: seq<QueueEntry>, serviceType: string)
    ensures |WaitingByJoinTime(es, serviceType)| == |Select(es, WaitingFilter(serviceType))|
  {
    var selected := Select(es, WaitingFilter(serviceType));
    assert |multiset(WaitingByJoinTime(es, serviceType))| == |multiset(selected)|;
  }

  lemma SetStatusKeepsOthers(es: seq<QueueEntry>, id: nat, status: Status, x: QueueEntry)
    requires x in es && x.id != id
    ensures x in SetStatus(es, id, status)
  {
    var m :| 0 <= m < |es| && es[m] == x;
    assert SetStatus(es, id, status)[m] == x;
  }

  // ---------------------------------------------------------------------------
  // Joining

  /**
   * A student who joins later than everybody stored (Join) is appended at
   * place N + 1 and the store stays numbered.
   */
  lemma JoinKeepsNumbered(es: seq<QueueEntry>, e: QueueEntry)
    requires UniqueIds(es) && Numbered(es, e.serviceType)
    requires forall x :: x in es ==> x.joinedAt <= e.joinedAt && x.id < e.id
    requires e.status == Waiting
    requires e.position == |Select(es, WaitingFilter(e.serviceType))| + 1
    requires e.estimatedWaitTime == CalculateWaitTime(e.position)
    ensures WaitingByJoinTime(es + [e], e.serviceType) == WaitingByJoinTime(es, e.serviceType) + [e]
    ensures Numbered(es + [e], e.serviceType)
  {
    JoinAppendsToOrder(es, e);
    var order := WaitingByJoinTime(es, e.serviceType);
    OrderLength(es, e.serviceType);
    assert Consecutive(order);
    var order' := order + [e];
    forall i | 0 <= i < |order'|
      ensures order'[i].position == i + 1 && order'[i].estimatedWaitTime == CalculateWaitTime(i + 1)
    {
      if i < |order| {
        assert order'[i] == order[i];
      }
    }
  }

  /** The later joiner lands at the end of the renumbering order. */
  lemma JoinAppendsToOrder(es: seq<QueueEntry>, e: QueueEntry)
    requires forall x :: x in es ==> x.joinedAt <= e.joinedAt && x.id < e.id
    requires e.status == Waiting
    ensures WaitingByJoinTime(es + [e], e.serviceType) == WaitingByJoinTime(es, e.serviceType) + [e]
  {
    var f := WaitingFilter(e.serviceType);
    var selected := Select(es, f);
    SelectAppend(es, e, f);
    MatchesWaiting(e, e.serviceType);
    SelectMembers(es, f);
    SortByAppendLast(selected, e, ByJoinedAt);
  }

  // ---------------------------------------------------------------------------
  // The remaining wait over time

  /** The remaining wait never grows as time passes. */
  lemma RecalculateNonIncreasing(e: QueueEntry, earlier: int, later: int)
    requires earlier <= later
    ensures RecalculateWaitTime(e, later) <= RecalculateWaitTime(e, earlier)
  {
    assert (later - e.joinedAt) / MS_PER_MINUTE >= (earlier - e.joinedAt) / MS_PER_MINUTE;
  }

  /** Each further minute takes one minute off the remaining wait, down to zero. */
  lemma RecalculateMinuteStep(e: QueueEntry, now: int)
    ensures RecalculateWaitTime(e, now + MS_PER_MINUTE) == Max(0, RecalculateWaitTime(e, now) - 1)
  {
    assert (now + MS_PER_MINUTE - e.joinedAt) / MS_PER_MINUTE == (now - e.joinedAt) / MS_PER_MINUTE + 1;
  }

  /** Less than a minute after joining, the whole estimate remains. */
  lemma RecalculateFirstMinute(e: QueueEntry, now: int)
    requires e.joinedAt <= now < e.joinedAt + MS_PER_MINUTE
    ensures RecalculateWaitTime(e, now) == Max(0, e.estimatedWaitTime)
  {
    assert (now - e.joinedAt) / MS_PER_MINUTE == 0;
  }

  /** An estimate of 15 minutes is used up after 20 minutes; one of 30 has 25 left after 5. */
  lemma RecalculateExamples(e: QueueEntry)
    ensures RecalculateWaitTime(e.(estimatedWaitTime := 15), e.joinedAt + 20 * MS_PER_MINUTE) == 0
    ensures RecalculateWaitTime(e.(estimatedWaitTime := 30), e.joinedAt + 5 * MS_PER_MINUTE) == 25
  {
  }

  // ---------------------------------------------------------------------------
  // A session with the engine

  /** Two students join the same service; the first leaves and the second moves up to place 1. */
  method LeaveScenario() returns (first: QueueEntry, second: QueueEntry, remaining: seq<QueueEntry>)
    ensures first.position == 1 && first.estimatedWaitTime == 15
    ensures second.position == 2 && second.estimatedWaitTime == 30
    ensures remaining == [second.(position := 1, estimatedWaitTime := 15)]
  {
    var engine := new QueueEngine();
    var joinA := engine.Join(Some("A"), Some("Registrar"), Some("0917"), 1000);
    first := joinA.value;
    NoneWaiting("Registrar");
    var joinB := engine.Join(Some("B"), Some("Registrar"), Some("0918"), 2000);
    second := joinB.value;
    OneWaiting(first);
    LeaveFirstOfTwo(first, second);
    var left := engine.Leave(first.id);
    remaining := engine.entries;
  }

  lemma NoneWaiting(serviceType: string)
    ensures |Select([], WaitingFilter(serviceType))| == 0
  {
  }

  lemma OneWaiting(e: QueueEntry)
    requires e.status == Waiting
    ensures |Select([e], WaitingFilter(e.serviceType))| == 1
  {
    MatchesWaiting(e, e.serviceType);
    SelectCons(e, [], WaitingFilter(e.serviceType));
  }

  /** Of two waiting students of one service, the first leaves: the second is renumbered to place 1. */
  lemma LeaveFirstOfTwo(first: QueueEntry, second: QueueEntry)
    requires first.id != second.id && second.status == Waiting && second.serviceType == first.serviceType
    ensures Find([first, second], first.id) == Some(first)
    ensures Renumbered(RemoveId([first, second], first.id), first.serviceType) == [Reposition(second, 1)]
  {
    RemoveIdCons(first, [second], first.id);
    RemoveIdCons(second, [], first.id);
    assert RemoveId([first, second], first.id) == [second];
    AloneInOrder(second);
    AloneRenumbered(second);
  }

  lemma AloneRenumbered(e: QueueEntry)
    ensures Renumbering([e], [e]) == [Reposition(e, 1)]
  {
    assert RankOf([e], e.id) == 0;
  }

  lemma AloneInOrder(e: QueueEntry)
    requires e.status == Waiting
    ensures WaitingByJoinTime([e], e.serviceType) == [e]
  {
    MatchesWaiting(e, e.serviceType);
    SelectCons(e, [], WaitingFilter(e.serviceType));
  }
}
