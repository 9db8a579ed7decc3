/** The reactor's pending-request bookkeeping: a wrapping id counter, a table
    from `Id` to the waiter registered for it, a lazy capacity-triggered sweep
    that fails expired waiters with a canonical timeout error, and the
    fulfilment step that hands a response to the waiter with its `Id`.

    Channels, the lock and the background task are abstracted: whether an
    outbound send succeeds is a parameter, the clock is an integer parameter,
    every locked section is one method, and what is handed to a waiter is
    recorded in a ghost log of deliveries. */
module Reactor {
  import opened Wrappers
  import opened Json
  import opened Types

  /** The failure the sweep hands to a waiter whose timeout has passed. */
  const TIMEOUT_ERROR: RpcError := RpcError(-1, "response timeout", JNull)

  const TWO_TO_THE_64: int := 0x1_0000_0000_0000_0000

  // ---------------------------------------------------------------- id counter

  /** `i64::wrapping_add(x, 1)`: the next value of the id counter. */
  function WrappingIncrement(x: Int64): (r: Int64)
    ensures (r - x - 1) % TWO_TO_THE_64 == 0
    ensures x < I64_MAX ==> r == x + 1
  {
    if x == I64_MAX then I64_MIN else x + 1
  }

  /** The counter after `k` increments from `x`. */
  function Advance(x: Int64, k: nat): Int64 {
    if k == 0 then x else WrappingIncrement(Advance(x, k - 1))
  }

  /** The counter is two's-complement arithmetic modulo 2^64. */
  lemma {:induction false} AdvanceIsModular(x: Int64, k: nat)
    ensures Advance(x, k) == (x - I64_MIN + k) % TWO_TO_THE_64 + I64_MIN
  {
    if k > 0 {
      var b := x - I64_MIN + k - 1;
      AdvanceIsModular(x, k - 1);
      SuccessorResidue(b);
      var prev := Advance(x, k - 1);
      assert prev == b % TWO_TO_THE_64 + I64_MIN;
      assert b + 1 == x - I64_MIN + k;
      if prev == I64_MAX {
        assert b % TWO_TO_THE_64 == TWO_TO_THE_64 - 1;
      } else {
        assert b % TWO_TO_THE_64 < TWO_TO_THE_64 - 1;
      }
    }
  }

  /** The residue modulo 2^64 of a successor. */
  lemma SuccessorResidue(b: int)
    ensures (b + 1) % TWO_TO_THE_64 ==
      if b % TWO_TO_THE_64 == TWO_TO_THE_64 - 1 then 0 else b % TWO_TO_THE_64 + 1
  {
    var q, r := b / TWO_TO_THE_64, b % TWO_TO_THE_64;
    assert b + 1 == q * TWO_TO_THE_64 + (r + 1);
    if r == TWO_TO_THE_64 - 1 {
      assert b + 1 == (q + 1) * TWO_TO_THE_64;
    }
  }

  /** Ids drawn by `request` do not repeat before 2^64 requests; at 2^64 they
      do, since the counter has no collision detection. */
  lemma IdsRepeatOnlyAfterFullPeriod(x: Int64, j: nat, k: nat)
    requires j < k
    ensures Advance(x, j) == Advance(x, k) <==> (k - j) % TWO_TO_THE_64 == 0
  {
    AdvanceIsModular(x, j);
    AdvanceIsModular(x, k);
    ShiftPreservesResidue(x - I64_MIN + j, k - j);
    assert x - I64_MIN + k == (x - I64_MIN + j) + (k - j);
  }

  /** Adding `d` leaves a residue modulo 2^64 unchanged exactly when `d` is a
      multiple of 2^64. */
  lemma ShiftPreservesResidue(a: int, d: int)
    ensures (a + d) % TWO_TO_THE_64 == a % TWO_TO_THE_64 <==> d % TWO_TO_THE_64 == 0
  {
    var ra, rd := a % TWO_TO_THE_64, d % TWO_TO_THE_64;
    var q := a / TWO_TO_THE_64 + d / TWO_TO_THE_64;
    assert a == (a / TWO_TO_THE_64) * TWO_TO_THE_64 + ra;
    assert d == (d / TWO_TO_THE_64) * TWO_TO_THE_64 + rd;
    assert a + d == q * TWO_TO_THE_64 + (ra + rd);
    if ra + rd < TWO_TO_THE_64 {
      assert (a + d) % TWO_TO_THE_64 == ra + rd;
    } else {
      assert a + d == (q + 1) * TWO_TO_THE_64 + (ra + rd - TWO_TO_THE_64);
      assert (a + d) % TWO_TO_THE_64 == ra + rd - TWO_TO_THE_64;
    }
  }

  // ---------------------------------------------------------------- table entries

  /** The sending half of a one-shot channel; only its identity matters here. */
  class OneshotSender {
    constructor ()
    {
    }
  }

  /** An in-flight request: its waiter, when it was registered, and its
      optional timeout (in the same units as the clock). */
  datatype PendingRequest = PendingRequest(sender: OneshotSender, moment: int, timeout: Option<nat>)

  /** One outcome handed to a waiter. */
  datatype Delivery = Delivery(to: OneshotSender, outcome: Result<Json, RpcError>)

  /** `now.duration_since(moment)`, which saturates at zero. */
  function Elapsed(now: int, moment: int): (d: nat)
    ensures moment <= now ==> d + moment == now
    ensures now <= moment ==> d == 0
  {
    if moment <= now then now - moment else 0
  }

  /** An entry is expired when it has a timeout and strictly more than that
      timeout has elapsed since it was registered. */
  predicate IsExpired(p: PendingRequest, now: int) {
    p.timeout.Some? && p.timeout.value < Elapsed(now, p.moment)
  }

  /** The ids of the expired entries of a table. */
  function ExpiredIds(table: map<Id, PendingRequest>, now: int): (ids: set<Id>)
    ensures ids <= table.Keys
    ensures forall id :: id in table && table[id].timeout.None? ==> id !in ids
    ensures forall id :: id in table ==> (id in ids <==> IsExpired(table[id], now))
  {
    set id | id in table && IsExpired(table[id], now)
  }

  /** The ids the sweep removes after an insertion: the expired ones, but
      only when the table has grown strictly past the capacity. */
  function SweepTargets(capacity: nat, table: map<Id, PendingRequest>, now: int): (ids: set<Id>)
    ensures |table| <= capacity ==> ids == {}
    ensures capacity < |table| ==> ids == ExpiredIds(table, now)
  {
    if capacity < |table| then ExpiredIds(table, now) else {}
  }

  /** A table after a sweep keeps exactly its unexpired entries, unchanged. */
  lemma SweepKeepsExactlyUnexpired(table: map<Id, PendingRequest>, now: int)
    ensures forall id :: id in table - ExpiredIds(table, now) <==> id in table && !IsExpired(table[id], now)
    ensures forall id :: id in table - ExpiredIds(table, now) ==> (table - ExpiredIds(table, now))[id] == table[id]
    ensures |table - ExpiredIds(table, now)| == |table| - |ExpiredIds(table, now)|
  {
    var e := ExpiredIds(table, now);
    assert (table - e).Keys == table.Keys - e;
    assert |table.Keys - e| == |table.Keys| - |e| by {
      assert table.Keys == (table.Keys - e) + e;
    }
  }

  /** Sweeping twice at the same moment removes nothing more. */
  lemma SweepIdempotent(table: map<Id, PendingRequest>, now: int)
    ensures ExpiredIds(table - ExpiredIds(table, now), now) == {}
  {
  }

  /** An entry that has expired stays expired as the clock advances. */
  lemma ExpiryIsMonotone(table: map<Id, PendingRequest>, now: int, later: int)
    requires now <= later
    ensures ExpiredIds(table, now) <= ExpiredIds(table, later)
  {
  }

  // ---------------------------------------------------------------- waiter identity

  /** No two entries of the table share a waiter. */
  ghost predicate SendersDistinct(table: map<Id, PendingRequest>) {
    forall id1, id2 :: id1 in table && id2 in table && table[id1].sender == table[id2].sender ==> id1 == id2
  }

  /** No waiter appears twice in a delivery log. */
  ghost predicate ReceiversDistinct(log: seq<Delivery>) {
    forall i, j :: 0 <= i < j < |log| ==> log[i].to != log[j].to
  }

  /** The reactor's invariant over its table and its delivery log: each waiter
      is registered under at most one id, is handed at most one outcome, and
      is no longer registered once it has been handed one. */
  ghost predicate Consistent(table: map<Id, PendingRequest>, log: seq<Delivery>) {
    && SendersDistinct(table)
    && ReceiversDistinct(log)
    && forall id, i :: id in table && 0 <= i < |log| ==> log[i].to != table[id].sender
  }

  /** `order` lists each of `ids` exactly once. */
  ghost predicate Enumerates(order: seq<Id>, ids: set<Id>) {
    && (forall i, j :: 0 <= i < j < |order| ==> order[i] != order[j])
    && (forall i :: 0 <= i < |order| ==> order[i] in ids)
    && (forall id :: id in ids ==> id in order)
  }

  /** `log` hands the canonical timeout error to the waiters of the ids in
      `order`, one after the other. */
  ghost predicate TimeoutDeliveries(log: seq<Delivery>, table: map<Id, PendingRequest>, order: seq<Id>) {
    && |log| == |order|
    && forall i :: 0 <= i < |log| ==> order[i] in table && log[i] == Delivery(table[order[i]].sender, Err(TIMEOUT_ERROR))
  }

  /** `log` hands the timeout error to the waiter of each of `ids`, in some
      order, and to nothing else. */
  ghost predicate SweptInSomeOrder(log: seq<Delivery>, table: map<Id, PendingRequest>, ids: set<Id>) {
    exists order :: Enumerates(order, ids) && TimeoutDeliveries(log, table, order)
  }

  /** Each swept entry's waiter is handed the timeout error exactly once. */
  lemma {:induction false} SweptWaiterServedOnce(log: seq<Delivery>, table: map<Id, PendingRequest>,
                                                 ids: set<Id>, id: Id)
    requires SweptInSomeOrder(log, table, ids) && SendersDistinct(table) && id in ids
    ensures id in table
    ensures exists i :: 0 <= i < |log| && log[i] == Delivery(table[id].sender, Err(TIMEOUT_ERROR))
    ensures forall i, j :: 0 <= i < |log| && 0 <= j < |log| && log[i].to == table[id].sender && log[j].to == table[id].sender ==> i == j
  {
    var order :| Enumerates(order, ids) && TimeoutDeliveries(log, table, order);
    var k :| 0 <= k < |order| && order[k] == id;
    assert log[k] == Delivery(table[id].sender, Err(TIMEOUT_ERROR));
    forall i, j | 0 <= i < |log| && 0 <= j < |log| && log[i].to == table[id].sender && log[j].to == table[id].sender
      ensures i == j
    {
      assert order[i] == id && order[j] == id;
    }
  }

  /** Handing the waiter under `id` its outcome and removing it keeps the
      invariant: that waiter is served once and never again. */
  lemma FulfilKeepsConsistent(table: map<Id, PendingRequest>, log: seq<Delivery>, id: Id,
                              outcome: Result<Json, RpcError>)
    requires Consistent(table, log) && id in table
    ensures Consistent(table - {id}, log + [Delivery(table[id].sender, outcome)])
  {
    var log' := log + [Delivery(table[id].sender, outcome)];
    forall i, j | 0 <= i < j < |log'| ensures log'[i].to != log'[j].to {
      if j == |log| {
        assert log'[i] == log[i];
      } else {
        assert log'[i] == log[i] && log'[j] == log[j];
      }
    }
  }

  /** Registering a waiter that is neither registered nor served keeps the
      invariant, whatever entry it replaces. */
  lemma RegisterKeepsConsistent(table: map<Id, PendingRequest>, log: seq<Delivery>, id: Id, entry: PendingRequest)
    requires Consistent(table, log)
    requires forall k :: k in table ==> table[k].sender != entry.sender
    requires forall i :: 0 <= i < |log| ==> log[i].to != entry.sender
    ensures Consistent(table[id := entry], log)
  {
  }

  /** The waiter a re-registration replaces is orphaned: it is no longer
      registered and nothing, the sweep that follows included, is handed to
      it. */
  lemma ReplacedWaiterOrphaned(table: map<Id, PendingRequest>, log: seq<Delivery>, id: Id, entry: PendingRequest,
                               targets: set<Id>, swept: seq<Delivery>, after: map<Id, PendingRequest>)
    requires Consistent(table, log) && id in table && entry.sender != table[id].sender
    requires SweptInSomeOrder(swept, table[id := entry], targets)
    requires after == table[id := entry] - targets
    ensures forall k :: k in after ==> after[k].sender != table[id].sender
    ensures forall i :: 0 <= i < |log + swept| ==> (log + swept)[i].to != table[id].sender
  {
    var inserted := table[id := entry];
    var order :| Enumerates(order, targets) && TimeoutDeliveries(swept, inserted, order);
    forall i | 0 <= i < |log + swept| ensures (log + swept)[i].to != table[id].sender {
      if i < |log| {
        assert (log + swept)[i] == log[i];
      } else {
        assert (log + swept)[i] == swept[i - |log|];
        assert swept[i - |log|].to == inserted[order[i - |log|]].sender;
      }
    }
  }

  /** One iteration of the sweep: removing one more expired id and handing its
      waiter the timeout error extends the enumeration by that id. */
  lemma SweepStep(table: map<Id, PendingRequest>, expired: set<Id>, remaining: set<Id>, id: Id,
                  order: seq<Id>, served: seq<Delivery>)
    requires expired <= table.Keys && remaining <= expired && id in remaining
    requires Enumerates(order, expired - remaining) && TimeoutDeliveries(served, table, order)
    ensures Enumerates(order + [id], expired - (remaining - {id}))
    ensures TimeoutDeliveries(served + [Delivery(table[id].sender, Err(TIMEOUT_ERROR))], table, order + [id])
  {
    var order' := order + [id];
    assert expired - (remaining - {id}) == (expired - remaining) + {id};
    forall k | k in expired - (remaining - {id}) ensures k in order' {
      if k == id {
        assert order'[|order|] == id;
      } else {
        var i :| 0 <= i < |order| && order[i] == k;
        assert order'[i] == k;
      }
    }
  }

  /** Removing one more of the remaining ids from the partly swept table. */
  lemma RemoveOneMore(table: map<Id, PendingRequest>, expired: set<Id>, remaining: set<Id>, id: Id)
    requires id in remaining && remaining <= expired
    ensures (table - (expired - remaining)) - {id} == table - (expired - (remaining - {id}))
  {
    assert expired - (remaining - {id}) == (expired - remaining) + {id};
  }

  /** The capacity-triggered sweep over a table: removes every entry expired
      at `now` and hands its waiter the timeout error, each exactly once,
      visiting the expired ids in no particular order. */
  method SweepTable(table: map<Id, PendingRequest>, ghost log: seq<Delivery>, now: int)
    returns (swept: map<Id, PendingRequest>, ghost served: seq<Delivery>)
    requires Consistent(table, log)
    ensures swept == table - ExpiredIds(table, now)
    ensures SweptInSomeOrder(served, table, ExpiredIds(table, now))
    ensures Consistent(swept, log + served)
  {
    var expired := ExpiredIds(table, now);
    var remaining := expired;
    ghost var order: seq<Id> := [];
    swept, served := table, [];
    while remaining != {}
      invariant remaining <= expired
      invariant swept == table - (expired - remaining)
      invariant Enumerates(order, expired - remaining) && TimeoutDeliveries(served, table, order)
      invariant Consistent(swept, log + served)
      decreases |remaining|
    {
      var id :| id in remaining;
      var delivery := Delivery(swept[id].sender, Err(TIMEOUT_ERROR));
      SweepStep(table, expired, remaining, id, order, served);
      FulfilKeepsConsistent(swept, log + served, id, delivery.outcome);
      RemoveOneMore(table, expired, remaining, id);
      assert log + served + [delivery] == log + (served + [delivery]);
      swept := swept - {id};
      served := served + [delivery];
      order := order + [id];
      remaining := remaining - {id};
    }
  }

  /** The locked section of `request_with_id`: the entry goes in under `id`,
      replacing (and so orphaning) any entry already there, and when the table
      then holds more than `capacity` entries it is swept. */
  method InsertAndSweep(table: map<Id, PendingRequest>, ghost log: seq<Delivery>, capacity: nat,
                        id: Id, entry: PendingRequest, now: int)
    returns (result: map<Id, PendingRequest>, ghost served: seq<Delivery>)
    requires Consistent(table, log)
    requires forall k :: k in table ==> table[k].sender != entry.sender
    requires forall i :: 0 <= i < |log| ==> log[i].to != entry.sender
    ensures result == table[id := entry] - SweepTargets(capacity, table[id := entry], now)
    ensures SweptInSomeOrder(served, table[id := entry], SweepTargets(capacity, table[id := entry], now))
    ensures Consistent(result, log + served)
    ensures id in table ==>
      && (forall k :: k in result ==> result[k].sender != table[id].sender)
      && (forall i :: 0 <= i < |log + served| ==> (log + served)[i].to != table[id].sender)
  {
    RegisterKeepsConsistent(table, log, id, entry);
    var inserted := table[id := entry];
    if capacity < |inserted| {
      result, served := SweepTable(inserted, log, now);
    } else {
      result, served := inserted, [];
      assert inserted - {} == inserted;
      assert Enumerates([], {}) && TimeoutDeliveries([], inserted, []);
      assert log + [] == log;
    }
    if id in table {
      ReplacedWaiterOrphaned(table, log, id, entry, SweepTargets(capacity, inserted, now), served, result);
    }
  }

  // ---------------------------------------------------------------- the reactor

  class Reactor {
    /** The channel capacity, also the soft bound of the pending table. */
    const capacity: nat
    /** The next id `request` hands out. */
    var requestId: Int64
    /** In-flight requests by id. */
    var pending: map<Id, PendingRequest>
    /** What was handed to the transport's request channel. */
    ghost var sentRequests: seq<Request>
    /** What was handed to the transport's notification channel. */
    ghost var sentNotifications: seq<Notification>
    /** What was handed to waiters, in order. */
    ghost var deliveries: seq<Delivery>

    ghost predicate Valid()
      reads this
    {
      capacity > 0 && Consistent(pending, deliveries)
    }

    /** `Reactor::spawn`, without the channels and the background task. A
        zero capacity makes the channel constructor panic, so none is built. */
    constructor (capacity: nat)
      requires capacity > 0
      ensures this.capacity == capacity && requestId == 0 && pending == map[]
      ensures sentRequests == [] && sentNotifications == [] && deliveries == []
      ensures Valid()
    {
      this.capacity := capacity;
      requestId := 0;
      pending := map[];
      sentRequests := [];
      sentNotifications := [];
      deliveries := [];
    }

    /** Sends a notification: no waiter is registered and the id counter is
        untouched; the result is whether the send went through. */
    method Notify(methodName: string, params: Params, sent: bool) returns (ok: bool)
      modifies this`sentNotifications
      ensures ok == sent
      ensures sentNotifications == old(sentNotifications) + (if sent then [Notification(methodName, params)] else [])
    {
      if sent {
        sentNotifications := sentNotifications + [Notification(methodName, params)];
      }
      ok := sent;
    }

    /** Sends a request under the counter's current id, after advancing the
        counter (which happens whether or not the send goes through). */
    method Request(methodName: string, params: Params, timeout: Option<nat>, sent: bool, moment: int, now: int)
      returns (receiver: Option<OneshotSender>)
      requires Valid()
      modifies this`requestId, this`pending, this`sentRequests, this`deliveries
      ensures Valid()
      ensures requestId == WrappingIncrement(old(requestId))
      ensures receiver.Some? <==> sent
      ensures !sent ==> pending == old(pending) && sentRequests == old(sentRequests) && deliveries == old(deliveries)
      ensures sent ==>
        && fresh(receiver.value)
        && sentRequests == old(sentRequests) + [Types.Request(Number(old(requestId)), methodName, params)]
        && var inserted := old(pending)[Number(old(requestId)) := PendingRequest(receiver.value, moment, timeout)];
           && pending == inserted - SweepTargets(capacity, inserted, now)
           && |deliveries| >= |old(deliveries)| && deliveries[..|old(deliveries)|] == old(deliveries)
           && SweptInSomeOrder(deliveries[|old(deliveries)|..], inserted, SweepTargets(capacity, inserted, now))
      ensures sent && Number(old(requestId)) in old(pending) ==>
        && (forall k :: k in pending ==> pending[k].sender != old(pending)[Number(old(requestId))].sender)
        && (forall i :: 0 <= i < |deliveries| ==> deliveries[i].to != old(pending)[Number(old(requestId))].sender)
    {
      var id := requestId;
      requestId := WrappingIncrement(id);
      receiver := RequestWithId(Number(id), methodName, params, timeout, sent, moment, now);
    }

    /** Sends a request under a caller-chosen id: the unlocked send, then,
        only if it went through, the locked registration. A failed send
        returns nothing and changes nothing. A successful one registers a
        fresh waiter at `moment`, replacing (and so orphaning) any waiter
        already under `id`; if the table then holds more entries than the
        capacity, every entry expired at `now` is removed and its waiter handed
        the timeout error. */
    method RequestWithId(id: Id, methodName: string, params: Params, timeout: Option<nat>,
                         sent: bool, moment: int, now: int)
      returns (receiver: Option<OneshotSender>)
      requires Valid()
      modifies this`pending, this`sentRequests, this`deliveries
      ensures Valid()
      ensures receiver.Some? <==> sent
      ensures !sent ==> pending == old(pending) && sentRequests == old(sentRequests) && deliveries == old(deliveries)
      ensures sent ==>
        && fresh(receiver.value)
        && sentRequests == old(sentRequests) + [Types.Request(id, methodName, params)]
        && var inserted := old(pending)[id := PendingRequest(receiver.value, moment, timeout)];
           && pending == inserted - SweepTargets(capacity, inserted, now)
           && |deliveries| >= |old(deliveries)| && deliveries[..|old(deliveries)|] == old(deliveries)
           && SweptInSomeOrder(deliveries[|old(deliveries)|..], inserted, SweepTargets(capacity, inserted, now))
      ensures sent && id in old(pending) ==>
        && (forall k :: k in pending ==> pending[k].sender != old(pending)[id].sender)
        && (forall i :: 0 <= i < |deliveries| ==> deliveries[i].to != old(pending)[id].sender)
    {
      var ok := SendRequest(id, methodName, params, sent);
      if !ok {
        return None;
      }
      var sender := Register(id, timeout, moment, now);
      receiver := Some(sender);
    }

    /** The outbound send of `request_with_id`, done without the lock: the
        result is whether the request went out, and only then is it logged. */
    method SendRequest(id: Id, methodName: string, params: Params, sent: bool) returns (ok: bool)
      modifies this`sentRequests
      ensures ok == sent
      ensures sentRequests == old(sentRequests) + (if sent then [Types.Request(id, methodName, params)] else [])
    {
      if sent {
        sentRequests := sentRequests + [Types.Request(id, methodName, params)];
      }
      ok := sent;
    }

    /** The locked section of `request_with_id`: a fresh waiter is registered
        under `id`, replacing (and so orphaning) any waiter already there, and
        the capacity-triggered sweep runs. */
    method Register(id: Id, timeout: Option<nat>, moment: int, now: int) returns (receiver: OneshotSender)
      requires Valid()
      modifies this`pending, this`deliveries
      ensures Valid()
      ensures fresh(receiver)
      ensures var inserted := old(pending)[id := PendingRequest(receiver, moment, timeout)];
        && pending == inserted - SweepTargets(capacity, inserted, now)
        && |deliveries| >= |old(deliveries)| && deliveries[..|old(deliveries)|] == old(deliveries)
        && SweptInSomeOrder(deliveries[|old(deliveries)|..], inserted, SweepTargets(capacity, inserted, now))
      ensures id in old(pending) ==>
        && (forall k :: k in pending ==> pending[k].sender != old(pending)[id].sender)
        && (forall i :: 0 <= i < |deliveries| ==> deliveries[i].to != old(pending)[id].sender)
    {
      receiver := new OneshotSender();
      var table;
      ghost var served;
      table, served := InsertAndSweep(pending, deliveries, capacity, id, PendingRequest(receiver, moment, timeout), now);
      pending := table;
      deliveries := deliveries + served;
      assert deliveries[|old(deliveries)|..] == served;
    }

    /** The body of the fulfilment loop: the waiter registered under the
        response's id, if any, is removed and handed the response's outcome;
        an unknown id changes nothing. */
    method Fulfil(response: Response)
      requires Valid()
      modifies this`pending, this`deliveries
      ensures Valid()
      ensures pending == old(pending) - {response.id}
      ensures deliveries == old(deliveries) +
        (if response.id in old(pending) then [Delivery(old(pending)[response.id].sender, response.result)] else [])
    {
      if response.id in pending {
        var entry := pending[response.id];
        FulfilKeepsConsistent(pending, deliveries, response.id, response.result);
        pending := pending - {response.id};
        deliveries := deliveries + [Delivery(entry.sender, response.result)];
      }
    }
  }
}
