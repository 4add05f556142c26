/** The device's bookkeeping in pocl-vortex.c: the count of contexts that
    use the device, whose last release shuts the device down, and the two
    command lists (commands waiting on events, and commands ready to run)
    with the scheduler that drains the ready list. The driver's lock is
    left out; every operation runs to completion before the next. */
module Scheduler {
  import opened Base

  // ---------------------------------------------------------------------
  // Context refcount

  /** The device data, present from init until uninit releases it; only its
      size_t context count matters here. */
  datatype DeviceData = DeviceData(ctxRefcount: nat)

  predicate CountOk(dd: Option<DeviceData>)
  {
    dd.Some? ==> dd.value.ctxRefcount < U64
  }

  /** pocl_vortex_init_context: one more context, nothing once released. */
  function InitContext(dd: Option<DeviceData>): (r: Option<DeviceData>)
    requires CountOk(dd)
    ensures CountOk(r) && r.Some? == dd.Some?
  {
    if dd.None? then None else Some(DeviceData(Inc64(dd.value.ctxRefcount)))
  }

  /** pocl_vortex_free_context: one context fewer; the device is shut down
      when the count reaches 0. */
  function FreeContext(dd: Option<DeviceData>): (r: Option<DeviceData>)
    requires CountOk(dd)
    ensures CountOk(r)
    ensures dd.None? ==> r.None?
    ensures dd.Some? ==> (r.None? <==> dd.value.ctxRefcount == 1)
    ensures r.Some? ==> dd.Some? && (r.value.ctxRefcount + 1) % U64 == dd.value.ctxRefcount
  {
    if dd.None? then None
    else if Dec64(dd.value.ctxRefcount) == 0 then None
    else Some(DeviceData(Dec64(dd.value.ctxRefcount)))
  }

  /** `n` context creations on a freshly initialised device. */
  function Inits(dd: Option<DeviceData>, n: nat): (r: Option<DeviceData>)
    requires CountOk(dd)
    ensures CountOk(r)
  {
    if n == 0 then dd else InitContext(Inits(dd, n - 1))
  }

  /** `n` context releases. */
  function Frees(dd: Option<DeviceData>, n: nat): (r: Option<DeviceData>)
    requires CountOk(dd)
    ensures CountOk(r)
  {
    if n == 0 then dd else FreeContext(Frees(dd, n - 1))
  }

  /** Starting from init's count of 0, n contexts give a count of n. */
  lemma {:induction false} InitsCount(n: nat)
    requires n < U64
    ensures Inits(Some(DeviceData(0)), n) == Some(DeviceData(n))
  {
    if n > 0 {
      InitsCount(n - 1);
    }
  }

  /** Releasing k of n contexts keeps the device with n - k left; the n-th
      release shuts it down. */
  lemma {:induction false} FreesCount(n: nat, k: nat)
    requires 1 <= n < U64 && k <= n
    ensures k < n ==> Frees(Some(DeviceData(n)), k) == Some(DeviceData(n - k))
    ensures k == n ==> Frees(Some(DeviceData(n)), k) == None
  {
    if k > 0 {
      FreesCount(n, k - 1);
    }
  }

  /** The device is shut down exactly when every context created on it has
      been released. */
  lemma BalancedShutdown(n: nat, k: nat)
    requires 1 <= n < U64 && k <= n
    ensures Frees(Inits(Some(DeviceData(0)), n), k).None? <==> k == n
  {
    InitsCount(n);
    FreesCount(n, k);
  }

  /** A release without a matching creation wraps the size_t count instead
      of shutting the device down. */
  lemma UnbalancedFreeWraps()
    ensures FreeContext(Some(DeviceData(0))) == Some(DeviceData(U64 - 1))
  {
  }

  // ---------------------------------------------------------------------
  // Command lists

  /** The status of a command's event. */
  datatype Status = Queued | Submitted | Running | Complete | Failed

  /** A command node: its event's status and the `ready` flag submit sets. */
  datatype Node = Node(status: Status, ready: bool)

  /** The device's lists: `pending` is command_list, `readyList` is
      ready_list, both with the head first; `executed` records, in order,
      the commands the scheduler handed to execution. */
  datatype Queue = Queue(nodes: map<nat, Node>, readyList: seq<nat>, pending: seq<nat>, executed: seq<nat>)

  predicate Distinct(s: seq<nat>)
  {
    forall i, j :: 0 <= i < j < |s| ==> s[i] != s[j]
  }

  /** Each node is in at most one list, at most once; every listed node is
      known; every ready node is submitted. */
  predicate Wf(q: Queue)
  {
    && Distinct(q.readyList) && Distinct(q.pending)
    && (forall n :: n in q.readyList ==> n !in q.pending)
    && (forall n :: n in q.readyList ==> n in q.nodes && q.nodes[n].status == Submitted)
    && (forall n :: n in q.pending ==> n in q.nodes)
  }

  /** CDL_DELETE: the list without `n`. */
  function Remove(s: seq<nat>, n: nat): (r: seq<nat>)
    ensures n !in r
    ensures forall m :: m in r <==> m in s && m != n
    ensures |r| <= |s|
  {
    if s == [] then []
    else if s[0] == n then Remove(s[1..], n)
    else [s[0]] + Remove(s[1..], n)
  }

  /** Removing a node that is listed once takes exactly that one node out. */
  lemma {:induction false} RemoveOne(s: seq<nat>, n: nat)
    requires Distinct(s)
    ensures Distinct(Remove(s, n))
    ensures multiset(Remove(s, n)) + (if n in s then multiset{n} else multiset{}) == multiset(s)
  {
    if s != [] {
      assert s == [s[0]] + s[1..];
      RemoveOne(s[1..], n);
      if s[0] == n {
        assert n !in s[1..];
      } else {
        var r := Remove(s[1..], n);
        assert Remove(s, n) == [s[0]] + r;
        assert s[0] !in r;
      }
    }
  }

  /** vortex_command_scheduler: while ready_list has a head, take it off
      and execute it. The scheduler asserts each head is submitted. */
  method Drain(q: Queue) returns (r: Result<Queue>)
    ensures Wf(q) ==> r.Ok?
    ensures r.Ok? ==> r.value == q.(readyList := [], executed := q.executed + q.readyList)
    ensures r.Abort? ==> exists n :: n in q.readyList && (n !in q.nodes || q.nodes[n].status != Submitted)
  {
    var list := q.readyList;
    var done := q.executed;
    while list != []
      invariant done + list == q.executed + q.readyList
      invariant forall n :: n in list ==> n in q.readyList
      decreases |list|
    {
      var n := list[0];
      if n !in q.nodes || q.nodes[n].status != Submitted {
        return Abort("assert(event->status == CL_SUBMITTED)");
      }
      done := done + [n];
      list := list[1..];
    }
    return Ok(q.(readyList := [], executed := done));
  }

  /** pocl_vortex_notify, for the command `n` whose event depended on an
      event that finished with `finished` (negative is an error). A failed
      dependency fails the event and touches no list; a ready, queued
      command whose dependencies are all met (`depsMet`) is submitted,
      moved from command_list to the head of ready_list, and the ready list
      is drained. */
  method Notify(q: Queue, n: nat, finished: int, depsMet: bool) returns (r: Result<Queue>)
    requires n in q.nodes
    ensures finished < 0 ==> r == Ok(q.(nodes := q.nodes[n := q.nodes[n].(status := Failed)]))
    ensures finished >= 0 && !(q.nodes[n].ready && depsMet && q.nodes[n].status == Queued) ==> r == Ok(q)
    ensures finished >= 0 && q.nodes[n].ready && depsMet && q.nodes[n].status == Queued && Wf(q) ==>
              r == Ok(Queue(q.nodes[n := q.nodes[n].(status := Submitted)], [],
                            Remove(q.pending, n), q.executed + [n] + q.readyList))
  {
    if finished < 0 {
      return Ok(q.(nodes := q.nodes[n := q.nodes[n].(status := Failed)]));
    }
    var node := q.nodes[n];
    if !node.ready || !depsMet || node.status != Queued {
      return Ok(q);
    }
    var moved := Queue(q.nodes[n := node.(status := Submitted)], [n] + q.readyList, Remove(q.pending, n), q.executed);
    if Wf(q) {
      MoveKeepsWf(q, n);
    }
    r := Drain(moved);
    assert q.executed + ([n] + q.readyList) == q.executed + [n] + q.readyList;
  }

  /** Moving a queued node to the head of the ready list keeps the lists
      well formed. */
  lemma MoveKeepsWf(q: Queue, n: nat)
    requires Wf(q) && n in q.nodes && q.nodes[n].status == Queued
    ensures Wf(Queue(q.nodes[n := q.nodes[n].(status := Submitted)], [n] + q.readyList, Remove(q.pending, n), q.executed))
  {
    RemoveOne(q.pending, n);
    var l := [n] + q.readyList;
    assert n !in q.readyList;
    forall i, j | 0 <= i < j < |l|
      ensures l[i] != l[j]
    {
      if i > 0 {
        assert l[i] == q.readyList[i - 1] && l[j] == q.readyList[j - 1];
      } else {
        assert l[j] in q.readyList;
      }
    }
  }

  /** pocl_vortex_submit: the command is marked ready and pushed to the head
      of ready_list (submitted) when its dependencies are met, to the head of
      command_list otherwise; then the ready list is drained. */
  method Submit(q: Queue, n: nat, node: Node, depsMet: bool) returns (r: Result<Queue>)
    requires n !in q.nodes
    ensures Wf(q) ==> r.Ok?
    ensures r.Ok? && depsMet ==>
              r.value == Queue(q.nodes[n := node.(ready := true, status := Submitted)], [], q.pending,
                               q.executed + [n] + q.readyList)
    ensures r.Ok? && !depsMet ==>
              r.value == Queue(q.nodes[n := node.(ready := true)], [], [n] + q.pending, q.executed + q.readyList)
  {
    var pushed;
    if depsMet {
      pushed := Queue(q.nodes[n := node.(ready := true, status := Submitted)], [n] + q.readyList, q.pending, q.executed);
    } else {
      pushed := Queue(q.nodes[n := node.(ready := true)], q.readyList, [n] + q.pending, q.executed);
    }
    if Wf(q) {
      PushKeepsWf(q, n, node, depsMet);
    }
    r := Drain(pushed);
    assert q.executed + ([n] + q.readyList) == q.executed + [n] + q.readyList;
  }

  /** Pushing a new node keeps the lists well formed. */
  lemma PushKeepsWf(q: Queue, n: nat, node: Node, depsMet: bool)
    requires Wf(q) && n !in q.nodes
    ensures depsMet ==> Wf(Queue(q.nodes[n := node.(ready := true, status := Submitted)], [n] + q.readyList, q.pending, q.executed))
    ensures !depsMet ==> Wf(Queue(q.nodes[n := node.(ready := true)], q.readyList, [n] + q.pending, q.executed))
  {
    assert n !in q.readyList && n !in q.pending;
    PrependDistinct(q.readyList, n);
    PrependDistinct(q.pending, n);
  }

  lemma PrependDistinct(s: seq<nat>, n: nat)
    requires Distinct(s) && n !in s
    ensures Distinct([n] + s)
  {
    var l := [n] + s;
    forall i, j | 0 <= i < j < |l|
      ensures l[i] != l[j]
    {
      if i > 0 {
        assert l[i] == s[i - 1] && l[j] == s[j - 1];
      } else {
        assert l[j] in s;
      }
    }
  }

  /** Nothing is lost or run twice: after a notify on a well-formed queue,
      the waiting, ready and executed commands are those there were before.
      The result is well formed again, with an empty ready list. */
  lemma NotifyConserves(q: Queue, n: nat, finished: int, depsMet: bool, r: Queue)
    requires Wf(q) && n in q.nodes && q.nodes[n].status == Queued && n in q.pending
    requires finished >= 0 && q.nodes[n].ready && depsMet
    requires r == Queue(q.nodes[n := q.nodes[n].(status := Submitted)], [],
                        Remove(q.pending, n), q.executed + [n] + q.readyList)
    ensures multiset(r.pending) + multiset(r.readyList) + multiset(r.executed)
            == multiset(q.pending) + multiset(q.readyList) + multiset(q.executed)
    ensures Wf(r)
  {
    RemoveOne(q.pending, n);
  }
}
