/** What a select call reports, what wakes it, and what the socket fields that
    it reads say about the events so far. */
module SelectResults {
  import opened Select

  // ----- the fields follow the events

  /** The last send event of socket k decides, or what was there before. */
  function SendAfter(steps: seq<Step>, k: nat, before: bool): bool {
    if steps == [] then before
    else if steps[|steps| - 1] == Signal(SendPlus, k) then true
    else if steps[|steps| - 1] == Signal(SendMinus, k) then false
    else SendAfter(steps[..|steps| - 1], k, before)
  }

  /** The last change of the left-over data of socket k decides. */
  function LastDataAfter(steps: seq<Step>, k: nat, before: bool): bool {
    if steps == [] then before
    else if steps[|steps| - 1].LastData? && steps[|steps| - 1].s == k then steps[|steps| - 1].present
    else LastDataAfter(steps[..|steps| - 1], k, before)
  }

  lemma {:induction false} LastStep(s: State, steps: seq<Step>, end: State) returns (mid: State)
    requires steps != [] && Reaches(s, steps, end)
    ensures
      var n := |steps| - 1;
      Reaches(s, steps[..n], mid) && Enabled(mid, steps[n]) && Next(mid, steps[n]) == end
    decreases |steps|
  {
    hide Enabled, Next;
    if |steps| == 1 {
      mid := s;
    } else {
      mid := LastStep(Next(s, steps[0]), steps[1..], end);
      var n := |steps| - 1;
      assert steps[..n][1..] == steps[1..][..n - 1];
    }
  }

  lemma {:induction false} FieldsAfterStep(s: State, step: Step, k: nat)
    requires Enabled(s, step) && k < |s.sockets|
    ensures
      var t := Next(s, step);
      && |t.sockets| == |s.sockets| && |t.threads| == |s.threads|
      && t.sockets[k].open == s.sockets[k].open
      && t.sockets[k].sendEvent == SendAfter([step], k, s.sockets[k].sendEvent)
      && t.sockets[k].lastData == LastDataAfter([step], k, s.sockets[k].lastData)
      && t.sockets[k].errEvent == (s.sockets[k].errEvent || step == Signal(Error, k))
      && (t.sockets[k].rcvEvent - s.sockets[k].rcvEvent - Moves(step, k)) % 65536 == 0
  {
    hide Without, AdvanceThread;
    assert [step][..0] == [];
    if step.Advance? {
      AdvanceFields(s, step.t, k);
    }
  }

  /** A call changes no field of a socket but the counter of its waiters. */
  lemma {:induction false} AdvanceFields(s: State, t: nat, k: nat)
    requires CanAdvance(s, t) && k < |s.sockets|
    ensures
      var s' := AdvanceThread(s, t);
      && |s'.sockets| == |s.sockets| && |s'.threads| == |s.threads|
      && s'.sockets[k] == s.sockets[k].(selectWaiting := s'.sockets[k].selectWaiting)
  {
    hide Without, ScanStep;
  }

  lemma {:induction false} NetOfLast(steps: seq<Step>, k: nat)
    requires steps != []
    ensures Net(steps, k) == Net(steps[..|steps| - 1], k) + Moves(steps[|steps| - 1], k)
  {
    if |steps| > 1 {
      NetOfLast(steps[1..], k);
      assert steps[1..][..|steps| - 2] == steps[..|steps| - 1][1..];
    }
  }

  lemma {:induction false} SnocAgrees(steps: seq<Step>, k: nat, a: bool, b: bool)
    requires steps != []
    ensures
      var init, last := steps[..|steps| - 1], [steps[|steps| - 1]];
      && SendAfter(steps, k, a) == SendAfter(last, k, SendAfter(init, k, a))
      && LastDataAfter(steps, k, b) == LastDataAfter(last, k, LastDataAfter(init, k, b))
  {
    assert [steps[|steps| - 1]][..0] == [];
  }

  /** After every run the writable flag is the last send event, the error flag
      says whether there was an error, and the receive counter is the raisings
      minus the lowerings modulo 2^16. */
  lemma {:induction false} FieldsFollowEvents(s: State, steps: seq<Step>, end: State, k: nat)
    requires Reaches(s, steps, end) && k < |s.sockets|
    ensures |end.sockets| == |s.sockets| && |end.threads| == |s.threads|
    ensures end.sockets[k].open == s.sockets[k].open
    ensures end.sockets[k].sendEvent == SendAfter(steps, k, s.sockets[k].sendEvent)
    ensures end.sockets[k].lastData == LastDataAfter(steps, k, s.sockets[k].lastData)
    ensures end.sockets[k].errEvent <==> s.sockets[k].errEvent || Signal(Error, k) in steps
    ensures (end.sockets[k].rcvEvent - s.sockets[k].rcvEvent - Net(steps, k)) % 65536 == 0
    decreases |steps|
  {
    hide Next, Enabled;
    if steps != [] {
      var n := |steps| - 1;
      var mid := LastStep(s, steps, end);
      FieldsFollowEvents(s, steps[..n], mid, k);
      FieldsAfterStep(mid, steps[n], k);
      SnocAgrees(steps, k, s.sockets[k].sendEvent, s.sockets[k].lastData);
      NetOfLast(steps, k);
      assert steps == steps[..n] + [steps[n]];
      hide SendAfter, LastDataAfter, Net, Moves;
    }
  }

  // ----- what a scan counts

  function Readable(sockets: seq<Socket>, fds: set<nat>, n: nat): set<nat> {
    set k | k in fds && k < n && k < |sockets| && (sockets[k].lastData || sockets[k].rcvEvent > 0)
  }

  function Writable(sockets: seq<Socket>, fds: set<nat>, n: nat): set<nat> {
    set k | k in fds && k < n && k < |sockets| && sockets[k].sendEvent
  }

  function Failed(sockets: seq<Socket>, fds: set<nat>, n: nat): set<nat> {
    set k | k in fds && k < n && k < |sockets| && sockets[k].errEvent
  }

  /** The descriptors below n that are ready, counted once per set. */
  function ReadyTotal(sockets: seq<Socket>, sets: FdSets, n: nat): nat {
    |Readable(sockets, sets.read, n)| + |Writable(sockets, sets.write, n)| + |Failed(sockets, sets.except, n)|
  }

  lemma {:induction false} NextReadable(sockets: seq<Socket>, fds: set<nat>, i: nat)
    ensures |Readable(sockets, fds, i + 1)| == |Readable(sockets, fds, i)| +
      Bit(i in fds && i < |sockets| && (sockets[i].lastData || sockets[i].rcvEvent > 0))
  {
    var a, b := Readable(sockets, fds, i), Readable(sockets, fds, i + 1);
    assert b == if i in b then a + {i} else a;
  }

  lemma {:induction false} NextWritable(sockets: seq<Socket>, fds: set<nat>, i: nat)
    ensures |Writable(sockets, fds, i + 1)| == |Writable(sockets, fds, i)| +
      Bit(i in fds && i < |sockets| && sockets[i].sendEvent)
  {
    var a, b := Writable(sockets, fds, i), Writable(sockets, fds, i + 1);
    assert b == if i in b then a + {i} else a;
  }

  lemma {:induction false} NextFailed(sockets: seq<Socket>, fds: set<nat>, i: nat)
    ensures |Failed(sockets, fds, i + 1)| == |Failed(sockets, fds, i)| +
      Bit(i in fds && i < |sockets| && sockets[i].errEvent)
  {
    var a, b := Failed(sockets, fds, i), Failed(sockets, fds, i + 1);
    assert b == if i in b then a + {i} else a;
  }

  lemma {:induction false} TotalOfNext(sockets: seq<Socket>, th: Thread, i: nat)
    ensures i < |sockets| ==>
      ReadyTotal(sockets, th.sets, i + 1) == ReadyTotal(sockets, th.sets, i) + ReadyCount(th, i, sockets[i])
    ensures !Watched(th.sets, i) ==> ReadyTotal(sockets, th.sets, i + 1) == ReadyTotal(sockets, th.sets, i)
  {
    hide Readable, Writable, Failed;
    NextReadable(sockets, th.sets.read, i);
    NextWritable(sockets, th.sets.write, i);
    NextFailed(sockets, th.sets.except, i);
  }

  predicate Scanning(pc: Pc) {
    pc.FirstScan? || pc.SecondScan? || pc.LastScan?
  }

  /** Thread t in its scan, come to socket i, with the right count so far. */
  function AtSocket(s: State, t: nat, i: nat): State
    requires t < |s.threads| && Scanning(s.threads[t].pc)
  {
    var th := s.threads[t];
    SetThread(s, t, th.(pc := th.pc.(i := i, n := ReadyTotal(s.sockets, th.sets, i))))
  }

  lemma {:induction false} ScanGoesOn(s: State, t: nat, i: nat)
    requires t < |s.threads| && Scanning(s.threads[t].pc) && i < s.threads[t].maxfdp1
    requires AllOpen(s.sockets, s.threads[t].sets, s.threads[t].maxfdp1)
    ensures Enabled(AtSocket(s, t, i), Advance(t)) && Next(AtSocket(s, t, i), Advance(t)) == AtSocket(s, t, i + 1)
  {
    hide ReadyTotal, ReadyCount;
    var m := AtSocket(s, t, i);
    var th := s.threads[t];
    TotalOfNext(s.sockets, m.threads[t], i);
    assert m.threads[t].sets == th.sets;
    assert SetThread(m, t, AtSocket(s, t, i + 1).threads[t]) == AtSocket(s, t, i + 1);
    CountSets(th, m.threads[t], i, s.sockets);
  }

  lemma CountSets(th: Thread, th': Thread, i: nat, sockets: seq<Socket>)
    requires th.sets == th'.sets
    ensures i < |sockets| ==> ReadyCount(th, i, sockets[i]) == ReadyCount(th', i, sockets[i])
  {
  }

  lemma {:induction false} ScanRuns(s: State, t: nat, i: nat, n: nat)
    requires t < |s.threads| && Scanning(s.threads[t].pc) && i + n == s.threads[t].maxfdp1
    requires AllOpen(s.sockets, s.threads[t].sets, s.threads[t].maxfdp1)
    ensures Reaches(AtSocket(s, t, i), Repeat(Advance(t), n), AtSocket(s, t, s.threads[t].maxfdp1))
    decreases n
  {
    hide AtSocket, AllOpen, Enabled, Next;
    if n > 0 {
      ScanGoesOn(s, t, i);
      ScanRuns(s, t, i + 1, n - 1);
      assert Repeat(Advance(t), n)[1..] == Repeat(Advance(t), n - 1);
    }
  }

  lemma NothingBelowZero(sockets: seq<Socket>, sets: FdSets)
    ensures ReadyTotal(sockets, sets, 0) == 0
  {
    assert Readable(sockets, sets.read, 0) == {};
    assert Writable(sockets, sets.write, 0) == {};
    assert Failed(sockets, sets.except, 0) == {};
  }

  function Called(th: Thread, n: nat, sets: FdSets, timeout: Timeout): Thread {
    th.(maxfdp1 := n, sets := sets, timeout := timeout)
  }

  /** A call with valid descriptors that is not interrupted returns the number of
      ready ones, if there are any or it is only polling, and otherwise goes on
      to wait. */
  lemma {:induction false} CallReportsReady(s: State, t: nat, n: nat, sets: FdSets, timeout: Timeout)
    requires t < |s.threads| && s.threads[t].pc.Idle? && AllOpen(s.sockets, sets, n)
    ensures
      var th := Called(s.threads[t], n, sets, timeout);
      var ready := ReadyTotal(s.sockets, sets, n);
      Reaches(s, [Begin(t, n, sets, timeout)] + Repeat(Advance(t), n) + [Advance(t)],
              SetThread(s, t, if ready > 0 || timeout == Poll then th.(pc := Idle, result := ready)
                              else th.(pc := Linking)))
  {
    var th := Called(s.threads[t], n, sets, timeout).(pc := FirstScan(0, 0));
    var begun := SetThread(s, t, th);
    NothingBelowZero(s.sockets, sets);
    assert AtSocket(begun, t, 0) == begun;
    var done := AtSocket(begun, t, n);
    var end := Next(done, Advance(t));
    assert end == SetThread(s, t, end.threads[t]);
    hide Next, Enabled, ReadyTotal, AllOpen;
    ScanRuns(begun, t, 0, n);
    OneStep(s, Begin(t, n, sets, timeout), begun);
    OneStep(done, Advance(t), end);
    hide AtSocket;
    ReachesConcat(s, [Begin(t, n, sets, timeout)], begun, Repeat(Advance(t), n), done);
    ReachesConcat(s, [Begin(t, n, sets, timeout)] + Repeat(Advance(t), n), done, [Advance(t)], end);
  }

  lemma OneStep(s: State, step: Step, next: State)
    requires Enabled(s, step) && Next(s, step) == next
    ensures Reaches(s, [step], next)
  {
  }

  // ----- a woken call

  /** Sockets that differ at most in the counters of their waiters. */
  ghost predicate SameEvents(a: seq<Socket>, b: seq<Socket>) {
    |a| == |b| && forall k :: 0 <= k < |a| ==> b[k] == a[k].(selectWaiting := b[k].selectWaiting)
  }

  lemma {:induction false} SameTotal(a: seq<Socket>, b: seq<Socket>, sets: FdSets, n: nat)
    requires SameEvents(a, b)
    ensures ReadyTotal(a, sets, n) == ReadyTotal(b, sets, n)
    ensures AllOpen(a, sets, n) ==> AllOpen(b, sets, n)
  {
    assert Readable(a, sets.read, n) == Readable(b, sets.read, n);
    assert Writable(a, sets.write, n) == Writable(b, sets.write, n);
    assert Failed(a, sets.except, n) == Failed(b, sets.except, n);
  }

  /** Only the thread's own place, the list and the counters have changed. */
  ghost predicate Moved(s: State, s': State, t: nat, pc: Pc) {
    && t < |s.threads| == |s'.threads| && s'.threads[t] == s.threads[t].(pc := pc)
    && SameEvents(s.sockets, s'.sockets) && s'.callback == s.callback
  }

  lemma {:induction false} UncountOne(s: State, t: nat)
    requires t < |s.threads| && s.threads[t].pc.Uncounting? && s.threads[t].pc.i < s.threads[t].maxfdp2
    requires AllOpen(s.sockets, s.threads[t].sets, s.threads[t].maxfdp2)
    ensures CanAdvance(s, t)
    ensures Moved(s, AdvanceThread(s, t), t, Uncounting(s.threads[t].pc.i + 1))
  {
  }

  lemma {:induction false} UncountRuns(s: State, t: nat, n: nat) returns (end: State)
    requires t < |s.threads| && s.threads[t].pc.Uncounting? && s.threads[t].pc.i + n == s.threads[t].maxfdp2
    requires AllOpen(s.sockets, s.threads[t].sets, s.threads[t].maxfdp2)
    ensures Reaches(s, Repeat(Advance(t), n), end) && Moved(s, end, t, Uncounting(s.threads[t].maxfdp2))
    decreases n
  {
    hide ReadyTotal, AllOpen;
    if n == 0 {
      end := s;
    } else {
      UncountOne(s, t);
      var m := AdvanceThread(s, t);
      SameTotal(s.sockets, m.sockets, s.threads[t].sets, s.threads[t].maxfdp2);
      end := UncountRuns(m, t, n - 1);
      hide AdvanceThread;
      assert Repeat(Advance(t), n)[1..] == Repeat(Advance(t), n - 1);
    }
  }

  lemma {:induction false} LeaveList(s: State, t: nat) returns (end: State)
    requires t < |s.threads| && s.threads[t].pc == Uncounting(s.threads[t].maxfdp2) && s.callback.NoCallback?
    requires s.threads[t].nready == 0 && !s.threads[t].timedOut
    ensures Reaches(s, [Advance(t), Advance(t)], end) && Moved(s, end, t, LastScan(0, 0))
  {
    hide Without;
    var m := AdvanceThread(s, t);
    assert m == SetThread(s, t, s.threads[t].(pc := Unlinking));
    end := AdvanceThread(m, t);
    OneStep(s, Advance(t), m);
    OneStep(m, Advance(t), end);
    hide Reaches, Enabled, Next;
    ReachesConcat(s, [Advance(t)], m, [Advance(t)], end);
    assert [Advance(t)] + [Advance(t)] == [Advance(t), Advance(t)];
  }

  lemma {:induction false} LastScanReports(s: State, t: nat, n: nat)
    requires t < |s.threads| && s.threads[t].pc == LastScan(0, 0) && n == s.threads[t].maxfdp1
    requires AllOpen(s.sockets, s.threads[t].sets, n)
    ensures Reaches(s, Repeat(Advance(t), n) + [Advance(t)],
                    SetThread(s, t, s.threads[t].(pc := Idle, result := ReadyTotal(s.sockets, s.threads[t].sets, n))))
  {
    NothingBelowZero(s.sockets, s.threads[t].sets);
    assert AtSocket(s, t, 0) == s;
    var done := AtSocket(s, t, n);
    var end := Next(done, Advance(t));
    assert end == SetThread(s, t, end.threads[t]);
    OneStep(done, Advance(t), end);
    hide Next, Enabled, ReadyTotal, AllOpen, Reaches;
    ScanRuns(s, t, 0, n);
    hide AtSocket;
    ReachesConcat(s, Repeat(Advance(t), n), done, [Advance(t)], end);
  }

  /** A woken call that is not interrupted leaves the counters and the list and
      returns the number of descriptors that are ready then. */
  lemma {:induction false} WokenReportsReady(s: State, t: nat) returns (steps: seq<Step>, end: State)
    requires t < |s.threads| && s.threads[t].pc.Waiting? && s.threads[t].sem > 0 && s.callback.NoCallback?
    requires s.threads[t].nready == 0 && !s.threads[t].timedOut && s.threads[t].maxfdp2 == s.threads[t].maxfdp1
    requires AllOpen(s.sockets, s.threads[t].sets, s.threads[t].maxfdp1)
    ensures Reaches(s, steps, end) && t < |end.threads| && end.threads[t].pc.Idle?
    ensures forall j :: 0 <= j < |steps| ==> steps[j] == Advance(t)
    ensures end.threads[t].result == ReadyTotal(s.sockets, s.threads[t].sets, s.threads[t].maxfdp1)
  {
    hide ReadyTotal, AllOpen;
    var th := s.threads[t];
    var n := th.maxfdp1;
    var m0 := SetThread(s, t, th.(pc := Uncounting(0), sem := th.sem - 1));
    OneStep(s, Advance(t), m0);
    hide Reaches, Enabled, Next;
    var m1 := UncountRuns(m0, t, n);
    SameTotal(m0.sockets, m1.sockets, th.sets, n);
    var m2 := LeaveList(m1, t);
    SameTotal(m1.sockets, m2.sockets, th.sets, n);
    LastScanReports(m2, t, n);
    end := SetThread(m2, t, m2.threads[t].(pc := Idle, result := ReadyTotal(m2.sockets, th.sets, n)));
    RepeatIs(Advance(t), n);
    var a, b, c := [Advance(t)], Repeat(Advance(t), n), [Advance(t), Advance(t)];
    ReachesConcat(s, a, m0, b, m1);
    ReachesConcat(s, a + b, m1, c, m2);
    ReachesConcat(s, a + b + c, m2, b + a, end);
    steps := a + b + c + (b + a);
  }

  lemma {:induction false} RepeatIs(step: Step, n: nat)
    ensures forall j :: 0 <= j < |Repeat(step, n)| ==> Repeat(step, n)[j] == step
  {
    if n > 0 {
      RepeatIs(step, n - 1);
    }
  }

  // ----- calls do not fail without cause

  /** The step asks only for sockets that are there. */
  predicate GoodCall(step: Step, sockets: nat) {
    step.Begin? ==> forall k: nat :: k < step.maxfdp1 && Watched(step.sets, k) ==> k < sockets
  }

  ghost predicate Succeeding(s: State) {
    && (forall k :: 0 <= k < |s.sockets| ==> s.sockets[k].open)
    && (forall t :: 0 <= t < |s.threads| ==> ThreadFine(s.threads[t], |s.sockets|))
  }

  predicate ThreadFine(th: Thread, sockets: nat) {
    && th.result >= 0
    && (Linked(th.pc) ==> th.nready >= 0)
    && (!th.pc.Idle? ==> forall k: nat :: k < th.maxfdp1 && Watched(th.sets, k) ==> k < sockets)
  }

  lemma {:induction false} CountersBelow(threads: seq<Thread>, t: nat, k: nat)
    requires t < |threads| && !Counted(threads[t], k)
    ensures Counters(threads, k) < |threads|
  {
    if t > 0 {
      CountersBelow(threads[1..], t - 1, k);
    }
  }

  lemma {:induction false} AdvanceSucceeds(s: State, t: nat)
    requires Structure(s) && Succeeding(s) && |s.threads| <= 255 && CanAdvance(s, t)
    ensures ThreadFine(AdvanceThread(s, t).threads[t], |s.sockets|)
  {
    hide Without, WaitersAreLinked, CallbackOk;
    var th := s.threads[t];
    assert ThreadFine(th, |s.sockets|) && ThreadOk(s.sockets, th);
    if th.pc.Counting? && th.pc.i < th.maxfdp1 && Watched(th.sets, th.pc.i) {
      CountersBelow(s.threads, t, th.pc.i);
      assert s.sockets[th.pc.i].selectWaiting < 255;
    }
  }

  lemma {:induction false} StepSucceeds(s: State, step: Step)
    requires Structure(s) && Succeeding(s) && |s.threads| <= 255 && Enabled(s, step) && GoodCall(step, |s.sockets|)
    ensures Succeeding(Next(s, step)) && |Next(s, step).threads| == |s.threads|
    ensures |Next(s, step).sockets| == |s.sockets|
  {
    hide Structure, ScanStep, Without, Updated, ChecksWaiters;
    SocketsStay(s, step);
    if step.Advance? {
      AdvanceSucceeds(s, step.t);
    }
    var s' := Next(s, step);
    forall t | 0 <= t < |s'.threads| ensures ThreadFine(s'.threads[t], |s'.sockets|) {
      assert ThreadFine(s.threads[t], |s.sockets|);
    }
  }

  lemma {:induction false} SocketsStay(s: State, step: Step)
    requires Enabled(s, step)
    ensures
      var t := Next(s, step);
      && |t.sockets| == |s.sockets| && |t.threads| == |s.threads|
      && forall k :: 0 <= k < |s.sockets| ==> t.sockets[k].open == s.sockets[k].open
  {
    hide Next, Enabled;
    if s.sockets == [] {
      NoSockets(s, step);
    }
    forall k | 0 <= k < |s.sockets|
      ensures |Next(s, step).sockets| == |s.sockets| && |Next(s, step).threads| == |s.threads|
      ensures Next(s, step).sockets[k].open == s.sockets[k].open
    {
      FieldsAfterStep(s, step, k);
    }
    if s.sockets != [] {
      FieldsAfterStep(s, step, 0);
    }
  }

  lemma NoSockets(s: State, step: Step)
    requires Enabled(s, step) && s.sockets == []
    ensures Next(s, step).sockets == [] && |Next(s, step).threads| == |s.threads|
  {
  }

  lemma {:induction false} SucceedAlong(s: State, steps: seq<Step>, end: State)
    requires Structure(s) && Succeeding(s) && |s.threads| <= 255 && Reaches(s, steps, end)
    requires forall j :: 0 <= j < |steps| ==> GoodCall(steps[j], |s.sockets|)
    ensures Succeeding(end)
    decreases |steps|
  {
    hide Structure, Succeeding, Next, Enabled, GoodCall;
    if steps != [] {
      StepKeepsStructure(s, steps[0]);
      StepSucceeds(s, steps[0]);
      SucceedAlong(Next(s, steps[0]), steps[1..], end);
    }
  }

  /** With at most 255 threads, open sockets and descriptors in range, no call
      reports an error, whatever the interleaving. */
  lemma {:induction false} NoCallFails(s: State, steps: seq<Step>, end: State, t: nat)
    requires Initial(s) && |s.threads| <= 255 && Reaches(s, steps, end) && t < |end.threads|
    requires forall k :: 0 <= k < |s.sockets| ==> s.sockets[k].open
    requires forall u :: 0 <= u < |s.threads| ==> s.threads[u].result >= 0
    requires forall j :: 0 <= j < |steps| ==> GoodCall(steps[j], |s.sockets|)
    ensures end.threads[t].result >= 0
  {
    hide Structure, Reaches, GoodCall, Served;
    InitialInv(s);
    SucceedAlong(s, steps, end);
    assert ThreadFine(end.threads[t], |end.sockets|);
  }

  // ----- nobody is woken without cause

  /** The linked threads are the same, with the same descriptors. */
  ghost predicate SameCalls(a: State, b: State) {
    && |a.threads| == |b.threads|
    && forall t :: 0 <= t < |a.threads| ==>
         Linked(a.threads[t].pc) == Linked(b.threads[t].pc)
         && (Linked(a.threads[t].pc) ==> a.threads[t].sets == b.threads[t].sets)
  }

  predicate SameFlags(sock: Socket, cb: Callback) {
    cb.Walking? && (sock.rcvEvent > 0) == cb.recv && sock.sendEvent == cb.send && sock.errEvent == cb.err
  }

  /** The callback under way goes by what its socket showed at some point of the
      run, when the calls under way were those of now. */
  ghost predicate FlagsSeen(s0: State, steps: seq<Step>, s: State) {
    s.callback.Walking? ==> exists m, mid ::
      0 <= m <= |steps| && Reaches(s0, steps[..m], mid) && SameCalls(mid, s)
      && s.callback.s < |mid.sockets| && SameFlags(mid.sockets[s.callback.s], s.callback)
  }

  /** At some point of the run thread t was linked with these descriptors and an
      event was set on one of them. */
  ghost predicate WasSet(s0: State, steps: seq<Step>, t: nat, sets: FdSets) {
    exists m, mid, k ::
      0 <= m <= |steps| && Reaches(s0, steps[..m], mid) && 0 <= k < |mid.sockets|
      && t < |mid.threads| && Linked(mid.threads[t].pc) && mid.threads[t].sets == sets
      && HasEvent(sets, k, mid.sockets[k])
  }

  ghost predicate WakingsSeen(s0: State, steps: seq<Step>, s: State) {
    forall t :: 0 <= t < |s.threads| && Linked(s.threads[t].pc) && s.threads[t].signalled ==>
      WasSet(s0, steps, t, s.threads[t].sets)
  }

  lemma {:induction false} WasSetStays(s0: State, steps: seq<Step>, step: Step, t: nat, sets: FdSets)
    requires WasSet(s0, steps, t, sets)
    ensures WasSet(s0, steps + [step], t, sets)
  {
    hide Reaches, HasEvent, Linked;
    var m, mid, k :|
      0 <= m <= |steps| && Reaches(s0, steps[..m], mid) && 0 <= k < |mid.sockets|
      && t < |mid.threads| && Linked(mid.threads[t].pc) && mid.threads[t].sets == sets
      && HasEvent(sets, k, mid.sockets[k]);
    assert (steps + [step])[..m] == steps[..m];
  }

  /** What a step other than the start of a callback does to the calls. */
  lemma {:induction false} StepKeepsCalls(s: State, step: Step)
    requires Enabled(s, step) && s.callback.Walking?
    ensures Next(s, step).callback.Walking? ==>
      && SameCalls(s, Next(s, step)) && Next(s, step).callback.s == s.callback.s
      && Next(s, step).callback == s.callback.(pos := Next(s, step).callback.pos)
  {
    hide Without, ReadyCount, Updated;
  }

  lemma {:induction false} FlagsStay(s0: State, steps: seq<Step>, s: State, step: Step)
    requires FlagsSeen(s0, steps, s) && s.callback.Walking? && Enabled(s, step) && Next(s, step).callback.Walking?
    ensures FlagsSeen(s0, steps + [step], Next(s, step))
  {
    StepKeepsCalls(s, step);
    hide Reaches, Enabled, Next, Linked;
    var m, mid :|
      0 <= m <= |steps| && Reaches(s0, steps[..m], mid) && SameCalls(mid, s)
      && s.callback.s < |mid.sockets| && SameFlags(mid.sockets[s.callback.s], s.callback);
    assert (steps + [step])[..m] == steps[..m];
    assert SameCalls(mid, Next(s, step));
  }

  lemma {:induction false} CallbackStarts(s: State, step: Step)
    requires Enabled(s, step) && s.callback.NoCallback? && Next(s, step).callback.Walking?
    ensures
      var t := Next(s, step);
      t.callback.s < |t.sockets| && SameFlags(t.sockets[t.callback.s], t.callback)
  {
    hide Without, ReadyCount, Updated, ScanStep;
  }

  lemma {:induction false} FlagsStart(s0: State, steps: seq<Step>, s: State, step: Step)
    requires Enabled(s, step) && s.callback.NoCallback? && Next(s, step).callback.Walking?
    requires Reaches(s0, steps + [step], Next(s, step))
    ensures FlagsSeen(s0, steps + [step], Next(s, step))
  {
    CallbackStarts(s, step);
    hide Reaches, Enabled, Next;
    var all := steps + [step];
    assert all[..|all|] == all;
  }

  /** A thread that is newly signalled was visited by a callback that has an
      event for it. */
  lemma {:induction false} OnlyCallbacksWake(s: State, step: Step, t: nat)
    requires Enabled(s, step) && t < |s.threads|
    ensures |Next(s, step).threads| == |s.threads|
    ensures
      var th, th' := s.threads[t], Next(s, step).threads[t];
      Linked(th'.pc) && th'.signalled ==>
        && Linked(th.pc)
        && th'.sets == th.sets
        && (!th.signalled ==>
              s.callback.Walking? && Hit(th.sets, s.callback.s, s.callback.recv, s.callback.send, s.callback.err))
  {
    hide Without, ReadyCount, Updated;
  }

  lemma {:induction false} VisitIsSeen(s0: State, steps: seq<Step>, s: State, t: nat)
    requires FlagsSeen(s0, steps, s) && t < |s.threads| && Linked(s.threads[t].pc) && s.callback.Walking?
    requires Hit(s.threads[t].sets, s.callback.s, s.callback.recv, s.callback.send, s.callback.err)
    ensures WasSet(s0, steps, t, s.threads[t].sets)
  {
    hide Reaches, Linked;
    var m, mid :|
      0 <= m <= |steps| && Reaches(s0, steps[..m], mid) && SameCalls(mid, s)
      && s.callback.s < |mid.sockets| && SameFlags(mid.sockets[s.callback.s], s.callback);
    assert HasEvent(s.threads[t].sets, s.callback.s, mid.sockets[s.callback.s]);
    assert Linked(mid.threads[t].pc) && mid.threads[t].sets == s.threads[t].sets;
  }

  lemma {:induction false} SeenAfterStep(s0: State, steps: seq<Step>, s: State, step: Step)
    requires FlagsSeen(s0, steps, s) && WakingsSeen(s0, steps, s) && Enabled(s, step)
    requires Reaches(s0, steps + [step], Next(s, step))
    ensures FlagsSeen(s0, steps + [step], Next(s, step)) && WakingsSeen(s0, steps + [step], Next(s, step))
  {
    hide Reaches, Next, Enabled, Linked, WasSet, FlagsSeen;
    var s', all := Next(s, step), steps + [step];
    if s'.callback.Walking? {
      if s.callback.Walking? {
        FlagsStay(s0, steps, s, step);
      } else {
        FlagsStart(s0, steps, s, step);
      }
    } else {
      NoFlags(s0, all, s');
    }
    assert |s'.threads| == |s.threads| by { SocketsStay(s, step); }
    forall t | 0 <= t < |s'.threads| && Linked(s'.threads[t].pc) && s'.threads[t].signalled
      ensures WasSet(s0, all, t, s'.threads[t].sets)
    {
      OnlyCallbacksWake(s, step, t);
      if !s.threads[t].signalled {
        VisitIsSeen(s0, steps, s, t);
      }
      WasSetStays(s0, steps, step, t, s.threads[t].sets);
    }
  }

  lemma NoFlags(s0: State, steps: seq<Step>, s: State)
    requires !s.callback.Walking?
    ensures FlagsSeen(s0, steps, s)
  {
  }

  lemma {:induction false} SeenAlong(s: State, steps: seq<Step>, end: State)
    requires Initial(s) && Reaches(s, steps, end)
    ensures FlagsSeen(s, steps, end) && WakingsSeen(s, steps, end)
    decreases |steps|
  {
    hide Next, Enabled, WasSet;
    if steps != [] {
      var n := |steps| - 1;
      var mid := LastStep(s, steps, end);
      SeenAlong(s, steps[..n], mid);
      assert steps[..n] + [steps[n]] == steps;
      hide Reaches, FlagsSeen, WakingsSeen, Initial;
      SeenAfterStep(s, steps[..n], mid, steps[n]);
    }
  }

  /** In every run a waiting thread whose semaphore is up has, while it was on
      the list with these descriptors, had an event set on one of them. */
  lemma {:induction false} WakingHasCause(s: State, steps: seq<Step>, end: State, t: nat)
    requires Initial(s) && Reaches(s, steps, end)
    requires t < |end.threads| && end.threads[t].pc.Waiting? && end.threads[t].sem > 0
    ensures WasSet(s, steps, t, end.threads[t].sets)
  {
    hide WasSet, Reaches, Initial, FlagsSeen, Served;
    SeenAlong(s, steps, end);
    InitialInv(s);
    RunKeepsStructure(s, steps, end);
    assert ThreadOk(end.sockets, end.threads[t]);
  }

  /** For a socket without left-over data, having an event a thread asks for is
      being counted by its scan. */
  lemma {:induction false} EventMakesReady(sockets: seq<Socket>, th: Thread, k: nat)
    requires k < |sockets| && !sockets[k].lastData
    ensures HasEvent(th.sets, k, sockets[k]) <==>
      ReadyTotal(sockets, th.sets, k + 1) > ReadyTotal(sockets, th.sets, k)
  {
    hide ReadyTotal;
    TotalOfNext(sockets, th, k);
  }

  // ----- calls that time out

  /** Nothing has been found yet by a thread that waits or has timed out. */
  predicate Empty(th: Thread) {
    && (th.pc.Waiting? ==> th.nready == 0)
    && (Linked(th.pc) && th.timedOut ==> -1 <= th.nready <= 0)
    && (th.pc.Counting? || th.pc.SecondScan? || th.pc.Waiting? ==> !th.timedOut)
  }

  ghost predicate AllEmpty(s: State) {
    forall t :: 0 <= t < |s.threads| ==> Empty(s.threads[t])
  }

  lemma {:induction false} StepKeepsEmpty(s: State, step: Step)
    requires Enabled(s, step) && AllEmpty(s)
    ensures AllEmpty(Next(s, step))
  {
    hide Without, AdvanceThread, Updated;
    SocketsStay(s, step);
    forall t | 0 <= t < |Next(s, step).threads| ensures Empty(Next(s, step).threads[t]) {
      assert Empty(s.threads[t]);
      if step.Advance? {
        AdvanceKeepsEmpty(s, step.t, t);
      }
    }
  }

  lemma {:induction false} AdvanceKeepsEmpty(s: State, u: nat, t: nat)
    requires CanAdvance(s, u) && t < |s.threads| && Empty(s.threads[t])
    ensures |AdvanceThread(s, u).threads| == |s.threads| && Empty(AdvanceThread(s, u).threads[t])
  {
    hide Without, ReadyCount;
  }

  lemma {:induction false} RunKeepsEmpty(s: State, steps: seq<Step>, end: State)
    requires Reaches(s, steps, end) && AllEmpty(s)
    ensures AllEmpty(end)
    decreases |steps|
  {
    hide Next, Enabled, AllEmpty;
    if steps != [] {
      StepKeepsEmpty(s, steps[0]);
      RunKeepsEmpty(Next(s, steps[0]), steps[1..], end);
    }
  }

  /** In every run a call that ran into its timeout returns zero, or the error
      that a closed socket caused. */
  lemma {:induction false} TimeOutReportsNothing(s: State, steps: seq<Step>, end: State, t: nat)
    requires Initial(s) && Reaches(s, steps, end)
    requires CanAdvance(end, t) && end.threads[t].pc.Unlinking? && end.threads[t].timedOut
    ensures
      var th := Next(end, Advance(t)).threads[t];
      th.pc.Idle? && -1 <= th.result <= 0 && (end.threads[t].nready >= 0 ==> th.result == 0)
  {
    hide Reaches;
    RunKeepsEmpty(s, steps, end);
    assert Empty(end.threads[t]);
  }
}
