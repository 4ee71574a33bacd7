/** Threads blocked in lwip_select and the event callbacks that wake them, as
    atomic steps over the shared socket counters and the waiter list, with the
    core lock protecting the list. */
module Select {

  // ----- shared data

  type s16 = x: int | -32768 <= x <= 32767

  datatype Socket = Socket(
    open: bool,
    lastData: bool,       // lastdata.pbuf != NULL
    rcvEvent: s16,
    sendEvent: bool,
    errEvent: bool,
    selectWaiting: nat)   // SELWAIT_T, eight bits

  datatype FdSets = FdSets(read: set<nat>, write: set<nat>, except: set<nat>)

  datatype Timeout = Poll | Timed | Forever

  /** Where a thread is inside lwip_select; `n` is the count of a scan under way. */
  datatype Pc =
    | Idle
    | FirstScan(i: nat, n: nat)
    | Linking
    | Counting(i: nat)
    | SecondScan(i: nat, n: nat)
    | Waiting
    | Uncounting(i: nat)
    | Unlinking
    | LastScan(i: nat, n: nat)

  datatype Thread = Thread(
    pc: Pc,
    maxfdp1: nat,
    maxfdp2: nat,
    sets: FdSets,
    timeout: Timeout,
    nready: int,
    timedOut: bool,
    signalled: bool,      // scb->sem_signalled
    sem: nat,             // count of scb->sem
    result: int)

  /** The callback holding the core lock, if any, and its place in the list. */
  datatype Callback =
    | NoCallback
    | Walking(s: nat, recv: bool, send: bool, err: bool, pos: nat)

  datatype State = State(
    sockets: seq<Socket>,
    threads: seq<Thread>,
    waiters: seq<nat>,    // select_cb_list, head first
    callback: Callback)

  datatype Event = RcvPlus | RcvMinus | SendPlus | SendMinus | Error

  datatype Step =
    | Begin(t: nat, maxfdp1: nat, sets: FdSets, timeout: Timeout)
    | Advance(t: nat)
    | TimeOut(t: nat)
    | Signal(e: Event, s: nat)
    | Walk
    | LastData(s: nat, present: bool)

  // ----- one thread

  predicate Watched(sets: FdSets, k: nat) {
    k in sets.read || k in sets.write || k in sets.except
  }

  /** The test of select_check_waiters: some active event is asked for. */
  predicate Hit(sets: FdSets, k: nat, recv: bool, send: bool, err: bool) {
    || (recv && k in sets.read)
    || (send && k in sets.write)
    || (err && k in sets.except)
  }

  predicate HasEvent(sets: FdSets, k: nat, sock: Socket) {
    Hit(sets, k, sock.rcvEvent > 0, sock.sendEvent, sock.errEvent)
  }

  function Bit(b: bool): nat {
    if b then 1 else 0
  }

  /** What one socket adds to nready in lwip_selscan. */
  function ReadyCount(th: Thread, k: nat, sock: Socket): nat {
    Bit(k in th.sets.read && (sock.lastData || sock.rcvEvent > 0))
    + Bit(k in th.sets.write && sock.sendEvent)
    + Bit(k in th.sets.except && sock.errEvent)
  }

  function Return(th: Thread, result: int): Thread {
    th.(pc := Idle, result := result)
  }

  predicate IsOpen(s: State, k: nat) {
    k < |s.sockets| && s.sockets[k].open
  }

  /** One socket of a scan: skip it, give up on an invalid one, or count it. */
  datatype Scanned = Go(n: nat) | Bad

  function ScanOne(s: State, th: Thread, i: nat, n: nat): Scanned {
    if !Watched(th.sets, i) then Go(n)
    else if !IsOpen(s, i) then Bad
    else Go(n + ReadyCount(th, i, s.sockets[i]))
  }

  // ----- the steps

  function Wrap8(n: nat): nat { n % 256 }

  function SetThread(s: State, t: nat, th: Thread): State
    requires t < |s.threads|
  {
    s.(threads := s.threads[t := th])
  }

  function SetWaiting(s: State, k: nat, w: nat): State
    requires k < |s.sockets|
  {
    s.(sockets := s.sockets[k := s.sockets[k].(selectWaiting := w)])
  }

  function Without(q: seq<nat>, t: nat): seq<nat> {
    if q == [] then [] else if q[0] == t then q[1..] else [q[0]] + Without(q[1..], t)
  }

  function Link(s: State, t: nat): State
    requires t < |s.threads|
  {
    var th := s.threads[t];
    SetThread(s, t, th.(pc := Counting(0), maxfdp2 := th.maxfdp1, nready := 0, timedOut := false,
                        signalled := false, sem := 0)).(waiters := [t] + s.waiters)
  }

  function Count(s: State, t: nat, i: nat): State
    requires t < |s.threads|
  {
    var th := s.threads[t];
    if i >= th.maxfdp1 then SetThread(s, t, th.(pc := SecondScan(0, 0)))
    else if !Watched(th.sets, i) then SetThread(s, t, th.(pc := Counting(i + 1)))
    else if !IsOpen(s, i) then SetThread(s, t, th.(pc := Uncounting(0), nready := -1, maxfdp2 := i))
    else
      var w := Wrap8(s.sockets[i].selectWaiting + 1);
      if w == 0 then
        // too many threads: the counter is put back
        SetThread(s, t, th.(pc := Uncounting(0), nready := -1, maxfdp2 := i))
      else
        SetThread(SetWaiting(s, i, w), t, th.(pc := Counting(i + 1)))
  }

  function Uncount(s: State, t: nat, i: nat): State
    requires t < |s.threads|
  {
    var th := s.threads[t];
    if i >= th.maxfdp2 then SetThread(s, t, th.(pc := Unlinking))
    else if !Watched(th.sets, i) then SetThread(s, t, th.(pc := Uncounting(i + 1)))
    else if !IsOpen(s, i) then SetThread(s, t, th.(pc := Uncounting(i + 1), nready := -1))
    else
      var w := s.sockets[i].selectWaiting;
      SetThread(SetWaiting(s, i, if w > 0 then w - 1 else w), t, th.(pc := Uncounting(i + 1)))
  }

  function Unlink(s: State, t: nat): State
    requires t < |s.threads|
  {
    var th := s.threads[t];
    SetThread(s, t,
      if th.nready < 0 then Return(th, -1)
      else if th.timedOut then Return(th, th.nready)
      else th.(pc := LastScan(0, 0))).(waiters := Without(s.waiters, t))
  }

  /** The thread after one step of a scan; the three scans differ in what follows. */
  function ScanStep(s: State, th: Thread): Thread
    requires th.pc.FirstScan? || th.pc.SecondScan? || th.pc.LastScan?
  {
    var i, n := th.pc.i, th.pc.n;
    if i < th.maxfdp1 then
      match ScanOne(s, th, i, n)
      case Go(m) => th.(pc := th.pc.(i := i + 1, n := m))
      case Bad => if th.pc.SecondScan? then th.(pc := Uncounting(0), nready := -1) else Return(th, -1)
    else if th.pc.FirstScan? then
      if n > 0 || th.timeout == Poll then Return(th, n) else th.(pc := Linking)
    else if th.pc.SecondScan? then
      th.(pc := if n == 0 then Waiting else Uncounting(0), nready := n)
    else Return(th, n)
  }

  /** Linking and unlinking need the core lock; a waiter needs its semaphore. */
  predicate CanAdvance(s: State, t: nat) {
    && t < |s.threads|
    && match s.threads[t].pc
       case Idle => false
       case Linking => s.callback.NoCallback?
       case Unlinking => s.callback.NoCallback?
       case Waiting => s.threads[t].sem > 0
       case _ => true
  }

  function AdvanceThread(s: State, t: nat): State
    requires CanAdvance(s, t)
  {
    var th := s.threads[t];
    match th.pc
    case Linking => Link(s, t)
    case Counting(i) => Count(s, t, i)
    case Waiting => SetThread(s, t, th.(pc := Uncounting(0), sem := th.sem - 1))
    case Uncounting(i) => Uncount(s, t, i)
    case Unlinking => Unlink(s, t)
    case FirstScan(_, _) => SetThread(s, t, ScanStep(s, th))
    case SecondScan(_, _) => SetThread(s, t, ScanStep(s, th))
    case LastScan(_, _) => SetThread(s, t, ScanStep(s, th))
  }

  function Wrap16(n: int): s16
    requires -32769 <= n <= 32768
  {
    if n > 32767 then n - 65536 else if n < -32768 then n + 65536 else n
  }

  /** What event_callback writes into the socket. */
  function Updated(sock: Socket, e: Event): Socket {
    match e
    case RcvPlus => sock.(rcvEvent := Wrap16(sock.rcvEvent + 1))
    case RcvMinus => sock.(rcvEvent := Wrap16(sock.rcvEvent - 1))
    case SendPlus => sock.(sendEvent := true)
    case SendMinus => sock.(sendEvent := false)
    case Error => sock.(errEvent := true)
  }

  /** event_callback's check_waiters flag, from the socket before the update. */
  predicate ChecksWaiters(sock: Socket, e: Event) {
    match e
    case RcvPlus => Wrap16(sock.rcvEvent + 1) <= 1
    case RcvMinus => false
    case SendPlus => !sock.sendEvent
    case SendMinus => false
    case Error => true
  }

  predicate IsPlus(e: Event) {
    e != RcvMinus && e != SendMinus
  }

  /** Callers raising an event hold the core lock; those lowering one need not. */
  predicate CanSignal(s: State, e: Event, k: nat) {
    && IsOpen(s, k)
    && (IsPlus(e) ==> s.callback.NoCallback?)
  }

  function Signalled(s: State, e: Event, k: nat): State
    requires CanSignal(s, e, k)
  {
    var sock := Updated(s.sockets[k], e);
    s.(sockets := s.sockets[k := sock],
       callback := if sock.selectWaiting > 0 && ChecksWaiters(s.sockets[k], e)
                   then Walking(k, sock.rcvEvent > 0, sock.sendEvent, sock.errEvent, 0)
                   else s.callback)
  }

  function Notify(th: Thread, cb: Callback): Thread
    requires cb.Walking?
  {
    if !th.signalled && Hit(th.sets, cb.s, cb.recv, cb.send, cb.err)
    then th.(signalled := true, sem := th.sem + 1) else th
  }

  predicate CanWalk(s: State) {
    && s.callback.Walking?
    && (s.callback.pos < |s.waiters| ==> s.waiters[s.callback.pos] < |s.threads|)
  }

  function Walked(s: State): State
    requires CanWalk(s)
  {
    if s.callback.pos >= |s.waiters| then s.(callback := NoCallback)
    else
      var t := s.waiters[s.callback.pos];
      SetThread(s, t, Notify(s.threads[t], s.callback)).(callback := s.callback.(pos := s.callback.pos + 1))
  }

  predicate Enabled(s: State, step: Step) {
    match step
    case Begin(t, _, _, _) => t < |s.threads| && s.threads[t].pc.Idle?
    case Advance(t) => CanAdvance(s, t)
    case TimeOut(t) => t < |s.threads| && s.threads[t].pc.Waiting? && s.threads[t].timeout == Timed
    case Signal(e, k) => CanSignal(s, e, k)
    case Walk => CanWalk(s)
    case LastData(k, _) => k < |s.sockets|
  }

  function Next(s: State, step: Step): State
    requires Enabled(s, step)
  {
    match step
    case Begin(t, maxfdp1, sets, timeout) =>
      SetThread(s, t, s.threads[t].(pc := FirstScan(0, 0), maxfdp1 := maxfdp1, sets := sets, timeout := timeout))
    case Advance(t) => AdvanceThread(s, t)
    case TimeOut(t) => SetThread(s, t, s.threads[t].(pc := Uncounting(0), timedOut := true))
    case Signal(e, k) => Signalled(s, e, k)
    case Walk => Walked(s)
    case LastData(k, present) => s.(sockets := s.sockets[k := s.sockets[k].(lastData := present)])
  }

  /** Sockets as allocated: nothing received, no error, nobody waiting. */
  ghost predicate Initial(s: State) {
    && s.waiters == []
    && s.callback.NoCallback?
    && (forall t :: 0 <= t < |s.threads| ==> s.threads[t].pc.Idle?)
    && (forall k :: 0 <= k < |s.sockets| ==> IsNew(s.sockets[k]))
  }

  predicate IsNew(sock: Socket) {
    !sock.lastData && sock.rcvEvent == 0 && !sock.errEvent && sock.selectWaiting == 0
  }

  /** The state a run of steps ends in, if every one of them was possible. */
  ghost predicate Reaches(s: State, steps: seq<Step>, end: State)
    decreases |steps|
  {
    if steps == [] then s == end
    else Enabled(s, steps[0]) && Reaches(Next(s, steps[0]), steps[1..], end)
  }

  // ----- the invariant

  predicate Linked(pc: Pc) {
    pc.Counting? || pc.SecondScan? || pc.Waiting? || pc.Uncounting? || pc.Unlinking?
  }

  /** The thread has added itself to socket k's counter and not yet left it. */
  predicate Counted(th: Thread, k: nat) {
    && Watched(th.sets, k)
    && match th.pc
       case Counting(i) => k < i
       case SecondScan(_, _) => k < th.maxfdp1
       case Waiting => k < th.maxfdp1
       case Uncounting(i) => i <= k < th.maxfdp2
       case _ => false
  }

  /** The thread's next step lowers a counter. */
  predicate IsLowering(th: Thread) {
    th.pc.Uncounting? && th.pc.i < th.maxfdp2 && Watched(th.sets, th.pc.i)
  }

  function Counters(threads: seq<Thread>, k: nat): (c: nat)
    ensures c <= |threads|
  {
    if threads == [] then 0 else Bit(Counted(threads[0], k)) + Counters(threads[1..], k)
  }

  /** The second scan has passed socket k and found nothing so far. */
  predicate Passed(th: Thread, k: nat) {
    && Watched(th.sets, k)
    && k < th.maxfdp1
    && (th.pc.Waiting? || (th.pc.SecondScan? && th.pc.n == 0 && k < th.pc.i))
  }

  /** The thread counts on being woken for socket k and has not been yet. */
  predicate Unserved(th: Thread, k: nat, sock: Socket) {
    Passed(th, k) && HasEvent(th.sets, k, sock) && !th.signalled
  }

  /** The callback under way is for socket k and will still visit thread t. */
  predicate Coming(s: State, t: nat, k: nat)
    requires t < |s.threads|
  {
    && s.callback.Walking?
    && s.callback.s == k
    && Hit(s.threads[t].sets, k, s.callback.recv, s.callback.send, s.callback.err)
    && s.callback.pos <= |s.waiters|
    && t in s.waiters[s.callback.pos..]
  }

  ghost predicate Served(s: State) {
    forall t, k :: 0 <= t < |s.threads| && 0 <= k < |s.sockets| && Unserved(s.threads[t], k, s.sockets[k])
      ==> Coming(s, t, k)
  }

  ghost predicate Distinct(q: seq<nat>) {
    forall i, j :: 0 <= i < j < |q| ==> q[i] != q[j]
  }

  ghost predicate WaitersAreLinked(s: State) {
    && Distinct(s.waiters)
    && (forall i :: 0 <= i < |s.waiters| ==> s.waiters[i] < |s.threads| && Linked(s.threads[s.waiters[i]].pc))
    && (forall t :: 0 <= t < |s.threads| && Linked(s.threads[t].pc) ==> t in s.waiters)
  }

  ghost predicate CountersAgree(s: State) {
    forall k :: 0 <= k < |s.sockets| ==>
      s.sockets[k].selectWaiting == Counters(s.threads, k) && s.sockets[k].selectWaiting < 256
  }

  /** How far a thread has seen that its watched sockets are open. */
  function Checked(th: Thread): nat {
    match th.pc
    case Idle => 0
    case FirstScan(i, _) => i
    case LastScan(_, _) => 0
    case _ => th.maxfdp1
  }

  ghost predicate AllOpen(sockets: seq<Socket>, sets: FdSets, bound: nat) {
    forall k :: 0 <= k < bound && Watched(sets, k) ==> k < |sockets| && sockets[k].open
  }

  ghost predicate ThreadOk(sockets: seq<Socket>, th: Thread) {
    && AllOpen(sockets, th.sets, Checked(th))
    && (th.pc.FirstScan? || th.pc.SecondScan? || th.pc.Counting? ==> th.pc.i <= th.maxfdp1)
    && (th.pc.Counting? || th.pc.SecondScan? || th.pc.Waiting? ==> th.maxfdp2 == th.maxfdp1)
    && (th.pc.Uncounting? ==> th.maxfdp2 <= th.maxfdp1)
    && (th.pc.Counting? || th.pc.SecondScan? || th.pc.Waiting? ==> th.sem == Bit(th.signalled))
  }

  ghost predicate ThreadsOk(s: State) {
    forall t :: 0 <= t < |s.threads| ==> ThreadOk(s.sockets, s.threads[t])
  }

  ghost predicate CallbackOk(s: State) {
    s.callback.Walking? ==> s.callback.pos <= |s.waiters| && s.callback.s < |s.sockets|
  }

  /** Counters, list, open flags and callback position: kept by every step. */
  ghost predicate Structure(s: State) {
    && WaitersAreLinked(s)
    && CountersAgree(s)
    && ThreadsOk(s)
    && CallbackOk(s)
  }

  ghost predicate Inv(s: State) {
    Structure(s) && Served(s)
  }

  // ----- the one step that can lose a wake-up

  /** The step wraps a receive counter below its minimum. */
  predicate Underflows(s: State, step: Step) {
    step.Signal? && step.e == RcvMinus && step.s < |s.sockets| && s.sockets[step.s].rcvEvent == -32768
  }

  /** Thread t counts on being woken to read from k, and nobody is on the way. */
  predicate Depends(s: State, t: nat, k: nat)
    requires t < |s.threads|
  {
    Passed(s.threads[t], k) && k in s.threads[t].sets.read && !s.threads[t].signalled && !Coming(s, t, k)
  }

  /** The step sets an event by wrapping a counter, for which no callback is
      started, while some thread depends on one. */
  ghost predicate Strands(s: State, step: Step) {
    Underflows(s, step) && exists t :: 0 <= t < |s.threads| && Depends(s, t, step.s)
  }

  ghost predicate NeverStrands(s: State, steps: seq<Step>)
    decreases |steps|
  {
    steps == [] ||
    (!Strands(s, steps[0]) && (Enabled(s, steps[0]) ==> NeverStrands(Next(s, steps[0]), steps[1..])))
  }

  /** In every state of the run, each waking that is due is on its way. */
  ghost predicate ServedAlong(s: State, steps: seq<Step>)
    decreases |steps|
  {
    Served(s) && (steps == [] || (Enabled(s, steps[0]) ==> ServedAlong(Next(s, steps[0]), steps[1..])))
  }

  // ----- counting the threads on a socket

  lemma {:induction false} CountersAfterUpdate(threads: seq<Thread>, t: nat, th: Thread, k: nat)
    requires t < |threads|
    ensures Counters(threads[t := th], k)
         == Counters(threads, k) - Bit(Counted(threads[t], k)) + Bit(Counted(th, k))
  {
    if t == 0 {
      assert threads[t := th][1..] == threads[1..];
    } else {
      assert threads[t := th][1..] == threads[1..][t - 1 := th];
      CountersAfterUpdate(threads[1..], t - 1, th, k);
    }
  }

  lemma {:induction false} CountedIsPositive(threads: seq<Thread>, t: nat, k: nat)
    requires t < |threads| && Counted(threads[t], k)
    ensures Counters(threads, k) > 0
  {
    if t > 0 {
      CountedIsPositive(threads[1..], t - 1, k);
    }
  }

  lemma {:induction false} NobodyCounted(threads: seq<Thread>, k: nat)
    requires forall t :: 0 <= t < |threads| ==> !Counted(threads[t], k)
    ensures Counters(threads, k) == 0
  {
    if threads != [] {
      NobodyCounted(threads[1..], k);
    }
  }

  // ----- leaving the waiter list

  lemma {:induction false} WithoutAbsent(q: seq<nat>, t: nat, x: nat)
    requires Distinct(q)
    ensures x in Without(q, t) <==> x in q && x != t
    ensures Distinct(Without(q, t))
  {
    if q != [] {
      assert forall i :: 0 <= i < |q[1..]| ==> q[1..][i] == q[i + 1];
      WithoutAbsent(q[1..], t, x);
      assert x in q <==> x == q[0] || x in q[1..];
      if q[0] != t {
        var r := Without(q[1..], t);
        WithoutAbsent(q[1..], t, q[0]);
        assert q[0] !in r;
        assert Distinct([q[0]] + r);
      }
    }
  }

  // ----- the structure: steps that change one thread and nothing else

  /** What such a step may do to its thread. */
  ghost predicate Quiet(s: State, th: Thread, th': Thread) {
    && Linked(th'.pc) == Linked(th.pc)
    && (forall k :: 0 <= k < |s.sockets| ==> Counted(th', k) == Counted(th, k))
    && ThreadOk(s.sockets, th')
  }

  lemma {:induction false} QuietStep(s: State, t: nat, th: Thread)
    requires Structure(s) && t < |s.threads|
    requires Quiet(s, s.threads[t], th)
    ensures Structure(SetThread(s, t, th))
  {
    var s' := SetThread(s, t, th);
    forall k | 0 <= k < |s'.sockets|
      ensures s'.sockets[k].selectWaiting == Counters(s'.threads, k) && s'.sockets[k].selectWaiting < 256
    {
      CountersAfterUpdate(s.threads, t, th, k);
    }
  }

  lemma {:induction false} ScanIsQuiet(s: State, th: Thread)
    requires ThreadOk(s.sockets, th)
    requires th.pc.FirstScan? || th.pc.SecondScan? || th.pc.LastScan?
    ensures Quiet(s, th, ScanStep(s, th))
  {
  }

  // ----- the structure: steps on a counter

  lemma {:induction false} CounterStep(s: State, t: nat, th: Thread, i: nat, w: nat)
    requires Structure(s) && t < |s.threads| && i < |s.sockets| && w < 256
    requires Linked(th.pc) && Linked(s.threads[t].pc)
    requires forall k :: 0 <= k < |s.sockets| && k != i ==> Counted(th, k) == Counted(s.threads[t], k)
    requires w == s.sockets[i].selectWaiting - Bit(Counted(s.threads[t], i)) + Bit(Counted(th, i))
    requires ThreadOk(s.sockets, th)
    ensures Structure(SetThread(SetWaiting(s, i, w), t, th))
  {
    var m := SetWaiting(s, i, w);
    var s' := SetThread(m, t, th);
    forall k | 0 <= k < |s'.sockets|
      ensures s'.sockets[k].selectWaiting == Counters(s'.threads, k) && s'.sockets[k].selectWaiting < 256
    {
      CountersAfterUpdate(s.threads, t, th, k);
    }
    OpenIsKept(s, m);
    assert ThreadOk(m.sockets, th);
  }

  lemma {:induction false} OpenIsKept(s: State, s': State)
    requires ThreadsOk(s) && s'.threads == s.threads && |s'.sockets| == |s.sockets|
    requires forall j :: 0 <= j < |s.sockets| ==> s'.sockets[j].open == s.sockets[j].open
    ensures ThreadsOk(s')
    ensures forall th :: ThreadOk(s.sockets, th) ==> ThreadOk(s'.sockets, th)
  {
  }

  lemma {:induction false} CountKeepsStructure(s: State, t: nat)
    requires Structure(s) && t < |s.threads| && s.threads[t].pc.Counting?
    ensures Structure(Count(s, t, s.threads[t].pc.i))
  {
    hide WaitersAreLinked, CallbackOk;
    var th := s.threads[t];
    var i := th.pc.i;
    assert ThreadOk(s.sockets, th);
    if i < th.maxfdp1 && Watched(th.sets, i) && IsOpen(s, i) && Wrap8(s.sockets[i].selectWaiting + 1) != 0 {
      CounterStep(s, t, th.(pc := Counting(i + 1)), i, s.sockets[i].selectWaiting + 1);
    } else {
      CountIsQuiet(s, t);
      QuietStep(s, t, Count(s, t, i).threads[t]);
    }
  }

  /** No counter changes at the end, for an unwatched socket, or on overflow. */
  lemma {:induction false} CountIsQuiet(s: State, t: nat)
    requires t < |s.threads| && s.threads[t].pc.Counting? && ThreadOk(s.sockets, s.threads[t])
    requires
      var i := s.threads[t].pc.i;
      !(i < s.threads[t].maxfdp1 && Watched(s.threads[t].sets, i) && IsOpen(s, i)
        && Wrap8(s.sockets[i].selectWaiting + 1) != 0)
    ensures
      var s' := Count(s, t, s.threads[t].pc.i);
      s' == SetThread(s, t, s'.threads[t]) && Quiet(s, s.threads[t], s'.threads[t])
  {
  }

  /** The counter a leaving thread lowers is never zero, as the code asserts. */
  lemma {:induction false} UncountFindsItself(s: State, t: nat)
    requires Structure(s) && t < |s.threads| && IsLowering(s.threads[t])
    ensures IsOpen(s, s.threads[t].pc.i) && s.sockets[s.threads[t].pc.i].selectWaiting > 0
  {
    assert ThreadOk(s.sockets, s.threads[t]);
    CountedIsPositive(s.threads, t, s.threads[t].pc.i);
  }

  lemma {:induction false} UncountKeepsStructure(s: State, t: nat)
    requires Structure(s) && t < |s.threads| && s.threads[t].pc.Uncounting?
    ensures Structure(Uncount(s, t, s.threads[t].pc.i))
  {
    hide WaitersAreLinked, CallbackOk;
    var th := s.threads[t];
    var i := th.pc.i;
    assert ThreadOk(s.sockets, th);
    if i < th.maxfdp2 && Watched(th.sets, i) {
      UncountFindsItself(s, t);
      CounterStep(s, t, th.(pc := Uncounting(i + 1)), i, s.sockets[i].selectWaiting - 1);
    } else {
      QuietStep(s, t, Uncount(s, t, i).threads[t]);
    }
  }

  // ----- the structure: joining and leaving the list

  lemma {:induction false} LinkKeepsStructure(s: State, t: nat)
    requires Structure(s) && t < |s.threads| && s.threads[t].pc.Linking? && s.callback.NoCallback?
    ensures Structure(Link(s, t))
  {
    var s' := Link(s, t);
    assert ThreadOk(s.sockets, s.threads[t]);
    forall k | 0 <= k < |s'.sockets|
      ensures s'.sockets[k].selectWaiting == Counters(s'.threads, k) && s'.sockets[k].selectWaiting < 256
    {
      CountersAfterUpdate(s.threads, t, s'.threads[t], k);
    }
    assert Distinct(s'.waiters);
    assert forall u :: u in s'.waiters <==> u == t || u in s.waiters;
  }

  lemma {:induction false} UnlinkKeepsStructure(s: State, t: nat)
    requires Structure(s) && t < |s.threads| && s.threads[t].pc.Unlinking? && s.callback.NoCallback?
    ensures Structure(Unlink(s, t))
  {
    hide Without, WaitersAreLinked;
    var s' := Unlink(s, t);
    forall k | 0 <= k < |s'.sockets|
      ensures s'.sockets[k].selectWaiting == Counters(s'.threads, k) && s'.sockets[k].selectWaiting < 256
    {
      CountersAfterUpdate(s.threads, t, s'.threads[t], k);
    }
    UnlinkKeepsList(s, t);
  }

  lemma {:induction false} UnlinkKeepsList(s: State, t: nat)
    requires WaitersAreLinked(s) && t < |s.threads|
    ensures WaitersAreLinked(Unlink(s, t))
  {
    var s' := Unlink(s, t);
    forall x {
      WithoutAbsent(s.waiters, t, x);
    }
    assert forall i :: 0 <= i < |s'.waiters| ==> s'.waiters[i] in s'.waiters;
  }

  // ----- the structure: the event callback

  /** Counters and open flags are all the structure reads of a socket. */
  lemma {:induction false} SocketsDoNotMatter(s: State, s': State)
    requires ThreadsOk(s) && CountersAgree(s)
    requires s'.threads == s.threads && |s'.sockets| == |s.sockets|
    requires forall j :: 0 <= j < |s.sockets| ==>
      s'.sockets[j].selectWaiting == s.sockets[j].selectWaiting && s'.sockets[j].open == s.sockets[j].open
    ensures ThreadsOk(s') && CountersAgree(s')
  {
    OpenIsKept(s, s');
  }

  lemma {:induction false} SignalKeepsStructure(s: State, e: Event, k: nat)
    requires Structure(s) && CanSignal(s, e, k)
    ensures Structure(Signalled(s, e, k))
  {
    var s' := Signalled(s, e, k);
    assert forall j :: 0 <= j < |s.sockets| ==>
      s'.sockets[j].selectWaiting == s.sockets[j].selectWaiting && s'.sockets[j].open == s.sockets[j].open;
    SocketsDoNotMatter(s, s');
  }

  lemma {:induction false} WalkKeepsStructure(s: State)
    requires Structure(s) && CanWalk(s)
    ensures Structure(Walked(s))
  {
    var s' := Walked(s);
    if s.callback.pos < |s.waiters| {
      var t := s.waiters[s.callback.pos];
      assert ThreadOk(s.sockets, s.threads[t]);
      forall k | 0 <= k < |s'.sockets|
        ensures s'.sockets[k].selectWaiting == Counters(s'.threads, k) && s'.sockets[k].selectWaiting < 256
      {
        CountersAfterUpdate(s.threads, t, s'.threads[t], k);
      }
    }
  }

  // ----- the structure: every step

  lemma {:induction false} AdvanceKeepsStructure(s: State, t: nat)
    requires Structure(s) && CanAdvance(s, t)
    ensures Structure(AdvanceThread(s, t))
  {
    var th := s.threads[t];
    assert ThreadOk(s.sockets, th);
    match th.pc
    case Linking => LinkKeepsStructure(s, t);
    case Counting(i) => CountKeepsStructure(s, t);
    case Waiting => QuietStep(s, t, th.(pc := Uncounting(0), sem := th.sem - 1));
    case Uncounting(i) => UncountKeepsStructure(s, t);
    case Unlinking => UnlinkKeepsStructure(s, t);
    case FirstScan(_, _) => ScanIsQuiet(s, th); QuietStep(s, t, ScanStep(s, th));
    case SecondScan(_, _) => ScanIsQuiet(s, th); QuietStep(s, t, ScanStep(s, th));
    case LastScan(_, _) => ScanIsQuiet(s, th); QuietStep(s, t, ScanStep(s, th));
  }

  lemma {:induction false} StepKeepsStructure(s: State, step: Step)
    requires Structure(s) && Enabled(s, step)
    ensures Structure(Next(s, step))
  {
    match step
    case Begin(t, maxfdp1, sets, timeout) =>
      QuietStep(s, t, s.threads[t].(pc := FirstScan(0, 0), maxfdp1 := maxfdp1, sets := sets, timeout := timeout));
    case Advance(t) => AdvanceKeepsStructure(s, t);
    case TimeOut(t) =>
      assert ThreadOk(s.sockets, s.threads[t]);
      QuietStep(s, t, s.threads[t].(pc := Uncounting(0), timedOut := true));
    case Signal(e, k) => SignalKeepsStructure(s, e, k);
    case Walk => WalkKeepsStructure(s);
    case LastData(k, present) => SocketsDoNotMatter(s, Next(s, step));
  }

  // ----- waking: steps of the threads

  /** The same events are set. */
  ghost predicate SameEvents(a: seq<Socket>, b: seq<Socket>) {
    && |a| == |b|
    && forall k :: 0 <= k < |a| ==>
         a[k].rcvEvent == b[k].rcvEvent && a[k].sendEvent == b[k].sendEvent && a[k].errEvent == b[k].errEvent
  }

  /** The thread depends on no waking that it did not depend on before. */
  ghost predicate NeedsNoMore(sockets: seq<Socket>, th: Thread, th': Thread) {
    forall k :: 0 <= k < |sockets| && Unserved(th', k, sockets[k]) ==>
      th'.sets == th.sets && Unserved(th, k, sockets[k])
  }

  /** A step of thread t: the list may change only with no callback under way. */
  lemma {:induction false} ThreadStepServes(s: State, s': State, t: nat)
    requires Served(s) && t < |s.threads| && |s'.threads| == |s.threads|
    requires s'.threads == s.threads[t := s'.threads[t]] && SameEvents(s.sockets, s'.sockets)
    requires s'.callback == s.callback && (s'.waiters == s.waiters || s.callback.NoCallback?)
    requires NeedsNoMore(s.sockets, s.threads[t], s'.threads[t])
    ensures Served(s')
  {
    forall u, k | 0 <= u < |s'.threads| && 0 <= k < |s'.sockets|
      ensures Unserved(s'.threads[u], k, s'.sockets[k]) ==> Coming(s', u, k)
    {
      assert Unserved(s'.threads[u], k, s'.sockets[k]) ==> Unserved(s.threads[u], k, s.sockets[k]);
    }
  }

  lemma {:induction false} ScanNeedsNoMore(s: State, th: Thread)
    requires th.pc.FirstScan? || th.pc.SecondScan? || th.pc.LastScan?
    ensures NeedsNoMore(s.sockets, th, ScanStep(s, th))
  {
  }

  lemma {:induction false} AdvanceServes(s: State, t: nat)
    requires Served(s) && CanAdvance(s, t)
    ensures Served(AdvanceThread(s, t))
  {
    hide Without;
    var s' := AdvanceThread(s, t);
    var th := s.threads[t];
    if th.pc.FirstScan? || th.pc.SecondScan? || th.pc.LastScan? {
      ScanNeedsNoMore(s, th);
    }
    ThreadStepServes(s, s', t);
  }

  // ----- waking: the event callback

  /** A skipped check changes nobody's need: the event was already there. */
  lemma {:induction false} SkippedCheckIsHarmless(sets: FdSets, k: nat, sock: Socket, e: Event)
    requires IsPlus(e) && !ChecksWaiters(sock, e)
    ensures HasEvent(sets, k, Updated(sock, e)) <==> HasEvent(sets, k, sock)
  {
  }

  lemma {:induction false} SignalServes(s: State, e: Event, k: nat)
    requires Inv(s) && CanSignal(s, e, k) && !Underflows(s, Signal(e, k))
    ensures Served(Signalled(s, e, k))
  {
    var s' := Signalled(s, e, k);
    forall t, j | 0 <= t < |s'.threads| && 0 <= j < |s'.sockets| && Unserved(s'.threads[t], j, s'.sockets[j])
      ensures Coming(s', t, j)
    {
      if Unserved(s.threads[t], j, s.sockets[j]) {
        assert Coming(s, t, j);
      } else {
        assert j == k && IsPlus(e);
        assert Counted(s.threads[t], k) && Linked(s.threads[t].pc);
        CountedIsPositive(s.threads, t, k);
        assert s.sockets[k].selectWaiting > 0;
        assert t in s.waiters;
      }
    }
  }

  /** A wrapping counter strands exactly the readers nobody is on the way to. */
  lemma {:induction false} UnderflowServes(s: State, k: nat)
    requires Served(s) && CanSignal(s, RcvMinus, k) && Underflows(s, Signal(RcvMinus, k))
    ensures Served(Signalled(s, RcvMinus, k)) <==> !Strands(s, Signal(RcvMinus, k))
  {
    var s' := Signalled(s, RcvMinus, k);
    forall t | 0 <= t < |s.threads|
      ensures Coming(s', t, k) <==> Coming(s, t, k)
      ensures k in s.threads[t].sets.read ==> HasEvent(s.threads[t].sets, k, s'.sockets[k])
    {
    }
    if Served(s') {
      forall t | 0 <= t < |s.threads| ensures !Depends(s, t, k) {
        assert s'.threads[t] == s.threads[t];
      }
    }
    if !Strands(s, Signal(RcvMinus, k)) {
      forall t, j | 0 <= t < |s'.threads| && 0 <= j < |s'.sockets| && Unserved(s'.threads[t], j, s'.sockets[j])
        ensures Coming(s', t, j)
      {
        assert !Depends(s, t, k);
        if j != k || k !in s.threads[t].sets.read {
          assert Unserved(s.threads[t], j, s.sockets[j]);
          assert Coming(s, t, j);
        }
      }
    }
  }

  lemma {:induction false} WalkServes(s: State)
    requires Served(s) && CallbackOk(s) && CanWalk(s)
    ensures Served(Walked(s))
  {
    var s' := Walked(s);
    var pos := s.callback.pos;
    forall u, k | 0 <= u < |s'.threads| && 0 <= k < |s'.sockets| && Unserved(s'.threads[u], k, s'.sockets[k])
      ensures Coming(s', u, k)
    {
      assert Unserved(s.threads[u], k, s.sockets[k]);
      assert Coming(s, u, k);
      assert pos < |s.waiters|;
      assert s.waiters[pos..] == [s.waiters[pos]] + s.waiters[pos + 1..];
    }
  }

  // ----- waking: every step

  lemma {:induction false} StepServes(s: State, step: Step)
    requires Inv(s) && Enabled(s, step) && !Underflows(s, step)
    ensures Served(Next(s, step))
  {
    hide Structure, Coming;
    match step
    case Begin(t, _, _, _) => ThreadStepServes(s, Next(s, step), t);
    case Advance(t) => AdvanceServes(s, t);
    case TimeOut(t) => ThreadStepServes(s, Next(s, step), t);
    case Signal(e, k) => SignalServes(s, e, k);
    case Walk => CallbackIsOk(s); WalkServes(s);
    case LastData(k, present) =>
      if |s.threads| > 0 {
        ThreadStepServes(s, Next(s, step), 0);
      }
  }

  lemma {:induction false} CallbackIsOk(s: State)
    requires Structure(s)
    ensures CallbackOk(s)
  {
  }

  /** A step keeps every due waking on its way exactly if it strands nobody. */
  lemma {:induction false} StepIsSafeIff(s: State, step: Step)
    requires Inv(s) && Enabled(s, step)
    ensures Inv(Next(s, step)) <==> !Strands(s, step)
  {
    hide Structure, Served;
    StepKeepsStructure(s, step);
    if Underflows(s, step) {
      UnderflowServes(s, step.s);
    } else {
      StepServes(s, step);
    }
  }

  // ----- runs

  lemma {:induction false} InitialInv(s: State)
    requires Initial(s)
    ensures Inv(s)
  {
    forall k | 0 <= k < |s.sockets| ensures Counters(s.threads, k) == 0 && s.sockets[k].selectWaiting == 0 {
      NobodyCounted(s.threads, k);
      assert IsNew(s.sockets[k]);
    }
  }

  lemma {:induction false} RunKeepsStructure(s: State, steps: seq<Step>, end: State)
    requires Structure(s) && Reaches(s, steps, end)
    ensures Structure(end)
    decreases |steps|
  {
    hide Structure;
    if steps != [] {
      StepKeepsStructure(s, steps[0]);
      RunKeepsStructure(Next(s, steps[0]), steps[1..], end);
    }
  }

  lemma {:induction false} RunKeepsInv(s: State, steps: seq<Step>, end: State)
    requires Inv(s) && Reaches(s, steps, end) && NeverStrands(s, steps)
    ensures Inv(end)
    decreases |steps|
  {
    hide Inv, Strands;
    if steps != [] {
      StepIsSafeIff(s, steps[0]);
      RunKeepsInv(Next(s, steps[0]), steps[1..], end);
    }
  }

  /** Over a whole run: every due waking is on its way in every state exactly
      if no step of the run strands anybody. */
  lemma {:induction false} RunIsSafeIff(s: State, steps: seq<Step>, end: State)
    requires Inv(s) && Reaches(s, steps, end)
    ensures ServedAlong(s, steps) <==> NeverStrands(s, steps)
    decreases |steps|
  {
    hide Structure, Strands, Served;
    if steps != [] {
      var next := Next(s, steps[0]);
      StepIsSafeIff(s, steps[0]);
      StepKeepsStructure(s, steps[0]);
      if Strands(s, steps[0]) {
        ServedNow(next, steps[1..]);
      } else {
        RunIsSafeIff(next, steps[1..], end);
      }
    }
  }

  lemma ServedNow(s: State, steps: seq<Step>)
    ensures ServedAlong(s, steps) ==> Served(s)
  {
  }

  // ----- what every run guarantees

  lemma {:induction false} WaiterIsServed(s: State, t: nat, k: nat)
    requires Inv(s)
    requires t < |s.threads| && s.threads[t].pc.Waiting?
    requires k < |s.sockets| && k < s.threads[t].maxfdp1 && HasEvent(s.threads[t].sets, k, s.sockets[k])
    ensures s.threads[t].sem == 1 || Coming(s, t, k)
  {
    assert ThreadOk(s.sockets, s.threads[t]);
    if !s.threads[t].signalled {
      assert Unserved(s.threads[t], k, s.sockets[k]);
    }
  }

  /** No thread is left waiting with its semaphore down while an event it
      watches is set, unless the callback that will raise it is under way. */
  lemma {:induction false} NoLostWakeup(s: State, steps: seq<Step>, end: State, t: nat, k: nat)
    requires Initial(s) && Reaches(s, steps, end) && NeverStrands(s, steps)
    requires t < |end.threads| && end.threads[t].pc.Waiting?
    requires k < |end.sockets| && k < end.threads[t].maxfdp1 && HasEvent(end.threads[t].sets, k, end.sockets[k])
    ensures end.threads[t].sem == 1 || Coming(end, t, k)
    ensures end.callback.NoCallback? ==> end.threads[t].sem == 1 && Enabled(end, Advance(t))
  {
    InitialInv(s);
    RunKeepsInv(s, steps, end);
    WaiterIsServed(end, t, k);
  }

  ghost predicate WaitersInRange(s: State) {
    forall i :: 0 <= i < |s.waiters| ==> s.waiters[i] < |s.threads|
  }

  function StepsLeft(s: State): nat {
    if s.callback.NoCallback? then 0
    else if s.callback.pos < |s.waiters| then 1 + |s.waiters| - s.callback.pos
    else 1
  }

  /** The rest of a callback's walk, with no other step in between. */
  ghost function FinishWalk(s: State): (r: State)
    requires WaitersInRange(s)
    ensures r.callback.NoCallback? && |r.threads| == |s.threads| && r.sockets == s.sockets
    decreases StepsLeft(s)
  {
    if s.callback.NoCallback? then s else FinishWalk(Walked(s))
  }

  lemma {:induction false} FinishWalkKeepsInv(s: State, t: nat)
    requires Inv(s) && t < |s.threads|
    ensures Inv(FinishWalk(s))
    ensures
      var th := FinishWalk(s).threads[t];
      th.pc == s.threads[t].pc && th.sets == s.threads[t].sets && th.maxfdp1 == s.threads[t].maxfdp1
    decreases StepsLeft(s)
  {
    if !s.callback.NoCallback? {
      WalkKeepsStructure(s);
      WalkServes(s);
      FinishWalkKeepsInv(Walked(s), t);
    }
  }

  /** A callback running to its end has raised the semaphore of every waiting
      thread for which an event is set. */
  lemma {:induction false} CallbackDelivers(s: State, steps: seq<Step>, end: State, t: nat, k: nat)
    requires Initial(s) && Reaches(s, steps, end) && NeverStrands(s, steps)
    requires t < |end.threads| && end.threads[t].pc.Waiting?
    requires k < |end.sockets| && k < end.threads[t].maxfdp1 && HasEvent(end.threads[t].sets, k, end.sockets[k])
    ensures WaitersInRange(end) && FinishWalk(end).threads[t].sem == 1
  {
    InitialInv(s);
    RunKeepsInv(s, steps, end);
    FinishWalkKeepsInv(end, t);
    WaiterIsServed(FinishWalk(end), t, k);
  }

  /** Each counter is the number of threads that hold it, never wraps, and the
      list holds exactly the threads between linking and unlinking. */
  lemma {:induction false} CountersAreExact(s: State, steps: seq<Step>, end: State)
    requires Initial(s) && Reaches(s, steps, end)
    ensures CountersAgree(end) && WaitersAreLinked(end)
    ensures forall t :: 0 <= t < |end.threads| && IsLowering(end.threads[t]) ==>
      IsOpen(end, end.threads[t].pc.i) && end.sockets[end.threads[t].pc.i].selectWaiting > 0
  {
    InitialInv(s);
    RunKeepsStructure(s, steps, end);
    forall t | 0 <= t < |end.threads| && IsLowering(end.threads[t])
      ensures IsOpen(end, end.threads[t].pc.i) && end.sockets[end.threads[t].pc.i].selectWaiting > 0
    {
      UncountFindsItself(end, t);
    }
  }

  lemma {:induction false} SomebodyIsLinked(s: State)
    requires WaitersAreLinked(s) && s.waiters != []
    ensures exists t :: 0 <= t < |s.threads| && Linked(s.threads[t].pc)
  {
    assert Linked(s.threads[s.waiters[0]].pc);
  }

  /** Once every select call has returned, whatever way it ended, nothing is left behind. */
  lemma {:induction false} AllReturnedIsClean(s: State, steps: seq<Step>, end: State)
    requires Initial(s) && Reaches(s, steps, end)
    requires forall t :: 0 <= t < |end.threads| ==> end.threads[t].pc.Idle?
    ensures end.waiters == []
    ensures forall k :: 0 <= k < |end.sockets| ==> end.sockets[k].selectWaiting == 0
  {
    CountersAreExact(s, steps, end);
    forall k | 0 <= k < |end.sockets| ensures end.sockets[k].selectWaiting == 0 {
      NobodyCounted(end.threads, k);
    }
    if end.waiters != [] {
      SomebodyIsLinked(end);
    }
  }

  // ----- what the callers of event_callback have to do for it

  /** What the step adds to the receive counter of socket k, but for wrapping. */
  function Moves(step: Step, k: nat): int {
    if step.Signal? && step.s == k && step.e == RcvPlus then 1
    else if step.Signal? && step.s == k && step.e == RcvMinus then -1
    else 0
  }

  /** Raisings minus lowerings of socket k. */
  function Net(steps: seq<Step>, k: nat): int {
    if steps == [] then 0 else Moves(steps[0], k) + Net(steps[1..], k)
  }

  /** Counted without wrapping, every receive counter stays within 16 bits. */
  ghost predicate Paced(s: State, steps: seq<Step>) {
    forall n, k :: 0 <= n <= |steps| && 0 <= k < |s.sockets| ==>
      -32768 <= s.sockets[k].rcvEvent + Net(steps[..n], k) <= 32767
  }

  lemma {:induction false} CounterMoves(s: State, step: Step, k: nat)
    requires Enabled(s, step) && k < |s.sockets|
    requires -32768 <= s.sockets[k].rcvEvent + Moves(step, k) <= 32767
    ensures |Next(s, step).sockets| == |s.sockets|
    ensures Next(s, step).sockets[k].rcvEvent == s.sockets[k].rcvEvent + Moves(step, k)
  {
    hide Without;
  }

  lemma {:induction false} NetOfPrefix(steps: seq<Step>, n: nat, k: nat)
    requires steps != [] && n < |steps|
    ensures Net(steps[..n + 1], k) == Moves(steps[0], k) + Net(steps[1..][..n], k)
  {
    assert steps[..n + 1][1..] == steps[1..][..n];
  }

  lemma {:induction false} PacedTail(s: State, steps: seq<Step>)
    requires steps != [] && Enabled(s, steps[0]) && Paced(s, steps)
    ensures Paced(Next(s, steps[0]), steps[1..]) && !Underflows(s, steps[0])
  {
    hide Enabled, Next;
    var t := Next(s, steps[0]);
    forall k | 0 <= k < |s.sockets|
      ensures -32768 <= s.sockets[k].rcvEvent + Moves(steps[0], k) <= 32767
    {
      NetOfPrefix(steps, 0, k);
      assert -32768 <= s.sockets[k].rcvEvent + Net(steps[..1], k) <= 32767;
    }
    SameSockets(s, steps[0]);
    forall n, k | 0 <= n <= |steps[1..]| && 0 <= k < |t.sockets|
      ensures -32768 <= t.sockets[k].rcvEvent + Net(steps[1..][..n], k) <= 32767
    {
      CounterMoves(s, steps[0], k);
      NetOfPrefix(steps, n, k);
      assert -32768 <= s.sockets[k].rcvEvent + Net(steps[..n + 1], k) <= 32767;
    }
  }

  lemma {:induction false} SameSockets(s: State, step: Step)
    requires Enabled(s, step)
    ensures |Next(s, step).sockets| == |s.sockets|
  {
    hide Without;
  }

  /** Such a run strands nobody. */
  lemma {:induction false} PacedNeverStrands(s: State, steps: seq<Step>)
    requires Paced(s, steps)
    ensures NeverStrands(s, steps)
    decreases |steps|
  {
    hide Enabled, Next, Paced, Underflows;
    if steps != [] {
      if Enabled(s, steps[0]) {
        PacedTail(s, steps);
        PacedNeverStrands(Next(s, steps[0]), steps[1..]);
      } else {
        PacedStart(s, steps);
      }
    }
  }

  lemma {:induction false} PacedStart(s: State, steps: seq<Step>)
    requires steps != [] && Paced(s, steps)
    ensures !Underflows(s, steps[0])
  {
    if steps[0].Signal? && steps[0].s < |s.sockets| {
      var k := steps[0].s;
      NetOfPrefix(steps, 0, k);
      assert -32768 <= s.sockets[k].rcvEvent + Net(steps[..1], k);
    }
  }

  /** From new sockets it is enough to compare raisings and lowerings: no event is
      missed while neither exceeds the other by more than 16 bits can hold. */
  lemma {:induction false} PacedLosesNothing(s: State, steps: seq<Step>, end: State, t: nat, k: nat)
    requires Initial(s) && Reaches(s, steps, end)
    requires forall n, j :: 0 <= n <= |steps| && 0 <= j < |s.sockets| ==> -32768 <= Net(steps[..n], j) <= 32767
    requires t < |end.threads| && end.threads[t].pc.Waiting?
    requires k < |end.sockets| && k < end.threads[t].maxfdp1 && HasEvent(end.threads[t].sets, k, end.sockets[k])
    ensures end.threads[t].sem == 1 || Coming(end, t, k)
    ensures end.callback.NoCallback? ==> end.threads[t].sem == 1 && Enabled(end, Advance(t))
    ensures WaitersInRange(end) && FinishWalk(end).threads[t].sem == 1
  {
    hide Reaches, Coming, Enabled, FinishWalk;
    forall j | 0 <= j < |s.sockets| ensures s.sockets[j].rcvEvent == 0 {
      assert IsNew(s.sockets[j]);
    }
    PacedNeverStrands(s, steps);
    NoLostWakeup(s, steps, end, t, k);
    CallbackDelivers(s, steps, end, t, k);
  }

  // ----- a run that loses a wake-up

  lemma {:induction false} ReachesConcat(s: State, a: seq<Step>, m: State, b: seq<Step>, end: State)
    requires Reaches(s, a, m) && Reaches(m, b, end)
    ensures Reaches(s, a + b, end)
    decreases |a|
  {
    hide Next;
    if a == [] {
      assert a + b == b;
    } else {
      ReachesConcat(Next(s, a[0]), a[1..], m, b, end);
      assert (a + b)[1..] == a[1..] + b;
    }
  }

  function Repeat(step: Step, n: nat): seq<Step> {
    if n == 0 then [] else [step] + Repeat(step, n - 1)
  }

  /** Socket k with its receive counter at n. */
  function WithCounter(s: State, k: nat, n: s16): State
    requires k < |s.sockets|
  {
    s.(sockets := s.sockets[k := s.sockets[k].(rcvEvent := n)])
  }

  /** Raisings with nobody waiting take a receive counter as far up as its width
      allows. */
  lemma {:induction false} RaisingRun(s: State, k: nat, n: nat)
    requires IsOpen(s, k) && s.sockets[k].selectWaiting == 0 && s.callback.NoCallback?
    requires s.sockets[k].rcvEvent + n <= 32767
    ensures Reaches(s, Repeat(Signal(RcvPlus, k), n), WithCounter(s, k, s.sockets[k].rcvEvent + n))
    decreases n
  {
    var steps := Repeat(Signal(RcvPlus, k), n);
    if n == 0 {
      assert WithCounter(s, k, s.sockets[k].rcvEvent) == s;
    } else {
      var m := WithCounter(s, k, s.sockets[k].rcvEvent + 1);
      assert Next(s, Signal(RcvPlus, k)) == m;
      RaisingRun(m, k, n - 1);
      assert WithCounter(m, k, m.sockets[k].rcvEvent + (n - 1)) == WithCounter(s, k, s.sockets[k].rcvEvent + n);
      assert steps[1..] == Repeat(Signal(RcvPlus, k), n - 1);
    }
  }

  /** One socket and one thread about to select it for reading. */
  function OneReader(pc: Pc, n: s16, waiting: nat, waiters: seq<nat>, max2: nat, ready: int): State {
    State([Socket(true, false, n, false, false, waiting)],
          [Thread(pc, 1, max2, FdSets({0}, {}, {}), Forever, ready, false, false, 0, 0)], waiters, NoCallback)
  }

  /** The reader's way from its first scan to the semaphore, nothing being ready. */
  lemma {:induction false} ReaderWaits(n: s16)
    requires n <= 0
    ensures Reaches(OneReader(FirstScan(0, 0), n, 0, [], 1, 0), Repeat(Advance(0), 7),
      OneReader(Waiting, n, 1, [0], 1, 0))
  {
    var a: Step := Advance(0);
    var s0 := OneReader(FirstScan(0, 0), n, 0, [], 1, 0);
    var s1 := OneReader(FirstScan(1, 0), n, 0, [], 1, 0);
    var s2 := OneReader(Linking, n, 0, [], 1, 0);
    var s3 := OneReader(Counting(0), n, 0, [0], 1, 0);
    var s4 := OneReader(Counting(1), n, 1, [0], 1, 0);
    var s5 := OneReader(SecondScan(0, 0), n, 1, [0], 1, 0);
    var s6 := OneReader(SecondScan(1, 0), n, 1, [0], 1, 0);
    var s7 := OneReader(Waiting, n, 1, [0], 1, 0);
    OneAdvance(s0, s1);
    OneAdvance(s1, s2);
    OneAdvance(s2, s3);
    OneAdvance(s3, s4);
    OneAdvance(s4, s5);
    OneAdvance(s5, s6);
    OneAdvance(s6, s7);
    Chain(s6, s7, s7, 0);
    Chain(s5, s6, s7, 1);
    Chain(s4, s5, s7, 2);
    Chain(s3, s4, s7, 3);
    Chain(s2, s3, s7, 4);
    Chain(s1, s2, s7, 5);
    Chain(s0, s1, s7, 6);
  }

  lemma {:induction false} OneAdvance(s: State, next: State)
    requires CanAdvance(s, 0) && AdvanceThread(s, 0) == next
    ensures Enabled(s, Advance(0)) && Next(s, Advance(0)) == next
  {
  }

  lemma {:induction false} Chain(s: State, m: State, end: State, n: nat)
    requires Enabled(s, Advance(0)) && Next(s, Advance(0)) == m && Reaches(m, Repeat(Advance(0), n), end)
    ensures Reaches(s, Repeat(Advance(0), n + 1), end)
  {
    hide Enabled, Next;
    assert Repeat(Advance(0), n + 1)[1..] == Repeat(Advance(0), n);
  }

  /** Without that the law does fail: after 32768 raisings of a new socket, none
      taken back, a thread that then selects it waits, and the next lowering sets
      the receive event with its semaphore down and no callback. */
  lemma {:induction false} LossIsReachable() returns (s: State, steps: seq<Step>, end: State)
    ensures Initial(s) && Reaches(s, steps, end)
    ensures end.callback.NoCallback? && |end.threads| == |end.sockets| == 1
    ensures end.threads[0].pc.Waiting? && end.threads[0].sem == 0 && !Enabled(end, Advance(0))
    ensures 0 < end.threads[0].maxfdp1 && HasEvent(end.threads[0].sets, 0, end.sockets[0])
  {
    hide Repeat, Reaches, Next;
    s := OneReader(Idle, 0, 0, [], 1, 0);
    var low := OneReader(Idle, -32768, 0, [], 1, 0);
    var begun := OneReader(FirstScan(0, 0), -32768, 0, [], 1, 0);
    var waiting := OneReader(Waiting, -32768, 1, [0], 1, 0);
    end := OneReader(Waiting, 32767, 1, [0], 1, 0);
    var raise := RaisedReader();
    var begin: Step := Begin(0, 1, FdSets({0}, {}, {}), Forever);
    ReaderBegins();
    ReaderWaits(-32768);
    ReaderMisses();
    steps := raise + [begin] + Repeat(Advance(0), 7) + [Signal(RcvMinus, 0)];
    ReachesConcat(s, raise, low, [begin], begun);
    ReachesConcat(s, raise + [begin], begun, Repeat(Advance(0), 7), waiting);
    ReachesConcat(s, raise + [begin] + Repeat(Advance(0), 7), waiting, [Signal(RcvMinus, 0)], end);
  }

  lemma {:induction false} OneStep(s: State, step: Step, next: State)
    requires Enabled(s, step) && Next(s, step) == next
    ensures Reaches(s, [step], next)
  {
    hide Next, Enabled;
    assert [step][1..] == [];
    assert Reaches(next, [], next);
  }

  /** The last of 32768 raisings wraps the counter to its minimum. */
  lemma {:induction false} RaisedReader() returns (raise: seq<Step>)
    ensures Reaches(OneReader(Idle, 0, 0, [], 1, 0), raise, OneReader(Idle, -32768, 0, [], 1, 0))
  {
    hide Repeat, Reaches;
    var s := OneReader(Idle, 0, 0, [], 1, 0);
    var high := OneReader(Idle, 32767, 0, [], 1, 0);
    var low := OneReader(Idle, -32768, 0, [], 1, 0);
    var n: nat := 32767;
    RaisingRun(s, 0, n);
    assert WithCounter(s, 0, 32767) == high;
    OneStep(high, Signal(RcvPlus, 0), low);
    raise := Repeat(Signal(RcvPlus, 0), n) + [Signal(RcvPlus, 0)];
    ReachesConcat(s, Repeat(Signal(RcvPlus, 0), n), high, [Signal(RcvPlus, 0)], low);
  }

  lemma {:induction false} ReaderBegins()
    ensures Reaches(OneReader(Idle, -32768, 0, [], 1, 0), [Begin(0, 1, FdSets({0}, {}, {}), Forever)],
                    OneReader(FirstScan(0, 0), -32768, 0, [], 1, 0))
  {
    hide Reaches;
    OneStep(OneReader(Idle, -32768, 0, [], 1, 0), Begin(0, 1, FdSets({0}, {}, {}), Forever),
            OneReader(FirstScan(0, 0), -32768, 0, [], 1, 0));
  }

  lemma {:induction false} ReaderMisses()
    ensures Reaches(OneReader(Waiting, -32768, 1, [0], 1, 0), [Signal(RcvMinus, 0)],
      OneReader(Waiting, 32767, 1, [0], 1, 0))
  {
    hide Reaches;
    OneStep(OneReader(Waiting, -32768, 1, [0], 1, 0), Signal(RcvMinus, 0), OneReader(Waiting, 32767, 1, [0], 1, 0));
  }
}
