/** When an unanswered query is put to which server: the retries of one server
    after the other, and the end after the last of them. */
module DnsSchedule {
  import opened Options
  import opened DnsSteps
  import opened DnsRuns
  import opened DnsCache
  import opened DnsReplies

  // ----- the timetable of one query

  /** The ticks one server is given: one, and then one more for each retry. */
  function Period(maxRetries: nat): nat {
    1 + maxRetries * (maxRetries - 1) / 2
  }

  /** The ticks a query has spent on its present server. */
  function Spent(e: Entry): int {
    if e.retries == 0 then 0 else 1 + e.retries * (e.retries - 1) / 2 + (e.retries - e.tmr)
  }

  predicate Timed(e: Entry, maxRetries: nat) {
    && e.phase.Asking?
    && e.retries < maxRetries
    && 1 <= e.tmr
    && (e.retries == 0 ==> e.tmr == 1)
    && (e.retries > 0 ==> e.tmr <= e.retries)
  }

  /** The entry n ticks after it was first put to server 0. */
  predicate OnSchedule(e: Entry, maxRetries: nat, n: nat) {
    Timed(e, maxRetries) && Times(e.server, Period(maxRetries)) + Spent(e) == n
  }

  /** One tick later, as long as there is another try. */
  function Later(e: Entry, maxRetries: nat): Entry {
    if e.tmr > 1 then e.(tmr := e.tmr - 1)
    else if e.retries + 1 < maxRetries then e.(tmr := e.retries + 1, retries := e.retries + 1)
    else e.(server := e.server + 1, tmr := 1, retries := 0)
  }

  /** The last tick of the present server. */
  predicate IsLast(e: Entry, maxRetries: nat) {
    e.tmr == 1 && e.retries + 1 == maxRetries
  }

  lemma {:induction false} Triangle(r: nat)
    ensures (r + 1) * r / 2 == r * (r - 1) / 2 + r
  {
    assert (r + 1) * r == r * (r - 1) + 2 * r;
  }

  lemma {:induction false} SpentIsShort(e: Entry, maxRetries: nat)
    requires Timed(e, maxRetries)
    ensures 0 <= Spent(e) < Period(maxRetries)
    ensures IsLast(e, maxRetries) <==> Spent(e) + 1 == Period(maxRetries)
    ensures !IsLast(e, maxRetries) ==> Timed(Later(e, maxRetries), maxRetries)
    ensures !IsLast(e, maxRetries) ==> Spent(Later(e, maxRetries)) == Spent(e) + 1
  {
    Triangle(e.retries);
    TrianglesGrow(e.retries + 1, maxRetries);
  }

  lemma {:induction false} TrianglesGrow(a: nat, b: nat)
    requires 1 <= a <= b
    ensures a * (a - 1) / 2 <= b * (b - 1) / 2
    ensures a < b ==> a * (a - 1) / 2 < b * (b - 1) / 2
    decreases b
  {
    if a < b {
      TrianglesGrow(a, b - 1);
      Triangle(b - 1);
    }
  }

  lemma {:induction false} TimesGrows(a: nat, b: nat, p: nat)
    requires a <= b
    ensures Times(a, p) + Times(b - a, p) == Times(b, p)
    decreases b
  {
    if a < b {
      TimesGrows(a, b - 1, p);
    }
  }

  /** A scheduled query moves on unless it is at the end of the last server. */
  lemma {:induction false} LaterIsScheduled(e: Entry, maxRetries: nat, n: nat, servers: nat)
    requires OnSchedule(e, maxRetries, n) && e.server < servers
    ensures n < Times(servers, Period(maxRetries))
    ensures n + 1 < Times(servers, Period(maxRetries)) <==> !(IsLast(e, maxRetries) && e.server + 1 == servers)
    ensures !(IsLast(e, maxRetries) && e.server + 1 == servers) ==>
      OnSchedule(Later(e, maxRetries), maxRetries, n + 1) && Later(e, maxRetries).server < servers
  {
    hide Spent;
    var p := Period(maxRetries);
    SpentIsShort(e, maxRetries);
    TimesGrows(e.server + 1, servers, p);
    assert Times(e.server + 1, p) == p + Times(e.server, p);
    if e.server + 1 < servers {
      assert Times(servers - e.server - 1, p) >= p;
    }
    if IsLast(e, maxRetries) {
      assert Spent(Later(e, maxRetries)) == 0 by { FreshSpent(Later(e, maxRetries)); }
    }
  }

  lemma FreshSpent(e: Entry)
    requires e.retries == 0
    ensures Spent(e) == 0
  {
  }

  // ----- what a check does to a pending entry

  /** The try that follows finds its server set: the query goes on. */
  lemma {:induction false} CheckGoesOn(s: State, i: nat, maxRetries: nat)
    requires i < |s.table| && 0 < |s.servers| && Timed(s.table[i], maxRetries) && maxRetries <= 255
    requires s.table[i].server < |s.servers|
    requires Later(s.table[i], maxRetries).server < |s.servers|
    requires s.servers[Later(s.table[i], maxRetries).server] != ANY_ADDR
    ensures CheckEntry(s, i, maxRetries, 0) == SetEntry(s, i, Later(s.table[i], maxRetries))
  {
    hide Abandon;
  }

  /** The last retry at the last server that is set ends the query. */
  lemma {:induction false} CheckGivesUp(s: State, i: nat, maxRetries: nat)
    requires i < |s.table| && 0 < |s.servers| && Timed(s.table[i], maxRetries) && maxRetries <= 255
    requires s.table[i].server < |s.servers| && IsLast(s.table[i], maxRetries)
    requires s.table[i].server + 1 == |s.servers| || s.servers[s.table[i].server + 1] == ANY_ADDR
    ensures Answered(s, CheckEntry(s, i, maxRetries, 0), i, None)
    ensures CheckEntry(s, i, maxRetries, 0).table[i].phase.Unused?
  {
    hide Abandon, Made;
    var e := s.table[i].(tmr := 0, retries := maxRetries);
    var n := SetEntry(s, i, e);
    AbandonAnswers(n, i);
    var t := CheckEntry(s, i, maxRetries, 0);
    assert t == Abandon(n, i);
    forall q | 0 <= q < |s.requests| ensures SlotAnswered(s, t, i, None, q) {
      assert SlotAnswered(n, t, i, None, q);
    }
  }

  /** A retry that finds its server cleared ends the query. */
  lemma {:induction false} ClearedServerEnds(s: State, i: nat, maxRetries: nat)
    requires i < |s.table| && 0 < |s.servers| && Timed(s.table[i], maxRetries) && maxRetries <= 255
    requires s.table[i].server < |s.servers| && s.servers[s.table[i].server] == ANY_ADDR
    requires s.table[i].tmr == 1 && s.table[i].retries + 1 < maxRetries
    ensures Answered(s, CheckEntry(s, i, maxRetries, 0), i, None)
    ensures CheckEntry(s, i, maxRetries, 0).table[i].phase.Unused?
  {
    hide Abandon, Made;
    var n := SetEntry(s, i, Later(s.table[i], maxRetries));
    AbandonAnswers(n, i);
    var t := CheckEntry(s, i, maxRetries, 0);
    assert t == Abandon(n, i);
    forall q | 0 <= q < |s.requests| ensures SlotAnswered(s, t, i, None, q) {
      assert SlotAnswered(n, t, i, None, q);
    }
  }

  // ----- what other entries' steps leave alone

  /** Entry i and the slots of its requests are as they were. */
  ghost predicate Untouched(s: State, t: State, i: nat)
    requires i < |s.table|
  {
    && |t.table| == |s.table| && t.table[i] == s.table[i]
    && |t.requests| == |s.requests| && |t.servers| == |s.servers|
    && (forall q :: 0 <= q < |s.requests| && BelongsTo(s.requests[q], i) ==> t.requests[q] == s.requests[q])
  }

  lemma {:induction false} AnsweringOthers(s: State, t: State, j: nat, addr: Option<Addr>, i: nat)
    requires j < |s.table| && i < |s.table| && i != j && Answered(s, t, j, addr)
    ensures Untouched(s, t, i)
  {
    hide Made;
    forall q | 0 <= q < |s.requests| && BelongsTo(s.requests[q], i) ensures t.requests[q] == s.requests[q] {
      assert SlotAnswered(s, t, j, addr, q);
    }
  }

  lemma {:induction false} AbandoningOthers(s: State, j: nat, e: Entry, i: nat)
    requires j < |s.table| && i < |s.table| && i != j
    ensures Untouched(s, Abandon(SetEntry(s, j, e), j), i)
  {
    hide Abandon;
    AbandonAnswers(SetEntry(s, j, e), j);
    AnsweringOthers(SetEntry(s, j, e), Abandon(SetEntry(s, j, e), j), j, None, i);
  }

  lemma {:induction false} CheckingOthers(s: State, j: nat, maxRetries: nat, i: nat)
    requires j < |s.table| && i < |s.table| && i != j && Ready(s)
    ensures Untouched(s, CheckEntry(s, j, maxRetries, 0), i)
  {
    hide Abandon;
    forall e: Entry ensures Untouched(s, Abandon(SetEntry(s, j, e), j), i) {
      AbandoningOthers(s, j, e, i);
    }
  }

  lemma {:induction false} CheckFromOthers(s: State, k: nat, maxRetries: nat, i: nat)
    requires i < k <= |s.table| && Ready(s)
    ensures Untouched(s, CheckFrom(s, k, maxRetries), i)
    decreases |s.table| - k
  {
    hide CheckEntry;
    if k < |s.table| {
      CheckEntryShape(s, k, maxRetries, 0);
      CheckingOthers(s, k, maxRetries, i);
      CheckFromOthers(CheckEntry(s, k, maxRetries, 0), k + 1, maxRetries, i);
    }
  }

  /** The state in which the timer comes to entry i, and the one it leaves. */
  lemma {:induction false} TickMeets(s: State, k: nat, maxRetries: nat, i: nat) returns (m: State)
    requires k <= i < |s.table| && Ready(s)
    ensures Untouched(s, m, i) && Ready(m) && m.servers == s.servers && Grows(s, m)
    ensures |CheckEntry(m, i, maxRetries, 0).table| == |s.table| && Ready(CheckEntry(m, i, maxRetries, 0))
    ensures CheckFrom(s, k, maxRetries) == CheckFrom(CheckEntry(m, i, maxRetries, 0), i + 1, maxRetries)
    decreases i - k
  {
    hide CheckEntry;
    CheckEntryShape(s, k, maxRetries, 0);
    if k == i {
      m := s;
    } else {
      CheckingOthers(s, k, maxRetries, i);
      CheckCallsGrow(s, k, maxRetries);
      var n := CheckEntry(s, k, maxRetries, 0);
      m := TickMeets(n, k + 1, maxRetries, i);
      assert m.calls[..|s.calls|] == m.calls[..|n.calls|][..|s.calls|];
    }
  }

  lemma {:induction false} TickGoesOn(s: State, maxRetries: nat, i: nat)
    requires Ready(s) && i < |s.table| && Timed(s.table[i], maxRetries) && maxRetries <= 255
    requires Later(s.table[i], maxRetries).server < |s.servers|
    requires s.servers[Later(s.table[i], maxRetries).server] != ANY_ADDR
    ensures
      var t := Tick(s, maxRetries);
      Untouched(SetEntry(s, i, Later(s.table[i], maxRetries)), t, i)
  {
    hide CheckEntry, CheckFrom, Later, Timed;
    var m := TickMeets(s, 0, maxRetries, i);
    CheckGoesOn(m, i, maxRetries);
    CheckFromOthers(CheckEntry(m, i, maxRetries, 0), i + 1, maxRetries, i);
  }

  // ----- callbacks made by the timer

  lemma {:induction false} AbandonCallsGrow(s: State, j: nat)
    requires j < |s.table|
    ensures |s.calls| <= |Abandon(s, j).calls| && Abandon(s, j).calls[..|s.calls|] == s.calls
  {
    hide CallFrom, PortShared;
    CallFromTable(s, j, None, 0);
    CallsGrow(s, j, None, 0);
  }

  ghost predicate Grows(s: State, t: State) {
    |s.calls| <= |t.calls| && t.calls[..|s.calls|] == s.calls
  }

  lemma {:induction false} CheckCallsGrow(s: State, j: nat, maxRetries: nat)
    requires j < |s.table| && Ready(s)
    ensures Grows(s, CheckEntry(s, j, maxRetries, 0))
  {
    hide Abandon;
    forall e: Entry ensures Grows(s, Abandon(SetEntry(s, j, e), j)) {
      AbandonCallsGrow(SetEntry(s, j, e), j);
    }
  }

  lemma {:induction false} CheckFromCallsGrow(s: State, k: nat, maxRetries: nat)
    requires k <= |s.table| && Ready(s)
    ensures Grows(s, CheckFrom(s, k, maxRetries))
    decreases |s.table| - k
  {
    hide CheckEntry;
    if k < |s.table| {
      var m, t := CheckEntry(s, k, maxRetries, 0), CheckFrom(s, k, maxRetries);
      CheckEntryShape(s, k, maxRetries, 0);
      CheckCallsGrow(s, k, maxRetries);
      CheckFromCallsGrow(m, k + 1, maxRetries);
      assert t.calls[..|s.calls|] == t.calls[..|m.calls|][..|s.calls|];
    }
  }

  lemma {:induction false} MadeStays(s: State, t: State, n: nat, n': nat, c: Call)
    requires Made(s.calls, n, c) && n' <= n && Grows(s, t)
    ensures Made(t.calls, n', c)
  {
    var x :| n <= x < |s.calls| && s.calls[x] == c;
    assert t.calls[x] == t.calls[..|s.calls|][x];
  }

  /** The callbacks of entry i's requests have been made with no address. */
  ghost predicate ToldNothing(s: State, t: State, i: nat)
    requires i < |s.table|
  {
    forall q :: 0 <= q < |s.requests| && BelongsTo(s.requests[q], i) ==>
      Made(t.calls, |s.calls|, Call(s.requests[q].ticket, s.requests[q].found.value, s.table[i].name, None))
  }

  lemma {:induction false} TickGivesUp(s: State, maxRetries: nat, i: nat)
    requires Ready(s) && i < |s.table| && Timed(s.table[i], maxRetries) && maxRetries <= 255
    requires IsLast(s.table[i], maxRetries) && s.table[i].server + 1 == |s.servers|
    ensures
      var t := Tick(s, maxRetries);
      |t.table| == |s.table| && t.table[i].phase.Unused? && ToldNothing(s, t, i)
  {
    hide CheckEntry, CheckFrom, Timed, IsLast, Made;
    var m := TickMeets(s, 0, maxRetries, i);
    CheckGivesUp(m, i, maxRetries);
    var n := CheckEntry(m, i, maxRetries, 0);
    CheckFromOthers(n, i + 1, maxRetries, i);
    CheckFromCallsGrow(n, i + 1, maxRetries);
    forall q | 0 <= q < |s.requests| && BelongsTo(s.requests[q], i)
      ensures Made(CheckFrom(n, i + 1, maxRetries).calls, |s.calls|,
                   Call(s.requests[q].ticket, s.requests[q].found.value, s.table[i].name, None))
    {
      assert SlotAnswered(m, n, i, None, q);
      MadeStays(n, CheckFrom(n, i + 1, maxRetries), |m.calls|, |s.calls|,
                Call(s.requests[q].ticket, s.requests[q].found.value, s.table[i].name, None));
    }
  }

  // ----- requests and other replies

  lemma {:induction false} AskLeaves(s: State, step: Step, maxRetries: nat, i: nat)
    requires Ready(s) && i < |s.table| && s.table[i].phase.Asking? && step.Ask? && s.servers[0] != ANY_ADDR
    ensures
      var t := GetHostByName(s, step.name, step.literal, step.found, maxRetries, step.txid, step.granted).0;
      Untouched(s, t, i) && t.servers == s.servers
  {
    hide CheckEntry, SameName, AllocPcb, Victim, FirstAsking, FirstFree, FirstDone;
    var v := Victim(s.table, s.seqno, 0, 0, |s.table|);
    var r := FirstFree(s.requests, 0);
    if v < |s.table| && r < |s.requests| && AllocPcb(s.pcbs, s.lastPcb, step.granted).idx < |s.pcbs| {
      StartAsks(s, v, r, step.name, step.found, maxRetries, step.txid, step.granted);
    }
  }

  lemma {:induction false} ReplyLeaves(s: State, p: Packet, maxRetries: nat, i: nat)
    requires Ready(s) && 0 < maxRetries && i < |s.table| && s.table[i].phase.Asking? && p.txid != s.table[i].txid
    ensures Untouched(s, Receive(s, p, maxRetries), i) && Receive(s, p, maxRetries).servers == s.servers
  {
    hide CheckEntry, Abandon, CorrectResponse, FirstTxid, Answered;
    var j := FirstTxid(s.table, p.txid, 0);
    if j < |s.table| {
      var m := SetEntry(s, j, s.table[j].(retries := maxRetries - 1, tmr := 1));
      CheckEntryShape(m, j, maxRetries, 0);
      CheckingOthers(m, j, maxRetries, i);
      AbandoningOthers(s, j, s.table[j], i);
      assert SetEntry(s, j, s.table[j]) == s;
      AbandonAnswers(s, j);
      AnsweredServers(s, Abandon(s, j), j, None);
      forall a: Addr, ttl: nat
        ensures Untouched(s, CorrectResponse(s, j, a, ttl), i) && CorrectResponse(s, j, a, ttl).servers == s.servers
      {
        ResponseAnswers(s, j, a, ttl);
        AnsweringOthers(s, CorrectResponse(s, j, a, ttl), j, Some(a), i);
        AnsweredServers(s, CorrectResponse(s, j, a, ttl), j, Some(a));
      }
    }
  }

  lemma AnsweredServers(s: State, t: State, j: nat, addr: Option<Addr>)
    requires j < |s.table| && Answered(s, t, j, addr)
    ensures t.servers == s.servers
  {
  }

  // ----- whole runs

  ghost predicate AllSet(servers: seq<Addr>) {
    forall k :: 0 <= k < |servers| ==> servers[k] != ANY_ADDR
  }

  /** Nobody replies to the query with this id, and no server is cleared. */
  predicate Silent(step: Step, txid: nat) {
    && (step.Reply? ==> step.packet.txid != txid)
    && (step.NewServer? ==> step.addr != ANY_ADDR)
  }

  ghost predicate AllSilent(steps: seq<Step>, txid: nat) {
    forall j :: 0 <= j < |steps| ==> Silent(steps[j], txid)
  }

  /** The entry after a step that is silent for it. */
  function AfterStep(e: Entry, step: Step, maxRetries: nat): Entry {
    if step.TimerTick? then Later(e, maxRetries) else e
  }

  lemma {:induction false} StepOnSchedule(s: State, step: Step, maxRetries: nat, i: nat, n: nat)
    requires Inv(s, maxRetries, 0) && Ready(s) && AllSet(s.servers)
    requires i < |s.table| && OnSchedule(s.table[i], maxRetries, n) && Silent(step, s.table[i].txid)
    requires n + Bit(step.TimerTick?) < Times(|s.servers|, Period(maxRetries))
    ensures 0 < maxRetries
    ensures
      var t := Next(s, step, maxRetries);
      && Untouched(SetEntry(s, i, AfterStep(s.table[i], step, maxRetries)), t, i) && AllSet(t.servers)
      && OnSchedule(t.table[i], maxRetries, n + Bit(step.TimerTick?))
  {
    hide Inv, CheckFrom, Receive, GetHostByName, Later, Timed, Period, Spent;
    InvIsReady(s, maxRetries);
    assert maxRetries <= 255 by { InvBound(s, maxRetries); }
    assert SetEntry(s, i, s.table[i]) == s;
    match step
    case Ask(_, _, _, _, _) =>
      assert s.table[i].phase.Asking? by { TimedIsAsking(s.table[i], maxRetries); }
      AskLeaves(s, step, maxRetries, i);
    case TimerTick =>
      LaterIsScheduled(s.table[i], maxRetries, n, |s.servers|);
      TickGoesOn(s, maxRetries, i);
      TickServers(s, 0, maxRetries);
    case Reply(p) =>
      assert s.table[i].phase.Asking? by { TimedIsAsking(s.table[i], maxRetries); }
      ReplyLeaves(s, p, maxRetries, i);
    case NewServer(_, _) =>
  }

  lemma InvBound(s: State, maxRetries: nat)
    requires Inv(s, maxRetries, 0)
    ensures maxRetries <= 255
  {
  }

  lemma TimedIsAsking(e: Entry, maxRetries: nat)
    requires Timed(e, maxRetries)
    ensures e.phase.Asking?
  {
  }

  lemma {:induction false} TickServers(s: State, k: nat, maxRetries: nat)
    requires k <= |s.table| && Ready(s)
    ensures CheckFrom(s, k, maxRetries).servers == s.servers
    decreases |s.table| - k
  {
    hide CheckEntry;
    if k < |s.table| {
      CheckEntryShape(s, k, maxRetries, 0);
      TickServers(CheckEntry(s, k, maxRetries, 0), k + 1, maxRetries);
    }
  }

  /** The entries of a run and the requests waiting for entry i. */
  ghost predicate StillWaiting(s: State, t: State, i: nat)
    requires i < |s.table|
  {
    && |t.table| == |s.table| && |t.requests| == |s.requests| && |t.servers| == |s.servers|
    && t.table[i].phase.Asking? && t.table[i].txid == s.table[i].txid && t.table[i].name == s.table[i].name
    && (forall q :: 0 <= q < |s.requests| && BelongsTo(s.requests[q], i) ==> t.requests[q] == s.requests[q])
  }

  lemma {:induction false} RunOnSchedule(s: State, steps: seq<Step>, end: State, maxRetries: nat, i: nat, n: nat)
    requires Inv(s, maxRetries, 0) && Reaches(s, steps, end, maxRetries) && AllSet(s.servers)
    requires i < |s.table| && OnSchedule(s.table[i], maxRetries, n) && AllSilent(steps, s.table[i].txid)
    requires n + TicksIn(steps) < Times(|s.servers|, Period(maxRetries))
    ensures Inv(end, maxRetries, 0) && AllSet(end.servers) && StillWaiting(s, end, i)
    ensures OnSchedule(end.table[i], maxRetries, n + TicksIn(steps))
    decreases |steps|
  {
    hide Inv, Next, Later, Period, Spent, AllSet, Times;
    if steps != [] {
      var t := Next(s, steps[0], maxRetries);
      StepKeepsInv(s, steps[0], maxRetries);
      StepOnSchedule(s, steps[0], maxRetries, i, n);
      LaterKeeps(s.table[i], maxRetries);
      assert AllSilent(steps[1..], t.table[i].txid);
      RunOnSchedule(t, steps[1..], end, maxRetries, i, n + Bit(steps[0].TimerTick?));
    }
  }

  lemma LaterKeeps(e: Entry, maxRetries: nat)
    ensures Later(e, maxRetries).phase == e.phase && Later(e, maxRetries).txid == e.txid
    ensures Later(e, maxRetries).name == e.name
  {
  }

  /** As dns_enqueue leaves a new query. */
  predicate JustAsked(e: Entry) {
    e.phase.Asking? && e.server == 0 && e.tmr == 1 && e.retries == 0
  }

  lemma {:induction false} ServerOf(e: Entry, maxRetries: nat, n: nat)
    requires OnSchedule(e, maxRetries, n)
    ensures e.server == n / Period(maxRetries) && Spent(e) == n % Period(maxRetries)
  {
    hide Period, Spent;
    SpentIsShort(e, maxRetries);
    TimesIsProduct(e.server, Period(maxRetries));
    Divides(e.server, Period(maxRetries), Spent(e));
  }

  lemma {:induction false} TimesIsProduct(k: nat, p: nat)
    ensures Times(k, p) == k * p
  {
    if k > 0 {
      TimesIsProduct(k - 1, p);
      assert k * p == (k - 1) * p + p;
    }
  }

  lemma {:induction false} Divides(k: nat, p: nat, r: nat)
    requires r < p
    ensures (k * p + r) / p == k && (k * p + r) % p == r
  {
    var n := k * p + r;
    var d := n / p - k;
    assert n == n / p * p + n % p;
    assert d * p == r - n % p;
    assert (d > 0 ==> d * p >= p) && (d < 0 ==> d * p <= 0 - p as int);
  }

  /** With every server set and nobody answering, a new query is put to server
      number n / Period after n ticks, for Period ticks each; until all servers
      have had their turn it stays pending and nobody is called. */
  lemma {:induction false} EveryServerIsAsked(s: State, steps: seq<Step>, end: State, maxRetries: nat, i: nat)
    requires Inv(s, maxRetries, 0) && Reaches(s, steps, end, maxRetries) && AllSet(s.servers)
    requires i < |s.table| && JustAsked(s.table[i]) && AllSilent(steps, s.table[i].txid)
    requires TicksIn(steps) < |s.servers| * Period(maxRetries)
    ensures StillWaiting(s, end, i)
    ensures end.table[i].server == TicksIn(steps) / Period(maxRetries)
    ensures Spent(end.table[i]) == TicksIn(steps) % Period(maxRetries)
    ensures forall q :: 0 <= q < |s.requests| && BelongsTo(s.requests[q], i) ==>
      CalledTimes(end.calls, s.requests[q].ticket) == 0
  {
    hide Inv, Reaches, AllSet, AllSilent, Period, Spent, Times, CalledTimes, Timed;
    JustAskedIsScheduled(s, maxRetries, i);
    TimesIsProduct(|s.servers|, Period(maxRetries));
    RunOnSchedule(s, steps, end, maxRetries, i, 0);
    ServerOf(end.table[i], maxRetries, TicksIn(steps));
    forall q | 0 <= q < |s.requests| && BelongsTo(s.requests[q], i)
      ensures CalledTimes(end.calls, s.requests[q].ticket) == 0
    {
      HeldIsUncalled(end, maxRetries, q);
    }
  }

  lemma {:induction false} JustAskedIsScheduled(s: State, maxRetries: nat, i: nat)
    requires Inv(s, maxRetries, 0) && i < |s.table| && JustAsked(s.table[i])
    ensures OnSchedule(s.table[i], maxRetries, 0)
  {
  }

  lemma {:induction false} HeldIsUncalled(s: State, maxRetries: nat, q: nat)
    requires Inv(s, maxRetries, 0) && q < |s.requests| && s.requests[q].found.Some?
    ensures CalledTimes(s.calls, s.requests[q].ticket) == 0
  {
    var id := s.requests[q].ticket;
    HeldCounts(s.requests, id, q);
    assert CalledTimes(s.calls, id) + HeldTimes(s.requests, id) == Bit(id < |s.accepted|);
  }

  lemma {:induction false} HeldCounts(requests: seq<Request>, id: nat, q: nat)
    requires q < |requests| && Holds(requests[q], id)
    ensures HeldTimes(requests, id) >= 1
  {
    if q > 0 {
      HeldCounts(requests[1..], id, q - 1);
    }
  }

  /** The tick after the last server's turn ends the query: its entry is free
      and its requests are told that there is no address. */
  lemma {:induction false} GivenUpAfterAll(s: State, steps: seq<Step>, end: State, maxRetries: nat, i: nat)
    requires Inv(s, maxRetries, 0) && Reaches(s, steps, end, maxRetries) && AllSet(s.servers)
    requires i < |s.table| && JustAsked(s.table[i]) && AllSilent(steps, s.table[i].txid)
    requires TicksIn(steps) + 1 == |s.servers| * Period(maxRetries)
    ensures Ready(end) && |Tick(end, maxRetries).table| == |s.table|
    ensures Tick(end, maxRetries).table[i].phase.Unused?
    ensures forall q :: 0 <= q < |s.requests| && BelongsTo(s.requests[q], i) ==>
      Made(Tick(end, maxRetries).calls, |end.calls|,
           Call(s.requests[q].ticket, s.requests[q].found.value, s.table[i].name, None))
  {
    hide Inv, Reaches, AllSet, AllSilent, Period, Spent, Times, Made, Tick, Timed, Later;
    JustAskedIsScheduled(s, maxRetries, i);
    TimesIsProduct(|s.servers|, Period(maxRetries));
    RunOnSchedule(s, steps, end, maxRetries, i, 0);
    InvIsReady(end, maxRetries);
    InvBound(end, maxRetries);
    LaterIsScheduled(end.table[i], maxRetries, TicksIn(steps), |s.servers|);
    TickGivesUp(end, maxRetries, i);
  }
}
