/** How long the resolver remembers an answer. */
module DnsCache {
  import opened Options
  import opened DnsSteps
  import opened DnsRuns

  // ----- what a step does to a completed entry

  lemma {:induction false} CallFoundOthers(s: State, i: nat, addr: Option<Addr>, j: nat)
    requires i < |s.table| && j < |s.table| && j != i
    ensures CallFound(s, i, addr).table[j] == s.table[j]
  {
    hide CallFrom, PortShared;
    CallFromTable(s, i, addr, 0);
  }

  /** The timer check that ages a completed entry. */
  function Aged(e: Entry): Entry {
    if e.ttl <= 1 then e.(ttl := 0, phase := Unused) else e.(ttl := e.ttl - 1)
  }

  lemma {:induction false} CheckFromAges(s: State, k: nat, maxRetries: nat, i: nat)
    requires k <= |s.table| && i < |s.table| && s.table[i].phase.Done? && Ready(s)
    ensures |CheckFrom(s, k, maxRetries).table| == |s.table|
    ensures CheckFrom(s, k, maxRetries).table[i] == if k <= i then Aged(s.table[i]) else s.table[i]
    decreases |s.table| - k
  {
    hide CheckEntry;
    if k < |s.table| {
      CheckEntryShape(s, k, maxRetries, 0);
      var t := CheckEntry(s, k, maxRetries, 0);
      if k == i {
        CheckAges(s, i, maxRetries);
        CheckFromKeeps(t, k + 1, maxRetries, i);
      } else {
        CheckFromAges(t, k + 1, maxRetries, i);
      }
    }
  }

  lemma {:induction false} CheckAges(s: State, i: nat, maxRetries: nat)
    requires i < |s.table| && s.table[i].phase.Done? && Ready(s)
    ensures CheckEntry(s, i, maxRetries, 0).table[i] == Aged(s.table[i])
  {
  }

  /** Entries already passed are not touched again. */
  lemma {:induction false} CheckFromKeeps(s: State, k: nat, maxRetries: nat, i: nat)
    requires i < k <= |s.table| && Ready(s)
    ensures |CheckFrom(s, k, maxRetries).table| == |s.table| && CheckFrom(s, k, maxRetries).table[i] == s.table[i]
    decreases |s.table| - k
  {
    hide CheckEntry;
    if k < |s.table| {
      CheckEntryShape(s, k, maxRetries, 0);
      CheckFromKeeps(CheckEntry(s, k, maxRetries, 0), k + 1, maxRetries, i);
    }
  }

  lemma {:induction false} ReplyKeeps(s: State, p: Packet, maxRetries: nat, i: nat)
    requires i < |s.table| && s.table[i].phase.Done? && Ready(s) && 0 < maxRetries
    ensures |Receive(s, p, maxRetries).table| == |s.table| && Receive(s, p, maxRetries).table[i] == s.table[i]
  {
    hide CheckEntry, CallFound;
    var j := FirstTxid(s.table, p.txid, 0);
    if j < |s.table| {
      var e := s.table[j];
      CheckEntryShape(SetEntry(s, j, e.(retries := maxRetries - 1, tmr := 1)), j, maxRetries, 0);
      CallFoundOthers(s, j, None, i);
      forall a: Addr, ttl: nat ensures CorrectResponse(s, j, a, ttl).table[i] == s.table[i] {
        ResponseOthers(s, j, a, ttl, i);
      }
    }
  }

  lemma {:induction false} ResponseOthers(s: State, j: nat, addr: Addr, ttl: nat, i: nat)
    requires j < |s.table| && i < |s.table| && i != j
    ensures CorrectResponse(s, j, addr, ttl).table[i] == s.table[i]
  {
    hide CallFound;
    var kept := if ttl > MAX_TTL then MAX_TTL else ttl;
    CallFoundOthers(SetEntry(s, j, s.table[j].(addr := addr, phase := Done, ttl := kept)), j, Some(addr), i);
  }

  /** A new query finds its name neither cached nor joinable, a request slot is
      free, and the entry it takes is i. */
  ghost predicate Evicts(s: State, step: Step, i: nat)
    requires 0 < |s.servers|
  {
    && step.Ask? && step.literal.None? && step.name != "" && |step.name| < MAX_NAME_LENGTH
    && FirstDone(s.table, step.name, 0) == |s.table| && s.servers[0] != ANY_ADDR
    && FirstAsking(s.table, step.name, 0) == |s.table|
    && FirstFree(s.requests, 0) < |s.requests|
    && Victim(s.table, s.seqno, 0, 0, |s.table|) == i
  }

  lemma {:induction false} AskKeeps(s: State, step: Step, maxRetries: nat, i: nat)
    requires i < |s.table| && s.table[i].phase.Done? && Ready(s) && step.Ask? && !Evicts(s, step, i)
    ensures
      var t := GetHostByName(s, step.name, step.literal, step.found, maxRetries, step.txid, step.granted).0;
      |t.table| == |s.table| && t.table[i] == s.table[i]
  {
    hide CheckEntry, SameName, AllocPcb, Victim, FirstAsking, FirstFree, FirstDone;
    var v := Victim(s.table, s.seqno, 0, 0, |s.table|);
    var r := FirstFree(s.requests, 0);
    if v < |s.table| && r < |s.requests| && v != i {
      StartKeeps(s, v, r, step, maxRetries, i);
    }
  }

  lemma {:induction false} StartKeeps(s: State, v: nat, r: nat, step: Step, maxRetries: nat, i: nat)
    requires v < |s.table| && i < |s.table| && i != v && Ready(s) && step.Ask?
    requires r < |s.requests| && s.requests[r].found.None?
    ensures
      var t := Start(s, v, r, step.name, step.found, maxRetries, step.txid, step.granted).0;
      |t.table| == |s.table| && t.table[i] == s.table[i]
  {
    hide CheckEntry, AllocPcb;
    var port := AllocPcb(s.pcbs, s.lastPcb, step.granted);
    var e := NewEntry(s.table[v], step.name, s.seqno, port.idx, s.ticks);
    var t := SetEntry(Attach(s, r, v, step.name, step.found), v, e)
               .(pcbs := port.pcbs, lastPcb := port.last, seqno := (s.seqno + 1) % 256);
    CheckEntryShape(t, v, maxRetries, step.txid);
  }

  /** Any step but an eviction leaves a completed entry, one tick older if the
      step was a tick. */
  lemma {:induction false} StepAges(s: State, step: Step, maxRetries: nat, i: nat)
    requires i < |s.table| && s.table[i].phase.Done? && Ready(s) && 0 < maxRetries && !Evicts(s, step, i)
    ensures
      var t := Next(s, step, maxRetries);
      |t.table| == |s.table| && t.table[i] == if step.TimerTick? then Aged(s.table[i]) else s.table[i]
  {
    hide GetHostByName, Receive, CheckFrom, Evicts;
    match step
    case Ask(_, _, _, _, _) => AskKeeps(s, step, maxRetries, i);
    case TimerTick => CheckFromAges(s, 0, maxRetries, i);
    case Reply(p) => ReplyKeeps(s, p, maxRetries, i);
    case NewServer(_, _) =>
  }

  // ----- runs

  function TicksIn(steps: seq<Step>): nat {
    if steps == [] then 0 else Bit(steps[0].TimerTick?) + TicksIn(steps[1..])
  }

  ghost predicate NeverEvicts(s: State, steps: seq<Step>, maxRetries: nat, i: nat)
    decreases |steps|
  {
    steps == [] ||
    (Ready(s) && 0 < maxRetries ==>
       !Evicts(s, steps[0], i) && NeverEvicts(Next(s, steps[0], maxRetries), steps[1..], maxRetries, i))
  }

  /** Without eviction an entry is kept for fewer ticks than its time to live. */
  lemma {:induction false} StaysCached(s: State, steps: seq<Step>, end: State, maxRetries: nat, i: nat)
    requires Inv(s, maxRetries, 0) && Reaches(s, steps, end, maxRetries) && NeverEvicts(s, steps, maxRetries, i)
    requires i < |s.table| && s.table[i].phase.Done? && TicksIn(steps) < s.table[i].ttl
    ensures Inv(end, maxRetries, 0) && |end.table| == |s.table|
    ensures end.table[i] == s.table[i].(ttl := s.table[i].ttl - TicksIn(steps))
    decreases |steps|
  {
    hide Inv, Next, Evicts;
    if steps != [] {
      StepKeepsInv(s, steps[0], maxRetries);
      StepAges(s, steps[0], maxRetries, i);
      StaysCached(Next(s, steps[0], maxRetries), steps[1..], end, maxRetries, i);
    }
  }

  lemma {:induction false} OnlyDone(s: State, maxRetries: nat, i: nat, name: string)
    requires Inv(s, maxRetries, 0) && i < |s.table| && s.table[i].phase.Done? && SameName(name, s.table[i].name)
    ensures FirstDone(s.table, name, 0) == i
  {
    assert FirstDone(s.table, name, 0) <= i;
  }

  /** A good answer is what every later request for the name is given, in any
      spelling, for fewer ticks than the time to live allows, cut to its maximum,
      unless a new query has taken the entry. */
  lemma {:induction false} AnswerStaysCached(s: State, maxRetries: nat, i: nat, addr: Addr, ttl: nat,
                                             steps: seq<Step>, end: State, ask: Step)
    requires Inv(s, maxRetries, 0) && i < |s.table| && s.table[i].phase.Asking?
    requires Reaches(CorrectResponse(s, i, addr, ttl), steps, end, maxRetries)
    requires NeverEvicts(CorrectResponse(s, i, addr, ttl), steps, maxRetries, i)
    requires TicksIn(steps) < if ttl > MAX_TTL then MAX_TTL else ttl
    requires ask.Ask? && ask.literal.None? && SameName(ask.name, s.table[i].name)
    requires ask.name != "" && |ask.name| < MAX_NAME_LENGTH
    ensures Ready(end)
    ensures GetHostByName(end, ask.name, ask.literal, ask.found, maxRetries, ask.txid, ask.granted) == (end, Ok(addr))
  {
    hide Inv, SameName, Reaches, NeverEvicts, CallFound, FirstDone, Enqueue;
    var t := CorrectResponse(s, i, addr, ttl);
    CorrectResponseKeepsInv(s, maxRetries, i, addr, ttl);
    Completed(s, i, addr, ttl);
    StaysCached(t, steps, end, maxRetries, i);
    InvIsReady(end, maxRetries);
    OnlyDone(end, maxRetries, i, ask.name);
  }

  lemma {:induction false} Completed(s: State, i: nat, addr: Addr, ttl: nat)
    requires i < |s.table| && ttl > 0
    ensures
      var t := CorrectResponse(s, i, addr, ttl);
      && |t.table| == |s.table| && t.table[i].phase.Done? && t.table[i].addr == addr
      && t.table[i].name == s.table[i].name
      && t.table[i].ttl == if ttl > MAX_TTL then MAX_TTL else ttl
  {
    hide CallFrom, PortShared;
    var kept := if ttl > MAX_TTL then MAX_TTL else ttl;
    CallFromTable(SetEntry(s, i, s.table[i].(addr := addr, phase := Done, ttl := kept)), i, Some(addr), 0);
  }

  /** The tick that uses up the time to live forgets the answer. */
  lemma {:induction false} AnswerExpires(s: State, steps: seq<Step>, end: State, maxRetries: nat, i: nat)
    requires Inv(s, maxRetries, 0) && Reaches(s, steps, end, maxRetries) && NeverEvicts(s, steps, maxRetries, i)
    requires i < |s.table| && s.table[i].phase.Done? && TicksIn(steps) + 1 == s.table[i].ttl
    ensures Ready(end) && |Tick(end, maxRetries).table| == |s.table| && Tick(end, maxRetries).table[i].phase.Unused?
  {
    hide Inv, Reaches, NeverEvicts, CheckFrom;
    StaysCached(s, steps, end, maxRetries, i);
    InvIsReady(end, maxRetries);
    CheckFromAges(end, 0, maxRetries, i);
  }
}
