/** What every run of resolver steps keeps: callbacks are neither lost nor made
    twice, ids and names are not shared, ports match the pending queries and no
    query outlives its time. */
module DnsRuns {
  import opened Options
  import opened DnsSteps

  function Bit(b: bool): nat {
    if b then 1 else 0
  }

  // ----- the ledger of callbacks

  function CalledTimes(calls: seq<Call>, id: nat): nat {
    if calls == [] then 0
    else CalledTimes(calls[..|calls| - 1], id) + Bit(calls[|calls| - 1].ticket == id)
  }

  predicate Holds(q: Request, id: nat) {
    q.found.Some? && q.ticket == id
  }

  function HeldTimes(requests: seq<Request>, id: nat): nat {
    if requests == [] then 0 else Bit(Holds(requests[0], id)) + HeldTimes(requests[1..], id)
  }

  /** Every accepted request has either been answered once or holds one slot. */
  ghost predicate Ledger(calls: seq<Call>, requests: seq<Request>, accepted: nat) {
    forall id: nat :: CalledTimes(calls, id) + HeldTimes(requests, id) == Bit(id < accepted)
  }

  /** A live slot belongs to a pending entry for the name that was asked for. */
  predicate SlotOk(q: Request, table: seq<Entry>, accepted: seq<Accepted>) {
    q.found.Some? ==>
      && q.entry < |table|
      && table[q.entry].phase.Asking?
      && TicketOk(q, table[q.entry].name, accepted)
      && table[q.entry].born <= accepted[q.ticket].tick
  }

  predicate TicketOk(q: Request, name: string, accepted: seq<Accepted>) {
    && q.found.Some?
    && q.ticket < |accepted|
    && accepted[q.ticket].found == q.found.value
    && SameName(accepted[q.ticket].name, name)
  }

  ghost predicate SlotsOk(requests: seq<Request>, table: seq<Entry>, accepted: seq<Accepted>) {
    forall r :: 0 <= r < |requests| ==> SlotOk(requests[r], table, accepted)
  }

  predicate CallOk(c: Call, accepted: seq<Accepted>) {
    && c.ticket < |accepted|
    && accepted[c.ticket].found == c.found
    && SameName(accepted[c.ticket].name, c.name)
  }

  ghost predicate CallsOk(calls: seq<Call>, accepted: seq<Accepted>) {
    forall c :: 0 <= c < |calls| ==> CallOk(calls[c], accepted)
  }

  // ----- ids, names and ports

  ghost predicate TxidsDistinct(table: seq<Entry>) {
    forall i, j :: 0 <= i < j < |table| && table[i].phase.Asking? && table[j].phase.Asking? ==>
      table[i].txid != table[j].txid
  }

  ghost predicate NamesDistinct(table: seq<Entry>) {
    forall i, j :: 0 <= i < j < |table| && !table[i].phase.Unused? && !table[j].phase.Unused? ==>
      !SameName(table[i].name, table[j].name)
  }

  ghost predicate Used(table: seq<Entry>, p: nat) {
    exists i :: 0 <= i < |table| && table[i].phase.Asking? && table[i].pcb == p
  }

  ghost predicate PortsExact(table: seq<Entry>, pcbs: seq<bool>) {
    forall p :: 0 <= p < |pcbs| ==> (pcbs[p] <==> Used(table, p))
  }

  // ----- time

  function SumFrom(a: nat, n: nat): nat
    decreases n - a
  {
    if a >= n then 0 else a + SumFrom(a + 1, n)
  }

  /** The ticks one server may take. */
  function Budget(maxRetries: nat): nat {
    1 + SumFrom(1, maxRetries)
  }

  function Times(n: nat, b: nat): nat {
    if n == 0 then 0 else b + Times(n - 1, b)
  }

  /** The ticks a pending query has left at most. */
  function Remaining(e: Entry, maxRetries: nat, servers: nat): nat
    requires e.server < servers
  {
    e.tmr + SumFrom(e.retries + 1, maxRetries) + Times(servers - 1 - e.server, Budget(maxRetries))
  }

  predicate OnTime(e: Entry, now: nat, maxRetries: nat, servers: nat)
    requires e.server < servers
  {
    now + Remaining(e, maxRetries, servers) <= e.born + Times(servers, Budget(maxRetries))
  }

  predicate EntryOk(e: Entry, maxRetries: nat, servers: nat, ports: nat) {
    && !e.phase.New?
    && e.server < servers
    && (e.phase.Asking? ==> 1 <= e.tmr < 256 && e.retries < maxRetries && e.pcb < ports && e.txid < 65536)
    && (e.phase.Done? ==> 1 <= e.ttl <= MAX_TTL)
  }

  ghost predicate EntriesOk(table: seq<Entry>, maxRetries: nat, servers: nat, ports: nat) {
    forall i :: 0 <= i < |table| ==> EntryOk(table[i], maxRetries, servers, ports)
  }

  /** Entries below k have been checked in the tick under way. */
  ghost predicate Deadlines(table: seq<Entry>, ticks: nat, maxRetries: nat, servers: nat, k: nat) {
    forall i :: 0 <= i < |table| && table[i].phase.Asking? ==>
      && table[i].server < servers
      && table[i].born <= ticks
      && OnTime(table[i], ticks + Bit(i < k), maxRetries, servers)
  }

  ghost predicate Shape(s: State, maxRetries: nat) {
    && |s.requests| == |s.table| <= 255
    && 1 <= |s.pcbs| <= 255
    && s.lastPcb < |s.pcbs|
    && 1 <= |s.servers| <= 255
    && 1 <= maxRetries <= 255
  }

  ghost predicate Inv(s: State, maxRetries: nat, k: nat) {
    && Shape(s, maxRetries)
    && EntriesOk(s.table, maxRetries, |s.servers|, |s.pcbs|)
    && SlotsOk(s.requests, s.table, s.accepted)
    && CallsOk(s.calls, s.accepted)
    && Ledger(s.calls, s.requests, |s.accepted|)
    && TxidsDistinct(s.table)
    && NamesDistinct(s.table)
    && PortsExact(s.table, s.pcbs)
    && Deadlines(s.table, s.ticks, maxRetries, |s.servers|, k)
  }

  // ----- making callbacks

  lemma {:induction false} HeldAfterUpdate(requests: seq<Request>, r: nat, q: Request, id: nat)
    requires r < |requests|
    ensures HeldTimes(requests[r := q], id) + Bit(Holds(requests[r], id)) == HeldTimes(requests, id) + Bit(Holds(q, id))
  {
    if r == 0 {
      assert requests[r := q][1..] == requests[1..];
    } else {
      assert requests[r := q][1..] == requests[1..][r - 1 := q];
      HeldAfterUpdate(requests[1..], r - 1, q, id);
    }
  }

  lemma {:induction false} CalledAfterCall(calls: seq<Call>, c: Call, id: nat)
    ensures CalledTimes(calls + [c], id) == CalledTimes(calls, id) + Bit(c.ticket == id)
  {
    assert (calls + [c])[..|calls|] == calls;
  }

  /** One round of dns_call_found's loop. */
  function ServeOne(s: State, i: nat, addr: Option<Addr>, r: nat): State
    requires i < |s.table| && r < |s.requests| && s.requests[r].found.Some?
  {
    var q := s.requests[r];
    s.(requests := s.requests[r := q.(found := None)],
       calls := s.calls + [Call(q.ticket, q.found.value, s.table[i].name, addr)])
  }

  lemma {:induction false} ServeOneKeepsLedger(s: State, i: nat, addr: Option<Addr>, r: nat, n: nat)
    requires i < |s.table| && r < |s.requests| && s.requests[r].found.Some?
    requires Ledger(s.calls, s.requests, n)
    ensures Ledger(ServeOne(s, i, addr, r).calls, ServeOne(s, i, addr, r).requests, n)
  {
    var q := s.requests[r];
    var t := ServeOne(s, i, addr, r);
    forall id: nat ensures CalledTimes(t.calls, id) + HeldTimes(t.requests, id) == Bit(id < n) {
      HeldAfterUpdate(s.requests, r, q.(found := None), id);
      CalledAfterCall(s.calls, Call(q.ticket, q.found.value, s.table[i].name, addr), id);
    }
  }

  /** Slots of entry i carry tickets for its name. */
  ghost predicate TicketsOk(requests: seq<Request>, i: nat, name: string, accepted: seq<Accepted>) {
    forall r :: 0 <= r < |requests| && requests[r].found.Some? && requests[r].entry == i ==>
      TicketOk(requests[r], name, accepted)
  }

  /** dns_call_found answers exactly the live slots of the entry, each once. */
  lemma {:induction false} CallFromServes(s: State, i: nat, addr: Option<Addr>, r: nat)
    requires i < |s.table| && r <= |s.requests|
    requires Ledger(s.calls, s.requests, |s.accepted|) && CallsOk(s.calls, s.accepted)
    requires TicketsOk(s.requests, i, s.table[i].name, s.accepted)
    requires forall q :: 0 <= q < r && s.requests[q].found.Some? ==> s.requests[q].entry != i
    ensures
      var t := CallFrom(s, i, addr, r);
      && Ledger(t.calls, t.requests, |s.accepted|)
      && CallsOk(t.calls, s.accepted)
      && |t.requests| == |s.requests|
      && (forall q :: 0 <= q < |t.requests| && t.requests[q].found.Some? ==>
            t.requests[q] == s.requests[q] && t.requests[q].entry != i)
    decreases |s.requests| - r
  {
    hide SameName, Ledger, CalledTimes, HeldTimes;
    if r < |s.requests| {
      if s.requests[r].found.Some? && s.requests[r].entry == i {
        var t := ServeOne(s, i, addr, r);
        ServeOneKeepsLedger(s, i, addr, r, |s.accepted|);
        assert TicketOk(s.requests[r], s.table[i].name, s.accepted);
        assert CallOk(t.calls[|s.calls|], s.accepted);
        CallFromServes(t, i, addr, r + 1);
      } else {
        CallFromServes(s, i, addr, r + 1);
      }
    }
  }

  // ----- releasing ports

  lemma {:induction false} PortSharedMeans(table: seq<Entry>, i: nat, j: nat)
    requires i < |table| && j <= |table|
    ensures PortShared(table, i, j) <==>
      exists x :: j <= x < |table| && x != i && table[x].phase.Asking? && table[x].pcb == table[i].pcb
    decreases |table| - j
  {
    if j < |table| {
      PortSharedMeans(table, i, j + 1);
    }
  }

  lemma {:induction false} ReleaseKeepsPorts(table: seq<Entry>, pcbs: seq<bool>, i: nat, e: Entry)
    requires i < |table| && table[i].pcb < |pcbs|
    requires forall p :: 0 <= p < |pcbs| && p != table[i].pcb ==> (pcbs[p] <==> Used(table, p))
    requires pcbs[table[i].pcb]
    requires !e.phase.Asking?
    ensures PortsExact(table[i := e], if PortShared(table, i, 0) then pcbs else pcbs[table[i].pcb := false])
  {
    var t := table[i := e];
    PortSharedMeans(table, i, 0);
    forall p | 0 <= p < |pcbs|
      ensures Used(t, p) <==> (if p == table[i].pcb then PortShared(table, i, 0) else Used(table, p))
    {
      if x :| 0 <= x < |t| && t[x].phase.Asking? && t[x].pcb == p {
        assert x != i && table[x] == t[x];
      }
      if p != table[i].pcb && Used(table, p) {
        var x :| 0 <= x < |table| && table[x].phase.Asking? && table[x].pcb == p;
        assert t[x] == table[x];
      }
      if p == table[i].pcb && PortShared(table, i, 0) {
        var x :| 0 <= x < |table| && x != i && table[x].phase.Asking? && table[x].pcb == table[i].pcb;
        assert t[x] == table[x];
      }
    }
  }

  // ----- table updates

  lemma {:induction false} TxidsAfterUpdate(table: seq<Entry>, i: nat, e: Entry)
    requires i < |table| && TxidsDistinct(table)
    requires e.phase.Asking? ==> forall j :: 0 <= j < |table| && j != i && table[j].phase.Asking? ==>
      table[j].txid != e.txid
    ensures TxidsDistinct(table[i := e])
  {
  }

  lemma {:induction false} NamesAfterUpdate(table: seq<Entry>, i: nat, e: Entry)
    requires i < |table| && NamesDistinct(table)
    requires !e.phase.Unused? ==> forall j :: 0 <= j < |table| && j != i && !table[j].phase.Unused? ==>
      !SameName(table[j].name, e.name)
    ensures NamesDistinct(table[i := e])
  {
    forall j | 0 <= j < |table| ensures SameName(table[j].name, e.name) <==> SameName(e.name, table[j].name) {
    }
  }

  lemma {:induction false} DeadlinesAfterUpdate(table: seq<Entry>, ticks: nat, maxRetries: nat, servers: nat,
                                                k: nat, i: nat, e: Entry)
    requires i < |table| && Deadlines(table, ticks, maxRetries, servers, k)
    requires e.phase.Asking? ==> e.server < servers && e.born <= ticks
    requires e.phase.Asking? ==> OnTime(e, ticks + Bit(i < k), maxRetries, servers)
    ensures Deadlines(table[i := e], ticks, maxRetries, servers, k)
  {
    hide OnTime;
  }

  /** A query that ends leaves everything else in order. */
  lemma {:induction false} RetireKeepsInv(s: State, maxRetries: nat, k: nat, i: nat, e: Entry,
                                          addr: Option<Addr>, phase: Phase)
    requires Inv(s, maxRetries, k) && i < |s.table| && s.table[i].phase.Asking?
    requires e.name == s.table[i].name && e.pcb == s.table[i].pcb && e.server < |s.servers|
    requires phase.Unused? || (phase.Done? && 1 <= e.ttl <= MAX_TTL)
    ensures Inv(SetPhase(CallFound(SetEntry(s, i, e), i, addr), i, phase), maxRetries, k)
  {
    hide SameName, Ledger, OnTime, CallFrom, PortShared;
    var m := SetEntry(s, i, e);
    var t := CallFrom(m, i, addr, 0);
    CallFromTable(m, i, addr, 0);
    CallFromServes(m, i, addr, 0);
    var last := e.(pcb := |s.pcbs|, phase := phase);
    var u := SetPhase(ReleasePort(t, i), i, phase);
    assert u.table == s.table[i := last];
    SharedAgrees(s.table, i, e);
    assert Used(s.table, s.table[i].pcb);
    ReleaseKeepsPorts(s.table, s.pcbs, i, last);
    TxidsAfterUpdate(s.table, i, last);
    LastName(s, i, last);
    DeadlinesAfterUpdate(s.table, s.ticks, maxRetries, |s.servers|, k, i, last);
    assert EntryOk(last, maxRetries, |s.servers|, |s.pcbs|);
  }

  lemma {:induction false} LastName(s: State, i: nat, e: Entry)
    requires NamesDistinct(s.table) && i < |s.table| && !s.table[i].phase.Unused? && e.name == s.table[i].name
    ensures NamesDistinct(s.table[i := e])
  {
    NamesAfterUpdate(s.table, i, e);
  }

  lemma {:induction false} SharedAgrees(table: seq<Entry>, i: nat, e: Entry)
    requires i < |table| && e.pcb == table[i].pcb
    ensures PortShared(table[i := e], i, 0) <==> PortShared(table, i, 0)
  {
    PortSharedMeans(table, i, 0);
    PortSharedMeans(table[i := e], i, 0);
    if PortShared(table, i, 0) {
      var x :| 0 <= x < |table| && x != i && table[x].phase.Asking? && table[x].pcb == table[i].pcb;
      assert table[i := e][x] == table[x];
    }
  }

  // ----- a query that goes on

  lemma {:induction false} TweakKeepsInv(s: State, maxRetries: nat, k: nat, i: nat, e: Entry)
    requires Inv(s, maxRetries, k) && i < |s.table| && s.table[i].phase.Asking?
    requires e.phase.Asking? && EntryOk(e, maxRetries, |s.servers|, |s.pcbs|)
    requires e.name == s.table[i].name && e.pcb == s.table[i].pcb && e.txid == s.table[i].txid
      && e.born == s.table[i].born
    requires Remaining(e, maxRetries, |s.servers|) <= Remaining(s.table[i], maxRetries, |s.servers|)
    ensures Inv(SetEntry(s, i, e), maxRetries, k)
  {
    hide SameName, Ledger, Remaining, CallsOk;
    var t := s.table[i := e];
    TxidsAfterUpdate(s.table, i, e);
    LastName(s, i, e);
    DeadlinesAfterUpdate(s.table, s.ticks, maxRetries, |s.servers|, k, i, e);
    PortsAfterTweak(s.table, s.pcbs, i, e);
    forall r | 0 <= r < |s.requests| ensures SlotOk(s.requests[r], t, s.accepted) {
      assert SlotOk(s.requests[r], s.table, s.accepted);
    }
  }

  lemma {:induction false} PortsAfterTweak(table: seq<Entry>, pcbs: seq<bool>, i: nat, e: Entry)
    requires i < |table| && PortsExact(table, pcbs)
    requires e.phase.Asking? == table[i].phase.Asking? && (e.phase.Asking? ==> e.pcb == table[i].pcb)
    ensures PortsExact(table[i := e], pcbs)
  {
    var t := table[i := e];
    forall p | 0 <= p < |pcbs| ensures Used(t, p) <==> Used(table, p) {
      if Used(table, p) {
        var x :| 0 <= x < |table| && table[x].phase.Asking? && table[x].pcb == p;
        assert t[x].phase.Asking? && t[x].pcb == p;
      }
      if Used(t, p) {
        var x :| 0 <= x < |t| && t[x].phase.Asking? && t[x].pcb == p;
        assert table[x].phase.Asking? && table[x].pcb == p;
      }
    }
  }

  /** A completed entry that ages or is flushed. */
  lemma {:induction false} FlushKeepsInv(s: State, maxRetries: nat, k: nat, i: nat, e: Entry)
    requires Inv(s, maxRetries, k) && i < |s.table| && s.table[i].phase.Done?
    requires !e.phase.Asking? && EntryOk(e, maxRetries, |s.servers|, |s.pcbs|) && e.name == s.table[i].name
    ensures Inv(SetEntry(s, i, e), maxRetries, k)
  {
    hide SameName, Ledger, OnTime, CallsOk;
    TxidsAfterUpdate(s.table, i, e);
    LastName(s, i, e);
    DeadlinesAfterUpdate(s.table, s.ticks, maxRetries, |s.servers|, k, i, e);
    PortsAfterTweak(s.table, s.pcbs, i, e);
    forall r | 0 <= r < |s.requests| ensures SlotOk(s.requests[r], s.table[i := e], s.accepted) {
      assert SlotOk(s.requests[r], s.table, s.accepted);
    }
  }

  lemma {:induction false} AbandonKeepsInv(s: State, maxRetries: nat, k: nat, i: nat, e: Entry)
    requires Inv(s, maxRetries, k) && i < |s.table| && s.table[i].phase.Asking?
    requires e.name == s.table[i].name && e.pcb == s.table[i].pcb && e.server < |s.servers|
    ensures Inv(Abandon(SetEntry(s, i, e), i), maxRetries, k)
    ensures Abandon(SetEntry(s, i, e), i).table[i].phase.Unused?
  {
    RetireKeepsInv(s, maxRetries, k, i, e, None, Unused);
  }

  lemma {:induction false} SendKeepsInv(s: State, maxRetries: nat, k: nat, i: nat)
    requires Inv(s, maxRetries, k) && i < |s.table| && s.table[i].phase.Asking? && s.table[i].server < |s.servers|
    ensures Inv(Send(s, i), maxRetries, k)
    ensures Send(s, i).table[i].phase.Unused? || Send(s, i) == s
  {
    assert SetEntry(s, i, s.table[i]) == s;
    AbandonKeepsInv(s, maxRetries, k, i, s.table[i]);
  }

  /** What dns_check_entry makes of a pending entry that goes on. */
  function Checked(e: Entry, maxRetries: nat, servers: seq<Addr>): Entry {
    if e.tmr > 1 then e.(tmr := e.tmr - 1)
    else if e.retries + 1 < maxRetries then e.(tmr := e.retries + 1, retries := e.retries + 1)
    else e.(server := e.server + 1, tmr := 1, retries := 0)
  }

  /** Every check brings a pending query one tick nearer to its end. */
  lemma {:induction false} CheckedIsNearer(e: Entry, maxRetries: nat, servers: seq<Addr>)
    requires e.phase.Asking? && e.server < |servers| && 1 <= e.tmr && e.retries < maxRetries
    requires e.tmr > 1 || e.retries + 1 < maxRetries || e.server + 1 < |servers|
    ensures Checked(e, maxRetries, servers).server < |servers|
    ensures Remaining(Checked(e, maxRetries, servers), maxRetries, |servers|) + 1 == Remaining(e, maxRetries, |servers|)
  {
    if e.tmr == 1 {
      if e.retries + 1 < maxRetries {
        assert SumFrom(e.retries + 1, maxRetries) == e.retries + 1 + SumFrom(e.retries + 2, maxRetries);
      } else {
        var n := |servers| - 1 - e.server;
        assert Times(n, Budget(maxRetries)) == Budget(maxRetries) + Times(n - 1, Budget(maxRetries));
        assert SumFrom(e.retries + 1, maxRetries) == 0;
      }
    }
  }

  /** Either the entry goes on as `Checked` says, or the query is over. */
  lemma {:induction false} CheckAskingKeepsInv(s: State, maxRetries: nat, k: nat, i: nat)
    requires Inv(s, maxRetries, k) && i < |s.table| && s.table[i].phase.Asking? && s.table[i].server < |s.servers|
    ensures Inv(CheckEntry(s, i, maxRetries, 0), maxRetries, k)
    ensures
      var t := CheckEntry(s, i, maxRetries, 0);
      t.table[i].phase.Unused? ||
      (t == SetEntry(s, i, t.table[i]) && t.table[i].server < |s.servers| && t.table[i].born == s.table[i].born &&
       Remaining(t.table[i], maxRetries, |s.servers|) + 1 == Remaining(s.table[i], maxRetries, |s.servers|))
  {
    hide Remaining, Abandon, SlotsOk, CallsOk, Ledger, TxidsDistinct, NamesDistinct, PortsExact, Deadlines;
    var e := s.table[i];
    assert EntryOk(e, maxRetries, |s.servers|, |s.pcbs|);
    if e.tmr > 1 || e.retries + 1 < maxRetries || BackupAvailable(s.servers, e) {
      CheckedIsNearer(e, maxRetries, s.servers);
      var f := Checked(e, maxRetries, s.servers);
      TweakKeepsInv(s, maxRetries, k, i, f);
      if e.tmr == 1 {
        SendKeepsInv(SetEntry(s, i, f), maxRetries, k, i);
      }
    } else {
      AbandonKeepsInv(s, maxRetries, k, i, e.(tmr := 0, retries := maxRetries));
    }
  }

  // ----- the timer

  lemma {:induction false} CheckedInTime(s: State, maxRetries: nat, i: nat)
    requires Inv(s, maxRetries, i) && i < |s.table|
    requires s.table[i].phase.Asking? ==>
      s.table[i].server < |s.servers| && OnTime(s.table[i], s.ticks + 1, maxRetries, |s.servers|)
    ensures Inv(s, maxRetries, i + 1)
  {
    hide OnTime;
  }

  lemma {:induction false} CheckKeepsInv(s: State, maxRetries: nat, i: nat)
    requires Inv(s, maxRetries, i) && i < |s.table| && s.table[i].server < |s.servers|
    ensures Inv(CheckEntry(s, i, maxRetries, 0), maxRetries, i + 1)
  {
    hide Remaining, Abandon, SlotsOk, CallsOk, Ledger, TxidsDistinct, NamesDistinct, PortsExact;
    var e := s.table[i];
    var t := CheckEntry(s, i, maxRetries, 0);
    CheckEntryShape(s, i, maxRetries, 0);
    assert EntryOk(e, maxRetries, |s.servers|, |s.pcbs|);
    if e.phase.Asking? {
      CheckAskingKeepsInv(s, maxRetries, i, i);
      assert OnTime(e, s.ticks, maxRetries, |s.servers|);
    } else if e.phase.Done? {
      FlushKeepsInv(s, maxRetries, i, i, t.table[i]);
    }
    CheckedInTime(t, maxRetries, i);
  }

  lemma {:induction false} CheckFromKeepsInv(s: State, i: nat, maxRetries: nat)
    requires Inv(s, maxRetries, i) && i <= |s.table|
    requires forall j :: 0 <= j < |s.table| ==> s.table[j].server < |s.servers|
    ensures
      var t := CheckFrom(s, i, maxRetries);
      Inv(t, maxRetries, |t.table|) && |t.table| == |s.table| && t.ticks == s.ticks && t.accepted == s.accepted
    decreases |s.table| - i
  {
    hide Inv, CheckEntry;
    if i < |s.table| {
      CheckKeepsInv(s, maxRetries, i);
      CheckEntryShape(s, i, maxRetries, 0);
      CheckEntryLogs(s, i, maxRetries, 0);
      CheckFromKeepsInv(CheckEntry(s, i, maxRetries, 0), i + 1, maxRetries);
    }
  }

  /** A check neither accepts requests nor moves the clock. */
  lemma {:induction false} CheckEntryLogs(s: State, i: nat, maxRetries: nat, txid: nat)
    requires i < |s.table| && 0 < |s.servers| && s.table[i].server < |s.servers|
    ensures CheckEntry(s, i, maxRetries, txid).accepted == s.accepted
    ensures CheckEntry(s, i, maxRetries, txid).ticks == s.ticks
  {
    hide CallFrom, PortShared;
    forall t: State, a: Option<Addr> | i < |t.table|
      ensures CallFrom(t, i, a, 0) == t.(requests := CallFrom(t, i, a, 0).requests, calls := CallFrom(t, i, a, 0).calls)
    {
      CallFromTable(t, i, a, 0);
    }
  }

  lemma {:induction false} TickKeepsInv(s: State, maxRetries: nat)
    requires Inv(s, maxRetries, 0)
    requires forall j :: 0 <= j < |s.table| ==> s.table[j].server < |s.servers|
    ensures Inv(Tick(s, maxRetries), maxRetries, 0)
  {
    hide OnTime, CheckFrom;
    CheckFromKeepsInv(s, 0, maxRetries);
  }

  // ----- replies

  lemma {:induction false} CorrectResponseKeepsInv(s: State, maxRetries: nat, i: nat, addr: Addr, ttl: nat)
    requires Inv(s, maxRetries, 0) && i < |s.table| && s.table[i].phase.Asking?
    ensures Inv(CorrectResponse(s, i, addr, ttl), maxRetries, 0)
  {
    hide Inv, CallFound;
    var kept := if ttl > MAX_TTL then MAX_TTL else ttl;
    var e := s.table[i].(addr := addr, phase := Done, ttl := kept);
    AskingServer(s, maxRetries, i);
    if kept == 0 {
      RetireKeepsInv(s, maxRetries, 0, i, e, Some(addr), Unused);
    } else {
      var t := CallFound(SetEntry(s, i, e), i, Some(addr));
      RetireKeepsInv(s, maxRetries, 0, i, e, Some(addr), Done);
      CallFoundPhase(SetEntry(s, i, e), i, Some(addr));
      assert SetPhase(t, i, Done) == t;
    }
  }

  lemma {:induction false} AskingServer(s: State, maxRetries: nat, i: nat)
    requires Inv(s, maxRetries, 0) && i < |s.table|
    ensures s.table[i].server < |s.servers| && EntryOk(s.table[i], maxRetries, |s.servers|, |s.pcbs|)
  {
  }

  lemma {:induction false} CallFoundPhase(s: State, i: nat, addr: Option<Addr>)
    requires i < |s.table|
    ensures CallFound(s, i, addr).table[i].phase == s.table[i].phase
  {
    CallFromTable(s, i, addr, 0);
  }

  lemma {:induction false} HandleReplyKeepsInv(s: State, maxRetries: nat, i: nat, p: Packet)
    requires Inv(s, maxRetries, 0) && i < |s.table| && s.table[i].phase.Asking?
    requires 0 < |s.servers| && 0 < maxRetries && s.table[i].server < |s.servers|
    ensures Inv(HandleReply(s, i, p, maxRetries), maxRetries, 0)
  {
    hide Inv, CheckEntry, Abandon, CorrectResponse, Remaining;
    var e := s.table[i];
    AskingServer(s, maxRetries, i);
    if p.error {
      if BackupAvailable(s.servers, e) {
        var f := e.(retries := maxRetries - 1, tmr := 1);
        SkippingIsNearer(e, maxRetries, |s.servers|);
        TweakKeepsInv(s, maxRetries, 0, i, f);
        CheckAskingKeepsInv(SetEntry(s, i, f), maxRetries, 0, i);
      } else {
        assert SetEntry(s, i, e) == s;
        AbandonKeepsInv(s, maxRetries, 0, i, e);
      }
    } else {
      match ScanAnswers(p.answers)
      case Malformed =>
      case Resolved(a, ttl) => CorrectResponseKeepsInv(s, maxRetries, i, a, ttl);
      case NoAddress =>
        assert SetEntry(s, i, e) == s;
        AbandonKeepsInv(s, maxRetries, 0, i, e);
    }
  }

  /** Giving up on a server early only shortens the wait. */
  lemma {:induction false} SkippingIsNearer(e: Entry, maxRetries: nat, servers: nat)
    requires e.server < servers && e.tmr >= 1 && e.retries < maxRetries
    ensures Remaining(e.(retries := maxRetries - 1, tmr := 1), maxRetries, servers) <= Remaining(e, maxRetries, servers)
  {
  }

  lemma {:induction false} ReceiveKeepsInv(s: State, p: Packet, maxRetries: nat)
    requires Inv(s, maxRetries, 0) && 0 < |s.servers| && 0 < maxRetries
    requires forall j :: 0 <= j < |s.table| ==> s.table[j].server < |s.servers|
    ensures Inv(Receive(s, p, maxRetries), maxRetries, 0)
  {
    hide Inv, HandleReply;
    var i := FirstTxid(s.table, p.txid, 0);
    if !p.tooSmall && i < |s.table| && Relevant(s, i, p) {
      HandleReplyKeepsInv(s, maxRetries, i, p);
    }
  }

  // ----- requests

  lemma {:induction false} AttachLedger(s: State, r: nat, i: nat, name: string, found: Option<Callback>)
    requires r < |s.requests| && s.requests[r].found.None?
    requires Ledger(s.calls, s.requests, |s.accepted|)
    ensures
      var t := Attach(s, r, i, name, found);
      Ledger(t.calls, t.requests, |t.accepted|)
  {
    var t := Attach(s, r, i, name, found);
    forall id: nat ensures CalledTimes(t.calls, id) + HeldTimes(t.requests, id) == Bit(id < |t.accepted|) {
      HeldAfterUpdate(s.requests, r, t.requests[r], id);
      assert CalledTimes(s.calls, id) + HeldTimes(s.requests, id) == Bit(id < |s.accepted|);
    }
  }

  /** The new ticket is good for entry i of the table the caller goes on with. */
  lemma {:induction false} AttachSlots(s: State, r: nat, i: nat, name: string, found: Option<Callback>,
                                       table: seq<Entry>)
    requires r < |s.requests| && i < |table| && |table| == |s.table|
    requires SlotsOk(s.requests, s.table, s.accepted)
    requires table[i].phase.Asking? && SameName(name, table[i].name) && table[i].born <= s.ticks
    requires forall j :: 0 <= j < |table| && s.table[j].phase.Asking? ==> table[j] == s.table[j]
    ensures
      var t := Attach(s, r, i, name, found);
      SlotsOk(t.requests, table, t.accepted)
  {
    hide SameName;
    var t := Attach(s, r, i, name, found);
    forall q | 0 <= q < |t.requests| ensures SlotOk(t.requests[q], table, t.accepted) {
      if q != r {
        assert SlotOk(s.requests[q], s.table, s.accepted);
      }
    }
  }

  lemma {:induction false} AttachCalls(s: State, r: nat, i: nat, name: string, found: Option<Callback>)
    requires r < |s.requests| && CallsOk(s.calls, s.accepted)
    ensures CallsOk(s.calls, Attach(s, r, i, name, found).accepted)
  {
    hide SameName;
    var t := Attach(s, r, i, name, found);
    forall c | 0 <= c < |s.calls| ensures CallOk(s.calls[c], t.accepted) {
      assert CallOk(s.calls[c], s.accepted);
    }
  }

  lemma {:induction false} AttachKeepsInv(s: State, maxRetries: nat, r: nat, i: nat, name: string,
                                          found: Option<Callback>)
    requires Inv(s, maxRetries, 0) && i < |s.table| && r < |s.requests| && s.requests[r].found.None?
    requires s.table[i].phase.Asking? && SameName(name, s.table[i].name)
    ensures Inv(Attach(s, r, i, name, found), maxRetries, 0)
  {
    hide SameName, SlotsOk, CallsOk, Ledger, OnTime, EntriesOk, TxidsDistinct, NamesDistinct, PortsExact;
    AttachLedger(s, r, i, name, found);
    AttachSlots(s, r, i, name, found, s.table);
    AttachCalls(s, r, i, name, found);
  }

  // ----- source ports

  /** A port is always found unless none is open and no new one is granted. */
  lemma {:induction false} AllocPcbFails(pcbs: seq<bool>, last: nat, granted: bool)
    requires last < |pcbs|
    ensures AllocPcb(pcbs, last, granted).idx >= |pcbs| <==> !granted && forall p :: 0 <= p < |pcbs| ==> !pcbs[p]
  {
    NextOpenFinds(pcbs, last + 1, |pcbs|);
    if granted && FirstClosed(pcbs, 0) == |pcbs| {
      assert pcbs[0];
    }
  }

  /** The slots a search of `left` steps from `idx` looks at. */
  ghost predicate InReach(pcbs: seq<bool>, idx: nat, left: nat, p: nat) {
    p < |pcbs| && (if idx <= p then p < idx + left else p + |pcbs| < idx + left || (idx >= |pcbs| && p < left))
  }

  lemma {:induction false} NextOpenFinds(pcbs: seq<bool>, idx: nat, left: nat)
    requires left <= |pcbs| && idx <= |pcbs|
    ensures NextOpen(pcbs, idx, left) == |pcbs| <==> forall p :: 0 <= p && InReach(pcbs, idx, left, p) ==> !pcbs[p]
    decreases left
  {
    if left > 0 {
      var j := if idx >= |pcbs| then 0 else idx;
      assert InReach(pcbs, idx, left, j);
      NextOpenFinds(pcbs, j + 1, left - 1);
      forall p: nat ensures InReach(pcbs, idx, left, p) <==>
        p == j || (InReach(pcbs, j + 1, left - 1, p) && left <= |pcbs|) {
      }
    }
  }

  lemma {:induction false} AllocKeepsPorts(table: seq<Entry>, pcbs: seq<bool>, last: nat, granted: bool,
                                           i: nat, e: Entry)
    requires i < |table| && !table[i].phase.Asking? && PortsExact(table, pcbs) && last < |pcbs|
    requires e.phase.Asking? && e.pcb == AllocPcb(pcbs, last, granted).idx && e.pcb < |pcbs|
    ensures |AllocPcb(pcbs, last, granted).pcbs| == |pcbs| && AllocPcb(pcbs, last, granted).last < |pcbs|
    ensures PortsExact(table[i := e], AllocPcb(pcbs, last, granted).pcbs)
  {
    hide NextOpen, FirstClosed;
    var port := AllocPcb(pcbs, last, granted);
    var t := table[i := e];
    assert t[i] == e;
    forall p | 0 <= p < |pcbs| ensures Used(t, p) <==> Used(table, p) || p == e.pcb {
      if Used(table, p) {
        var x :| 0 <= x < |table| && table[x].phase.Asking? && table[x].pcb == p;
        assert t[x] == table[x];
      }
      if Used(t, p) && p != e.pcb {
        var x :| 0 <= x < |t| && t[x].phase.Asking? && t[x].pcb == p;
        assert t[x] == table[x];
      }
    }
  }

  // ----- a new query

  function FirstAsk(e: Entry, name: string, seqno: nat, pcb: nat, ticks: nat, txid: nat): Entry {
    NewEntry(e, name, seqno, pcb, ticks).(txid := txid, phase := Asking, server := 0, tmr := 1, retries := 0)
  }

  /** An accepted new query has sent its first packet: with the first server
      set, dns_enqueue never calls back. */
  lemma {:induction false} StartAsks(s: State, i: nat, r: nat, name: string, found: Option<Callback>,
                                     maxRetries: nat, txid: nat, granted: bool)
    requires i < |s.table| && r < |s.requests| && s.requests[r].found.None?
    requires 0 < |s.servers| && s.table[i].server < |s.servers| && s.servers[0] != ANY_ADDR
    requires AllocPcb(s.pcbs, s.lastPcb, granted).idx < |s.pcbs|
    ensures
      var port := AllocPcb(s.pcbs, s.lastPcb, granted);
      Start(s, i, r, name, found, maxRetries, txid, granted) ==
      (Attach(s, r, i, name, found).(
        table := s.table[i := FirstAsk(s.table[i], name, s.seqno, port.idx, s.ticks, txid)],
        pcbs := port.pcbs, lastPcb := port.last, seqno := (s.seqno + 1) % 256), InProgress)
  {
    hide AllocPcb, CallFound;
    var port := AllocPcb(s.pcbs, s.lastPcb, granted);
    var e := NewEntry(s.table[i], name, s.seqno, port.idx, s.ticks);
    var f := FirstAsk(s.table[i], name, s.seqno, port.idx, s.ticks, txid);
    assert s.table[i := e][i := f] == s.table[i := f];
  }

  /** Nobody else resolves or has resolved the name. */
  ghost predicate NameIsNew(table: seq<Entry>, name: string) {
    forall j :: 0 <= j < |table| && !table[j].phase.Unused? ==> !SameName(name, table[j].name)
  }

  lemma {:induction false} FirstAskOnTime(e: Entry, name: string, seqno: nat, pcb: nat, ticks: nat,
                                          txid: nat, maxRetries: nat, servers: nat)
    requires 1 <= servers
    ensures OnTime(FirstAsk(e, name, seqno, pcb, ticks, txid), ticks, maxRetries, servers)
  {
  }

  lemma {:induction false} StartKeepsTable(s: State, maxRetries: nat, i: nat, e: Entry, txid: nat)
    requires Inv(s, maxRetries, 0) && i < |s.table| && !s.table[i].phase.Asking?
    requires e.phase.Asking? && e.txid == txid && Unclaimed(s.table, txid) && NameIsNew(s.table, e.name)
    requires e.server < |s.servers| && e.born <= s.ticks && OnTime(e, s.ticks, maxRetries, |s.servers|)
    requires EntryOk(e, maxRetries, |s.servers|, |s.pcbs|)
    ensures EntriesOk(s.table[i := e], maxRetries, |s.servers|, |s.pcbs|)
    ensures TxidsDistinct(s.table[i := e]) && NamesDistinct(s.table[i := e])
    ensures Deadlines(s.table[i := e], s.ticks, maxRetries, |s.servers|, 0)
  {
    hide OnTime;
    TxidsAfterUpdate(s.table, i, e);
    NamesAfterUpdate(s.table, i, e);
    DeadlinesAfterUpdate(s.table, s.ticks, maxRetries, |s.servers|, 0, i, e);
  }

  lemma {:induction false} StartKeepsInv(s: State, maxRetries: nat, i: nat, r: nat, name: string,
                                         found: Option<Callback>, txid: nat, granted: bool)
    requires Inv(s, maxRetries, 0) && i < |s.table| && !s.table[i].phase.Asking?
    requires r < |s.requests| && s.requests[r].found.None?
    requires 0 < |s.servers| && s.table[i].server < |s.servers| && s.servers[0] != ANY_ADDR
    requires NameIsNew(s.table, name) && Unclaimed(s.table, txid)
    requires AllocPcb(s.pcbs, s.lastPcb, granted).idx < |s.pcbs|
    ensures Inv(Start(s, i, r, name, found, maxRetries, txid, granted).0, maxRetries, 0)
  {
    hide SameName, SlotsOk, CallsOk, Ledger, OnTime, EntriesOk, TxidsDistinct, NamesDistinct, PortsExact, Deadlines,
         AllocPcb, Start, NameIsNew, Unclaimed;
    var port := AllocPcb(s.pcbs, s.lastPcb, granted);
    var e := FirstAsk(s.table[i], name, s.seqno, port.idx, s.ticks, txid);
    StartAsks(s, i, r, name, found, maxRetries, txid, granted);
    FirstAskOnTime(s.table[i], name, s.seqno, port.idx, s.ticks, txid, maxRetries, |s.servers|);
    assert txid < 65536 by { UnclaimedIsShort(s.table, txid); }
    StartKeepsTable(s, maxRetries, i, e, txid);
    AllocKeepsPorts(s.table, s.pcbs, s.lastPcb, granted, i, e);
    AttachLedger(s, r, i, name, found);
    SameNameReflexive(name);
    AttachSlots(s, r, i, name, found, s.table[i := e]);
    AttachCalls(s, r, i, name, found);
  }

  lemma UnclaimedIsShort(table: seq<Entry>, txid: nat)
    requires Unclaimed(table, txid)
    ensures txid < 65536
  {
  }

  lemma SameNameReflexive(a: string)
    ensures SameName(a, a)
  {
  }

  /** Without a source port the entry is given back and nothing is accepted. */
  lemma {:induction false} RefusedKeepsInv(s: State, maxRetries: nat, i: nat, r: nat, e: Entry, q: Request)
    requires Inv(s, maxRetries, 0) && i < |s.table| && !s.table[i].phase.Asking?
    requires r < |s.requests| && s.requests[r].found.None? && q.found.None?
    requires e.phase.Unused? && e.server < |s.servers|
    ensures Inv(SetEntry(s, i, e).(requests := s.requests[r := q]), maxRetries, 0)
  {
    hide SameName, OnTime, CallsOk;
    TxidsAfterUpdate(s.table, i, e);
    NamesAfterUpdate(s.table, i, e);
    DeadlinesAfterUpdate(s.table, s.ticks, maxRetries, |s.servers|, 0, i, e);
    PortsAfterTweak(s.table, s.pcbs, i, e);
    var after := s.requests[r := q];
    forall x | 0 <= x < |after| ensures SlotOk(after[x], s.table[i := e], s.accepted) {
      assert SlotOk(s.requests[x], s.table, s.accepted);
    }
    forall id: nat ensures CalledTimes(s.calls, id) + HeldTimes(s.requests[r := q], id) == Bit(id < |s.accepted|) {
      HeldAfterUpdate(s.requests, r, q, id);
      assert CalledTimes(s.calls, id) + HeldTimes(s.requests, id) == Bit(id < |s.accepted|);
    }
  }

  lemma {:induction false} EnqueueKeepsInv(s: State, name: string, found: Option<Callback>, maxRetries: nat,
                                           txid: nat, granted: bool)
    requires Inv(s, maxRetries, 0) && 0 < |s.servers| && s.servers[0] != ANY_ADDR && Unclaimed(s.table, txid)
    requires forall j :: 0 <= j < |s.table| ==> s.table[j].server < |s.servers|
    requires FirstDone(s.table, name, 0) == |s.table|
    ensures Inv(Enqueue(s, name, found, maxRetries, txid, granted).0, maxRetries, 0)
  {
    hide Inv, Attach, SameName, Unclaimed, AllocPcb, CheckEntry, Victim, FirstFree, FirstAsking;
    var d := FirstAsking(s.table, name, 0);
    var r := FirstFree(s.requests, 0);
    var v := Victim(s.table, s.seqno, 0, 0, |s.table|);
    if d < |s.table| && r < |s.requests| {
      AttachKeepsInv(s, maxRetries, r, d, name, found);
    } else if v < |s.table| && r < |s.requests| {
      var port := AllocPcb(s.pcbs, s.lastPcb, granted);
      if port.idx < |s.pcbs| {
        NothingKnown(s, maxRetries, name);
        StartKeepsInv(s, maxRetries, v, r, name, found, txid, granted);
      } else {
        var e := NewEntry(s.table[v], name, s.seqno, port.idx, s.ticks).(phase := Unused);
        RefusedKeepsInv(s, maxRetries, v, r, e, Request(None, v, |s.accepted|));
      }
    }
  }

  lemma {:induction false} NothingKnown(s: State, maxRetries: nat, name: string)
    requires Inv(s, maxRetries, 0)
    requires FirstAsking(s.table, name, 0) == |s.table| && FirstDone(s.table, name, 0) == |s.table|
    ensures NameIsNew(s.table, name)
  {
    hide SameName;
  }

  lemma {:induction false} SetServerKeepsInv(s: State, maxRetries: nat, k: nat, addr: Addr)
    requires Inv(s, maxRetries, 0)
    ensures Inv(SetServer(s, k, addr), maxRetries, 0)
  {
  }

  // ----- runs

  datatype Step =
    | Ask(name: string, literal: Option<Addr>, found: Option<Callback>, txid: nat, granted: bool)
    | TimerTick
    | Reply(packet: Packet)
    | NewServer(index: nat, addr: Addr)

  /** The id drawn for a query is one that no pending query uses. */
  predicate Possible(s: State, step: Step) {
    step.Ask? ==> Unclaimed(s.table, step.txid)
  }

  ghost predicate Ready(s: State) {
    0 < |s.servers| && forall j :: 0 <= j < |s.table| ==> s.table[j].server < |s.servers|
  }

  ghost function Next(s: State, step: Step, maxRetries: nat): State
    requires Ready(s) && 0 < maxRetries
  {
    match step
    case Ask(name, literal, found, txid, granted) =>
      GetHostByName(s, name, literal, found, maxRetries, txid, granted).0
    case TimerTick => Tick(s, maxRetries)
    case Reply(packet) => Receive(s, packet, maxRetries)
    case NewServer(index, addr) => SetServer(s, index, addr)
  }

  lemma {:induction false} InvIsReady(s: State, maxRetries: nat)
    requires Inv(s, maxRetries, 0)
    ensures Ready(s) && 0 < maxRetries
  {
    forall j | 0 <= j < |s.table| ensures s.table[j].server < |s.servers| {
      assert EntryOk(s.table[j], maxRetries, |s.servers|, |s.pcbs|);
    }
  }

  lemma {:induction false} StepKeepsInv(s: State, step: Step, maxRetries: nat)
    requires Inv(s, maxRetries, 0) && Possible(s, step)
    ensures Ready(s) && 0 < maxRetries && Inv(Next(s, step, maxRetries), maxRetries, 0)
  {
    hide Inv, Enqueue, Tick, Receive, FirstDone;
    InvIsReady(s, maxRetries);
    match step
    case Ask(name, literal, found, txid, granted) =>
      if FirstDone(s.table, name, 0) == |s.table| && s.servers[0] != ANY_ADDR {
        EnqueueKeepsInv(s, name, found, maxRetries, txid, granted);
      }
    case TimerTick => TickKeepsInv(s, maxRetries);
    case Reply(packet) => ReceiveKeepsInv(s, packet, maxRetries);
    case NewServer(index, addr) => SetServerKeepsInv(s, maxRetries, index, addr);
  }

  /** The resolver after power-up: zeroed tables, any list of servers. */
  ghost predicate Initial(s: State, maxRetries: nat) {
    && |s.requests| == |s.table| <= 255
    && 1 <= |s.pcbs| <= 255
    && 1 <= |s.servers| <= 255
    && 1 <= maxRetries <= 255
    && s.lastPcb == 0 && s.seqno == 0 && s.ticks == 0
    && s.accepted == [] && s.calls == []
    && (forall i :: 0 <= i < |s.table| ==> s.table[i].phase.Unused? && s.table[i].server == 0)
    && (forall r :: 0 <= r < |s.requests| ==> s.requests[r].found.None?)
    && (forall p :: 0 <= p < |s.pcbs| ==> !s.pcbs[p])
  }

  lemma {:induction false} NothingHeld(requests: seq<Request>, id: nat)
    requires forall r :: 0 <= r < |requests| ==> requests[r].found.None?
    ensures HeldTimes(requests, id) == 0
  {
    if requests != [] {
      NothingHeld(requests[1..], id);
    }
  }

  lemma {:induction false} InitialInv(s: State, maxRetries: nat)
    requires Initial(s, maxRetries)
    ensures Inv(s, maxRetries, 0)
  {
    forall id: nat ensures CalledTimes(s.calls, id) + HeldTimes(s.requests, id) == Bit(id < |s.accepted|) {
      NothingHeld(s.requests, id);
    }
  }

  ghost predicate Reaches(s: State, steps: seq<Step>, end: State, maxRetries: nat)
    decreases |steps|
  {
    if steps == [] then s == end
    else
      && Ready(s) && 0 < maxRetries && Possible(s, steps[0])
      && Reaches(Next(s, steps[0], maxRetries), steps[1..], end, maxRetries)
  }

  lemma {:induction false} RunKeepsInv(s: State, steps: seq<Step>, end: State, maxRetries: nat)
    requires Inv(s, maxRetries, 0) && Reaches(s, steps, end, maxRetries)
    ensures Inv(end, maxRetries, 0)
    decreases |steps|
  {
    hide Inv, Next;
    if steps != [] {
      StepKeepsInv(s, steps[0], maxRetries);
      RunKeepsInv(Next(s, steps[0], maxRetries), steps[1..], end, maxRetries);
    }
  }

  // ----- what every run guarantees

  lemma {:induction false} HeldSomewhere(requests: seq<Request>, id: nat) returns (r: nat)
    requires HeldTimes(requests, id) > 0
    ensures r < |requests| && Holds(requests[r], id)
  {
    if Holds(requests[0], id) {
      r := 0;
    } else {
      r := HeldSomewhere(requests[1..], id);
      r := r + 1;
    }
  }

  /** An accepted request has been answered exactly once, or has not been
      answered and holds exactly one slot, of a pending entry for its name.
      Every answer went to the callback that was registered with it. */
  lemma {:induction false} CalledOnceOrPending(s: State, steps: seq<Step>, end: State, maxRetries: nat, id: nat)
    requires Initial(s, maxRetries) && Reaches(s, steps, end, maxRetries)
    requires id < |end.accepted|
    ensures
      || (CalledTimes(end.calls, id) == 1 && HeldTimes(end.requests, id) == 0)
      || (CalledTimes(end.calls, id) == 0 && HeldTimes(end.requests, id) == 1 &&
          exists r :: 0 <= r < |end.requests| && Holds(end.requests[r], id)
            && SlotOk(end.requests[r], end.table, end.accepted))
    ensures CallsOk(end.calls, end.accepted)
  {
    hide SameName;
    InitialInv(s, maxRetries);
    RunKeepsInv(s, steps, end, maxRetries);
    assert CalledTimes(end.calls, id) + HeldTimes(end.requests, id) == 1;
    if HeldTimes(end.requests, id) == 1 {
      var r := HeldSomewhere(end.requests, id);
      assert SlotOk(end.requests[r], end.table, end.accepted);
    }
  }

  /** No live request slot refers to an unused or completed entry. */
  lemma {:induction false} LiveSlotsArePending(s: State, steps: seq<Step>, end: State, maxRetries: nat, r: nat)
    requires Initial(s, maxRetries) && Reaches(s, steps, end, maxRetries)
    requires r < |end.requests| && end.requests[r].found.Some?
    ensures end.requests[r].entry < |end.table| && end.table[end.requests[r].entry].phase.Asking?
  {
    InitialInv(s, maxRetries);
    RunKeepsInv(s, steps, end, maxRetries);
    assert SlotOk(end.requests[r], end.table, end.accepted);
  }

  /** Ids and names are unique, and the open ports are those in use. */
  lemma {:induction false} TablesAreConsistent(s: State, steps: seq<Step>, end: State, maxRetries: nat)
    requires Initial(s, maxRetries) && Reaches(s, steps, end, maxRetries)
    ensures TxidsDistinct(end.table) && NamesDistinct(end.table) && PortsExact(end.table, end.pcbs)
    ensures forall i :: 0 <= i < |end.table| ==>
      !end.table[i].phase.New? && (end.table[i].phase.Asking? ==> end.table[i].pcb < |end.pcbs|)
  {
    InitialInv(s, maxRetries);
    RunKeepsInv(s, steps, end, maxRetries);
    assert EntriesOk(end.table, maxRetries, |end.servers|, |end.pcbs|);
  }

  lemma {:induction false} SumClosed(a: nat, n: nat)
    requires 1 <= a <= n
    ensures 2 * SumFrom(a, n) == n * (n - 1) - a * (a - 1)
    decreases n - a
  {
    if a < n {
      SumClosed(a + 1, n);
    }
  }

  lemma {:induction false} TimesIsProduct(n: nat, b: nat)
    ensures Times(n, b) == n * b
  {
    if n > 0 {
      TimesIsProduct(n - 1, b);
    }
  }

  function Deadline(maxRetries: nat, servers: nat): nat {
    servers * (1 + maxRetries * (maxRetries - 1) / 2)
  }

  lemma {:induction false} DeadlineIsBudget(maxRetries: nat, servers: nat)
    requires 1 <= maxRetries
    ensures Times(servers, Budget(maxRetries)) == Deadline(maxRetries, servers)
  {
    SumClosed(1, maxRetries);
    TimesIsProduct(servers, Budget(maxRetries));
  }

  /** No query is pending for as many ticks as the deadline, and its tick
      counter is never zero between steps, so it never wraps. */
  lemma {:induction false} QueriesEndInTime(s: State, steps: seq<Step>, end: State, maxRetries: nat, i: nat)
    requires Initial(s, maxRetries) && Reaches(s, steps, end, maxRetries)
    requires i < |end.table| && end.table[i].phase.Asking?
    ensures end.table[i].born <= end.ticks < end.table[i].born + Deadline(maxRetries, |end.servers|)
    ensures 1 <= end.table[i].tmr < 256
  {
    InitialInv(s, maxRetries);
    RunKeepsInv(s, steps, end, maxRetries);
    DeadlineIsBudget(maxRetries, |end.servers|);
    assert EntryOk(end.table[i], maxRetries, |end.servers|, |end.pcbs|);
    assert OnTime(end.table[i], end.ticks, maxRetries, |end.servers|);
  }

  /** So every accepted request is answered, exactly once, within the deadline. */
  lemma {:induction false} AnsweredInTime(s: State, steps: seq<Step>, end: State, maxRetries: nat, id: nat)
    requires Initial(s, maxRetries) && Reaches(s, steps, end, maxRetries)
    requires id < |end.accepted| && end.ticks >= end.accepted[id].tick + Deadline(maxRetries, |end.servers|)
    ensures CalledTimes(end.calls, id) == 1
  {
    CalledOnceOrPending(s, steps, end, maxRetries, id);
    if CalledTimes(end.calls, id) == 0 {
      var r :| 0 <= r < |end.requests| && Holds(end.requests[r], id)
        && SlotOk(end.requests[r], end.table, end.accepted);
      QueriesEndInTime(s, steps, end, maxRetries, end.requests[r].entry);
    }
  }

  /** A request is entered in the ledger exactly when the caller was told it is
      in progress and gave a callback; asking never calls back. */
  lemma {:induction false} AcceptedWhenInProgress(s: State, maxRetries: nat, name: string,
                                                  literal: Option<Addr>, found: Option<Callback>, txid: nat,
                                                  granted: bool)
    requires Inv(s, maxRetries, 0) && Ready(s)
    ensures
      var (t, out) := GetHostByName(s, name, literal, found, maxRetries, txid, granted);
      && t.calls == s.calls
      && t.accepted == if out.InProgress? && found.Some? then s.accepted + [Accepted(found.value, name, s.ticks)]
        else s.accepted
  {
    hide Inv, FirstDone, FirstAsking, FirstFree, Victim, SameName, Send, AllocPcb;
    var r := FirstFree(s.requests, 0);
    var v := Victim(s.table, s.seqno, 0, 0, |s.table|);
    if v < |s.table| && r < |s.requests| && s.servers[0] != ANY_ADDR
      && AllocPcb(s.pcbs, s.lastPcb, granted).idx < |s.pcbs| {
      StartAsks(s, v, r, name, found, maxRetries, txid, granted);
    }
  }

  /** Call c was made after the first n. */
  ghost predicate Made(calls: seq<Call>, n: nat, c: Call) {
    exists x :: n <= x < |calls| && calls[x] == c
  }

  lemma {:induction false} CallFromDelivers(s: State, i: nat, addr: Option<Addr>, r: nat, q: nat)
    requires i < |s.table| && r <= q < |s.requests|
    requires s.requests[q].found.Some? && s.requests[q].entry == i
    ensures Made(CallFrom(s, i, addr, r).calls, |s.calls|,
                 Call(s.requests[q].ticket, s.requests[q].found.value, s.table[i].name, addr))
    decreases |s.requests| - r
  {
    if s.requests[r].found.Some? && s.requests[r].entry == i {
      var t := ServeOne(s, i, addr, r);
      var all := CallFrom(t, i, addr, r + 1).calls;
      assert CallFrom(s, i, addr, r).calls == all;
      if q == r {
        CallsGrow(t, i, addr, r + 1);
        assert all[|s.calls|] == all[..|t.calls|][|s.calls|] == t.calls[|s.calls|];
      } else {
        CallFromDelivers(t, i, addr, r + 1, q);
      }
    } else {
      CallFromDelivers(s, i, addr, r + 1, q);
    }
  }

  lemma {:induction false} CallsGrow(s: State, i: nat, addr: Option<Addr>, r: nat)
    requires i < |s.table| && r <= |s.requests|
    ensures |s.calls| <= |CallFrom(s, i, addr, r).calls|
    ensures CallFrom(s, i, addr, r).calls[..|s.calls|] == s.calls
    decreases |s.requests| - r
  {
    if r < |s.requests| {
      if s.requests[r].found.Some? && s.requests[r].entry == i {
        var t := ServeOne(s, i, addr, r);
        CallsGrow(t, i, addr, r + 1);
        assert t.calls[..|s.calls|] == s.calls;
      } else {
        CallsGrow(s, i, addr, r + 1);
      }
    }
  }

  /** A good answer reaches every request joined to the query. */
  lemma {:induction false} AnswerIsDelivered(s: State, i: nat, addr: Addr, ttl: nat, q: nat)
    requires i < |s.table| && q < |s.requests| && s.requests[q].found.Some? && s.requests[q].entry == i
    ensures Made(CorrectResponse(s, i, addr, ttl).calls, |s.calls|,
                 Call(s.requests[q].ticket, s.requests[q].found.value, s.table[i].name, Some(addr)))
  {
    hide CallFrom, PortShared;
    var kept := if ttl > MAX_TTL then MAX_TTL else ttl;
    var m := SetEntry(s, i, s.table[i].(addr := addr, phase := Done, ttl := kept));
    CallFromDelivers(m, i, Some(addr), 0, q);
    CallFromTable(m, i, Some(addr), 0);
  }

  // ----- an unused id always exists

  ghost function Claimed(table: seq<Entry>): (c: set<nat>)
    ensures |c| <= |table|
    ensures forall j :: 0 <= j < |table| ==> table[j].txid in c
  {
    if table == [] then {} else
      assert forall j :: 1 <= j < |table| ==> table[j] == table[1..][j - 1];
      Claimed(table[1..]) + {table[0].txid}
  }

  lemma {:induction false} InitialSegment(n: nat, c: set<nat>)
    requires forall x: nat :: x < n ==> x in c
    ensures |c| >= n
  {
    if n > 0 {
      var d := c - {n - 1};
      InitialSegment(n - 1, d);
    }
  }

  /** dns_create_txid's search cannot be exhausted. */
  lemma {:induction false} SomeTxidIsUnclaimed(table: seq<Entry>)
    requires |table| <= 255
    ensures exists txid :: Unclaimed(table, txid)
  {
    var c := Claimed(table);
    if forall x: nat :: x < 65536 ==> x in c {
      InitialSegment(65536, c);
    } else {
      var x: nat :| x < 65536 && x !in c;
      assert Unclaimed(table, x);
    }
  }
}
