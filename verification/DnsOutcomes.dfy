/** What dns_gethostbyname answers, for every state of the tables. */
module DnsOutcomes {
  import opened Options
  import opened DnsSteps
  import opened DnsRuns
  import opened DnsSchedule

  predicate GoodName(name: string) {
    0 < |name| < 256
  }

  predicate Cached(table: seq<Entry>, name: string, addr: Addr) {
    exists i :: 0 <= i < |table| && table[i].phase.Done? && SameName(name, table[i].name) && table[i].addr == addr
  }

  predicate IsCached(table: seq<Entry>, name: string) {
    exists i :: 0 <= i < |table| && table[i].phase.Done? && SameName(name, table[i].name)
  }

  predicate Pending(table: seq<Entry>, name: string) {
    exists i :: 0 <= i < |table| && table[i].phase.Asking? && SameName(name, table[i].name)
  }

  predicate SlotFree(requests: seq<Request>) {
    exists r :: 0 <= r < |requests| && requests[r].found.None?
  }

  /** An entry is unused, or a completed one is older than 0 modulo 256. */
  predicate EntryFree(table: seq<Entry>, now: nat) {
    exists i :: 0 <= i < |table| &&
      (table[i].phase.Unused? || (table[i].phase.Done? && SeqAge(now, table[i].seqno) > 0))
  }

  predicate PortFree(pcbs: seq<bool>, granted: bool) {
    granted || exists p :: 0 <= p < |pcbs| && pcbs[p]
  }

  /** The name must be resolved, and a server is there to ask. */
  predicate MustAsk(s: State, name: string, literal: Option<Addr>)
    requires 0 < |s.servers|
  {
    GoodName(name) && literal.None? && !IsCached(s.table, name) && s.servers[0] != ANY_ADDR
  }

  lemma {:induction false} SearchesFind(s: State, name: string, maxRetries: nat, granted: bool)
    requires Inv(s, maxRetries, 0)
    ensures FirstDone(s.table, name, 0) < |s.table| <==> IsCached(s.table, name)
    ensures FirstAsking(s.table, name, 0) < |s.table| <==> Pending(s.table, name)
    ensures FirstFree(s.requests, 0) < |s.requests| <==> SlotFree(s.requests)
    ensures Victim(s.table, s.seqno, 0, 0, |s.table|) < |s.table| <==> EntryFree(s.table, s.seqno)
    ensures AllocPcb(s.pcbs, s.lastPcb, granted).idx < |s.pcbs| <==> PortFree(s.pcbs, granted)
  {
    hide SameName, SeqAge, Victim, AllocPcb, EntriesOk, SlotsOk, CallsOk, Ledger, TxidsDistinct, NamesDistinct,
         PortsExact, Deadlines;
    VictimIsOldest(s.table, s.seqno);
    AllocPcbFails(s.pcbs, s.lastPcb, granted);
  }

  /** Each answer has its exact condition: a bad name, a literal or cached
      address, no server, no memory, or a query under way. */
  lemma {:induction false} OutcomeIs(s: State, maxRetries: nat, name: string, literal: Option<Addr>,
                                     found: Option<Callback>, txid: nat, granted: bool)
    requires Inv(s, maxRetries, 0) && Ready(s)
    ensures
      var out := GetHostByName(s, name, literal, found, maxRetries, txid, granted).1;
      && (out.ErrArg? <==> !GoodName(name))
      && (out.Ok? <==> GoodName(name) && (literal.Some? || IsCached(s.table, name)))
      && (out.ErrVal? <==>
            GoodName(name) && literal.None? && !IsCached(s.table, name) && s.servers[0] == ANY_ADDR)
      && (out.InProgress? <==>
            MustAsk(s, name, literal) && SlotFree(s.requests) &&
            (Pending(s.table, name) || (EntryFree(s.table, s.seqno) && PortFree(s.pcbs, granted))))
  {
    hide Inv, SameName, FirstDone, FirstAsking, FirstFree, Victim, AllocPcb, CheckEntry, IsCached, Pending,
         SlotFree, EntryFree, PortFree;
    SearchesFind(s, name, maxRetries, granted);
  }

  /** The address given is the literal's, or the one some completed entry for
      the name holds; only a query under way changes the tables, except that a
      refused port costs the entry it was meant for. */
  lemma {:induction false} AddressIs(s: State, maxRetries: nat, name: string, literal: Option<Addr>,
                                     found: Option<Callback>, txid: nat, granted: bool)
    requires Inv(s, maxRetries, 0) && Ready(s)
    ensures
      var (t, out) := GetHostByName(s, name, literal, found, maxRetries, txid, granted);
      && (out.Ok? ==> t == s && if literal.Some? then out.addr == literal.value else Cached(s.table, name, out.addr))
      && (out.ErrArg? || out.ErrVal? ==> t == s)
  {
    hide Inv, SameName, FirstDone, FirstAsking, FirstFree, Victim, AllocPcb, CheckEntry;
    var d := FirstDone(s.table, name, 0);
    assert d < |s.table| ==> Cached(s.table, name, s.table[d].addr);
  }

  /** A request told to wait is attached to a pending query for its name: one
      that was pending before, or a new one about to be put to server 0. */
  lemma {:induction false} InProgressAsks(s: State, maxRetries: nat, name: string, literal: Option<Addr>,
                                          found: Option<Callback>, txid: nat, granted: bool)
    returns (i: nat, r: nat)
    requires Inv(s, maxRetries, 0) && Ready(s)
    requires GetHostByName(s, name, literal, found, maxRetries, txid, granted).1.InProgress?
    ensures
      var t := GetHostByName(s, name, literal, found, maxRetries, txid, granted).0;
      && i < |t.table| == |s.table| && r < |t.requests| == |s.requests|
      && (Pending(s.table, name) ==> t.table == s.table && t.table[i].phase.Asking? && SameName(name, t.table[i].name))
      && (!Pending(s.table, name) ==>
            !s.table[i].phase.Asking? && t.table == s.table[i := t.table[i]] &&
            JustAsked(t.table[i]) && t.table[i].name == name && t.table[i].txid == txid)
      && s.requests[r].found.None? && t.requests == s.requests[r := Request(found, i, |s.accepted|)]
  {
    hide Inv, SameName, FirstDone, FirstAsking, FirstFree, Victim, AllocPcb, CheckEntry, Start;
    SearchesFind(s, name, maxRetries, granted);
    r := FirstFree(s.requests, 0);
    i := FirstAsking(s.table, name, 0);
    if i == |s.table| {
      i := Victim(s.table, s.seqno, 0, 0, |s.table|);
      assert AllocPcb(s.pcbs, s.lastPcb, granted).idx < |s.pcbs| by {
        StartedHasPort(s, i, r, name, found, maxRetries, txid, granted);
      }
      StartAsks(s, i, r, name, found, maxRetries, txid, granted);
    }
  }

  lemma StartedHasPort(s: State, i: nat, r: nat, name: string, found: Option<Callback>, maxRetries: nat,
                       txid: nat, granted: bool)
    requires i < |s.table| && r < |s.requests| && s.requests[r].found.None?
    requires 0 < |s.servers| && s.table[i].server < |s.servers|
    requires Start(s, i, r, name, found, maxRetries, txid, granted).1.InProgress?
    ensures AllocPcb(s.pcbs, s.lastPcb, granted).idx < |s.pcbs|
  {
    hide CheckEntry, AllocPcb;
  }

  /** How many slots behind idx, going round, slot p lies. */
  function Behind(idx: nat, p: nat, n: nat): int {
    if p >= idx then p - idx else p + n - idx
  }

  lemma {:induction false} NextOpenIsFirst(pcbs: seq<bool>, idx: nat, left: nat, p: nat)
    requires left <= |pcbs| && idx < |pcbs| && NextOpen(pcbs, idx, left) < |pcbs| && p < |pcbs|
    requires Behind(idx, p, |pcbs|) < Behind(idx, NextOpen(pcbs, idx, left), |pcbs|)
    ensures !pcbs[p]
    decreases left
  {
    if !pcbs[idx] && p != idx {
      var next := if idx + 1 >= |pcbs| then 0 else idx + 1;
      WrapsAround(pcbs, idx + 1, left - 1);
      NextOpenIsFirst(pcbs, next, left - 1, p);
    }
  }

  lemma WrapsAround(pcbs: seq<bool>, idx: nat, left: nat)
    requires left <= |pcbs| && idx <= |pcbs| && |pcbs| > 0
    ensures NextOpen(pcbs, idx, left) == NextOpen(pcbs, if idx >= |pcbs| then 0 else idx, left)
  {
  }

  /** A shared port is the next open one after the port used last, going round;
      a new one is taken only into a closed slot. */
  lemma {:induction false} PortsTakeTurns(pcbs: seq<bool>, last: nat, granted: bool, p: nat)
    requires last < |pcbs| && p < |pcbs| && AllocPcb(pcbs, last, granted).idx < |pcbs|
    ensures
      var port := AllocPcb(pcbs, last, granted);
      var first := if last + 1 == |pcbs| then 0 else last + 1;
      && port.last == port.idx && port.pcbs == pcbs[port.idx := true]
      && (pcbs[port.idx] && Behind(first, p, |pcbs|) < Behind(first, port.idx, |pcbs|) ==> !pcbs[p])
      && (!pcbs[port.idx] <==> granted && exists c :: 0 <= c < |pcbs| && !pcbs[c])
  {
    hide NextOpen, FirstClosed;
    var port := AllocPcb(pcbs, last, granted);
    var first := if last + 1 == |pcbs| then 0 else last + 1;
    WrapsAround(pcbs, last + 1, |pcbs|);
    if pcbs[port.idx] && Behind(first, p, |pcbs|) < Behind(first, port.idx, |pcbs|) {
      NextOpenIsFirst(pcbs, first, |pcbs|, p);
    }
    assert pcbs[port.idx] ==> port.pcbs == pcbs[port.idx := true];
  }
}
