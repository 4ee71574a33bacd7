/** The resolver as it runs: tables updated in place, one loop per search. Each
    method does to the tables what the step of the same name says. */
module Dns {
  import opened Options
  import opened DnsSteps
  import R = DnsRuns

  /** The first of the drawn random numbers that no pending query uses. */
  function Drawn(table: seq<Entry>, draws: seq<nat>): (txid: nat)
    requires exists d :: 0 <= d < |draws| && Unclaimed(table, draws[d])
    ensures Unclaimed(table, txid)
  {
    if Unclaimed(table, draws[0]) then draws[0]
    else
      assert forall d :: 0 < d < |draws| ==> draws[d] == draws[1..][d - 1];
      Drawn(table, draws[1..])
  }

  lemma {:induction false} UnclaimedMeans(table: seq<Entry>, txid: nat)
    requires txid < 65536
    ensures Unclaimed(table, txid) <==> FirstTxid(table, txid, 0) == |table|
  {
    var i := FirstTxid(table, txid, 0);
    if i < |table| {
      assert table[i].phase.Asking? && table[i].txid == txid;
    }
  }

  class Resolver {
    const maxRetries: nat
    var table: seq<Entry>
    var requests: seq<Request>
    var pcbs: seq<bool>
    var lastPcb: nat
    var seqno: nat
    var servers: seq<Addr>
    // the clock and the logs
    var ticks: nat
    var accepted: seq<Accepted>
    var calls: seq<Call>

    ghost function Model(): State
      reads this
    {
      State(table, requests, pcbs, lastPcb, seqno, servers, ticks, accepted, calls)
    }

    constructor (size: nat, ports: nat, addrs: seq<Addr>, retries: nat)
      requires size <= 255 && 1 <= ports <= 255 && 1 <= |addrs| <= 255 && 1 <= retries <= 255
      ensures R.Initial(Model(), maxRetries) && maxRetries == retries
      ensures |table| == size && |pcbs| == ports && servers == addrs
    {
      maxRetries := retries;
      table := seq(size, _ => Entry(Unused, "", 0, 0, 0, 0, 0, 0, 0, ANY_ADDR, 0));
      requests := seq(size, _ => Request(None, 0, 0));
      pcbs := seq(ports, _ => false);
      lastPcb, seqno, servers := 0, 0, addrs;
      ticks, accepted, calls := 0, [], [];
    }

    method CreateTxid(draws: seq<nat>) returns (txid: nat)
      requires forall d :: 0 <= d < |draws| ==> draws[d] < 65536
      requires exists d :: 0 <= d < |draws| && Unclaimed(table, draws[d])
      ensures txid == Drawn(table, draws) && Unclaimed(table, txid)
    {
      var left := draws;
      while true
        invariant forall d :: 0 <= d < |left| ==> left[d] < 65536
        invariant exists d :: 0 <= d < |left| && Unclaimed(table, left[d])
        invariant Drawn(table, left) == Drawn(table, draws)
        decreases |left|
      {
        txid := left[0];
        UnclaimedMeans(table, txid);
        var i := 0;
        while i < |table| && !(table[i].phase.Asking? && table[i].txid == txid)
          invariant 0 <= i <= |table|
          invariant FirstTxid(table, txid, i) == FirstTxid(table, txid, 0)
        {
          i := i + 1;
        }
        if i == |table| {
          return;
        }
        assert forall d :: 0 < d < |left| ==> left[d] == left[1..][d - 1];
        left := left[1..];
      }
    }

    method CallFoundAt(i: nat, addr: Option<Addr>)
      requires i < |table| && |requests| == |table|
      modifies this
      ensures Model() == CallFound(old(Model()), i, addr)
    {
      ghost var before := Model();
      CallFromTable(before, i, addr, 0);
      var r := 0;
      while r < |requests|
        invariant 0 <= r <= |requests| == |before.requests|
        invariant table == before.table && pcbs == before.pcbs
        invariant CallFrom(Model(), i, addr, r) == CallFrom(before, i, addr, 0)
      {
        if requests[r].found.Some? && requests[r].entry == i {
          calls := calls + [Call(requests[r].ticket, requests[r].found.value, table[i].name, addr)];
          requests := requests[r := requests[r].(found := None)];
        }
        r := r + 1;
      }
      ghost var called := Model();
      var j := 0;
      while j < |table| && !(j != i && table[j].phase.Asking? && table[j].pcb == table[i].pcb)
        invariant 0 <= j <= |table|
        invariant Model() == called
        invariant PortShared(called.table, i, j) == PortShared(called.table, i, 0)
      {
        j := j + 1;
      }
      if j == |table| && table[i].pcb < |pcbs| {
        pcbs := pcbs[table[i].pcb := false];
      }
      table := table[i := table[i].(pcb := |pcbs|)];
    }

    method AllocPcbFor(granted: bool) returns (idx: nat)
      requires lastPcb < |pcbs|
      modifies this`pcbs, this`lastPcb
      ensures AllocPcb(old(pcbs), old(lastPcb), granted) == Port(pcbs, lastPcb, idx)
    {
      var i := 0;
      while i < |pcbs| && pcbs[i]
        invariant 0 <= i <= |pcbs|
        invariant FirstClosed(pcbs, i) == FirstClosed(pcbs, 0)
      {
        i := i + 1;
      }
      if i < |pcbs| && granted {
        pcbs := pcbs[i := true];
        lastPcb := i;
        return i;
      }
      i, idx := 0, lastPcb + 1;
      while i < |pcbs|
        invariant 0 <= i <= |pcbs|
        invariant NextOpen(pcbs, idx, |pcbs| - i) == NextOpen(pcbs, lastPcb + 1, |pcbs|)
      {
        if idx >= |pcbs| {
          idx := 0;
        }
        if pcbs[idx] {
          lastPcb := idx;
          return;
        }
        i, idx := i + 1, idx + 1;
      }
      return |pcbs|;
    }

    method SendFor(i: nat)
      requires i < |table| && |requests| == |table| && table[i].server < |servers|
      modifies this
      ensures Model() == Send(old(Model()), i)
    {
      if servers[table[i].server] == ANY_ADDR {
        CallFoundAt(i, None);
        table := table[i := table[i].(phase := Unused)];
      }
    }

    method CheckEntryAt(i: nat, draws: seq<nat>)
      requires i < |table| && |requests| == |table| && 0 < |servers| && table[i].server < |servers|
      requires table[i].phase.New? ==>
        (forall d :: 0 <= d < |draws| ==> draws[d] < 65536) &&
        exists d :: 0 <= d < |draws| && Unclaimed(table, draws[d])
      modifies this
      ensures Model() == CheckEntry(old(Model()), i, maxRetries,
        if old(table[i].phase.New?) then Drawn(old(table), draws) else 0)
    {
      hide CallFound, Unclaimed;
      match table[i].phase {
        case New =>
          var txid := CreateTxid(draws);
          table := table[i := table[i].(txid := txid, phase := Asking, server := 0, tmr := 1, retries := 0)];
          SendFor(i);
        case Asking =>
          ghost var before := Model();
          table := table[i := table[i].(tmr := U8Minus1(table[i].tmr))];
          if table[i].tmr == 0 {
            table := table[i := table[i].(retries := (table[i].retries + 1) % 256)];
            if table[i].retries == maxRetries {
              if BackupAvailable(servers, table[i]) {
                table := table[i := table[i].(server := table[i].server + 1, tmr := 1, retries := 0)];
              } else {
                assert table == before.table[i := table[i]];
                CallFoundAt(i, None);
                table := table[i := table[i].(phase := Unused)];
                return;
              }
            } else {
              table := table[i := table[i].(tmr := table[i].retries)];
            }
            assert table == before.table[i := table[i]];
            SendFor(i);
          }
        case Done =>
          if table[i].ttl == 0 || table[i].ttl - 1 == 0 {
            table := table[i := table[i].(ttl := 0, phase := Unused)];
          } else {
            table := table[i := table[i].(ttl := table[i].ttl - 1)];
          }
        case Unused =>
      }
    }

    /** Everything a run keeps. */
    ghost predicate Valid()
      reads this
    {
      R.Inv(Model(), maxRetries, 0)
    }

    method Timer()
      requires Valid()
      modifies this
      ensures Valid() && R.Ready(old(Model())) && Model() == Tick(old(Model()), maxRetries)
    {
      hide R.Inv, CheckEntry;
      ghost var before := Model();
      R.InvIsReady(before, maxRetries);
      var i := 0;
      while i < |table|
        invariant 0 <= i <= |table|
        invariant R.Inv(Model(), maxRetries, i) && R.Ready(Model())
        invariant CheckFrom(Model(), i, maxRetries) == CheckFrom(before, 0, maxRetries)
      {
        R.CheckKeepsInv(Model(), maxRetries, i);
        CheckEntryShape(Model(), i, maxRetries, 0);
        NotNew(Model(), maxRetries, i, i);
        CheckEntryAt(i, []);
        i := i + 1;
      }
      ticks := ticks + 1;
      R.TickKeepsInv(before, maxRetries);
    }

    method CorrectResponseFor(i: nat, addr: Addr, ttl: nat)
      requires i < |table| && |requests| == |table|
      modifies this
      ensures Model() == CorrectResponse(old(Model()), i, addr, ttl)
    {
      var kept := if ttl > MAX_TTL then MAX_TTL else ttl;
      table := table[i := table[i].(addr := addr, phase := Done, ttl := kept)];
      ghost var done := Model();
      R.CallFoundPhase(done, i, Some(addr));
      CallFoundTtl(done, i, Some(addr));
      CallFoundAt(i, Some(addr));
      if table[i].ttl == 0 {
        if table[i].phase == Done {
          table := table[i := table[i].(phase := Unused)];
        }
      }
    }

    method HandleReplyFor(i: nat, p: Packet)
      requires Valid() && i < |table| && table[i].phase.Asking?
      modifies this
      ensures Valid() && R.Ready(old(Model())) && maxRetries > 0
      ensures Model() == HandleReply(old(Model()), i, p, maxRetries)
    {
      hide R.Inv, CheckEntry, CorrectResponse, CallFound;
      ghost var before := Model();
      R.InvIsReady(before, maxRetries);
      SizesAgree(before, maxRetries);
      R.HandleReplyKeepsInv(before, maxRetries, i, p);
      if p.error {
        if BackupAvailable(servers, table[i]) {
          table := table[i := table[i].(retries := maxRetries - 1, tmr := 1)];
          CheckEntryAt(i, []);
          return;
        }
      } else {
        var k := 0;
        while k < |p.answers|
          invariant 0 <= k <= |p.answers|
          invariant Model() == before
          invariant ScanAnswers(p.answers[k..]) == ScanAnswers(p.answers)
        {
          assert p.answers[k..][1..] == p.answers[k + 1..];
          match p.answers[k] {
            case Broken => return;
            case Address(addr, ttl) =>
              CorrectResponseFor(i, addr, ttl);
              return;
            case Skipped =>
          }
          k := k + 1;
        }
      }
      CallFoundAt(i, None);
      table := table[i := table[i].(phase := Unused)];
    }

    method Recv(p: Packet)
      requires Valid()
      modifies this
      ensures Valid() && R.Ready(old(Model())) && maxRetries > 0
      ensures Model() == Receive(old(Model()), p, maxRetries)
    {
      hide R.Inv, HandleReply;
      R.InvIsReady(Model(), maxRetries);
      if p.tooSmall {
        return;
      }
      var i := 0;
      while i < |table| && !(table[i].phase.Asking? && table[i].txid == p.txid)
        invariant 0 <= i <= |table|
        invariant FirstTxid(table, p.txid, i) == FirstTxid(table, p.txid, 0)
      {
        i := i + 1;
      }
      if i < |table| && p.response && p.questions == 1 && p.from == servers[table[i].server] && p.question {
        HandleReplyFor(i, p);
      }
    }

    method SetServerAt(k: nat, addr: Addr)
      requires Valid()
      modifies this`servers
      ensures Valid() && Model() == SetServer(old(Model()), k, addr)
    {
      R.SetServerKeepsInv(Model(), maxRetries, k, addr);
      if k < |servers| {
        servers := servers[k := addr];
      }
    }

    /** The first request slot that is free, or the number of slots. */
    method FreeRequest() returns (r: nat)
      ensures r == FirstFree(requests, 0)
    {
      r := 0;
      while r < |requests| && requests[r].found.Some?
        invariant 0 <= r <= |requests|
        invariant FirstFree(requests, r) == FirstFree(requests, 0)
      {
        r := r + 1;
      }
    }

    /** The first loop of dns_enqueue: join a query for the same name. */
    method JoinPending(name: string, found: Option<Callback>) returns (joined: bool)
      modifies this`requests, this`accepted
      ensures
        var d, r := FirstAsking(old(table), name, 0), FirstFree(old(requests), 0);
        joined == (d < |old(table)| && r < |old(requests)|) &&
        Model() == if joined then Attach(old(Model()), r, d, name, found) else old(Model())
    {
      var i := 0;
      while i < |table|
        invariant 0 <= i <= |table|
        invariant Model() == old(Model())
        invariant FirstAsking(table, name, i) == FirstAsking(table, name, 0) || FirstFree(requests, 0) == |requests|
      {
        if table[i].phase.Asking? && SameName(name, table[i].name) {
          var r := FreeRequest();
          if r < |requests| {
            requests := requests[r := Request(found, i, |accepted|)];
            if found.Some? {
              accepted := accepted + [Accepted(found.value, name, ticks)];
            }
            return true;
          }
        }
        i := i + 1;
      }
      return false;
    }

    /** The second loop of dns_enqueue: an unused entry or the oldest completed one. */
    method ChooseEntry() returns (v: nat)
      ensures v == Victim(table, seqno, 0, 0, |table|)
      ensures v < |table| && table[v].phase.Unused? <==> HasUnused(table)
      ensures v < |table| && !HasUnused(table) ==>
        table[v].phase.Done? && NoOlder(table, seqno, SeqAge(seqno, table[v].seqno), |table|)
      ensures v == |table| <==> !HasUnused(table) && NoOlder(table, seqno, 0, |table|)
    {
      VictimIsOldest(table, seqno);
      var i, lseq := 0, 0;
      v := |table|;
      while i < |table| && !table[i].phase.Unused?
        invariant 0 <= i <= |table| && v <= |table|
        invariant v < |table| ==> table[v].phase.Done?
        invariant Victim(table, seqno, i, lseq, v) == Victim(table, seqno, 0, 0, |table|)
      {
        if table[i].phase.Done? {
          var age := SeqAge(seqno, table[i].seqno);
          if age > lseq {
            lseq, v := age, i;
          }
        }
        i := i + 1;
      }
      if i < |table| {
        v := i;
      }
    }

    /** The rest of dns_enqueue, once an entry and a slot are chosen. */
    method StartAt(i: nat, r: nat, name: string, found: Option<Callback>, draws: seq<nat>, granted: bool)
      returns (out: Outcome)
      requires i < |table| && |requests| == |table| && r < |requests| && requests[r].found.None?
      requires 0 < |servers| && table[i].server < |servers| && lastPcb < |pcbs|
      requires !table[i].phase.Asking?
      requires forall d :: 0 <= d < |draws| ==> draws[d] < 65536
      requires exists d :: 0 <= d < |draws| && Unclaimed(table, draws[d])
      modifies this
      ensures (Model(), out) == Start(old(Model()), i, r, name, found, maxRetries, Drawn(old(table), draws), granted)
    {
      hide CheckEntry, AllocPcb;
      ghost var before := Model();
      requests := requests[r := requests[r].(entry := i)];
      var idx := AllocPcbFor(granted);
      ghost var e := NewEntry(before.table[i], name, seqno, idx, ticks);
      table := table[i := table[i].(phase := New, name := name, seqno := seqno, pcb := idx, born := ticks)];
      requests := requests[r := Request(found, i, |accepted|)];
      PcbsKeepLength(before.pcbs, before.lastPcb, granted);
      if idx >= |pcbs| {
        table := table[i := table[i].(phase := Unused)];
        requests := requests[r := requests[r].(found := None)];
        assert table == before.table[i := e.(phase := Unused)];
        assert requests == before.requests[r := Request(None, i, |accepted|)];
        return ErrMem;
      }
      if found.Some? {
        accepted := accepted + [Accepted(found.value, name, ticks)];
      }
      seqno := (seqno + 1) % 256;
      assert requests == before.requests[r := Request(found, i, |before.accepted|)];
      assert table == before.table[i := e];
      SameDraws(before.table, i, e, draws);
      CheckEntryAt(i, draws);
      return InProgress;
    }

    method EnqueueFor(name: string, found: Option<Callback>, draws: seq<nat>, granted: bool) returns (out: Outcome)
      requires |requests| == |table| && lastPcb < |pcbs| && R.Ready(Model())
      requires forall d :: 0 <= d < |draws| ==> draws[d] < 65536
      requires exists d :: 0 <= d < |draws| && Unclaimed(table, draws[d])
      modifies this
      ensures (Model(), out) == Enqueue(old(Model()), name, found, maxRetries, Drawn(old(table), draws), granted)
    {
      hide Start, SameName, Attach, Drawn;
      var joined := JoinPending(name, found);
      if joined {
        return InProgress;
      }
      var i := ChooseEntry();
      if i >= |table| {
        return ErrMem;
      }
      var r := FreeRequest();
      if r == |requests| {
        return ErrMem;
      }
      out := StartAt(i, r, name, found, draws, granted);
    }

    method Lookup(name: string) returns (found: Option<Addr>)
      ensures
        var d := FirstDone(table, name, 0);
        found == if d < |table| then Some(table[d].addr) else None
    {
      var i := 0;
      while i < |table| && !(table[i].phase.Done? && SameName(name, table[i].name))
        invariant 0 <= i <= |table|
        invariant FirstDone(table, name, i) == FirstDone(table, name, 0)
      {
        i := i + 1;
      }
      return if i < |table| then Some(table[i].addr) else None;
    }

    method Resolve(name: string, literal: Option<Addr>, found: Option<Callback>, draws: seq<nat>,
                   granted: bool) returns (out: Outcome)
      requires Valid()
      requires forall d :: 0 <= d < |draws| ==> draws[d] < 65536
      requires exists d :: 0 <= d < |draws| && Unclaimed(table, draws[d])
      modifies this
      ensures Valid() && R.Ready(old(Model()))
      ensures (Model(), out) == GetHostByName(old(Model()), name, literal, found, maxRetries,
        Drawn(old(table), draws), granted)
    {
      hide R.Inv, Enqueue, FirstDone, Drawn;
      R.InvIsReady(Model(), maxRetries);
      SizesAgree(Model(), maxRetries);
      R.StepKeepsInv(Model(), R.Ask(name, literal, found, Drawn(table, draws), granted), maxRetries);
      if name == "" || |name| >= MAX_NAME_LENGTH {
        return ErrArg;
      }
      if literal.Some? {
        return Ok(literal.value);
      }
      var cached := Lookup(name);
      if cached.Some? {
        return Ok(cached.value);
      }
      if servers[0] == ANY_ADDR {
        return ErrVal;
      }
      out := EnqueueFor(name, found, draws, granted);
    }
  }

  lemma {:induction false} NotNew(s: State, maxRetries: nat, k: nat, i: nat)
    requires R.Inv(s, maxRetries, k) && i < |s.table|
    ensures !s.table[i].phase.New? && |s.requests| == |s.table|
  {
    assert R.EntryOk(s.table[i], maxRetries, |s.servers|, |s.pcbs|);
  }

  lemma {:induction false} SizesAgree(s: State, maxRetries: nat)
    requires R.Inv(s, maxRetries, 0)
    ensures |s.requests| == |s.table| && s.lastPcb < |s.pcbs|
  {
  }

  lemma {:induction false} CallFoundTtl(s: State, i: nat, addr: Option<Addr>)
    requires i < |s.table|
    ensures CallFound(s, i, addr).table[i].ttl == s.table[i].ttl
  {
    CallFromTable(s, i, addr, 0);
  }

  lemma {:induction false} PcbsKeepLength(pcbs: seq<bool>, last: nat, granted: bool)
    ensures |AllocPcb(pcbs, last, granted).pcbs| == |pcbs|
    ensures AllocPcb(pcbs, last, granted).idx >= |pcbs| ==>
      AllocPcb(pcbs, last, granted).pcbs == pcbs && AllocPcb(pcbs, last, granted).last == last
  {
  }

  /** An entry that is not pending does not limit the choice of an id. */
  lemma {:induction false} SameDraws(table: seq<Entry>, i: nat, e: Entry, draws: seq<nat>)
    requires i < |table| && !table[i].phase.Asking? && !e.phase.Asking?
    requires exists d :: 0 <= d < |draws| && Unclaimed(table, draws[d])
    ensures exists d :: 0 <= d < |draws| && Unclaimed(table[i := e], draws[d])
    ensures Drawn(table[i := e], draws) == Drawn(table, draws)
  {
    forall txid ensures Unclaimed(table[i := e], txid) == Unclaimed(table, txid) {
      SameClaims(table, i, e, txid);
    }
    var d :| 0 <= d < |draws| && Unclaimed(table, draws[d]);
    assert Unclaimed(table[i := e], draws[d]);
    if !Unclaimed(table, draws[0]) {
      assert draws[1..][d - 1] == draws[d];
      SameDraws(table, i, e, draws[1..]);
    }
  }

  lemma {:induction false} SameClaims(table: seq<Entry>, i: nat, e: Entry, txid: nat)
    requires i < |table| && !table[i].phase.Asking? && !e.phase.Asking?
    ensures Unclaimed(table[i := e], txid) == Unclaimed(table, txid)
  {
    var t := table[i := e];
    if Unclaimed(t, txid) {
      forall j | 0 <= j < |table| && table[j].phase.Asking? ensures table[j].txid != txid {
        assert t[j] == table[j];
      }
    }
  }
}
