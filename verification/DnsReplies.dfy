/** Which replies the resolver accepts and what each of them does. */
module DnsReplies {
  import opened Options
  import opened DnsSteps
  import opened DnsRuns
  import opened DnsCache

  // ----- the slots that dns_call_found serves

  predicate BelongsTo(q: Request, i: nat) {
    q.found.Some? && q.entry == i
  }

  lemma {:induction false} CallFromSlot(s: State, i: nat, addr: Option<Addr>, r: nat, q: nat)
    requires i < |s.table| && r <= |s.requests| && q < |s.requests|
    ensures |CallFrom(s, i, addr, r).requests| == |s.requests|
    ensures CallFrom(s, i, addr, r).requests[q] ==
      if r <= q && BelongsTo(s.requests[q], i) then s.requests[q].(found := None) else s.requests[q]
    decreases |s.requests| - r
  {
    if r < |s.requests| {
      if BelongsTo(s.requests[r], i) {
        CallFromSlot(ServeOne(s, i, addr, r), i, addr, r + 1, q);
      } else {
        CallFromSlot(s, i, addr, r + 1, q);
      }
    }
  }

  /** Slot q of s after the query of entry i was answered with `addr`. */
  ghost predicate SlotAnswered(s: State, t: State, i: nat, addr: Option<Addr>, q: nat)
    requires i < |s.table| && q < |s.requests| == |t.requests|
  {
    if BelongsTo(s.requests[q], i) then
      t.requests[q].found.None?
      && Made(t.calls, |s.calls|, Call(s.requests[q].ticket, s.requests[q].found.value, s.table[i].name, addr))
    else t.requests[q] == s.requests[q]
  }

  /** The requests joined to entry i have been called with `addr` and released;
      every other slot and entry is as it was. */
  ghost predicate Answered(s: State, t: State, i: nat, addr: Option<Addr>)
    requires i < |s.table|
  {
    && |t.table| == |s.table| && |t.requests| == |s.requests| && t.servers == s.servers
    && (forall j :: 0 <= j < |s.table| && j != i ==> t.table[j] == s.table[j])
    && (forall q :: 0 <= q < |s.requests| ==> SlotAnswered(s, t, i, addr, q))
  }

  lemma {:induction false} CallFoundAnswers(s: State, i: nat, addr: Option<Addr>)
    requires i < |s.table|
    ensures Answered(s, CallFound(s, i, addr), i, addr)
  {
    hide CallFrom, PortShared, Made;
    var t := CallFound(s, i, addr);
    CallFromTable(s, i, addr, 0);
    forall q | 0 <= q < |s.requests| ensures SlotAnswered(s, t, i, addr, q) {
      CallFromSlot(s, i, addr, 0, q);
      if BelongsTo(s.requests[q], i) {
        CallFromDelivers(s, i, addr, 0, q);
      }
    }
  }

  lemma {:induction false} AbandonAnswers(s: State, i: nat)
    requires i < |s.table|
    ensures Answered(s, Abandon(s, i), i, None) && Abandon(s, i).table[i].phase.Unused?
  {
    hide CallFound, Made;
    CallFoundAnswers(s, i, None);
    var m, t := CallFound(s, i, None), Abandon(s, i);
    forall q | 0 <= q < |s.requests| ensures SlotAnswered(s, t, i, None, q) {
      assert SlotAnswered(s, m, i, None, q);
    }
  }

  /** The entry keeps the address for its time to live, cut to a week; with none
      left it is free at once. */
  lemma {:induction false} ResponseAnswers(s: State, i: nat, addr: Addr, ttl: nat)
    requires i < |s.table|
    ensures
      var t := CorrectResponse(s, i, addr, ttl);
      && Answered(s, t, i, Some(addr))
      && (ttl == 0 ==> t.table[i].phase.Unused?)
      && (ttl > 0 ==> t.table[i].phase.Done? && t.table[i].addr == addr && t.table[i].name == s.table[i].name)
      && (ttl > 0 ==> t.table[i].ttl == if ttl > 604800 then 604800 else ttl)
  {
    hide CallFound, Made;
    var kept := if ttl > MAX_TTL then MAX_TTL else ttl;
    var n := SetEntry(s, i, s.table[i].(addr := addr, phase := Done, ttl := kept));
    var m, t := CallFound(n, i, Some(addr)), CorrectResponse(s, i, addr, ttl);
    CallFoundAnswers(n, i, Some(addr));
    if ttl > 0 {
      Completed(s, i, addr, ttl);
    }
    forall q | 0 <= q < |s.requests| ensures SlotAnswered(s, t, i, Some(addr), q) {
      assert SlotAnswered(n, m, i, Some(addr), q);
    }
  }

  // ----- which replies count

  /** A whole response to the query of entry i, from the server it was put to,
      with the one question it asked. */
  predicate Fits(s: State, i: nat, p: Packet) {
    && !p.tooSmall && p.response && p.questions == 1 && p.question
    && i < |s.table| && s.table[i].phase.Asking? && s.table[i].txid == p.txid
    && s.table[i].server < |s.servers| && s.servers[s.table[i].server] == p.from
  }

  /** Any other packet is ignored. */
  lemma {:induction false} OnlyFittingRepliesCount(s: State, p: Packet, maxRetries: nat)
    requires Ready(s) && 0 < maxRetries
    requires forall i :: 0 <= i < |s.table| ==> !Fits(s, i, p)
    ensures Receive(s, p, maxRetries) == s
  {
    hide HandleReply;
    var i := FirstTxid(s.table, p.txid, 0);
    if i < |s.table| {
      assert !Fits(s, i, p);
    }
  }

  lemma {:induction false} FittingEntry(s: State, i: nat, p: Packet, maxRetries: nat)
    requires Inv(s, maxRetries, 0) && Fits(s, i, p)
    ensures Ready(s) && 0 < maxRetries && Receive(s, p, maxRetries) == HandleReply(s, i, p, maxRetries)
  {
    hide HandleReply;
    InvIsReady(s, maxRetries);
    var j := FirstTxid(s.table, p.txid, 0);
    assert j <= i;
    assert TxidsDistinct(s.table);
  }

  /** The first k records are of other types or classes. */
  predicate OnlySkipped(answers: seq<Record>, k: nat) {
    k <= |answers| && forall j :: 0 <= j < k ==> answers[j].Skipped?
  }

  lemma {:induction false} ScanSkips(answers: seq<Record>, k: nat)
    requires OnlySkipped(answers, k)
    ensures ScanAnswers(answers) == ScanAnswers(answers[k..])
  {
    if k == 0 {
      assert answers[0..] == answers;
    } else {
      ScanSkips(answers[1..], k - 1);
      assert answers[1..][k - 1..] == answers[k..];
    }
  }

  /** The first address record is the answer, whatever stands before it. */
  lemma {:induction false} FirstAddressAnswers(s: State, i: nat, p: Packet, maxRetries: nat, k: nat)
    requires Inv(s, maxRetries, 0) && Fits(s, i, p) && !p.error
    requires OnlySkipped(p.answers, k) && k < |p.answers| && p.answers[k].Address?
    ensures
      var t, a, ttl := Receive(s, p, maxRetries), p.answers[k].addr, p.answers[k].ttl;
      && Answered(s, t, i, Some(a))
      && (ttl == 0 ==> t.table[i].phase.Unused?)
      && (ttl > 0 ==> t.table[i].phase.Done? && t.table[i].addr == a && t.table[i].name == s.table[i].name)
      && (ttl > 0 ==> t.table[i].ttl == if ttl > 604800 then 604800 else ttl)
  {
    hide Inv, Receive, CorrectResponse, Answered, CheckEntry;
    FittingEntry(s, i, p, maxRetries);
    ScanSkips(p.answers, k);
    ResponseAnswers(s, i, p.answers[k].addr, p.answers[k].ttl);
  }

  /** A truncated record before any address: the reply is dropped and the query
      stays pending. */
  lemma {:induction false} BrokenRecordIsDropped(s: State, i: nat, p: Packet, maxRetries: nat, k: nat)
    requires Inv(s, maxRetries, 0) && Fits(s, i, p) && !p.error
    requires OnlySkipped(p.answers, k) && k < |p.answers| && p.answers[k].Broken?
    ensures Receive(s, p, maxRetries) == s
  {
    hide Inv, Receive, CorrectResponse, CheckEntry;
    FittingEntry(s, i, p, maxRetries);
    ScanSkips(p.answers, k);
  }

  /** No address at all: the query fails. */
  lemma {:induction false} NoAddressFails(s: State, i: nat, p: Packet, maxRetries: nat)
    requires Inv(s, maxRetries, 0) && Fits(s, i, p) && !p.error && OnlySkipped(p.answers, |p.answers|)
    ensures Answered(s, Receive(s, p, maxRetries), i, None)
    ensures Receive(s, p, maxRetries).table[i].phase.Unused?
  {
    hide Inv, Receive, CorrectResponse, CheckEntry, Abandon, Answered;
    FittingEntry(s, i, p, maxRetries);
    ScanSkips(p.answers, |p.answers|);
    AbandonAnswers(s, i);
  }

  /** An error reply sends the query on to the next server, if one is set, and
      nothing else changes. */
  lemma {:induction false} ErrorGoesOn(s: State, i: nat, p: Packet, maxRetries: nat)
    requires Inv(s, maxRetries, 0) && Fits(s, i, p) && p.error
    requires s.table[i].server + 1 < |s.servers| && s.servers[s.table[i].server + 1] != ANY_ADDR
    ensures Receive(s, p, maxRetries) ==
      SetEntry(s, i, s.table[i].(server := s.table[i].server + 1, tmr := 1, retries := 0))
  {
    hide Receive, Abandon, SlotsOk, CallsOk, Ledger, TxidsDistinct, NamesDistinct, PortsExact, Deadlines, EntriesOk;
    FittingEntry(s, i, p, maxRetries);
  }

  /** Without a next server the error is final. */
  lemma {:induction false} ErrorFails(s: State, i: nat, p: Packet, maxRetries: nat)
    requires Inv(s, maxRetries, 0) && Fits(s, i, p) && p.error
    requires s.table[i].server + 1 == |s.servers| || s.servers[s.table[i].server + 1] == ANY_ADDR
    ensures Answered(s, Receive(s, p, maxRetries), i, None)
    ensures Receive(s, p, maxRetries).table[i].phase.Unused?
  {
    hide Inv, Receive, CheckEntry, Abandon, Answered;
    FittingEntry(s, i, p, maxRetries);
    AbandonAnswers(s, i);
  }
}
