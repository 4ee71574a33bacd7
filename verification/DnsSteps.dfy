/** The resolver's tables as one value and what each call, timer tick and reply
    does to them. Two logs ride along: the requests accepted with a callback and
    the callbacks made. */
module DnsSteps {
  import opened Options

  type Addr = nat
  const ANY_ADDR: Addr := 0
  const MAX_TTL: nat := 604800
  const MAX_NAME_LENGTH: nat := 256

  datatype Phase = Unused | New | Asking | Done

  datatype Entry = Entry(
    phase: Phase,
    name: string,
    txid: nat,
    server: nat,
    tmr: nat,
    retries: nat,
    seqno: nat,
    pcb: nat,
    ttl: nat,
    addr: Addr,
    born: nat)            // the tick count when the query was accepted

  type Callback = nat

  /** `ticket` numbers the accepted requests; it is read only by the logs. */
  datatype Request = Request(found: Option<Callback>, entry: nat, ticket: nat)

  datatype Accepted = Accepted(found: Callback, name: string, tick: nat)
  datatype Call = Call(ticket: nat, found: Callback, name: string, addr: Option<Addr>)

  datatype State = State(
    table: seq<Entry>,
    requests: seq<Request>,
    pcbs: seq<bool>,      // which source-port slots hold an open pcb
    lastPcb: nat,
    seqno: nat,
    servers: seq<Addr>,
    ticks: nat,
    accepted: seq<Accepted>,
    calls: seq<Call>)

  datatype Outcome = Ok(addr: Addr) | InProgress | ErrArg | ErrVal | ErrMem

  // ----- host names

  function Lower(c: char): char {
    if 'A' <= c <= 'Z' then c + ' ' else c
  }

  function Fold(name: string): string {
    if name == "" then "" else [Lower(name[0])] + Fold(name[1..])
  }

  /** lwip_strnicmp(a, b) == 0 on names shorter than the buffer. */
  predicate SameName(a: string, b: string) {
    Fold(a) == Fold(b)
  }

  // ----- searches; each gives the length of the table when nothing is found

  function FirstAsking(table: seq<Entry>, name: string, i: nat): (r: nat)
    requires i <= |table|
    ensures i <= r <= |table|
    ensures r < |table| ==> table[r].phase.Asking? && SameName(name, table[r].name)
    ensures forall j :: i <= j < r ==> !(table[j].phase.Asking? && SameName(name, table[j].name))
    decreases |table| - i
  {
    if i == |table| || (table[i].phase.Asking? && SameName(name, table[i].name)) then i
    else FirstAsking(table, name, i + 1)
  }

  function FirstDone(table: seq<Entry>, name: string, i: nat): (r: nat)
    requires i <= |table|
    ensures i <= r <= |table|
    ensures r < |table| ==> table[r].phase.Done? && SameName(name, table[r].name)
    ensures forall j :: i <= j < r ==> !(table[j].phase.Done? && SameName(name, table[j].name))
    decreases |table| - i
  {
    if i == |table| || (table[i].phase.Done? && SameName(name, table[i].name)) then i
    else FirstDone(table, name, i + 1)
  }

  function FirstTxid(table: seq<Entry>, txid: nat, i: nat): (r: nat)
    requires i <= |table|
    ensures i <= r <= |table|
    ensures r < |table| ==> table[r].phase.Asking? && table[r].txid == txid
    ensures forall j :: i <= j < r ==> !(table[j].phase.Asking? && table[j].txid == txid)
    decreases |table| - i
  {
    if i == |table| || (table[i].phase.Asking? && table[i].txid == txid) then i
    else FirstTxid(table, txid, i + 1)
  }

  function FirstFree(requests: seq<Request>, r: nat): (k: nat)
    requires r <= |requests|
    ensures r <= k <= |requests|
    ensures k < |requests| ==> requests[k].found.None?
    ensures forall j :: r <= j < k ==> requests[j].found.Some?
    decreases |requests| - r
  {
    if r == |requests| || requests[r].found.None? then r else FirstFree(requests, r + 1)
  }

  function SeqAge(now: nat, stamp: nat): nat {
    (now + 256 - stamp % 256) % 256
  }

  /** An unused entry, or else the completed one with the largest age so far. */
  function Victim(table: seq<Entry>, now: nat, i: nat, lseq: nat, lseqi: nat): (v: nat)
    requires i <= |table| && lseqi <= |table|
    requires lseqi < |table| ==> table[lseqi].phase.Done?
    ensures v <= |table|
    ensures v < |table| ==> table[v].phase.Unused? || table[v].phase.Done?
    decreases |table| - i
  {
    if i == |table| then lseqi
    else if table[i].phase.Unused? then i
    else if table[i].phase.Done? && SeqAge(now, table[i].seqno) > lseq
    then Victim(table, now, i + 1, SeqAge(now, table[i].seqno), i)
    else Victim(table, now, i + 1, lseq, lseqi)
  }

  predicate HasUnused(table: seq<Entry>) {
    exists j :: 0 <= j < |table| && table[j].phase.Unused?
  }

  /** A completed entry j is at most `lseq` old. */
  predicate NoOlder(table: seq<Entry>, now: nat, lseq: nat, n: nat)
    requires n <= |table|
  {
    forall j :: 0 <= j < n && table[j].phase.Done? ==> SeqAge(now, table[j].seqno) <= lseq
  }

  lemma {:induction false} VictimFrom(table: seq<Entry>, now: nat, i: nat, lseq: nat, lseqi: nat)
    requires i <= |table| && lseqi <= |table|
    requires lseqi < |table| ==> table[lseqi].phase.Done? && SeqAge(now, table[lseqi].seqno) == lseq > 0
    requires lseqi == |table| ==> lseq == 0
    requires NoOlder(table, now, lseq, i) && forall j :: 0 <= j < i ==> !table[j].phase.Unused?
    ensures
      var v := Victim(table, now, i, lseq, lseqi);
      && (v < |table| && table[v].phase.Unused? <==> HasUnused(table))
      && (v < |table| && !HasUnused(table) ==>
            table[v].phase.Done? && SeqAge(now, table[v].seqno) > 0
              && NoOlder(table, now, SeqAge(now, table[v].seqno), |table|))
      && (v == |table| ==> !HasUnused(table) && NoOlder(table, now, 0, |table|))
    decreases |table| - i
  {
    hide SeqAge;
    if i < |table| && !table[i].phase.Unused? {
      if table[i].phase.Done? && SeqAge(now, table[i].seqno) > lseq {
        VictimFrom(table, now, i + 1, SeqAge(now, table[i].seqno), i);
      } else {
        VictimFrom(table, now, i + 1, lseq, lseqi);
      }
    }
  }

  /** An unused entry if there is one, else the completed entry with the greatest
      age; nothing is found exactly when no entry is unused and every completed
      one has age 0, as happens after a multiple of 256 queries. */
  lemma {:induction false} VictimIsOldest(table: seq<Entry>, now: nat)
    ensures
      var v := Victim(table, now, 0, 0, |table|);
      && (v < |table| && table[v].phase.Unused? <==> HasUnused(table))
      && (v < |table| && !HasUnused(table) ==>
            table[v].phase.Done? && NoOlder(table, now, SeqAge(now, table[v].seqno), |table|))
      && (v == |table| <==> !HasUnused(table) && NoOlder(table, now, 0, |table|))
  {
    VictimFrom(table, now, 0, 0, |table|);
  }

  function FirstClosed(pcbs: seq<bool>, i: nat): (r: nat)
    requires i <= |pcbs|
    ensures i <= r <= |pcbs|
    ensures r < |pcbs| ==> !pcbs[r]
    ensures forall j :: i <= j < r ==> pcbs[j]
    decreases |pcbs| - i
  {
    if i == |pcbs| || !pcbs[i] then i else FirstClosed(pcbs, i + 1)
  }

  /** Round-robin search for an open slot, `left` slots still to be tried. */
  function NextOpen(pcbs: seq<bool>, idx: nat, left: nat): (r: nat)
    requires left <= |pcbs|
    ensures r <= |pcbs|
    ensures r < |pcbs| ==> pcbs[r]
    decreases left
  {
    if left == 0 then |pcbs|
    else
      var j := if idx >= |pcbs| then 0 else idx;
      if pcbs[j] then j else NextOpen(pcbs, j + 1, left - 1)
  }

  datatype Port = Port(pcbs: seq<bool>, last: nat, idx: nat)

  /** dns_alloc_pcb; `granted` says whether a new pcb could be bound. */
  function AllocPcb(pcbs: seq<bool>, last: nat, granted: bool): Port {
    var i := FirstClosed(pcbs, 0);
    if i < |pcbs| && granted then Port(pcbs[i := true], i, i)
    else
      var idx := NextOpen(pcbs, last + 1, |pcbs|);
      Port(pcbs, if idx < |pcbs| then idx else last, idx)
  }

  // ----- ending a query

  /** The callbacks of dns_call_found, from request slot r on. */
  function CallFrom(s: State, i: nat, addr: Option<Addr>, r: nat): State
    requires i < |s.table| && r <= |s.requests|
    decreases |s.requests| - r
  {
    if r == |s.requests| then s
    else if s.requests[r].found.Some? && s.requests[r].entry == i then
      var q := s.requests[r];
      CallFrom(s.(requests := s.requests[r := q.(found := None)],
                  calls := s.calls + [Call(q.ticket, q.found.value, s.table[i].name, addr)]), i, addr, r + 1)
    else CallFrom(s, i, addr, r + 1)
  }

  /** Another pending entry, from j on, names the same source port. */
  predicate PortShared(table: seq<Entry>, i: nat, j: nat)
    requires i < |table| && j <= |table|
    decreases |table| - j
  {
    j < |table| &&
    ((j != i && table[j].phase.Asking? && table[j].pcb == table[i].pcb) || PortShared(table, i, j + 1))
  }

  function ReleasePort(s: State, i: nat): State
    requires i < |s.table|
  {
    var p := s.table[i].pcb;
    var t := s.table[i := s.table[i].(pcb := |s.pcbs|)];
    if PortShared(s.table, i, 0) || p >= |s.pcbs| then s.(table := t)
    else s.(table := t, pcbs := s.pcbs[p := false])
  }

  lemma {:induction false} CallFromTable(s: State, i: nat, addr: Option<Addr>, r: nat)
    requires i < |s.table| && r <= |s.requests|
    ensures CallFrom(s, i, addr, r) ==
      s.(requests := CallFrom(s, i, addr, r).requests, calls := CallFrom(s, i, addr, r).calls)
    ensures |CallFrom(s, i, addr, r).requests| == |s.requests|
    decreases |s.requests| - r
  {
    if r < |s.requests| {
      if s.requests[r].found.Some? && s.requests[r].entry == i {
        var q := s.requests[r];
        CallFromTable(s.(requests := s.requests[r := q.(found := None)],
                         calls := s.calls + [Call(q.ticket, q.found.value, s.table[i].name, addr)]), i, addr, r + 1);
      } else {
        CallFromTable(s, i, addr, r + 1);
      }
    }
  }

  /** dns_call_found. */
  function CallFound(s: State, i: nat, addr: Option<Addr>): (t: State)
    requires i < |s.table|
    ensures |t.table| == |s.table| && |t.requests| == |s.requests| && |t.pcbs| == |s.pcbs|
  {
    CallFromTable(s, i, addr, 0);
    ReleasePort(CallFrom(s, i, addr, 0), i)
  }

  function SetPhase(s: State, i: nat, phase: Phase): State
    requires i < |s.table|
  {
    s.(table := s.table[i := s.table[i].(phase := phase)])
  }

  function SetEntry(s: State, i: nat, e: Entry): State
    requires i < |s.table|
  {
    s.(table := s.table[i := e])
  }

  function Abandon(s: State, i: nat): State
    requires i < |s.table|
  {
    SetPhase(CallFound(s, i, None), i, Unused)
  }

  // ----- asking

  /** dns_send: a query whose server has been cleared is given up; whether the
      packet leaves has no effect on the tables. */
  function Send(s: State, i: nat): State
    requires i < |s.table| && s.table[i].server < |s.servers|
  {
    if s.servers[s.table[i].server] == ANY_ADDR then Abandon(s, i) else s
  }

  predicate BackupAvailable(servers: seq<Addr>, e: Entry) {
    e.server + 1 < |servers| && servers[e.server + 1] != ANY_ADDR
  }

  function U8Minus1(n: nat): nat {
    if n == 0 then 255 else n - 1
  }

  /** dns_check_entry; `txid` is what dns_create_txid drew, for a new entry. */
  function CheckEntry(s: State, i: nat, maxRetries: nat, txid: nat): State
    requires i < |s.table| && 0 < |s.servers|
    requires s.table[i].server < |s.servers|
  {
    var e := s.table[i];
    match e.phase
    case New =>
      Send(SetEntry(s, i, e.(txid := txid, phase := Asking, server := 0, tmr := 1, retries := 0)), i)
    case Asking =>
      var tmr := U8Minus1(e.tmr);
      if tmr != 0 then SetEntry(s, i, e.(tmr := tmr))
      else
        var retries := (e.retries + 1) % 256;
        if retries != maxRetries then Send(SetEntry(s, i, e.(tmr := retries, retries := retries)), i)
        else if BackupAvailable(s.servers, e)
        then Send(SetEntry(s, i, e.(server := e.server + 1, tmr := 1, retries := 0)), i)
        else Abandon(SetEntry(s, i, e.(tmr := tmr, retries := retries)), i)
    case Done =>
      if e.ttl == 0 || e.ttl - 1 == 0 then SetEntry(s, i, e.(ttl := 0, phase := Unused))
      else SetEntry(s, i, e.(ttl := e.ttl - 1))
    case Unused => s
  }

  /** dns_check_entries; no entry is new when the timer fires, so no id is drawn. */
  function CheckFrom(s: State, i: nat, maxRetries: nat): State
    requires i <= |s.table| && 0 < |s.servers|
    requires forall j :: 0 <= j < |s.table| ==> s.table[j].server < |s.servers|
    decreases |s.table| - i
  {
    if i == |s.table| then s
    else
      CheckEntryShape(s, i, maxRetries, 0);
      CheckFrom(CheckEntry(s, i, maxRetries, 0), i + 1, maxRetries)
  }

  function Tick(s: State, maxRetries: nat): State
    requires 0 < |s.servers|
    requires forall j :: 0 <= j < |s.table| ==> s.table[j].server < |s.servers|
  {
    var t := CheckFrom(s, 0, maxRetries);
    t.(ticks := t.ticks + 1)
  }

  /** The server index in use stays in range, whatever the check does. */
  lemma {:induction false} CheckEntryShape(s: State, i: nat, maxRetries: nat, txid: nat)
    requires i < |s.table| && 0 < |s.servers|
    requires s.table[i].server < |s.servers|
    ensures |CheckEntry(s, i, maxRetries, txid).table| == |s.table|
    ensures CheckEntry(s, i, maxRetries, txid).servers == s.servers
    ensures CheckEntry(s, i, maxRetries, txid).table[i].server < |s.servers|
    ensures forall j :: 0 <= j < |s.table| && j != i ==> CheckEntry(s, i, maxRetries, txid).table[j] == s.table[j]
  {
    forall t: State, a: Option<Addr> | i < |t.table|
      ensures CallFrom(t, i, a, 0) == t.(requests := CallFrom(t, i, a, 0).requests, calls := CallFrom(t, i, a, 0).calls)
    {
      CallFromTable(t, i, a, 0);
    }
  }

  // ----- replies

  /** One answer record: an address of the right type and class, some other
      record to skip, or a truncated one. */
  datatype Record = Address(addr: Addr, ttl: nat) | Skipped | Broken

  /** `question` says whether the question section was accepted for the entry. */
  datatype Packet = Packet(
    tooSmall: bool,
    txid: nat,
    response: bool,
    questions: nat,
    from: Addr,
    question: bool,
    error: bool,
    answers: seq<Record>)

  datatype Verdict = NoAddress | Malformed | Resolved(addr: Addr, ttl: nat)

  function ScanAnswers(answers: seq<Record>): Verdict {
    if answers == [] then NoAddress
    else match answers[0]
         case Address(a, ttl) => Resolved(a, ttl)
         case Broken => Malformed
         case Skipped => ScanAnswers(answers[1..])
  }

  function CorrectResponse(s: State, i: nat, addr: Addr, ttl: nat): State
    requires i < |s.table|
  {
    var kept := if ttl > MAX_TTL then MAX_TTL else ttl;
    var t := CallFound(SetEntry(s, i, s.table[i].(addr := addr, phase := Done, ttl := kept)), i, Some(addr));
    if kept == 0 then SetPhase(t, i, Unused) else t
  }

  predicate Relevant(s: State, i: nat, p: Packet)
    requires i < |s.table| && s.table[i].server < |s.servers|
  {
    p.response && p.questions == 1 && p.from == s.servers[s.table[i].server] && p.question
  }

  function HandleReply(s: State, i: nat, p: Packet, maxRetries: nat): State
    requires i < |s.table| && 0 < |s.servers| && 0 < maxRetries
    requires s.table[i].server < |s.servers|
  {
    if p.error then
      if BackupAvailable(s.servers, s.table[i])
      then CheckEntry(SetEntry(s, i, s.table[i].(retries := maxRetries - 1, tmr := 1)), i, maxRetries, 0)
      else Abandon(s, i)
    else match ScanAnswers(p.answers)
         case Malformed => s
         case Resolved(a, ttl) => CorrectResponse(s, i, a, ttl)
         case NoAddress => Abandon(s, i)
  }

  /** dns_recv. */
  function Receive(s: State, p: Packet, maxRetries: nat): State
    requires 0 < |s.servers| && 0 < maxRetries
    requires forall j :: 0 <= j < |s.table| ==> s.table[j].server < |s.servers|
  {
    var i := FirstTxid(s.table, p.txid, 0);
    if p.tooSmall || i == |s.table| || !Relevant(s, i, p) then s else HandleReply(s, i, p, maxRetries)
  }

  // ----- requests

  /** Fills request slot r for entry i; only a callback makes it a live slot. */
  function Attach(s: State, r: nat, i: nat, name: string, found: Option<Callback>): State
    requires r < |s.requests|
  {
    s.(requests := s.requests[r := Request(found, i, |s.accepted|)],
       accepted := if found.Some? then s.accepted + [Accepted(found.value, name, s.ticks)] else s.accepted)
  }

  function NewEntry(e: Entry, name: string, seqno: nat, pcb: nat, ticks: nat): Entry {
    e.(phase := New, name := name, seqno := seqno, pcb := pcb, born := ticks)
  }

  /** The part of dns_enqueue after an entry and a request slot were found. */
  function Start(s: State, i: nat, r: nat, name: string, found: Option<Callback>, maxRetries: nat, txid: nat,
                 granted: bool): (State, Outcome)
    requires i < |s.table| && r < |s.requests| && s.requests[r].found.None?
    requires 0 < |s.servers| && s.table[i].server < |s.servers|
  {
    var port := AllocPcb(s.pcbs, s.lastPcb, granted);
    var e := NewEntry(s.table[i], name, s.seqno, port.idx, s.ticks);
    if port.idx >= |s.pcbs| then
      (SetEntry(s, i, e.(phase := Unused)).(requests := s.requests[r := Request(None, i, |s.accepted|)]), ErrMem)
    else
      var t := SetEntry(Attach(s, r, i, name, found), i, e)
                 .(pcbs := port.pcbs, lastPcb := port.last, seqno := (s.seqno + 1) % 256);
      (CheckEntry(t, i, maxRetries, txid), InProgress)
  }

  /** dns_enqueue. */
  function Enqueue(s: State, name: string, found: Option<Callback>, maxRetries: nat, txid: nat,
                   granted: bool): (State, Outcome)
    requires 0 < |s.servers|
    requires forall j :: 0 <= j < |s.table| ==> s.table[j].server < |s.servers|
  {
    var d := FirstAsking(s.table, name, 0);
    var r := FirstFree(s.requests, 0);
    var v := Victim(s.table, s.seqno, 0, 0, |s.table|);
    if d < |s.table| && r < |s.requests| then (Attach(s, r, d, name, found), InProgress)
    else if v == |s.table| || r == |s.requests| then (s, ErrMem)
    else Start(s, v, r, name, found, maxRetries, txid, granted)
  }

  /** dns_gethostbyname; `literal` is the address the name itself denotes, if any. */
  function GetHostByName(s: State, name: string, literal: Option<Addr>, found: Option<Callback>,
                         maxRetries: nat, txid: nat, granted: bool): (State, Outcome)
    requires 0 < |s.servers|
    requires forall j :: 0 <= j < |s.table| ==> s.table[j].server < |s.servers|
  {
    var d := FirstDone(s.table, name, 0);
    if name == "" || |name| >= MAX_NAME_LENGTH then (s, ErrArg)
    else if literal.Some? then (s, Ok(literal.value))
    else if d < |s.table| then (s, Ok(s.table[d].addr))
    else if s.servers[0] == ANY_ADDR then (s, ErrVal)
    else Enqueue(s, name, found, maxRetries, txid, granted)
  }

  function SetServer(s: State, k: nat, addr: Addr): State {
    if k < |s.servers| then s.(servers := s.servers[k := addr]) else s
  }

  /** An id no pending entry uses: what dns_create_txid returns. */
  predicate Unclaimed(table: seq<Entry>, txid: nat) {
    txid < 65536 && forall j :: 0 <= j < |table| && table[j].phase.Asking? ==> table[j].txid != txid
  }
}
