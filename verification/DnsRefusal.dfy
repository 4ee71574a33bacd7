/** A query can be refused although a completed entry could make room for it:
    ages count modulo 256, and an entry of age 0 is never taken. */
module DnsRefusal {
  import opened Options
  import opened DnsSteps
  import opened DnsRuns
  import opened DnsCache

  const SERVER: Addr := 5
  const RETRIES: nat := 4

  lemma {:induction false} ReachesConcat(s: State, a: seq<Step>, m: State, b: seq<Step>, end: State)
    requires Reaches(s, a, m, RETRIES) && Reaches(m, b, end, RETRIES)
    ensures Reaches(s, a + b, end, RETRIES)
    decreases |a|
  {
    hide Next;
    if a == [] {
      assert a + b == b;
    } else {
      ReachesConcat(Next(s, a[0], RETRIES), a[1..], m, b, end);
      assert (a + b)[1..] == a[1..] + b;
    }
  }

  lemma {:induction false} OneStep(s: State, step: Step)
    requires Ready(s) && Possible(s, step)
    ensures Reaches(s, [step], Next(s, step, RETRIES), RETRIES)
  {
    hide Next;
    var t := Next(s, step, RETRIES);
    assert [step][1..] == [];
    assert Reaches(t, [], t, RETRIES);
  }

  // ----- two entries, one server, no callbacks

  /** The situation the run moves in. */
  ghost predicate Small(s: State) {
    && Inv(s, RETRIES, 0) && |s.table| == 2 && s.servers == [SERVER]
    && forall r :: 0 <= r < |s.requests| ==> s.requests[r].found.None?
  }

  ghost predicate NonePending(s: State) {
    forall j :: 0 <= j < |s.table| ==> !s.table[j].phase.Asking?
  }

  function Query(name: string): Step {
    Ask(name, None, None, 7, true)
  }

  /** A fitting reply to the query with id 7: an address, or an error. */
  function ReplyTo(answers: seq<Record>, error: bool): Step {
    Reply(Packet(false, 7, true, 1, SERVER, true, error, answers))
  }

  lemma {:induction false} PortIsGranted(s: State)
    requires Small(s)
    ensures AllocPcb(s.pcbs, s.lastPcb, true).idx < |s.pcbs|
  {
    AllocPcbFails(s.pcbs, s.lastPcb, true);
  }

  /** The query starts in entry v, and only there. */
  lemma {:induction false} QueryStarts(s: State, name: string, v: nat)
    requires Small(s) && NonePending(s) && name != "" && |name| < MAX_NAME_LENGTH && Ready(s)
    requires FirstDone(s.table, name, 0) == 2 && Victim(s.table, s.seqno, 0, 0, 2) == v < 2
    ensures Possible(s, Query(name))
    ensures
      var t := Next(s, Query(name), RETRIES);
      && Small(t) && t.seqno == (s.seqno + 1) % 256
      && t.table[v].phase.Asking? && t.table[v].txid == 7 && t.table[v].server == 0
      && t.table[v].name == name && t.table[v].seqno == s.seqno
      && t.table[1 - v] == s.table[1 - v]
  {
    hide Inv, CheckEntry, SameName, AllocPcb, Victim, FirstDone, Start;
    StepKeepsInv(s, Query(name), RETRIES);
    PortIsGranted(s);
    InvSizes(s);
    NothingAsked(s, name);
    StartAsks(s, v, 0, name, None, RETRIES, 7, true);
  }

  lemma {:induction false} InvSizes(s: State)
    requires Inv(s, RETRIES, 0)
    ensures |s.requests| == |s.table| && Ready(s)
  {
    InvIsReady(s, RETRIES);
  }

  lemma {:induction false} NothingAsked(s: State, name: string)
    requires Small(s) && NonePending(s) && |s.requests| == 2
    ensures FirstAsking(s.table, name, 0) == 2 && FirstFree(s.requests, 0) == 0
  {
    hide SameName;
  }

  /** The reply to the one pending query reaches it. */
  lemma {:induction false} ReplyArrives(s: State, v: nat, answers: seq<Record>, error: bool)
    requires Small(s) && v < 2 && s.table[v].phase.Asking? && s.table[v].txid == 7 && s.table[v].server == 0
    requires !s.table[1 - v].phase.Asking? && Ready(s)
    ensures
      var step := ReplyTo(answers, error);
      Next(s, step, RETRIES) == HandleReply(s, v, step.packet, RETRIES)
  {
    hide Inv, HandleReply;
    assert FirstTxid(s.table, 7, 0) == v;
  }

  lemma {:induction false} CallFoundKeepsSmall(s: State, v: nat, addr: Option<Addr>)
    requires v < |s.table| && forall r :: 0 <= r < |s.requests| ==> s.requests[r].found.None?
    ensures
      var t := CallFound(s, v, addr);
      && t.servers == s.servers && t.seqno == s.seqno && t.requests == s.requests
      && t.table[v] == s.table[v].(pcb := |s.pcbs|)
  {
    NobodyCalled(s, v, addr, 0);
    hide CallFrom, PortShared;
  }

  lemma {:induction false} NobodyCalled(s: State, v: nat, addr: Option<Addr>, r: nat)
    requires v < |s.table| && r <= |s.requests|
    requires forall q :: 0 <= q < |s.requests| ==> s.requests[q].found.None?
    ensures CallFrom(s, v, addr, r) == s
    decreases |s.requests| - r
  {
    if r < |s.requests| {
      NobodyCalled(s, v, addr, r + 1);
    }
  }

  /** With one server an error ends the query and leaves its entry unused. */
  lemma {:induction false} ErrorEnds(s: State, v: nat)
    requires Small(s) && v < 2 && s.table[v].phase.Asking? && s.table[v].txid == 7 && s.table[v].server == 0
    requires !s.table[1 - v].phase.Asking? && Ready(s)
    ensures
      var t := Next(s, ReplyTo([], true), RETRIES);
      Small(t) && t.seqno == s.seqno && t.table[v].phase.Unused? && t.table[1 - v] == s.table[1 - v]
  {
    hide Inv, CallFound;
    var step := ReplyTo([], true);
    StepKeepsInv(s, step, RETRIES);
    ReplyArrives(s, v, [], true);
    CallFoundKeepsSmall(s, v, None);
    CallFoundOthers(s, v, None, 1 - v);
  }

  /** An answer with a long time to live completes the query. */
  lemma {:induction false} AnswerCompletes(s: State, v: nat)
    requires Small(s) && v < 2 && s.table[v].phase.Asking? && s.table[v].txid == 7 && s.table[v].server == 0
    requires !s.table[1 - v].phase.Asking? && Ready(s)
    ensures
      var t := Next(s, ReplyTo([Address(9, 1000)], false), RETRIES);
      && Small(t) && t.seqno == s.seqno && t.table[v].phase.Done?
      && t.table[v].name == s.table[v].name && t.table[v].seqno == s.table[v].seqno
      && t.table[1 - v] == s.table[1 - v]
  {
    hide Inv, CallFound;
    var step := ReplyTo([Address(9, 1000)], false);
    StepKeepsInv(s, step, RETRIES);
    ReplyArrives(s, v, [Address(9, 1000)], false);
    var m := SetEntry(s, v, s.table[v].(addr := 9, phase := Done, ttl := 1000));
    CallFoundKeepsSmall(m, v, Some(9));
    CallFoundOthers(m, v, Some(9), 1 - v);
  }

  // ----- the run

  /** Entry 0 holds the answer to "a", stamped 0; entry 1 is unused. */
  ghost predicate Turning(s: State, n: nat) {
    && Small(s) && s.seqno == n && s.table[1].phase.Unused?
    && s.table[0].phase.Done? && s.table[0].name == "a" && s.table[0].seqno == 0
  }

  lemma {:induction false} Names()
    ensures !SameName("b", "a") && !SameName("c", "a") && !SameName("c", "b")
  {
    assert "a"[1..] == "" && "b"[1..] == "" && "c"[1..] == "";
    assert Fold("a") == "a" && Fold("b") == "b" && Fold("c") == "c";
  }

  /** The next query goes to entry 1. */
  lemma {:induction false} NextQuery(s: State, n: nat) returns (t: State)
    requires Turning(s, n)
    ensures Reaches(s, [Query("b")], t, RETRIES)
    ensures Small(t) && t.seqno == (n + 1) % 256 && t.table[0] == s.table[0]
    ensures t.table[1].phase.Asking? && t.table[1].txid == 7 && t.table[1].server == 0 && t.table[1].name == "b"
  {
    hide Inv, Reaches, Next;
    InvSizes(s);
    Names();
    assert FirstDone(s.table, "b", 0) == 2 && Victim(s.table, s.seqno, 0, 0, 2) == 1;
    QueryStarts(s, "b", 1);
    OneStep(s, Query("b"));
    t := Next(s, Query("b"), RETRIES);
  }

  /** A query through entry 1 that comes to nothing turns the counter by one. */
  lemma {:induction false} Turn(s: State, n: nat) returns (t: State, steps: seq<Step>)
    requires Turning(s, n) && n < 255
    ensures Reaches(s, steps, t, RETRIES) && Turning(t, n + 1)
  {
    hide Inv, Reaches, Next;
    var m := NextQuery(s, n);
    InvSizes(m);
    ErrorEnds(m, 1);
    OneStep(m, ReplyTo([], true));
    t := Next(m, ReplyTo([], true), RETRIES);
    steps := [Query("b")] + [ReplyTo([], true)];
    ReachesConcat(s, [Query("b")], m, [ReplyTo([], true)], t);
  }

  lemma {:induction false} Turns(s: State, n: nat) returns (t: State, steps: seq<Step>)
    requires Turning(s, n) && n <= 255
    ensures Reaches(s, steps, t, RETRIES) && Turning(t, 255)
    decreases 255 - n
  {
    hide Turning;
    if n == 255 {
      t, steps := s, [];
    } else {
      hide Reaches;
      var m, a := Turn(s, n);
      var b;
      t, b := Turns(m, n + 1);
      steps := a + b;
      ReachesConcat(s, a, m, b, t);
    }
  }

  function Zeroed(): State {
    var e := Entry(Unused, "", 0, 0, 0, 0, 0, 0, 0, ANY_ADDR, 0);
    var q := Request(None, 0, 0);
    State([e, e], [q, q], [false], 0, 0, [SERVER], 0, [], [])
  }

  lemma {:induction false} ZeroedIsInitial()
    ensures Initial(Zeroed(), RETRIES) && Small(Zeroed()) && Zeroed().seqno == 0
    ensures Zeroed().table[0].phase.Unused? && Zeroed().table[1].phase.Unused?
  {
    var s := Zeroed();
    assert Initial(s, RETRIES);
    hide Inv;
    InitialInv(s, RETRIES);
  }

  /** The first query is answered and kept. */
  lemma {:induction false} FirstAnswer(s: State) returns (t: State, steps: seq<Step>)
    requires Small(s) && s.seqno == 0 && s.table[0].phase.Unused? && s.table[1].phase.Unused?
    ensures Reaches(s, steps, t, RETRIES) && Turning(t, 1)
  {
    hide Inv, Reaches, Next, SameName;
    InvSizes(s);
    assert FirstDone(s.table, "a", 0) == 2 && Victim(s.table, s.seqno, 0, 0, 2) == 0;
    QueryStarts(s, "a", 0);
    var m := Next(s, Query("a"), RETRIES);
    OneStep(s, Query("a"));
    InvSizes(m);
    AnswerCompletes(m, 0);
    var reply := ReplyTo([Address(9, 1000)], false);
    OneStep(m, reply);
    t := Next(m, reply, RETRIES);
    steps := [Query("a")] + [reply];
    ReachesConcat(s, [Query("a")], m, [reply], t);
  }

  /** A run from zeroed tables to a refusal beside a completed entry. */
  lemma {:induction false} RefusalIsReachable() returns (s: State, steps: seq<Step>, end: State)
    ensures Initial(s, RETRIES) && Reaches(s, steps, end, RETRIES) && Ready(end)
    ensures |end.table| == 2 && end.table[0].phase.Done? && FirstFree(end.requests, 0) < |end.requests|
    ensures GetHostByName(end, "c", None, None, RETRIES, 8, true) == (end, ErrMem)
  {
    hide Inv, Reaches, Zeroed, GetHostByName, FirstFree;
    s := Zeroed();
    ZeroedIsInitial();
    var t0, a := FirstAnswer(s);
    var t1, b := Turns(t0, 1);
    end := NextQuery(t1, 255);
    steps := a + b + [Query("b")];
    ReachesConcat(s, a, t0, b, t1);
    ReachesConcat(s, a + b, t1, [Query("b")], end);
    InvSizes(end);
    Refused(end);
  }

  lemma {:induction false} Refused(s: State)
    requires Small(s) && Ready(s) && s.seqno == 0 && |s.requests| == 2
    requires s.table[0].phase.Done? && s.table[0].name == "a" && s.table[0].seqno == 0
    requires s.table[1].phase.Asking? && s.table[1].name == "b"
    ensures FirstFree(s.requests, 0) == 0
    ensures GetHostByName(s, "c", None, None, RETRIES, 8, true) == (s, ErrMem)
  {
    hide Inv, SameName, Fold, Start, Victim, FirstDone, FirstAsking, FirstFree, CheckEntry, AllocPcb;
    Names();
    NobodyOldEnough(s);
    assert s.requests[0].found.None?;
  }

  lemma {:induction false} NobodyOldEnough(s: State)
    requires |s.table| == 2 && s.seqno == 0
    requires s.table[0].phase.Done? && s.table[0].seqno == 0 && s.table[1].phase.Asking?
    ensures Victim(s.table, s.seqno, 0, 0, |s.table|) == |s.table|
  {
    hide Victim;
    VictimIsOldest(s.table, s.seqno);
  }
}
