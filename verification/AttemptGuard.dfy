/** One chained decision record per tool-call attempt, allowed or denied, and the verification of such a log. */
module AttemptGuard {
  import opened Basics

  type Hex = string

  /** Call arguments as canonical text; a snapshot, so nothing the caller does later can reach it. */
  type Args = string

  datatype Record = Record(
    attemptId: Hex, runId: string, step: nat, callIndex: nat, toolCallId: Option<string>, preimageHash: Hex,
    tool: string, args: Args, agentId: string, policyVersion: string, allowed: bool, reason: string, prev: Option<Hex>)

  /** The three uses of the hash, as opaque functions: of a record, of an attempt's coordinates, of a call preimage. */
  datatype Hashes = Hashes(
    record: Record -> Hex,
    attempt: (string, nat, nat) -> Hex,
    preimage: (string, Args, string, string) -> Hex) {

    function Of(r: Record): Hex { record(r) }

    function Attempt(runId: string, step: nat, callIndex: nat): Hex { attempt(runId, step, callIndex) }

    function Preimage(tool: string, args: Args, agentId: string, policyVersion: string): Hex
    {
      preimage(tool, args, agentId, policyVersion)
    }
  }

  /** Length of the log and hash of its last record. */
  datatype Head = Head(n: nat, tip: Option<Hex>)

  function Tip(h: Hashes, records: seq<Record>): Option<Hex>
  {
    if records == [] then None else Some(h.Of(records[|records| - 1]))
  }

  function HeadOf(h: Hashes, records: seq<Record>): Head
  {
    Head(|records|, Tip(h, records))
  }

  // ---------------------------------------------------------------- the guard as a state machine

  datatype State = State(
    runId: string, agentId: string, policyVersion: string, step: nat, callIndex: nat, records: seq<Record>,
    executions: nat)

  /**
   What can happen to a guard: a new step, or a call. A call carries the binding error, if its arguments do
   not bind, and the policy's answer, which is consulted only when they do.
   */
  datatype Event =
    | NewStep
    | Call(tool: string, args: Args, toolCallId: Option<string>, bindError: Option<string>, allow: bool, why: string)

  function Allowed(e: Event): bool
    requires e.Call?
  {
    e.bindError.None? && e.allow
  }

  function Decide(h: Hashes, g: State, e: Event): Record
    requires e.Call?
  {
    Record(
      h.Attempt(g.runId, g.step, g.callIndex), g.runId, g.step, g.callIndex, e.toolCallId,
      h.Preimage(e.tool, e.args, g.agentId, g.policyVersion),
      e.tool, e.args, g.agentId, g.policyVersion, Allowed(e),
      if e.bindError.Some? then "binding: " + e.bindError.value else e.why, Tip(h, g.records))
  }

  function Apply(h: Hashes, g: State, e: Event): State
  {
    match e
    case NewStep => g.(step := g.step + 1, callIndex := 0)
    case Call(_, _, _, _, _, _) =>
      g.(callIndex := g.callIndex + 1, records := g.records + [Decide(h, g, e)],
         executions := g.executions + if Allowed(e) then 1 else 0)
  }

  function Initial(runId: string, agentId: string, policyVersion: string): State
  {
    State(runId, agentId, policyVersion, 0, 0, [], 0)
  }

  function Run(h: Hashes, g: State, es: seq<Event>): State
  {
    if es == [] then g else Apply(h, Run(h, g, es[..|es| - 1]), es[|es| - 1])
  }

  // ---------------------------------------------------------------- the class

  class Guard {
    const runId: string
    const agentId: string
    const policyVersion: string
    var step: nat
    var callIndex: nat
    var records: seq<Record>
    var executions: nat

    ghost function Value(): State
      reads this
    {
      State(runId, agentId, policyVersion, step, callIndex, records, executions)
    }

    constructor (runId: string, agentId: string, policyVersion: string)
      ensures Value() == Initial(runId, agentId, policyVersion)
    {
      this.runId, this.agentId, this.policyVersion := runId, agentId, policyVersion;
      step, callIndex, records, executions := 0, 0, [], 0;
    }

    method EnterStep(h: Hashes)
      modifies this
      ensures Value() == Apply(h, old(Value()), NewStep)
    {
      step := step + 1;
      callIndex := 0;
    }

    method CurrentHead(h: Hashes) returns (head: Head)
      ensures head == HeadOf(h, records)
    {
      head := Head(|records|, if records == [] then None else Some(h.Of(records[|records| - 1])));
    }

    /** Writes the record before the tool body can run. */
    method DecideCall(h: Hashes, e: Event) returns (rec: Record)
      requires e.Call?
      modifies this
      ensures rec == Decide(h, old(Value()), e) && rec.allowed == Allowed(e)
      ensures Value() == Apply(h, old(Value()), e).(executions := old(executions))
    {
      var index := callIndex;
      callIndex := callIndex + 1;
      var allowed, reason := e.allow, e.why;
      if e.bindError.Some? {
        allowed, reason := false, "binding: " + e.bindError.value;
      }
      rec := Record(h.Attempt(runId, step, index), runId, step, index, e.toolCallId,
        h.Preimage(e.tool, e.args, agentId, policyVersion), e.tool, e.args, agentId, policyVersion, allowed, reason,
        if records == [] then None else Some(h.Of(records[|records| - 1])));
      records := records + [rec];
    }

    /** The guarded callable: decides, and counts an execution only when allowed. */
    method Guarded(h: Hashes, e: Event) returns (dispatched: bool)
      requires e.Call?
      modifies this
      ensures Value() == Apply(h, old(Value()), e) && dispatched == Allowed(e)
    {
      var rec := DecideCall(h, e);
      if !rec.allowed { return false; }
      executions := executions + 1;
      dispatched := true;
    }
  }

  // ---------------------------------------------------------------- verifying a log

  predicate PreimageOk(h: Hashes, r: Record)
  {
    r.preimageHash == h.Preimage(r.tool, r.args, r.agentId, r.policyVersion)
  }

  /** Every record links to the one before it and carries the hash of its own call. */
  predicate Linked(h: Hashes, records: seq<Record>)
  {
    forall i :: 0 <= i < |records| ==> LinkedAt(h, records, i)
  }

  predicate LinkedAt(h: Hashes, records: seq<Record>, i: nat)
    requires i < |records|
  {
    records[i].prev == Tip(h, records[..i]) && PreimageOk(h, records[i])
  }

  predicate HeadMatches(h: Hashes, records: seq<Record>, head: Head)
  {
    head.n <= |records| && (head.n > 0 ==> Some(h.Of(records[head.n - 1])) == head.tip)
  }

  predicate Verifies(h: Hashes, records: seq<Record>, head: Option<Head>)
  {
    Linked(h, records) && (head.Some? ==> HeadMatches(h, records, head.value))
  }

  method VerifyChain(h: Hashes, records: seq<Record>, head: Option<Head>) returns (ok: bool)
    ensures ok <==> Verifies(h, records, head)
  {
    var prev: Option<Hex> := None;
    for i := 0 to |records|
      invariant prev == Tip(h, records[..i])
      invariant forall j :: 0 <= j < i ==> LinkedAt(h, records, j)
    {
      if records[i].prev != prev || !PreimageOk(h, records[i]) {
        assert !LinkedAt(h, records, i);
        return false;
      }
      prev := Some(h.Of(records[i]));
    }
    if head.Some? {
      var n := head.value.n;
      if |records| < n || (n > 0 && Some(h.Of(records[n - 1])) != head.value.tip) { return false; }
    }
    ok := true;
  }

  // ---------------------------------------------------------------- what every run keeps

  function Attempts(es: seq<Event>): nat
  {
    if es == [] then 0 else Attempts(es[..|es| - 1]) + if es[|es| - 1].Call? then 1 else 0
  }

  function AllowedRecords(records: seq<Record>): nat
  {
    if records == [] then 0
    else AllowedRecords(records[..|records| - 1]) + if records[|records| - 1].allowed then 1 else 0
  }

  predicate Before(s: nat, i: nat, s': nat, i': nat)
  {
    s < s' || (s == s' && i < i')
  }

  /** Coordinates strictly increase along the log and stay below the guard's next ones. */
  ghost predicate CoordinatesIncrease(g: State)
  {
    && (forall i, j :: 0 <= i < j < |g.records| ==>
      Before(g.records[i].step, g.records[i].callIndex, g.records[j].step, g.records[j].callIndex))
    && (forall i :: 0 <= i < |g.records| ==> Before(g.records[i].step, g.records[i].callIndex, g.step, g.callIndex))
  }

  ghost predicate RecordsNamed(h: Hashes, g: State)
  {
    forall i :: 0 <= i < |g.records| ==> var r := g.records[i];
      r.runId == g.runId && r.attemptId == h.Attempt(r.runId, r.step, r.callIndex)
  }

  ghost predicate RunInvariant(h: Hashes, g: State)
  {
    && Linked(h, g.records)
    && g.executions == AllowedRecords(g.records)
    && CoordinatesIncrease(g)
    && RecordsNamed(h, g)
  }

  lemma LinkedAppend(h: Hashes, records: seq<Record>, r: Record)
    requires Linked(h, records) && r.prev == Tip(h, records) && PreimageOk(h, r)
    ensures Linked(h, records + [r])
  {
    var all := records + [r];
    forall i | 0 <= i < |all| ensures LinkedAt(h, all, i) {
      assert all[..i] == records[..i];
      if i < |records| {
        assert LinkedAt(h, records, i);
      } else {
        assert records[..|records|] == records;
      }
    }
  }

  lemma ApplyKeeps(h: Hashes, g: State, e: Event)
    requires RunInvariant(h, g)
    ensures RunInvariant(h, Apply(h, g, e))
  {
    if e.Call? {
      var r := Decide(h, g, e);
      LinkedAppend(h, g.records, r);
      CountAppend(g.records, r);
      CoordinatesAppend(h, g, e);
    }
  }

  lemma CountAppend(records: seq<Record>, r: Record)
    ensures AllowedRecords(records + [r]) == AllowedRecords(records) + if r.allowed then 1 else 0
  {
    assert (records + [r])[..|records|] == records;
  }

  lemma CoordinatesAppend(h: Hashes, g: State, e: Event)
    requires e.Call? && CoordinatesIncrease(g) && RecordsNamed(h, g)
    ensures CoordinatesIncrease(Apply(h, g, e)) && RecordsNamed(h, Apply(h, g, e))
  {
  }

  /**
   Every run, over any interleaving: chained log, executions equal allowed records, coordinates increase, one record
   per attempt.
   */
  lemma {:induction false} EveryRun(h: Hashes, runId: string, agentId: string, policyVersion: string, es: seq<Event>)
    ensures var g := Run(h, Initial(runId, agentId, policyVersion), es);
      RunInvariant(h, g) && |g.records| == Attempts(es) && g.runId == runId
  {
    if es != [] {
      EveryRun(h, runId, agentId, policyVersion, es[..|es| - 1]);
      ApplyKeeps(h, Run(h, Initial(runId, agentId, policyVersion), es[..|es| - 1]), es[|es| - 1]);
    }
  }

  /** Attempt ids never repeat, or two different attempts with the same hash are exhibited. */
  lemma IdsDistinct(h: Hashes, g: State, i: nat, j: nat)
    requires RunInvariant(h, g) && i < j < |g.records|
    ensures var a, b := g.records[i], g.records[j];
      a.attemptId != b.attemptId
      || (&& (a.step, a.callIndex) != (b.step, b.callIndex)
          && h.Attempt(g.runId, a.step, a.callIndex) == h.Attempt(g.runId, b.step, b.callIndex))
  {
  }

  /** The log only grows. */
  lemma {:induction false} LogGrows(h: Hashes, g: State, es: seq<Event>, k: nat)
    requires k <= |es|
    ensures Run(h, g, es[..k]).records <= Run(h, g, es).records
  {
    if k < |es| {
      LogGrows(h, g, es[..|es| - 1], k);
      assert es[..|es| - 1][..k] == es[..k];
    } else {
      assert es[..k] == es;
    }
  }

  /** A run's log verifies against its current head and every head it issued earlier. */
  lemma LogVerifiesEarlierHeads(
      h: Hashes, runId: string, agentId: string, policyVersion: string, es: seq<Event>, k: nat)
    requires k <= |es|
    ensures var g := Initial(runId, agentId, policyVersion);
      Verifies(h, Run(h, g, es).records, Some(HeadOf(h, Run(h, g, es[..k]).records)))
  {
    var g := Initial(runId, agentId, policyVersion);
    EveryRun(h, runId, agentId, policyVersion, es);
    LogGrows(h, g, es, k);
    var early := Run(h, g, es[..k]).records;
    if early != [] {
      assert early[|early| - 1] == Run(h, g, es).records[|early| - 1];
    }
  }

  // ---------------------------------------------------------------- head binding

  /** The logs agree on their first n records, or hold different records with the same hash at one position below n. */
  ghost predicate AgreeOrCollide(h: Hashes, a: seq<Record>, b: seq<Record>, n: nat)
    requires n <= |a| && n <= |b|
  {
    a[..n] == b[..n] || exists i :: 0 <= i < n && a[i] != b[i] && h.Of(a[i]) == h.Of(b[i])
  }

  lemma PrevIsHash(h: Hashes, a: seq<Record>, i: nat)
    requires Linked(h, a) && 0 < i < |a|
    ensures a[i].prev == Some(h.Of(a[i - 1]))
  {
    assert LinkedAt(h, a, i);
    assert a[..i][i - 1] == a[i - 1];
  }

  lemma AgreeExtends(h: Hashes, a: seq<Record>, b: seq<Record>, n: nat)
    requires n < |a| && n < |b| && AgreeOrCollide(h, a, b, n) && a[n] == b[n]
    ensures AgreeOrCollide(h, a, b, n + 1)
  {
    assert a[..n + 1] == a[..n] + [a[n]] && b[..n + 1] == b[..n] + [b[n]];
  }

  lemma {:induction false} ChainBinds(h: Hashes, a: seq<Record>, b: seq<Record>, n: nat)
    requires Linked(h, a) && Linked(h, b) && n <= |a| && n <= |b|
    requires n > 0 ==> h.Of(a[n - 1]) == h.Of(b[n - 1])
    ensures AgreeOrCollide(h, a, b, n)
  {
    if n > 0 && a[n - 1] == b[n - 1] {
      if n > 1 {
        PrevIsHash(h, a, n - 1);
        PrevIsHash(h, b, n - 1);
      }
      ChainBinds(h, a, b, n - 1);
      AgreeExtends(h, a, b, n - 1);
    }
  }

  /**
   Head binding: a presented log that verifies against a head issued by a run agrees with that run's first n
   records exactly. Dropping, editing or reordering a record within n is therefore rejected, up to collisions.
   */
  lemma HeadBinds(
      h: Hashes, runId: string, agentId: string, policyVersion: string, es: seq<Event>, k: nat, presented: seq<Record>)
    requires k <= |es|
    requires Verifies(h, presented, Some(HeadOf(h, Run(h, Initial(runId, agentId, policyVersion), es[..k]).records)))
    ensures
      var g := Initial(runId, agentId, policyVersion);
      var log, n := Run(h, g, es).records, |Run(h, g, es[..k]).records|;
      n <= |presented| && n <= |log| && AgreeOrCollide(h, presented, log, n)
  {
    var g := Initial(runId, agentId, policyVersion);
    var log, early := Run(h, g, es).records, Run(h, g, es[..k]).records;
    EveryRun(h, runId, agentId, policyVersion, es);
    LogGrows(h, g, es, k);
    if early != [] {
      assert early[|early| - 1] == log[|early| - 1];
    }
    ChainBinds(h, presented, log, |early|);
  }

  // ---------------------------------------------------------------- what the log says about the events

  /** The new steps among the events. */
  function Steps(es: seq<Event>): nat
  {
    if es == [] then 0 else Steps(es[..|es| - 1]) + if es[|es| - 1].NewStep? then 1 else 0
  }

  /** The calls since the last new step. */
  function CallsInStep(es: seq<Event>): nat
  {
    if es == [] || es[|es| - 1].NewStep? then 0 else CallsInStep(es[..|es| - 1]) + 1
  }

  /** The calls whose arguments bind and which the policy allows. */
  function Dispatches(es: seq<Event>): nat
  {
    if es == [] then 0
    else
      var e := es[|es| - 1];
      Dispatches(es[..|es| - 1]) + if e.Call? && e.bindError.None? && e.allow then 1 else 0
  }

  /** The record states the call, who made it under which policy, and whether it was let through. */
  predicate StatesCall(h: Hashes, r: Record, e: Event, agentId: string, policyVersion: string)
    requires e.Call?
  {
    && r.tool == e.tool && r.args == e.args && r.toolCallId == e.toolCallId
    && r.agentId == agentId && r.policyVersion == policyVersion
    && r.preimageHash == h.Preimage(e.tool, e.args, agentId, policyVersion)
    && (r.allowed <==> e.bindError.None? && e.allow)
    && (e.bindError.None? ==> r.reason == e.why)
  }

  lemma {:induction false} RunCounts(h: Hashes, runId: string, agentId: string, policyVersion: string, es: seq<Event>)
    ensures var g := Run(h, Initial(runId, agentId, policyVersion), es);
      && g.step == Steps(es) && g.callIndex == CallsInStep(es) && |g.records| == Attempts(es)
      && g.executions == Dispatches(es)
      && g.runId == runId && g.agentId == agentId && g.policyVersion == policyVersion
  {
    if es != [] { RunCounts(h, runId, agentId, policyVersion, es[..|es| - 1]); }
  }

  /** Every call of a run has its record, at its place in the log, under its step and its number within the step. */
  lemma CallRecorded(h: Hashes, runId: string, agentId: string, policyVersion: string, es: seq<Event>, k: nat)
    requires k < |es| && es[k].Call?
    ensures
      var g, n := Run(h, Initial(runId, agentId, policyVersion), es), Attempts(es[..k]);
      && n < |g.records| && StatesCall(h, g.records[n], es[k], agentId, policyVersion)
      && g.records[n].step == Steps(es[..k]) && g.records[n].callIndex == CallsInStep(es[..k])
      && g.records[n].runId == runId
  {
    var g := Initial(runId, agentId, policyVersion);
    RunCounts(h, runId, agentId, policyVersion, es[..k]);
    assert es[..k + 1][..k] == es[..k];
    LogGrows(h, g, es, k + 1);
    assert Run(h, g, es[..k + 1]).records == Run(h, g, es[..k]).records + [Decide(h, Run(h, g, es[..k]), es[k])];
  }

  /**
   A log verifies exactly when it starts from nothing, every record names the hash of the one before it and
   recomputes.
   */
  lemma VerifiesExactly(h: Hashes, records: seq<Record>, head: Option<Head>)
    ensures Verifies(h, records, head) <==>
      && (records != [] ==> records[0].prev == None)
      && (forall i :: 0 < i < |records| ==> NamesBefore(h, records, i))
      && (forall r :: r in records ==> r.preimageHash == h.Preimage(r.tool, r.args, r.agentId, r.policyVersion))
      && (head.Some? ==>
            && head.value.n <= |records|
            && (head.value.n > 0 ==> head.value.tip == Some(h.Of(records[head.value.n - 1]))))
  {
    forall i | 0 <= i < |records|
      ensures LinkedAt(h, records, i) <==>
        PreimageOk(h, records[i]) && if i == 0 then records[i].prev == None else NamesBefore(h, records, i)
    {
      if i > 0 { assert records[..i][i - 1] == records[i - 1]; }
    }
    assert Linked(h, records) <==>
      && (records != [] ==> records[0].prev == None)
      && (forall i :: 0 < i < |records| ==> NamesBefore(h, records, i))
      && (forall i :: 0 <= i < |records| ==> PreimageOk(h, records[i])) by
    {
      if Linked(h, records) {
        forall i | 0 <= i < |records| ensures PreimageOk(h, records[i]) { assert LinkedAt(h, records, i); }
        forall i | 0 < i < |records| ensures NamesBefore(h, records, i) { assert LinkedAt(h, records, i); }
        assert records != [] ==> LinkedAt(h, records, 0);
      }
    }
  }

  predicate NamesBefore(h: Hashes, records: seq<Record>, i: nat)
    requires 0 < i < |records|
  {
    records[i].prev == Some(h.Of(records[i - 1]))
  }
}
