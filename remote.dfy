/** The remote mutations the query helpers issue, seen as actions appended to
    a trace. GraphQL transport is abstracted: a call either is accepted (its
    action joins the trace) or is rejected by a failure oracle, and a rejected
    call throws out of the awaiting loop. */
module Remote {
  import opened Fields

  /** `{value}` as `constructSelectFieldOptions` builds it. */
  datatype OptionInput = OptionInput(value: string)

  datatype Action =
    | Create(name: string, typeName: string, typeOptions: Option<seq<OptionInput>>)  // createCustomMetadataProperty
    | AddOptions(propertyId: string, added: seq<OptionInput>)                 // addCustomMetadataPropertyOptions

  /** What one iteration of an apply loop does: nothing, one awaited call, or a
      TypeError thrown before the call is made. */
  datatype Step = Skip | Issue(action: Action) | Crash

  /** The effect of running steps: the accepted actions, how many calls were
      attempted, and whether the loop ran to completion. */
  datatype RunResult = RunResult(applied: seq<Action>, calls: nat, ok: bool)

  /** Sequential, awaited execution with no try/catch: call number `next` is the
      first one attempted, and a call is rejected exactly when its number is in
      `rejects`. The first rejection or crash ends the run. */
  function Execute(steps: seq<Step>, rejects: set<nat>, next: nat): (r: RunResult)
    ensures r.calls <= |steps|
  {
    if steps == [] then RunResult([], 0, true)
    else match steps[0]
      case Skip => Execute(steps[1..], rejects, next)
      case Crash => RunResult([], 0, false)
      case Issue(a) =>
        if next in rejects then RunResult([], 1, false)
        else
          var rest := Execute(steps[1..], rejects, next + 1);
          RunResult([a] + rest.applied, 1 + rest.calls, rest.ok)
  }

  /** The actions the steps would issue if no call were rejected: those of the
      `Issue` steps before the first crash. */
  function Intended(steps: seq<Step>): (r: seq<Action>)
    ensures |r| <= |steps|
    ensures forall a :: a in r ==> Issue(a) in steps
  {
    if steps == [] then []
    else match steps[0]
      case Skip => Intended(steps[1..])
      case Crash => []
      case Issue(a) => [a] + Intended(steps[1..])
  }

  /** Some step throws before its call. */
  predicate Crashes(steps: seq<Step>) {
    exists i :: 0 <= i < |steps| && steps[i] == Crash
  }

  /** The offset, among `n` consecutive calls numbered from `next`, of the first
      rejected one, or `n` when none is rejected. */
  function FirstRejected(n: nat, rejects: set<nat>, next: nat): (j: nat)
    ensures j <= n
    ensures forall k :: next <= k < next + j ==> k !in rejects
    ensures j < n ==> next + j in rejects
  {
    if n == 0 || next in rejects then 0
    else 1 + FirstRejected(n - 1, rejects, next + 1)
  }

  /** Abort-on-failure: when call number `next + j` is the first rejection the
      trace holds exactly the first `j` intended actions and nothing later was
      attempted; a crash also ends the run, after the calls before it. */
  lemma {:induction false} ExecuteOutcome(steps: seq<Step>, rejects: set<nat>, next: nat)
    ensures var n := |Intended(steps)|;
            var j := FirstRejected(n, rejects, next);
            var r := Execute(steps, rejects, next);
            && r.applied == Intended(steps)[..j]
            && r.calls == (if j < n then j + 1 else j)
            && r.ok == (j == n && !Crashes(steps))
  {
    if steps != [] {
      var rest := steps[1..];
      CrashesCons(steps);
      match steps[0]
      case Skip => ExecuteOutcome(rest, rejects, next);
      case Crash =>
      case Issue(a) =>
        ExecuteOutcome(rest, rejects, next + 1);
        var j := FirstRejected(|Intended(rest)|, rejects, next + 1);
        assert [a] + Intended(rest)[..j] == ([a] + Intended(rest))[..j + 1];
    }
  }

  lemma CrashesCons(steps: seq<Step>)
    requires steps != []
    ensures Crashes(steps) <==> steps[0] == Crash || Crashes(steps[1..])
  {
    if Crashes(steps[1..]) {
      var i :| 0 <= i < |steps| - 1 && steps[1..][i] == Crash;
      assert steps[i + 1] == Crash;
    }
    if Crashes(steps) && steps[0] != Crash {
      var i :| 0 <= i < |steps| && steps[i] == Crash;
      assert steps[1..][i - 1] == Crash;
    }
  }

  /** Running `first` and then `rest` is running `first + rest`. */
  lemma {:induction false} ExecuteAppend(first: seq<Step>, rest: seq<Step>, rejects: set<nat>, next: nat)
    ensures var a := Execute(first, rejects, next);
            Execute(first + rest, rejects, next) ==
              if a.ok then
                var b := Execute(rest, rejects, next + a.calls);
                RunResult(a.applied + b.applied, a.calls + b.calls, b.ok)
              else a
  {
    if first != [] {
      assert (first + rest)[0] == first[0];
      assert (first + rest)[1..] == first[1..] + rest;
      match first[0]
      case Skip => ExecuteAppend(first[1..], rest, rejects, next);
      case Crash =>
      case Issue(_) => ExecuteAppend(first[1..], rest, rejects, next + 1);
    } else {
      assert first + rest == rest;
    }
  }

  /** The mutation endpoint of the remote service, with a failure oracle. */
  class Api {
    /** The mutations the destination accepted, in order. */
    var log: seq<Action>
    /** Mutations attempted so far. */
    var calls: nat
    /** Failure oracle: attempt number k (from 0) is rejected iff k is in here. */
    const rejects: set<nat>

    constructor (rejects: set<nat>)
      ensures log == [] && calls == 0 && this.rejects == rejects
    {
      log := [];
      calls := 0;
      this.rejects := rejects;
    }

    /** One awaited `appBridge.api` mutation. */
    method Call(a: Action) returns (ok: bool)
      modifies this
      ensures ok == (old(calls) !in rejects)
      ensures calls == old(calls) + 1
      ensures log == if ok then old(log) + [a] else old(log)
    {
      ok := calls !in rejects;
      if ok {
        log := log + [a];
      }
      calls := calls + 1;
    }
  }

  /** One loop iteration: do nothing, throw, or await one call. */
  method Perform(api: Api, step: Step) returns (ok: bool)
    modifies api
    ensures var r := Execute([step], api.rejects, old(api.calls));
            api.log == old(api.log) + r.applied && api.calls == old(api.calls) + r.calls && ok == r.ok
  {
    match step
    case Skip => ok := true;
    case Crash => ok := false;
    case Issue(a) =>
      ok := api.Call(a);
  }
}
