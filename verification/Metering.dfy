/** Usage metering: the monthly row counter of an evaluation licence and when it is persisted. */
module Metering {
  import opened Values

  const PERSIST_INTERVAL: nat := 10_000
  const U64_MAX: nat := 0xFFFF_FFFF_FFFF_FFFF

  /** Limits of a licence; zero turns a limit off. */
  datatype Policy = Policy(evaluation: bool, maxRows: nat, maxUsers: nat, maxNodes: nat, maxDays: nat,
                           warn1: nat, warn2: nat, expiryDay: int)

  datatype Usage = Usage(monthTag: int, rows: nat, startDay: int, lastPersisted: nat, warned1: bool, warned2: bool,
                         users: set<string>, nodes: set<string>)

  /** What a call sees of its surroundings: the date, who runs where, and whether the state file can be written. */
  datatype Context = Context(month: int, today: int, user: string, node: string, writable: bool)

  /** One call: how many rows it records, and what it sees. */
  datatype Call = Call(increment: nat, context: Context)

  /** A new month starts counting at zero; the first call of a limited evaluation starts its clock. */
  function Roll(p: Policy, u: Usage, c: Context): Usage {
    var v := if u.monthTag == c.month then u
             else u.(monthTag := c.month, rows := 0, lastPersisted := 0, warned1 := false, warned2 := false);
    if p.maxDays > 0 && v.startDay == 0 then v.(startDay := c.today) else v
  }

  predicate Expired(p: Policy, u: Usage, c: Context) {
    var expiry := if p.expiryDay == 0 && p.maxDays > 0 && u.startDay > 0 then u.startDay + p.maxDays - 1
                  else p.expiryDay;
    expiry > 0 && c.today > expiry
  }

  function WithUser(u: Usage, c: Context): Usage { u.(users := u.users + {c.user}) }

  function WithNode(u: Usage, c: Context): Usage { u.(nodes := u.nodes + {c.node}) }

  predicate TooMany(limit: nat, ids: set<string>) { limit > 0 && |ids| > limit }

  /** The row check: an increment must fit under the limit, a mere check needs room left. */
  predicate Admits(p: Policy, rows: nat, increment: nat) {
    p.maxRows > 0 ==>
      if increment > 0 then rows + increment <= U64_MAX && rows + increment <= p.maxRows else rows < p.maxRows
  }

  function Counted(p: Policy, u: Usage, increment: nat): Usage {
    if p.maxRows > 0 then u.(rows := u.rows + increment) else u
  }

  /** The counter forces a write: too many unpersisted rows, or the limit reached. */
  predicate MustPersist(p: Policy, u: Usage, increment: nat) {
    p.maxRows > 0 && increment > 0 && (u.rows - u.lastPersisted >= PERSIST_INTERVAL || u.rows == p.maxRows)
  }

  /** A threshold in percent is reached. */
  predicate Reached(p: Policy, rows: nat, percent: nat) {
    p.maxRows > 0 && percent > 0 && 100 * rows >= percent * p.maxRows
  }

  function Warned(p: Policy, u: Usage): Usage {
    u.(warned1 := u.warned1 || Reached(p, u.rows, p.warn1), warned2 := u.warned2 || Reached(p, u.rows, p.warn2))
  }

  function Saved(u: Usage): Usage { u.(lastPersisted := u.rows) }

  const EXCEEDED: Result<()> := Err(LICENSE_LIMIT_EXCEEDED)

  /** What the date and identity checks leave, and whether they all pass. */
  function Identified(p: Policy, u: Usage, c: Context): (Usage, bool) {
    var rolled := Roll(p, u, c);
    var withUser := WithUser(rolled, c);
    var withNode := WithNode(withUser, c);
    if Expired(p, rolled, c) then (rolled, false)
    else if TooMany(p.maxUsers, withUser.users) then (withUser, false)
    else (withNode, !TooMany(p.maxNodes, withNode.nodes))
  }

  /** Something other than the counter changed and wants to be written. */
  predicate Renewed(p: Policy, u: Usage, c: Context) {
    u.monthTag != c.month || (p.maxDays > 0 && u.startDay == 0) || c.user !in u.users || c.node !in u.nodes
  }

  /** One call of the metering gate. */
  function Step(p: Policy, u: Usage, call: Call): (Usage, Result<()>) {
    if !p.evaluation then (u, Ok(()))
    else
      var (v, identified) := Identified(p, u, call.context);
      if !identified || !Admits(p, v.rows, call.increment) then (v, EXCEEDED)
      else
        var counted := Counted(p, v, call.increment);
        var warned := Warned(p, counted);
        if Renewed(p, u, call.context) || MustPersist(p, counted, call.increment) || warned != counted then
          if call.context.writable then (Saved(warned), Ok(())) else (warned, Err(LICENSE_ERROR))
        else (warned, Ok(()))
  }

  // ----- when a call is refused, and when the state is written -----

  /** The last day of an evaluation that started on the given day; zero for none. */
  function LastDay(p: Policy, start: int): int {
    if p.expiryDay != 0 || p.maxDays == 0 || start <= 0 then p.expiryDay else start + p.maxDays - 1
  }

  /** The day the evaluation clock shows after a call. */
  function StartOf(p: Policy, u: Usage, c: Context): int {
    if u.startDay != 0 || p.maxDays == 0 then u.startDay else c.today
  }

  /** The rows counted in the month of a call before it. */
  function RowsBefore(u: Usage, c: Context): nat { if u.monthTag == c.month then u.rows else 0 }

  /** The rows of that month already saved. */
  function SavedBefore(u: Usage, c: Context): nat { if u.monthTag == c.month then u.lastPersisted else 0 }

  /** The rows counted in the month of a call behind it. */
  function RowsAfter(p: Policy, u: Usage, call: Call): nat {
    RowsBefore(u, call.context) + if p.maxRows == 0 then 0 else call.increment
  }

  /** The reasons to refuse a call, on its inputs: past the last day, one user or node too many, rows
      that do not fit under the monthly limit or 64 bits, or no row left for a mere check. */
  predicate Refused(p: Policy, u: Usage, call: Call) {
    var c := call.context;
    var base := RowsBefore(u, c);
    || 0 < LastDay(p, StartOf(p, u, c)) < c.today
    || 0 < p.maxUsers < |u.users + {c.user}|
    || 0 < p.maxNodes < |u.nodes + {c.node}|
    || (p.maxRows > 0 && call.increment > 0 && base + call.increment > p.maxRows)
    || (p.maxRows > 0 && call.increment > 0 && base + call.increment > 0xFFFF_FFFF_FFFF_FFFF)
    || (p.maxRows > 0 && call.increment == 0 && base >= p.maxRows)
  }

  /** A percentage of the limit is used up and was not warned about this month. */
  predicate WarnsNow(p: Policy, u: Usage, call: Call, percent: nat, warned: bool) {
    && 0 < p.maxRows && 0 < percent && percent * p.maxRows <= 100 * RowsAfter(p, u, call)
    && !(warned && u.monthTag == call.context.month)
  }

  /** The reasons to write the state: a new month, a clock that starts, a new user or node, ten thousand
      unsaved rows, a limit that is now reached, or a warning. */
  predicate Writes(p: Policy, u: Usage, call: Call) {
    var c := call.context;
    || u.monthTag != c.month || (p.maxDays > 0 && u.startDay == 0) || c.user !in u.users || c.node !in u.nodes
    || (p.maxRows > 0 && call.increment > 0 &&
        (RowsAfter(p, u, call) >= SavedBefore(u, c) + 10_000 || RowsAfter(p, u, call) == p.maxRows))
    || WarnsNow(p, u, call, p.warn1, u.warned1) || WarnsNow(p, u, call, p.warn2, u.warned2)
  }

  lemma ReachedWhen(p: Policy, rows: nat, percent: nat)
    ensures Reached(p, rows, percent) <==> 0 < p.maxRows && 0 < percent && percent * p.maxRows <= 100 * rows
  {
  }

  lemma IdentifiedWhen(p: Policy, u: Usage, c: Context)
    ensures var (v, ok) := Identified(p, u, c);
            && ok == !(|| 0 < LastDay(p, StartOf(p, u, c)) < c.today
                       || 0 < p.maxUsers < |u.users + {c.user}| || 0 < p.maxNodes < |u.nodes + {c.node}|)
            && v.rows == RowsBefore(u, c) && v.lastPersisted == SavedBefore(u, c)
            && v.warned1 == (u.warned1 && u.monthTag == c.month) && v.warned2 == (u.warned2 && u.monthTag == c.month)
  {
  }

  lemma IdentifiedKeeps(p: Policy, u: Usage, c: Context)
    ensures var v := Identified(p, u, c).0;
            var late := 0 < LastDay(p, StartOf(p, u, c)) < c.today;
            var crowded := 0 < p.maxUsers < |u.users + {c.user}|;
            && v.monthTag == c.month && v.startDay == StartOf(p, u, c)
            && v.users == (if late then u.users else u.users + {c.user})
            && v.nodes == (if late || crowded then u.nodes else u.nodes + {c.node})
  {
  }

  /** What a call answers and what it leaves. It is refused exactly for one of the reasons and then adds
      nothing; an admitted call adds its increment, and fails exactly when it has to write and cannot. */
  lemma CallIs(p: Policy, u: Usage, call: Call)
    requires p.evaluation
    ensures var (v, r) := Step(p, u, call);
            var c := call.context;
            if Refused(p, u, call) then
              r == Err(LICENSE_LIMIT_EXCEEDED) && v.rows == RowsBefore(u, c) && v.lastPersisted == SavedBefore(u, c)
            else
              && r == (if Writes(p, u, call) && !c.writable then Err(LICENSE_ERROR) else Ok(()))
              && v.rows == RowsAfter(p, u, call)
              && v.lastPersisted == (if Writes(p, u, call) && c.writable then v.rows else SavedBefore(u, c))
  {
    hide Identified, RowsBefore, SavedBefore, LastDay, StartOf, Reached;
    IdentifiedWhen(p, u, call.context);
    var v := Counted(p, Identified(p, u, call.context).0, call.increment);
    ReachedWhen(p, v.rows, p.warn1);
    ReachedWhen(p, v.rows, p.warn2);
  }

  /** What a call remembers besides the counter: the month, the start of the clock, who called where as
      far as the checks got, and, if admitted, the warnings given this month. */
  lemma Remembers(p: Policy, u: Usage, call: Call)
    requires p.evaluation
    ensures var (v, c) := (Step(p, u, call).0, call.context);
            var late := 0 < LastDay(p, StartOf(p, u, c)) < c.today;
            var crowded := 0 < p.maxUsers < |u.users + {c.user}|;
            && v.monthTag == c.month && v.startDay == StartOf(p, u, c)
            && v.users == (if late then u.users else u.users + {c.user})
            && v.nodes == (if late || crowded then u.nodes else u.nodes + {c.node})
            && (!Refused(p, u, call) ==>
                  && v.warned1 == ((u.warned1 && u.monthTag == c.month) || WarnsNow(p, u, call, p.warn1, u.warned1))
                  && v.warned2 == ((u.warned2 && u.monthTag == c.month) || WarnsNow(p, u, call, p.warn2, u.warned2)))
  {
    hide Reached, Identified, LastDay, StartOf;
    IdentifiedWhen(p, u, call.context);
    IdentifiedKeeps(p, u, call.context);
    var v := Counted(p, Identified(p, u, call.context).0, call.increment);
    ReachedWhen(p, v.rows, p.warn1);
    ReachedWhen(p, v.rows, p.warn2);
  }

  class Meter {
    const policy: Policy
    var usage: Usage

    /** A meter with the state as loaded. */
    constructor (p: Policy, loaded: Usage)
      ensures policy == p && usage == Saved(loaded)
    {
      policy, usage := p, loaded.(lastPersisted := loaded.rows);
    }

    method Persist(writable: bool) returns (ok: bool)
      modifies this
      ensures ok == writable && usage == if ok then Saved(old(usage)) else old(usage)
    {
      ok := writable;
      if ok {
        usage := usage.(lastPersisted := usage.rows);
      }
    }

    /** The checks before the row check. */
    method CheckIdentity(c: Context) returns (ok: bool, persist: bool)
      modifies this
      ensures (usage, ok) == Identified(policy, old(usage), c)
      ensures ok ==> persist == Renewed(policy, old(usage), c)
    {
      ok, persist := false, false;
      if usage.monthTag != c.month {
        usage := usage.(monthTag := c.month, rows := 0, lastPersisted := 0, warned1 := false, warned2 := false);
        persist := true;
      }
      if policy.maxDays > 0 && usage.startDay == 0 {
        usage := usage.(startDay := c.today);
        persist := true;
      }
      var expiry := policy.expiryDay;
      if expiry == 0 && policy.maxDays > 0 && usage.startDay > 0 {
        expiry := usage.startDay + policy.maxDays - 1;
      }
      if expiry > 0 && c.today > expiry {
        return;
      }
      persist := persist || c.user !in usage.users;
      usage := usage.(users := usage.users + {c.user});
      if policy.maxUsers > 0 && |usage.users| > policy.maxUsers {
        return;
      }
      persist := persist || c.node !in usage.nodes;
      usage := usage.(nodes := usage.nodes + {c.node});
      if policy.maxNodes > 0 && |usage.nodes| > policy.maxNodes {
        return;
      }
      ok := true;
    }

    /** Checks and counts one operation, and writes the state when something must be kept. */
    method Enforce(increment: nat, c: Context) returns (r: Result<()>)
      modifies this
      ensures (usage, r) == Step(policy, old(usage), Call(increment, c))
      ensures r == Err(LICENSE_LIMIT_EXCEEDED) <==> policy.evaluation && Refused(policy, old(usage), Call(increment, c))
    {
      hide Identified, Renewed, Refused, Writes, RowsAfter, RowsBefore, SavedBefore;
      if !policy.evaluation {
        return Ok(());
      }
      CallIs(policy, usage, Call(increment, c));
      var ok, persist := CheckIdentity(c);
      if !ok {
        return EXCEEDED;
      }
      if policy.maxRows > 0 {
        if increment > 0 {
          if usage.rows + increment > U64_MAX {
            return EXCEEDED;
          }
          var projected := usage.rows + increment;
          if projected > policy.maxRows {
            return EXCEEDED;
          }
          usage := usage.(rows := projected);
          if usage.rows - usage.lastPersisted >= PERSIST_INTERVAL || usage.rows == policy.maxRows {
            persist := true;
          }
        } else if usage.rows >= policy.maxRows {
          return EXCEEDED;
        }
        if policy.warn1 > 0 && !usage.warned1 && 100 * usage.rows >= policy.warn1 * policy.maxRows {
          usage := usage.(warned1 := true);
          persist := true;
        }
        if policy.warn2 > 0 && !usage.warned2 && 100 * usage.rows >= policy.warn2 * policy.maxRows {
          usage := usage.(warned2 := true);
          persist := true;
        }
      }
      if persist {
        var written := Persist(c.writable);
        if !written {
          return Err(LICENSE_ERROR);
        }
      }
      return Ok(());
    }
  }

  // ----- whole runs -----

  /** The state after some calls. */
  function Run(p: Policy, u: Usage, calls: seq<Call>): Usage {
    if calls == [] then u else Step(p, Run(p, u, calls[..|calls| - 1]), calls[|calls| - 1]).0
  }

  /** The result of call i. */
  function Outcome(p: Policy, u: Usage, calls: seq<Call>, i: nat): Result<()>
    requires i < |calls|
  {
    Step(p, Run(p, u, calls[..i]), calls[i]).1
  }

  /** The counter is within the limit and not behind what is persisted. */
  predicate Safe(p: Policy, u: Usage) {
    u.lastPersisted <= u.rows <= U64_MAX && (p.maxRows > 0 ==> u.rows <= p.maxRows)
  }

  /** The rows call i adds: its increment if every check passed. */
  function Added(p: Policy, u: Usage, calls: seq<Call>, i: nat): nat
    requires i < |calls|
  {
    if p.maxRows > 0 && Outcome(p, u, calls, i) != EXCEEDED then calls[i].increment else 0
  }

  /** The rows added by the calls from a place on. */
  function AddedFrom(p: Policy, u: Usage, calls: seq<Call>, from: nat, end: nat): nat
    requires from <= end <= |calls|
    decreases end
  {
    if from == end then 0 else AddedFrom(p, u, calls, from, end - 1) + Added(p, u, calls, end - 1)
  }

  /** One call: the limit holds, and the counter is the month's start plus what the call adds. */
  lemma StepSafe(p: Policy, u: Usage, call: Call)
    requires p.evaluation && Safe(p, u)
    ensures var (v, r) := Step(p, u, call);
            && Safe(p, v) && v.monthTag == call.context.month
            && v.rows == (if u.monthTag == call.context.month then u.rows else 0) +
                         (if p.maxRows > 0 && r != EXCEEDED then call.increment else 0)
  {
    hide Reached, TooMany, Expired;
  }

  /** The counter never exceeds the limit, whatever is called. */
  lemma {:induction false} RunSafe(p: Policy, u: Usage, calls: seq<Call>)
    requires Safe(p, u)
    ensures Safe(p, Run(p, u, calls))
    decreases |calls|
  {
    hide Step, Safe;
    if calls != [] {
      RunSafe(p, u, calls[..|calls| - 1]);
      if p.evaluation {
        StepSafe(p, Run(p, u, calls[..|calls| - 1]), calls[|calls| - 1]);
      } else {
        Unmetered(p, Run(p, u, calls[..|calls| - 1]), calls[|calls| - 1]);
      }
    }
  }

  lemma Unmetered(p: Policy, u: Usage, call: Call)
    requires !p.evaluation
    ensures Step(p, u, call) == (u, Ok(()))
  {
  }

  /** The calls from a place on all fall into one month. */
  predicate OneMonth(calls: seq<Call>, from: nat, month: int) {
    forall i :: from <= i < |calls| ==> calls[i].context.month == month
  }

  /** The monthly counter is exactly the count at the start of the month, zero after a rollover, plus the
      increments that passed; rejected increments add nothing. */
  lemma {:induction false} CounterIs(p: Policy, u: Usage, calls: seq<Call>, from: nat, month: int)
    requires p.evaluation && Safe(p, u) && from < |calls| && OneMonth(calls, from, month)
    ensures var start := Run(p, u, calls[..from]);
            Run(p, u, calls).rows ==
            (if start.monthTag == month then start.rows else 0) + AddedFrom(p, u, calls, from, |calls|)
    ensures Run(p, u, calls).monthTag == month
    decreases |calls|
  {
    hide Step, Safe;
    var n := |calls| - 1;
    var init := calls[..n];
    RunSafe(p, u, init);
    StepSafe(p, Run(p, u, init), calls[n]);
    assert init[..from] == calls[..from];
    if from < n {
      CounterIs(p, u, init, from, month);
      AddedPrefix(p, u, calls, from, n);
    } else {
      assert AddedFrom(p, u, calls, from, n) == 0;
    }
  }

  lemma {:induction false} AddedPrefix(p: Policy, u: Usage, calls: seq<Call>, from: nat, end: nat)
    requires from <= end < |calls|
    ensures AddedFrom(p, u, calls[..|calls| - 1], from, end) == AddedFrom(p, u, calls, from, end)
    decreases end
  {
    hide Step;
    if from < end {
      AddedPrefix(p, u, calls, from, end - 1);
      assert calls[..|calls| - 1][..end - 1] == calls[..end - 1];
    }
  }

  /** After every successful row-recording call fewer than ten thousand rows are unpersisted, and none
      when the limit is reached. */
  lemma RecordingPersists(p: Policy, u: Usage, calls: seq<Call>)
    requires p.evaluation && p.maxRows > 0 && Safe(p, u) && calls != []
    requires calls[|calls| - 1].increment > 0 && Outcome(p, u, calls, |calls| - 1) == Ok(())
    ensures var v := Run(p, u, calls);
            v.rows - v.lastPersisted < PERSIST_INTERVAL && (v.rows == p.maxRows ==> v.lastPersisted == v.rows)
  {
    hide Reached, TooMany, Expired;
    RunSafe(p, u, calls[..|calls| - 1]);
  }

  /** Once more identities were seen than allowed, every later call is refused, whoever makes it. */
  lemma {:induction false} LockedOut(p: Policy, u: Usage, calls: seq<Call>)
    requires p.evaluation && calls != [] && (TooMany(p.maxUsers, u.users) || TooMany(p.maxNodes, u.nodes))
    ensures Outcome(p, u, calls, |calls| - 1) == EXCEEDED
    ensures var v := Run(p, u, calls); TooMany(p.maxUsers, v.users) || TooMany(p.maxNodes, v.nodes)
    decreases |calls|
  {
    hide Step, TooMany;
    var init := calls[..|calls| - 1];
    if init != [] {
      LockedOut(p, u, init);
    }
    RefusesOverfull(p, Run(p, u, init), calls[|calls| - 1]);
  }

  lemma RefusesOverfull(p: Policy, u: Usage, call: Call)
    requires p.evaluation && (TooMany(p.maxUsers, u.users) || TooMany(p.maxNodes, u.nodes))
    ensures var (v, r) := Step(p, u, call);
            r == EXCEEDED && (TooMany(p.maxUsers, v.users) || TooMany(p.maxNodes, v.nodes))
  {
    hide Step, LastDay, StartOf;
    CallIs(p, u, call);
    Remembers(p, u, call);
    Grows(u.users, call.context.user);
    Grows(u.nodes, call.context.node);
  }

  lemma Grows(s: set<string>, x: string)
    ensures |s + {x}| >= |s|
  {
    if x in s {
      assert s + {x} == s;
    }
  }
}
