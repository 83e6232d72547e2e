/*
 * A model of jACT-R's ACTREventDispatcher: the registry of listeners that
 * every runtime subsystem uses to publish events, and the fan-out that
 * delivers one event to every registration, either in the firing thread or
 * by handing a task to the registration's executor.
 *
 * Listeners, events and executors are opaque. What the environment decides
 * (whether an executor accepts a task, whether a listener's handler throws,
 * whether warnings are enabled in the log) is passed in as a Context.
 */
module EventDispatch {

  /** Java's nullable references, for the arguments that may be null. */
  datatype Option<T> = None | Some(value: T)

  /** How a registration delivers: in the firing thread, or through an executor. */
  datatype Mode<X> = Direct | Pooled(executor: X)

  /** One registration: the dispatcher's inner `Pair` of a listener and its delivery mode. */
  datatype Entry<L, X> = Entry(listener: L, mode: Mode<X>)

  /** What firing one event did for one registration. */
  datatype Delivery<L, X> =
    | Called(listener: L, threw: bool)                // delivered in the firing thread; a throw was caught
    | Submitted(listener: L, executor: X)             // one task handed to the executor, nothing delivered yet
    | Rejected(listener: L, executor: X, warned: bool) // the executor refused; the event is dropped

  /** The trace of one fan-out and the dispatcher's rejection flag after it. */
  datatype Fanout<L, X> = Fanout(trace: seq<Delivery<L, X>>, rejected: bool)

  /** Result of `addListener`: normal return, or the IllegalArgumentException for a null listener. */
  datatype Outcome = Ok | IllegalArgument

  /**
   * The environment of a fan-out: `accepts(x, k)` is executor x's answer to the
   * task submitted for the registration at position k, `throws(l, e, k)` says whether
   * l's handler throws when the registration at position k delivers e to it, and `warnEnabled` is the logger's warn level.
   */
  datatype Context<!E, !L, !X> = Context(accepts: (X, nat) -> bool, throws: (L, E, nat) -> bool, warnEnabled: bool)

  /** The delivery mode chosen by `addListener`: a null executor means direct delivery. */
  function ModeOf<X>(executor: Option<X>): Mode<X>
  {
    match executor
    case None => Direct
    case Some(x) => Pooled(x)
  }

  /** The listeners of a registration list, one per entry, in order (`getListeners`). */
  function Listeners<L, X>(s: seq<Entry<L, X>>): (r: seq<L>)
    ensures |r| == |s|
    ensures forall k :: 0 <= k < |s| ==> r[k] == s[k].listener
  {
    if s == [] then [] else [s[0].listener] + Listeners(s[1..])
  }

  /** `List.remove(Object)`: drop the first entry that `listener.equals` accepts, if any. */
  function RemoveFirst<L, X>(s: seq<Entry<L, X>>, listener: L, equalsPair: (L, Entry<L, X>) -> bool): (r: seq<Entry<L, X>>)
    ensures |r| == |s| || |r| == |s| - 1
  {
    if s == [] then []
    else if equalsPair(listener, s[0]) then s[1..]
    else [s[0]] + RemoveFirst(s[1..], listener, equalsPair)
  }

  /**
   * One `Pair.fire`: the registration at position k handles event ev while the
   * dispatcher's rejection flag is `rejected`; yields the delivery and the new flag.
   */
  function PairFire<E, L, X>(p: Entry<L, X>, k: nat, ev: E, ctx: Context<E, L, X>, rejected: bool): (Delivery<L, X>, bool)
  {
    match p.mode
    case Direct => (Called(p.listener, ctx.throws(p.listener, ev, k)), rejected)
    case Pooled(x) =>
      if ctx.accepts(x, k) then (Submitted(p.listener, x), rejected)
      else (Rejected(p.listener, x, !rejected && ctx.warnEnabled), true)
  }

  /**
   * `fire(ev)` over the first n registrations of s, in order, starting from
   * rejection flag `rejected`; the whole of `fire` is n == |s|.
   */
  function Dispatch<E, L, X>(s: seq<Entry<L, X>>, n: nat, ev: E, ctx: Context<E, L, X>, rejected: bool): (r: Fanout<L, X>)
    requires n <= |s|
    ensures |r.trace| == n
  {
    if n == 0 then Fanout([], rejected)
    else
      var before := Dispatch(s, n - 1, ev, ctx, rejected);
      var step := PairFire(s[n - 1], n - 1, ev, ctx, before.rejected);
      Fanout(before.trace + [step.0], step.1)
  }

  /** The number of warning bursts logged by the first n records of a trace. */
  function Warnings<L, X>(t: seq<Delivery<L, X>>, n: nat): nat
    requires n <= |t|
  {
    if n == 0 then 0
    else Warnings(t, n - 1) + (if t[n - 1].Rejected? && t[n - 1].warned then 1 else 0)
  }

  /** What `Pair.fire` does for the registration p at position k, warning aside. */
  ghost predicate Handles<E, L, X>(p: Entry<L, X>, k: nat, ev: E, ctx: Context<E, L, X>, d: Delivery<L, X>)
  {
    d.listener == p.listener &&
    match p.mode
    case Direct => d.Called? && d.threw == ctx.throws(p.listener, ev, k)
    case Pooled(x) => (if ctx.accepts(x, k) then d.Submitted? else d.Rejected?) && d.executor == x
  }

  /** No registration before position k was refused by its executor. */
  ghost predicate NoRejectionBefore<L, X>(t: seq<Delivery<L, X>>, k: int)
    requires k <= |t|
  {
    forall j :: 0 <= j < k ==> !t[j].Rejected?
  }

  // ---------------------------------------------------------------------------
  // Properties of the registration list
  // ---------------------------------------------------------------------------

  /** The listeners of two registration lists joined are those of the first, then those of the second. */
  lemma ListenersAppend<L, X>(s: seq<Entry<L, X>>, t: seq<Entry<L, X>>)
    ensures Listeners(s + t) == Listeners(s) + Listeners(t)
  {
  }

  /**
   * Registering the same listener twice gives two independent entries: earlier
   * entries stay, and `getListeners` lists the listener once per registration.
   */
  lemma DuplicateRegistrationCountsTwice<L, X>(s: seq<Entry<L, X>>, l: L, m1: Mode<X>, m2: Mode<X>)
    ensures var after := s + [Entry(l, m1), Entry(l, m2)];
      after[..|s|] == s && Listeners(after) == Listeners(s) + [l, l]
  {
    var added := [Entry(l, m1), Entry(l, m2)];
    ListenersAppend(s, added);
    assert Listeners(added) == [l, l];
  }

  /** Without any entry that `listener.equals` accepts, `List.remove` changes nothing. */
  lemma {:induction false} RemoveFirstWithoutMatch<L, X>(s: seq<Entry<L, X>>, l: L, equalsPair: (L, Entry<L, X>) -> bool)
    requires forall k :: 0 <= k < |s| ==> !equalsPair(l, s[k])
    ensures RemoveFirst(s, l, equalsPair) == s
  {
    if s != [] {
      assert forall k :: 0 <= k < |s[1..]| ==> s[1..][k] == s[k + 1];
      RemoveFirstWithoutMatch(s[1..], l, equalsPair);
    }
  }

  /** `List.remove` drops exactly the entry at i when i is the first one `listener.equals` accepts. */
  lemma {:induction false} RemoveFirstAtFirstMatch<L, X>(s: seq<Entry<L, X>>, l: L, equalsPair: (L, Entry<L, X>) -> bool, i: nat)
    requires i < |s| && equalsPair(l, s[i])
    requires forall j :: 0 <= j < i ==> !equalsPair(l, s[j])
    ensures RemoveFirst(s, l, equalsPair) == s[..i] + s[i + 1..]
  {
    if i > 0 {
      assert !equalsPair(l, s[0]);
      assert forall j :: 0 <= j < i - 1 ==> s[1..][j] == s[j + 1];
      RemoveFirstAtFirstMatch(s[1..], l, equalsPair, i - 1);
      assert [s[0]] + (s[1..][..i - 1] + s[1..][i..]) == s[..i] + s[i + 1..];
    }
  }

  /**
   * `removeListener` with the `equals` methods the Java classes have. The
   * listener's `equals`, asked about a `Pair`, is `equalsPair`; the `Pair`'s
   * own `equals`, asked about the listener, is `pairEquals`. The Java `Pair`
   * defines no `equals`, so it inherits `Object.equals`, which is identity,
   * and a listener is never one of the dispatcher's private `Pair` objects.
   * If the listener's `equals` is symmetric, as the contract of
   * `Object.equals` requires, it accepts no `Pair` and removal is a no-op.
   */
  lemma RemoveListenerIsNoOp<L, X>(s: seq<Entry<L, X>>, l: L, equalsPair: (L, Entry<L, X>) -> bool,
                                   pairEquals: (Entry<L, X>, L) -> bool)
    requires forall p :: equalsPair(l, p) == pairEquals(p, l)
    requires forall p :: !pairEquals(p, l)
    ensures RemoveFirst(s, l, equalsPair) == s
  {
    RemoveFirstWithoutMatch(s, l, equalsPair);
  }

  // ---------------------------------------------------------------------------
  // Properties of one fan-out
  // ---------------------------------------------------------------------------

  /** Records before position n of a trace are not changed by appending to it. */
  lemma {:induction false} WarningsOfPrefix<L, X>(t: seq<Delivery<L, X>>, u: seq<Delivery<L, X>>, n: nat)
    requires n <= |t|
    ensures Warnings(t + u, n) == Warnings(t, n)
  {
    if n > 0 {
      WarningsOfPrefix(t, u, n - 1);
    }
  }

  /**
   * `fire` visits every registration exactly once, in registration order: a
   * direct entry is called in the firing step, an executor entry submits one
   * task (or is refused) and delivers nothing itself.
   */
  lemma {:induction false} DispatchVisitsEachEntry<E, L, X>(s: seq<Entry<L, X>>, n: nat, ev: E, ctx: Context<E, L, X>, rejected: bool)
    requires n <= |s|
    ensures var r := Dispatch(s, n, ev, ctx, rejected);
      forall k :: 0 <= k < n ==> Handles(s[k], k, ev, ctx, r.trace[k])
  {
    if n > 0 {
      DispatchVisitsEachEntry(s, n - 1, ev, ctx, rejected);
    }
  }

  /**
   * A refusal logs a warning exactly when warnings are enabled, the dispatcher
   * had never been refused before, and no earlier registration of this fan-out
   * was refused; the flag ends up set exactly when it was set or some executor refused.
   */
  lemma {:induction false} WarnsOnlyOnFirstRejection<E, L, X>(s: seq<Entry<L, X>>, n: nat, ev: E, ctx: Context<E, L, X>, rejected: bool)
    requires n <= |s|
    ensures var r := Dispatch(s, n, ev, ctx, rejected);
      forall k :: 0 <= k < n && r.trace[k].Rejected? ==>
        (r.trace[k].warned <==> ctx.warnEnabled && !rejected && NoRejectionBefore(r.trace, k))
    ensures var r := Dispatch(s, n, ev, ctx, rejected);
      r.rejected <==> rejected || !NoRejectionBefore(r.trace, n)
  {
    if n > 0 {
      WarnsOnlyOnFirstRejection(s, n - 1, ev, ctx, rejected);
      var before := Dispatch(s, n - 1, ev, ctx, rejected);
      var r := Dispatch(s, n, ev, ctx, rejected);
      assert forall j :: 0 <= j < n - 1 ==> r.trace[j] == before.trace[j];
      assert NoRejectionBefore(r.trace, n) <==> NoRejectionBefore(before.trace, n - 1) && !r.trace[n - 1].Rejected?;
    }
  }

  /**
   * At most one warning burst per fan-out, none if the dispatcher had already
   * been refused, and a burst always sets the flag.
   */
  lemma {:induction false} AtMostOneWarning<E, L, X>(s: seq<Entry<L, X>>, n: nat, ev: E, ctx: Context<E, L, X>, rejected: bool)
    requires n <= |s|
    ensures var r := Dispatch(s, n, ev, ctx, rejected);
      Warnings(r.trace, n) <= 1 &&
      (rejected ==> r.rejected && Warnings(r.trace, n) == 0) &&
      (Warnings(r.trace, n) > 0 ==> r.rejected)
  {
    if n > 0 {
      AtMostOneWarning(s, n - 1, ev, ctx, rejected);
      var before := Dispatch(s, n - 1, ev, ctx, rejected);
      var r := Dispatch(s, n, ev, ctx, rejected);
      WarningsOfPrefix(before.trace, [r.trace[n - 1]], n - 1);
    }
  }

  /** Which handlers throw changes only the caught-exception bit of a direct call. */
  lemma PairFireIgnoresThrows<E, L, X>(p: Entry<L, X>, k: nat, ev: E, ctx: Context<E, L, X>, throws': (L, E, nat) -> bool, rejected: bool)
    ensures var (d, after) := PairFire(p, k, ev, ctx, rejected);
      PairFire(p, k, ev, ctx.(throws := throws'), rejected) ==
        (if d.Called? then Called(d.listener, throws'(d.listener, ev, k)) else d, after)
  {
  }

  /**
   * Two direct registrations of one listener are two independent calls: the
   * handler may throw on the first and return normally on the second.
   */
  lemma DuplicateDirectEntriesThrowIndependently<E, L, X>(l: L, ev: E, accepts: (X, nat) -> bool, warnEnabled: bool)
    ensures var ctx := Context(accepts, (l': L, e: E, k: nat) => k == 0, warnEnabled);
      Dispatch([Entry(l, Direct), Entry(l, Direct)], 2, ev, ctx, false).trace == [Called(l, true), Called(l, false)]
  {
    var s: seq<Entry<L, X>> := [Entry(l, Direct), Entry(l, Direct)];
    var ctx := Context(accepts, (l': L, e: E, k: nat) => k == 0, warnEnabled);
    assert Dispatch(s, 1, ev, ctx, false).trace == [Called(l, true)];
  }

  /**
   * A listener whose handler throws does not disturb the fan-out: under any
   * other choice of which handlers throw, the same entries are visited with
   * the same outcomes, only the caught-exception bits of direct calls differ.
   */
  lemma {:induction false} HandlerFailuresDoNotStopFanOut<E, L, X>(s: seq<Entry<L, X>>, n: nat, ev: E, ctx: Context<E, L, X>,
                                                                   throws': (L, E, nat) -> bool, rejected: bool)
    requires n <= |s|
    ensures var r := Dispatch(s, n, ev, ctx, rejected);
      var r' := Dispatch(s, n, ev, ctx.(throws := throws'), rejected);
      r'.rejected == r.rejected &&
      forall k :: 0 <= k < n ==>
        r'.trace[k] == if r.trace[k].Called? then Called(r.trace[k].listener, throws'(r.trace[k].listener, ev, k)) else r.trace[k]
  {
    if n > 0 {
      HandlerFailuresDoNotStopFanOut(s, n - 1, ev, ctx, throws', rejected);
      var before := Dispatch(s, n - 1, ev, ctx, rejected);
      PairFireIgnoresThrows(s[n - 1], n - 1, ev, ctx, throws', before.rejected);
    }
  }

  // ---------------------------------------------------------------------------
  // The dispatcher
  // ---------------------------------------------------------------------------

  /**
   * The dispatcher object. `entries` is its list of registrations,
   * `haveEncounteredRejection` the flag raised by the first executor refusal,
   * and the ghost `warningsLogged` counts the warning bursts logged over the
   * object's whole life.
   */
  class ACTREventDispatcher<E, L, X> {
    var entries: seq<Entry<L, X>>
    var haveEncounteredRejection: bool
    ghost var warningsLogged: nat

    /** At most one warning burst per dispatcher, and none before the flag is raised. */
    ghost predicate Valid()
      reads this
    {
      warningsLogged <= 1 && (!haveEncounteredRejection ==> warningsLogged == 0)
    }

    constructor ()
      ensures Valid()
      ensures entries == [] && !haveEncounteredRejection && warningsLogged == 0
    {
      entries := [];
      haveEncounteredRejection := false;
      warningsLogged := 0;
    }

    /** `clear`: forget every registration; the rejection flag is not reset. */
    method Clear()
      requires Valid()
      modifies this`entries
      ensures Valid()
      ensures entries == [] && !HasListeners()
    {
      entries := [];
    }

    /**
     * `addListener`: a null listener is refused and nothing changes; otherwise
     * one entry is appended, direct when the executor is null.
     */
    method AddListener(listener: Option<L>, executor: Option<X>) returns (outcome: Outcome)
      requires Valid()
      modifies this`entries
      ensures Valid()
      ensures listener.None? ==> outcome == IllegalArgument && entries == old(entries)
      ensures listener.Some? ==> outcome == Ok && entries == old(entries) + [Entry(listener.value, ModeOf(executor))]
      ensures listener.Some? ==> HasListeners() && GetListeners() == old(GetListeners()) + [listener.value]
    {
      if listener.None? {
        return IllegalArgument;
      }
      ListenersAppend(entries, [Entry(listener.value, ModeOf(executor))]);
      entries := entries + [Entry(listener.value, ModeOf(executor))];
      outcome := Ok;
    }

    /**
     * `removeListener`: `List.remove` with the raw listener, which drops the
     * first entry that `listener.equals` accepts; `equalsPair` is that method.
     * A null listener removes nothing: `remove(null)` looks for a null element,
     * and no `Pair` is null.
     */
    method RemoveListener(listener: Option<L>, equalsPair: (L, Entry<L, X>) -> bool)
      requires Valid()
      modifies this`entries
      ensures Valid()
      ensures listener.None? ==> entries == old(entries)
      ensures listener.Some? ==> entries == RemoveFirst(old(entries), listener.value, equalsPair)
      ensures listener.Some? && (forall p :: !equalsPair(listener.value, p)) ==> entries == old(entries)
    {
      if entries != [] {
        match listener {
          case None =>
          case Some(l) =>
            entries := RemoveFirst(entries, l, equalsPair);
        }
      }
      if listener.Some? && forall p :: !equalsPair(listener.value, p) {
        RemoveFirstWithoutMatch(old(entries), listener.value, equalsPair);
      }
    }

    /** `hasListeners`: whether any registration exists. */
    function HasListeners(): (b: bool)
      reads this
      ensures b <==> |entries| > 0
    {
      entries != []
    }

    /** `getListeners`: the registered listeners, one per entry, in registration order. */
    function GetListeners(): (r: seq<L>)
      reads this
      ensures |r| == |entries|
      ensures forall k :: 0 <= k < |entries| ==> r[k] == entries[k].listener
    {
      Listeners(entries)
    }

    /**
     * `Pair.fire` for the registration p at position k, one step of `Fire`
     * (the only caller, over the registered entries). A direct entry runs
     * `execute`, whose catch keeps a throwing handler from reaching the caller;
     * a pooled entry submits one task, and a refusal raises the flag, logging a
     * warning burst only if the flag was down.
     */
    method FirePair(p: Entry<L, X>, k: nat, ev: E, ctx: Context<E, L, X>) returns (d: Delivery<L, X>)
      requires Valid()
      modifies this`haveEncounteredRejection, this`warningsLogged
      ensures Valid()
      ensures (d, haveEncounteredRejection) == PairFire(p, k, ev, ctx, old(haveEncounteredRejection))
      ensures warningsLogged == old(warningsLogged) + (if d.Rejected? && d.warned then 1 else 0)
    {
      match p.mode {
        case Direct =>
          d := Called(p.listener, ctx.throws(p.listener, ev, k));
        case Pooled(x) =>
          if ctx.accepts(x, k) {
            d := Submitted(p.listener, x);
          } else {
            var warned := false;
            if !haveEncounteredRejection {
              if ctx.warnEnabled {
                warned := true;
                warningsLogged := warningsLogged + 1;
              }
              haveEncounteredRejection := true;
            }
            d := Rejected(p.listener, x, warned);
          }
      }
    }

    /** `fire`: hand ev to every registration, in registration order. */
    method Fire(ev: E, ctx: Context<E, L, X>) returns (trace: seq<Delivery<L, X>>)
      requires Valid()
      modifies this`haveEncounteredRejection, this`warningsLogged
      ensures Valid()
      ensures Dispatch(entries, |entries|, ev, ctx, old(haveEncounteredRejection)) == Fanout(trace, haveEncounteredRejection)
      ensures warningsLogged == old(warningsLogged) + Warnings(trace, |trace|)
      ensures old(haveEncounteredRejection) ==> haveEncounteredRejection && warningsLogged == old(warningsLogged)
    {
      var snapshot := entries;
      ghost var rejected0, warnings0 := haveEncounteredRejection, warningsLogged;
      trace := [];
      var i := 0;
      while i < |snapshot|
        invariant 0 <= i <= |snapshot|
        invariant Dispatch(snapshot, i, ev, ctx, rejected0) == Fanout(trace, haveEncounteredRejection)
        invariant warningsLogged == warnings0 + Warnings(trace, i)
        invariant Valid()
      {
        var d := FirePair(snapshot[i], i, ev, ctx);
        WarningsOfPrefix(trace, [d], i);
        trace := trace + [d];
        i := i + 1;
      }
      AtMostOneWarning(snapshot, i, ev, ctx, rejected0);
    }
  }
}
