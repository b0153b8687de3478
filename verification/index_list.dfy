/**
 * IndexList: a composite index sink that owns an ordered list of sinks and forwards
 * every call of the index interface to each of them in registration order.
 * initialize and finalize always go through; the other calls only while the list
 * is enabled.
 *
 * The list is an immutable value: every operation returns the next one. What the
 * sinks receive is recorded in `trace`, one delivery per sink per forwarded call,
 * so forwarding order and gating can be stated about it.
 */
module IndexBroadcast {
  import opened Wrappers
  import opened Seqs

  /** The identity of a registered sink (its address). */
  type SinkId = nat

  /** A `const char *` argument: None is the null pointer. */
  type Text = Option<string>

  /** A `const Definition *` or `const MemberDef *` argument, by identity. */
  type Ref = Option<nat>

  /** One call of the index interface, with its arguments. */
  datatype Event =
    | Initialize
    | Finalize
    | IncContentsDepth
    | DecContentsDepth
    | AddContentsItem(isDir: bool, name: Text, ref: Text, file: Text, anchor: Text,
                      separateIndex: bool, addToNavIndex: bool, def: Ref)
    | AddIndexItem(context: Ref, md: Ref, sectionAnchor: Text, title: Text)
    | AddIndexFile(fileName: Text)
    | AddImageFile(imageName: Text)
    | AddStyleSheetFile(sheetName: Text)

  /** The calls that are dropped while the list is disabled: all but the two that
      open and close a sink's lifetime. */
  predicate Gated(e: Event)
  {
    !(e.Initialize? || e.Finalize?)
  }

  /** Sink `sink`, registered in position `slot`, received `event`. */
  datatype Delivery = Delivery(slot: nat, sink: SinkId, event: Event)

  datatype IndexList = IndexList(sinks: seq<SinkId>, enabled: bool, trace: seq<Delivery>)

  /** The events the sink in position `slot` received, in the order it received them. */
  function Log(trace: seq<Delivery>, slot: nat): seq<Event>
  {
    if trace == [] then []
    else (if trace[0].slot == slot then [trace[0].event] else []) + Log(trace[1..], slot)
  }

  /** Every delivery names a registered position and the sink registered there. */
  predicate Valid(l: IndexList)
  {
    forall i :: 0 <= i < |l.trace| ==>
      l.trace[i].slot < |l.sinks| && l.trace[i].sink == l.sinks[l.trace[i].slot]
  }

  // ---------------------------------------------------------------------------
  // The list itself
  // ---------------------------------------------------------------------------

  /** A new list is enabled, has no sinks, and nothing has been delivered. */
  function Create(): (l: IndexList)
    ensures l.enabled && l.sinks == [] && l.trace == []
    ensures Valid(l)
  {
    IndexList([], true, [])
  }

  /** addIndex: the sink goes to the end of the list. */
  function AddIndex(l: IndexList, s: SinkId): (r: IndexList)
    ensures |r.sinks| == |l.sinks| + 1 && r.sinks[|l.sinks|] == s
    ensures r.sinks[..|l.sinks|] == l.sinks
    ensures r.enabled == l.enabled && r.trace == l.trace
    ensures Valid(l) ==> Valid(r)
  {
    var r := l.(sinks := l.sinks + [s]);
    assert r.sinks[..|l.sinks|] == l.sinks;
    r
  }

  function Disable(l: IndexList): (r: IndexList)
    ensures !IsEnabled(r)
    ensures r.sinks == l.sinks && r.trace == l.trace
  {
    l.(enabled := false)
  }

  function Enable(l: IndexList): (r: IndexList)
    ensures IsEnabled(r)
    ensures r.sinks == l.sinks && r.trace == l.trace
  {
    l.(enabled := true)
  }

  /** The list reports itself enabled exactly when it would forward every call. */
  function IsEnabled(l: IndexList): (r: bool)
    ensures r <==> forall e :: Passes(l, e)
  {
    assert l.enabled || !Passes(l, IncContentsDepth);
    l.enabled
  }

  // ---------------------------------------------------------------------------
  // Forwarding
  // ---------------------------------------------------------------------------

  /** foreach: hand `e` to every sink, first registered first. */
  method Foreach(sinks: seq<SinkId>, e: Event) returns (d: seq<Delivery>)
    ensures |d| == |sinks|
    ensures forall k :: 0 <= k < |sinks| ==> d[k] == Delivery(k, sinks[k], e)
  {
    d := [];
    var k := 0;
    while k < |sinks|
      invariant k <= |sinks|
      invariant |d| == k
      invariant forall j :: 0 <= j < k ==> d[j] == Delivery(j, sinks[j], e)
    {
      d := d + [Delivery(k, sinks[k], e)];
      k := k + 1;
    }
  }

  /** The deliveries of one forwarded call, for the positions from `from` on. */
  function Broadcast(sinks: seq<SinkId>, e: Event, from: nat): seq<Delivery>
    decreases |sinks| - from
  {
    if from >= |sinks| then [] else [Delivery(from, sinks[from], e)] + Broadcast(sinks, e, from + 1)
  }

  /** Whether a call gets through the gate of `l`. */
  predicate Passes(l: IndexList, e: Event)
  {
    l.enabled || !Gated(e)
  }

  /** A call of the index interface on the list: forwarded to every sink, unless the
      call is gated and the list is disabled, in which case nothing happens. Earlier
      deliveries stay as they were. */
  function Call(l: IndexList, e: Event): (r: IndexList)
    ensures r.sinks == l.sinks && r.enabled == l.enabled
    ensures |r.trace| == |l.trace| + (if Passes(l, e) then |l.sinks| else 0)
    ensures r.trace[..|l.trace|] == l.trace
    ensures Valid(l) ==> Valid(r)
  {
    if !Passes(l, e) then l
    else
      var d := Broadcast(l.sinks, e, 0);
      BroadcastSlots(l.sinks, e, 0);
      assert (l.trace + d)[..|l.trace|] == l.trace;
      l.(trace := l.trace + d)
  }

  /** Each registered sink receives a call that gets through exactly once, and no
      other position receives anything. */
  lemma CallLog(l: IndexList, e: Event, k: nat)
    ensures Log(Call(l, e).trace, k) == Log(l.trace, k) + (if k < |l.sinks| && Passes(l, e) then [e] else [])
  {
    if Passes(l, e) {
      LogAppend(l.trace, Broadcast(l.sinks, e, 0), k);
      BroadcastLog(l.sinks, e, 0, k);
    }
  }

  /** The loop in Foreach computes exactly the deliveries Call appends. */
  lemma {:induction false} BroadcastSlots(sinks: seq<SinkId>, e: Event, from: nat)
    requires from <= |sinks|
    ensures |Broadcast(sinks, e, from)| == |sinks| - from
    ensures forall j :: 0 <= j < |sinks| - from ==> Broadcast(sinks, e, from)[j] == Delivery(from + j, sinks[from + j], e)
    decreases |sinks| - from
  {
    if from < |sinks| {
      BroadcastSlots(sinks, e, from + 1);
    }
  }

  /** Each position from `from` on receives the event exactly once; no other does. */
  lemma {:induction false} BroadcastLog(sinks: seq<SinkId>, e: Event, from: nat, k: nat)
    ensures Log(Broadcast(sinks, e, from), k) == if from <= k < |sinks| then [e] else []
    decreases |sinks| - from
  {
    if from < |sinks| {
      var rest := Broadcast(sinks, e, from + 1);
      assert ([Delivery(from, sinks[from], e)] + rest)[1..] == rest;
      BroadcastLog(sinks, e, from + 1, k);
    }
  }

  lemma {:induction false} LogAppend(a: seq<Delivery>, b: seq<Delivery>, k: nat)
    ensures Log(a + b, k) == Log(a, k) + Log(b, k)
  {
    if a != [] {
      assert (a + b)[0] == a[0];
      assert (a + b)[1..] == a[1..] + b;
      LogAppend(a[1..], b, k);
    } else {
      assert a + b == b;
    }
  }

  /** The deliveries Foreach hands out are the ones Call records. */
  method Forward(l: IndexList, e: Event) returns (r: IndexList)
    ensures r == Call(l, e)
  {
    if !Passes(l, e) {
      return l;
    }
    var d := Foreach(l.sinks, e);
    BroadcastSlots(l.sinks, e, 0);
    assert d == Broadcast(l.sinks, e, 0);
    r := l.(trace := l.trace + d);
  }

  // ---------------------------------------------------------------------------
  // Sequences of operations
  // ---------------------------------------------------------------------------

  /** What a client can do with the list. */
  datatype Op = Register(sink: SinkId) | TurnOn | TurnOff | Invoke(event: Event)

  function Step(l: IndexList, op: Op): IndexList
  {
    match op
    case Register(s) => AddIndex(l, s)
    case TurnOn => Enable(l)
    case TurnOff => Disable(l)
    case Invoke(e) => Call(l, e)
  }

  function Run(l: IndexList, ops: seq<Op>): IndexList
    decreases |ops|
  {
    if ops == [] then l else Run(Step(l, ops[0]), ops[1..])
  }

  /** The flag a run leaves behind, read from its end: the last toggle in it, or the
      initial flag when it toggles nothing. */
  function LastToggle(ops: seq<Op>, initial: bool): bool
    decreases |ops|
  {
    if ops == [] then initial
    else match ops[|ops| - 1]
      case TurnOn => true
      case TurnOff => false
      case _ => LastToggle(ops[..|ops| - 1], initial)
  }

  lemma {:induction false} RunSnoc(l: IndexList, ops: seq<Op>, op: Op)
    ensures Run(l, ops + [op]) == Step(Run(l, ops), op)
    decreases |ops|
  {
    if ops == [] {
      assert [] + [op] == [op];
    } else {
      assert (ops + [op])[1..] == ops[1..] + [op];
      RunSnoc(Step(l, ops[0]), ops[1..], op);
    }
  }

  /** After any run the list reports the last toggle of the run: registering sinks
      and forwarding calls never change the flag. */
  lemma {:induction false} FlagAfterRun(l: IndexList, ops: seq<Op>)
    ensures IsEnabled(Run(l, ops)) == LastToggle(ops, IsEnabled(l))
    decreases |ops|
  {
    if ops != [] {
      var init := ops[..|ops| - 1];
      assert ops == init + [ops[|ops| - 1]];
      RunSnoc(l, init, ops[|ops| - 1]);
      FlagAfterRun(l, init);
    }
  }

  /** Every sequence of operations keeps the deliveries consistent with the
      registrations, so a sink only hears of calls made after it was added. */
  lemma {:induction false} RunValid(l: IndexList, ops: seq<Op>)
    requires Valid(l)
    ensures Valid(Run(l, ops))
    decreases |ops|
  {
    if ops != [] {
      RunValid(Step(l, ops[0]), ops[1..]);
    }
  }

  /** What the sink in position `k` hears during `ops`, from a list with `registered`
      sinks and the given flag: a reference that keeps only a counter and the flag. */
  function Heard(ops: seq<Op>, enabled: bool, registered: nat, k: nat): seq<Event>
    decreases |ops|
  {
    if ops == [] then []
    else match ops[0]
      case Register(_) => Heard(ops[1..], enabled, registered + 1, k)
      case TurnOn => Heard(ops[1..], true, registered, k)
      case TurnOff => Heard(ops[1..], false, registered, k)
      case Invoke(e) =>
        (if k < registered && (enabled || !Gated(e)) then [e] else []) + Heard(ops[1..], enabled, registered, k)
  }

  /** Any run: each sink's log grows by exactly what the reference says it hears. */
  lemma {:induction false} RunLog(l: IndexList, ops: seq<Op>, k: nat)
    ensures Log(Run(l, ops).trace, k) == Log(l.trace, k) + Heard(ops, l.enabled, |l.sinks|, k)
    decreases |ops|
  {
    if ops == [] {
      assert Run(l, ops) == l;
    } else {
      var l' := Step(l, ops[0]);
      assert Run(l, ops) == Run(l', ops[1..]);
      RunLog(l', ops[1..], k);
      match ops[0]
      case Register(_) =>
      case TurnOn =>
      case TurnOff =>
      case Invoke(e) =>
        CallLog(l, e, k);
        AppendAssoc(Log(l.trace, k), if k < |l.sinks| && Passes(l, e) then [e] else [],
                    Heard(ops[1..], l.enabled, |l.sinks|, k));
    }
  }

  /** A sink that was just added has received nothing yet. */
  lemma NewSinkSilent(l: IndexList, s: SinkId)
    requires Valid(l)
    ensures Log(AddIndex(l, s).trace, |l.sinks|) == []
  {
    LogBeyond(l.trace, |l.sinks|);
  }

  lemma {:induction false} LogBeyond(trace: seq<Delivery>, k: nat)
    requires forall i :: 0 <= i < |trace| ==> trace[i].slot < k
    ensures Log(trace, k) == []
  {
    if trace != [] {
      LogBeyond(trace[1..], k);
    }
  }

  /** The events of `es` that get through a list whose flag is `enabled`. */
  function Passed(es: seq<Event>, enabled: bool): seq<Event>
  {
    if es == [] then []
    else (if enabled || !Gated(es[0]) then [es[0]] else []) + Passed(es[1..], enabled)
  }

  function Invocations(es: seq<Event>): (ops: seq<Op>)
    ensures |ops| == |es|
    ensures forall i :: 0 <= i < |es| ==> ops[i] == Invoke(es[i])
  {
    seq(|es|, i requires 0 <= i < |es| => Invoke(es[i]))
  }

  /** Interface calls one after another, with no registration or toggle between. */
  function Calls(l: IndexList, es: seq<Event>): IndexList
    decreases |es|
  {
    if es == [] then l else Calls(Call(l, es[0]), es[1..])
  }

  /** Interface calls change neither the sinks nor the flag. */
  lemma {:induction false} CallsKeep(l: IndexList, es: seq<Event>)
    ensures Calls(l, es).sinks == l.sinks
    ensures Calls(l, es).enabled == l.enabled
    decreases |es|
  {
    if es != [] {
      CallsKeep(Call(l, es[0]), es[1..]);
    }
  }

  /** A run of interface calls: every registered sink receives exactly the calls the
      gate lets through, in call order, and unregistered positions receive nothing. */
  lemma {:induction false} CallsDelivered(l: IndexList, es: seq<Event>, k: nat)
    ensures Log(Calls(l, es).trace, k)
         == Log(l.trace, k) + (if k < |l.sinks| then Passed(es, l.enabled) else [])
    decreases |es|
  {
    if es == [] {
      assert Calls(l, es) == l;
    } else {
      var l' := Call(l, es[0]);
      assert Calls(l, es) == Calls(l', es[1..]);
      CallsDelivered(l', es[1..], k);
      CallLog(l, es[0], k);
      if k < |l.sinks| {
        PassedStep(l, es);
        AppendAssoc(Log(l.trace, k), if Passes(l, es[0]) then [es[0]] else [], Passed(es[1..], l.enabled));
      } else {
        assert Log(l'.trace, k) == Log(l.trace, k) + [];
      }
    }
  }

  lemma AppendAssoc<T>(a: seq<T>, b: seq<T>, c: seq<T>)
    ensures (a + b) + c == a + (b + c)
  {
  }

  lemma PassedStep(l: IndexList, es: seq<Event>)
    requires es != []
    ensures Passed(es, l.enabled) == (if Passes(l, es[0]) then [es[0]] else []) + Passed(es[1..], l.enabled)
  {
  }

  /** The same calls as operations of a run. */
  lemma {:induction false} RunInvocations(l: IndexList, es: seq<Event>)
    ensures Run(l, Invocations(es)) == Calls(l, es)
    decreases |es|
  {
    if es != [] {
      var ops := Invocations(es);
      assert ops[1..] == Invocations(es[1..]);
      RunInvocations(Call(l, es[0]), es[1..]);
    }
  }

  /** Initialize and finalize: the calls the enabled flag does not gate. */
  predicate Lifecycle(e: Event)
  {
    !Gated(e)
  }

  /** While the list is disabled, exactly the initialize and finalize calls reach
      the sinks, in the order they were made; a run of gated calls reaches none. */
  lemma {:induction false} DisabledPassesLifecycleOnly(es: seq<Event>)
    ensures Passed(es, false) == Filter(es, Lifecycle)
    ensures (forall i :: 0 <= i < |es| ==> Gated(es[i])) ==> Passed(es, false) == []
  {
    if es != [] {
      DisabledPassesLifecycleOnly(es[1..]);
      if forall i :: 0 <= i < |es| ==> Gated(es[i]) {
        assert Gated(es[0]);
        assert forall i :: 0 <= i < |es[1..]| ==> Gated(es[1..][i]) by {
          forall i | 0 <= i < |es[1..]| ensures Gated(es[1..][i]) {
            assert es[1..][i] == es[i + 1];
          }
        }
      }
    }
  }

  /** While the list is enabled, every call gets through unchanged. */
  lemma {:induction false} EnabledPassesAll(es: seq<Event>)
    ensures Passed(es, true) == es
  {
    if es != [] {
      EnabledPassesAll(es[1..]);
    }
  }

  /** Disabling does not lose initialize or finalize: they are delivered to every
      sink whatever the flag. */
  lemma LifecycleAlwaysDelivered(l: IndexList, e: Event, k: nat)
    requires !Gated(e) && k < |l.sinks|
    ensures Log(Call(Disable(l), e).trace, k) == Log(l.trace, k) + [e]
    ensures Log(Call(Enable(l), e).trace, k) == Log(l.trace, k) + [e]
  {
    CallLog(Disable(l), e, k);
    CallLog(Enable(l), e, k);
  }

  /** While disabled, a gated call leaves the list exactly as it was; while enabled,
      it adds that call to the log of every registered sink. */
  lemma GatedCall(l: IndexList, e: Event, k: nat)
    requires Gated(e)
    ensures !l.enabled ==> Call(l, e) == l
    ensures l.enabled && k < |l.sinks| ==> Log(Call(l, e).trace, k) == Log(l.trace, k) + [e]
  {
    CallLog(l, e, k);
  }

}
