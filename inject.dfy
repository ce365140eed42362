/**
 * The engine itself: injectSingle walks one destination struct and writes
 * its tagged fields in place, Inject runs the Init hook and the walk for
 * each destination in turn, and Connect builds the injector from a
 * reference struct and injects that struct's own members.
 */
module Injection {
  import opened Reflection
  import opened Registry
  import opened FieldWalk
  import opened Checks

  /** The struct a destination reaches through dereference, if any. */
  function Target(d: Value): Option<Record>
  {
    match Stripped(d)
    case Some(StructOf(rec)) => Some(rec)
    case _ => None
  }

  /** What injecting `d` may write. */
  function Footprint(d: Value): set<Record>
  {
    if Target(d).Some? then {Target(d).value} else {}
  }

  /** What injecting all of `ds` may write. */
  function Targets(ds: seq<Value>): set<Record>
  {
    set j | 0 <= j < |ds| && Target(ds[j]).Some? :: Target(ds[j]).value
  }

  /**
   * The struct whose Init Inject calls for `d`: `d` is a pointer to a
   * struct whose pointer type implements Initializable.
   */
  function Hook(d: Value): Option<Record>
  {
    if d.PointerTo? && d.elem.StructOf? && d.elem.rec.hasInit then Some(d.elem.rec) else None
  }

  /** How many of `ds` have their Init hook on `r`. */
  function HookCount(ds: seq<Value>, r: Record): nat
  {
    if ds == [] then 0
    else HookCount(ds[..|ds| - 1], r) + if Hook(ds[|ds| - 1]) == Some(r) then 1 else 0
  }

  /** Some destination among `ds` reaches `r` through a pointer, so its walk can write `r`. */
  ghost predicate ThroughPointer(ds: seq<Value>, r: Record)
  {
    exists j :: 0 <= j < |ds| && Target(ds[j]) == Some(r) && ReachedThroughPointer(ds[j])
  }

  /** The walk injectSingle performs on `d` when the struct it reaches holds `fs`. */
  function SingleWalkOn(inj: Injector, d: Value, fs: seq<Field>): Option<Walked<WireError>>
  {
    match Target(d)
    case Some(rec) => Some(Walk(inj, rec.typeName, ReachedThroughPointer(d), fs))
    case None => None
  }

  /**
   * The error injectSingle returns for `d` when the struct it reaches holds
   * `fs`: the recovered panic of dereference running into nil, the walk's
   * error for a struct, and none for any other value.
   */
  function SingleErrorOn(inj: Injector, d: Value, fs: seq<Field>): Option<WireError>
  {
    if Stripped(d).None? then Some(InternalWalkFailure("", ""))
    else if Target(d).Some? then SingleWalkOn(inj, d, fs).value.err
    else None
  }

  /** The field indices injectSingle writes for `d` when the struct it reaches holds `fs`. */
  function SingleWritesOn(inj: Injector, d: Value, fs: seq<Field>): seq<nat>
  {
    if Target(d).Some? then SingleWalkOn(inj, d, fs).value.written else []
  }

  /** The current fields of the struct `d` reaches. */
  function FieldsOf(d: Value): seq<Field>
    reads Footprint(d)`fields
  {
    if Target(d).Some? then Target(d).value.fields else []
  }

  /**
   * injectSingle: dereference the destination; a nil on the way is a
   * recovered panic with empty names; a struct has its fields walked in
   * declaration order, each tagged field checked and, when it passes,
   * overwritten with the component; anything else is left alone.
   * `written` lists the fields overwritten, in order.
   */
  method InjectSingle(inj: Injector, d: Value) returns (err: Option<WireError>, ghost written: seq<nat>)
    modifies Footprint(d)`fields
    ensures err == SingleErrorOn(inj, d, old(FieldsOf(d)))
    ensures written == SingleWritesOn(inj, d, old(FieldsOf(d)))
    ensures Target(d).Some? ==> Target(d).value.fields == SingleWalkOn(inj, d, old(FieldsOf(d))).value.fields
  {
    StrippedAllocated(d);
    var v, addressable := Dereference(d);
    if v.None? {
      return Some(InternalWalkFailure("", "")), [];
    }
    if !v.value.StructOf? {
      return None, [];
    }
    var rec := v.value.rec;
    ghost var original := rec.fields;
    var step := StepOf(inj, rec.typeName, addressable);
    assert original[..0] == [];
    written := [];
    var x := 0;
    while x < |rec.fields|
      invariant 0 <= x <= |original| == |rec.fields|
      invariant WalkWith(step, original[..x]).err.None?
      invariant rec.fields == WalkWith(step, original[..x]).fields + original[x..]
      invariant written == WalkWith(step, original[..x]).written
    {
      var f := rec.fields[x];
      var s := step(f);
      if s.Fail? {
        WalkAfterStop(step, original, x);
        return Some(s.error), written;
      }
      WalkLoopStep(step, original, x, rec.fields);
      if s.Assign? {
        rec.fields := rec.fields[x := f.(value := s.value)];
        written := written + [x];
      }
      x := x + 1;
    }
    assert original[..x] == original;
    return None, written;
  }

  /** What Inject does, in order: Init hooks run and fields written, by destination index. */
  datatype Event = InitCalled(dest: nat) | FieldWritten(dest: nat, field: nat)

  /** The events of writing the fields `ws` of destination j, in order. */
  function WriteEvents(j: nat, ws: seq<nat>): (es: seq<Event>)
    ensures |es| == |ws| && forall k :: 0 <= k < |ws| ==> es[k] == FieldWritten(j, ws[k])
  {
    if ws == [] then [] else [FieldWritten(j, ws[0])] + WriteEvents(j, ws[1..])
  }

  /**
   * Events come destination by destination, and a destination's Init comes
   * before anything else of that destination.
   */
  ghost predicate TraceOrdered(trace: seq<Event>)
  {
    && (forall p, q :: 0 <= p < q < |trace| ==> trace[p].dest <= trace[q].dest)
    && (forall p, q :: 0 <= p < q < |trace| && trace[q].InitCalled? ==> trace[p].dest < trace[q].dest)
  }

  /** The fields of every struct the destinations reach. */
  function FieldsMap(ds: seq<Value>): map<Record, seq<Field>>
    reads Targets(ds)`fields
  {
    map r | r in Targets(ds) :: r.fields
  }

  /** The Init call count of every struct the destinations reach. */
  function CallsMap(ds: seq<Value>): map<Record, nat>
    reads Targets(ds)`initCalls
  {
    map r | r in Targets(ds) :: r.initCalls
  }

  /** The fields `m` records for the struct `d` reaches. */
  function Before(m: map<Record, seq<Field>>, d: Value): seq<Field>
  {
    if Target(d).Some? && Target(d).value in m then m[Target(d).value] else []
  }

  /**
   * The fields of `r` after the destinations `ds` were walked, from its
   * fields `fs` before: one walk through a pointer if some destination
   * reaches `r` through one, however many do; otherwise no change.
   */
  ghost function FieldsAfter(inj: Injector, ds: seq<Value>, r: Record, fs: seq<Field>): seq<Field>
  {
    if ThroughPointer(ds, r) then Walk(inj, r.typeName, true, fs).fields else fs
  }

  /**
   * The first n destinations are nil, or have an Init that succeeds (if
   * any) and walk without error from the fields in `m`.
   */
  ghost predicate Passed(inj: Injector, dests: seq<Value>, n: nat, m: map<Record, seq<Field>>)
    requires n <= |dests|
  {
    forall i :: 0 <= i < n ==>
      || dests[i] == Nil
      || (&& (Hook(dests[i]).Some? ==> Hook(dests[i]).value.initError.None?)
          && SingleErrorOn(inj, dests[i], Before(m, dests[i])).None?)
  }

  /** Every struct holds what walking the first n destinations made of its fields in `m`. */
  ghost predicate FieldsAt(inj: Injector, dests: seq<Value>, n: nat, m: map<Record, seq<Field>>)
    requires n <= |dests|
    reads Targets(dests)`fields
  {
    forall r :: r in Targets(dests) ==> r in m && r.fields == FieldsAfter(inj, dests[..n], r, m[r])
  }

  /** Every struct's Init ran once per hook among the first n destinations, on top of `c`. */
  ghost predicate CallsAt(dests: seq<Value>, n: nat, c: map<Record, nat>)
    requires n <= |dests|
    reads Targets(dests)`initCalls
  {
    forall r :: r in Targets(dests) ==> r in c && r.initCalls == c[r] + HookCount(dests[..n], r)
  }

  /**
   * The trace is ordered, and lists exactly the Init calls of the first
   * `hooked` destinations and the fields the walks of the first `walked`
   * destinations wrote.
   */
  ghost predicate TraceUpTo(inj: Injector, trace: seq<Event>, dests: seq<Value>, hooked: nat, walked: nat, m: map<Record, seq<Field>>)
    requires walked <= hooked <= |dests|
  {
    && TraceOrdered(trace)
    && (forall p :: 0 <= p < |trace| ==> trace[p].dest < hooked)
    && (forall i: nat :: InitCalled(i) in trace <==> i < hooked && Hook(dests[i]).Some?)
    && (forall i: nat, x: nat :: FieldWritten(i, x) in trace <==>
          i < walked && x in SingleWritesOn(inj, dests[i], Before(m, dests[i])))
  }

  /** How many destinations had their Init hook looked at, given how Inject ended. */
  function HookedCount(err: Option<WireError>, stop: nat): nat
  {
    if err.None? then stop else stop + 1
  }

  /** How many destinations had their walk started, given how Inject ended. */
  function WalkedCount(err: Option<WireError>, stop: nat): nat
  {
    if err.None? || err.value.InitFailed? then stop else stop + 1
  }

  /**
   * The outcome of injecting `dests`, which stopped at index `stop` with
   * `err` (at |dests| with no error), in terms of the structs' fields and
   * Init counts before: the destination at `stop` is not nil, and either
   * its Init failed or the error is the one its walk reports; every
   * destination before it is nil or walks without error; the fields, the
   * Init counts and the trace are those of the destinations processed.
   */
  ghost predicate Injected(inj: Injector, dests: seq<Value>, err: Option<WireError>, stop: nat, trace: seq<Event>,
                           m: map<Record, seq<Field>>, c: map<Record, nat>)
    requires stop <= |dests| && (err.None? <==> stop == |dests|)
    reads Targets(dests)
  {
    && (err.Some? ==> dests[stop] != Nil)
    && (err.Some? && err.value.InitFailed? ==>
          Hook(dests[stop]).Some? && Hook(dests[stop]).value.initError == Some(err.value.message))
    && (err.Some? && !err.value.InitFailed? ==> err == SingleErrorOn(inj, dests[stop], Before(m, dests[stop])))
    && (err.Some? && !err.value.InitFailed? && Hook(dests[stop]).Some? ==> Hook(dests[stop]).value.initError.None?)
    && Passed(inj, dests, stop, m)
    && FieldsAt(inj, dests, WalkedCount(err, stop), m)
    && CallsAt(dests, HookedCount(err, stop), c)
    && TraceUpTo(inj, trace, dests, HookedCount(err, stop), WalkedCount(err, stop), m)
  }

  /**
   * Inject: for each destination in order, skip nil; run Init when the
   * destination implements Initializable and stop at its error; then walk
   * the destination and stop at its error.
   */
  method Inject(inj: Injector, dests: seq<Value>) returns (err: Option<WireError>, ghost stop: nat, ghost trace: seq<Event>)
    modifies Targets(dests)`fields, Targets(dests)`initCalls
    ensures stop <= |dests| && (err.None? <==> stop == |dests|)
    ensures Injected(inj, dests, err, stop, trace, old(FieldsMap(dests)), old(CallsMap(dests)))
  {
    TargetsAllocated(dests);
    ghost var m, c := FieldsMap(dests), CallsMap(dests);
    trace := [];
    assert dests[..0] == [];
    for j := 0 to |dests|
      invariant Passed(inj, dests, j, m)
      invariant FieldsAt(inj, dests, j, m)
      invariant CallsAt(dests, j, c)
      invariant TraceUpTo(inj, trace, dests, j, j, m)
    {
      var e;
      e, trace := InjectDestination(inj, dests, j, m, c, trace);
      if e.Some? {
        return e, j, trace;
      }
    }
    return None, |dests|, trace;
  }

  /**
   * One round of Inject's loop, on destination j, after the destinations
   * before it passed: either it passes too and the state and the trace
   * cover one more destination, or Inject stops at j with its error.
   */
  method InjectDestination(inj: Injector, dests: seq<Value>, j: nat, ghost m: map<Record, seq<Field>>,
                           ghost c: map<Record, nat>, ghost trace: seq<Event>)
    returns (err: Option<WireError>, ghost trace': seq<Event>)
    requires j < |dests|
    requires Passed(inj, dests, j, m) && FieldsAt(inj, dests, j, m) && CallsAt(dests, j, c)
    requires TraceUpTo(inj, trace, dests, j, j, m)
    modifies Targets(dests)`fields, Targets(dests)`initCalls
    ensures err.None? ==>
      && Passed(inj, dests, j + 1, m) && FieldsAt(inj, dests, j + 1, m) && CallsAt(dests, j + 1, c)
      && TraceUpTo(inj, trace', dests, j + 1, j + 1, m)
    ensures err.Some? ==> Injected(inj, dests, err, j, trace', m, c)
  {
    var d := dests[j];
    trace' := trace;
    if d == Nil {
      SkipStep(inj, dests, j, m, c, trace);
      return None, trace;
    }
    if Hook(d).Some? {
      var e;
      e, trace' := RunInit(inj, dests, j, m, c, trace);
      if e.Some? {
        InitStop(inj, dests, j, e.value, trace', m, c);
        return Some(InitFailed(e.value)), trace';
      }
    } else {
      HooklessStep(inj, dests, j, c, trace, m);
    }
    err, trace' := WalkDestination(inj, dests, j, m, trace');
    if err.Some? {
      WalkStop(inj, dests, j, err, trace', m, c);
    } else {
      PassStep(inj, dests, j, m);
    }
  }

  /**
   * The Init hook of destination j: it returns the hook's error, the Init
   * counts cover one more destination and the trace records the call.
   */
  method RunInit(inj: Injector, dests: seq<Value>, j: nat, ghost m: map<Record, seq<Field>>,
                 ghost c: map<Record, nat>, ghost trace: seq<Event>)
    returns (err: Option<string>, ghost trace': seq<Event>)
    requires j < |dests| && Hook(dests[j]).Some?
    requires CallsAt(dests, j, c) && TraceUpTo(inj, trace, dests, j, j, m)
    modifies Targets(dests)`initCalls
    ensures err == Hook(dests[j]).value.initError
    ensures CallsAt(dests, j + 1, c) && TraceUpTo(inj, trace', dests, j + 1, j, m)
  {
    var rec := Hook(dests[j]).value;
    assert Target(dests[j]) == Some(rec);
    err := rec.Init();
    forall r | r in Targets(dests) ensures r in c && r.initCalls == c[r] + HookCount(dests[..j + 1], r) {
      PrefixHook(dests, j, r);
    }
    TraceInit(inj, trace, dests, j, m);
    trace' := trace + [InitCalled(j)];
  }

  /**
   * The walk of destination j, once its Init hook (if any) ran: the struct
   * it reaches holds what the earlier destinations made of it, and the
   * error, the written fields and the new fields are those of walking it
   * from its fields before Inject began.
   */
  method WalkDestination(inj: Injector, dests: seq<Value>, j: nat, ghost m: map<Record, seq<Field>>, ghost trace: seq<Event>)
    returns (err: Option<WireError>, ghost trace': seq<Event>)
    requires j < |dests|
    requires FieldsAt(inj, dests, j, m) && TraceUpTo(inj, trace, dests, j + 1, j, m)
    modifies Targets(dests)`fields
    ensures err == SingleErrorOn(inj, dests[j], Before(m, dests[j]))
    ensures err.Some? ==> !err.value.InitFailed?
    ensures FieldsAt(inj, dests, j + 1, m) && TraceUpTo(inj, trace', dests, j + 1, j + 1, m)
  {
    var d := dests[j];
    TargetIn(dests, j);
    ghost var cur := FieldsOf(d);
    WalkStep(inj, dests, j, m, cur);
    ghost var written;
    err, written := InjectSingle(inj, d);
    forall r | r in Targets(dests) ensures r in m && r.fields == FieldsAfter(inj, dests[..j + 1], r, m[r]) {
      PrefixThrough(dests, j, r);
      if Target(d) == Some(r) {
        WalkAgain(inj, r.typeName, ReachedThroughPointer(d), m[r], ThroughPointer(dests[..j], r));
      }
    }
    TraceWalk(inj, trace, dests, j, m);
    trace' := trace + WriteEvents(j, written);
    SingleErrorNotInit(inj, d, cur);
  }

  /**
   * Inject reports no error exactly when every destination passes: it is
   * nil, or its Init (if any) succeeds and its walk, from the fields before
   * Inject began, finds no error.
   */
  lemma InjectSucceeds(inj: Injector, dests: seq<Value>, err: Option<WireError>, stop: nat, trace: seq<Event>,
                       m: map<Record, seq<Field>>, c: map<Record, nat>)
    requires stop <= |dests| && (err.None? <==> stop == |dests|)
    requires Injected(inj, dests, err, stop, trace, m, c)
    ensures err.None? <==> Passed(inj, dests, |dests|, m)
  {
  }

  /**
   * When Inject succeeds, every struct holds what walking all destinations
   * made of its fields, and every Init ran once per destination hooking it.
   */
  lemma InjectedAll(inj: Injector, dests: seq<Value>, trace: seq<Event>, m: map<Record, seq<Field>>,
                    c: map<Record, nat>, r: Record)
    requires Injected(inj, dests, None, |dests|, trace, m, c)
    requires r in Targets(dests)
    ensures r in m && r.fields == FieldsAfter(inj, dests, r, m[r])
    ensures r in c && r.initCalls == c[r] + HookCount(dests, r)
  {
    assert dests[..|dests|] == dests;
  }

  /** reflect.Indirect: the value a pointer points at; any other value as it is. */
  function Indirect(v: Value): Value
  {
    if v.PointerTo? then v.elem else v
  }

  /**
   * The reference the injector keeps: the fields of the struct Indirect
   * leaves, or None when it leaves anything else (then every lookup panics).
   */
  function ReferenceFields(reference: Value): Option<seq<Field>>
    reads Footprint(reference)`fields
  {
    match Indirect(reference)
    case StructOf(rec) =>
      assert Target(reference) == Some(rec);
      Some(rec.fields)
    case _ => None
  }

  /** What getFields collects from the reference: its exported members, in order. */
  function Members(reference: Value): seq<Value>
    reads Footprint(reference)`fields
  {
    if Target(reference).Some? then ExportedValues(Target(reference).value.fields) else []
  }

  /**
   * Connect's outcome: the injector with the error of injecting the
   * reference's own members, or the panic of getFields escaping when the
   * reference does not lead to a struct.
   */
  datatype Connection = Connected(injector: Injector, err: Option<WireError>) | Panicked

  /**
   * Connect: the injector keeps the tag and the reference (with one pointer
   * layer taken off), and injects every exported member of the reference,
   * so the components are wired to each other.
   */
  method Connect(tag: string, reference: Value, assignable: (TypeId, TypeId) -> bool)
    returns (c: Connection, ghost stop: nat, ghost trace: seq<Event>)
    modifies Targets(Members(reference))`fields, Targets(Members(reference))`initCalls
    ensures c.Panicked? <==> Target(reference).None?
    ensures c.Connected? ==> c.injector == Injector(tag, old(ReferenceFields(reference)), assignable)
    ensures c.Connected? ==>
      var ms := old(Members(reference));
      && stop <= |ms| && (c.err.None? <==> stop == |ms|)
      && Injected(c.injector, ms, c.err, stop, trace, old(FieldsMap(ms)), old(CallsMap(ms)))
  {
    StrippedAllocated(reference);
    ghost var ms := Members(reference);
    TargetsAllocated(ms);
    var inj := Injector(tag, ReferenceFields(reference), assignable);
    var members := GetFields(reference);
    if members.None? {
      return Panicked, 0, [];
    }
    assert members.value == ms;
    assert FieldsMap(ms) == old(FieldsMap(ms)) && CallsMap(ms) == old(CallsMap(ms));
    var err;
    err, stop, trace := Inject(inj, members.value);
    return Connected(inj, err), stop, trace;
  }

  /** Every struct a destination reaches already exists. */
  lemma TargetsAllocated(ds: seq<Value>)
    ensures forall r :: r in Targets(ds) ==> allocated(r)
  {
    forall r | r in Targets(ds) ensures allocated(r) {
      var j :| 0 <= j < |ds| && Target(ds[j]) == Some(r);
      StrippedAllocated(ds[j]);
    }
  }

  /** The struct destination j reaches is one of the targets. */
  lemma TargetIn(ds: seq<Value>, j: nat)
    requires j < |ds|
    ensures Target(ds[j]).Some? ==> Target(ds[j]).value in Targets(ds)
  {
  }

  /** Counting hooks over a prefix one destination longer. */
  lemma PrefixHook(ds: seq<Value>, j: nat, r: Record)
    requires j < |ds|
    ensures HookCount(ds[..j + 1], r) == HookCount(ds[..j], r) + if Hook(ds[j]) == Some(r) then 1 else 0
  {
    assert ds[..j + 1][..j] == ds[..j];
  }

  /** Reaching `r` through a pointer, over a prefix one destination longer. */
  lemma PrefixThrough(ds: seq<Value>, j: nat, r: Record)
    requires j < |ds|
    ensures ThroughPointer(ds[..j + 1], r) <==>
      ThroughPointer(ds[..j], r) || (Target(ds[j]) == Some(r) && ReachedThroughPointer(ds[j]))
  {
    if ThroughPointer(ds[..j + 1], r) {
      var i :| 0 <= i < j + 1 && Target(ds[..j + 1][i]) == Some(r) && ReachedThroughPointer(ds[..j + 1][i]);
      if i < j {
        assert ds[..j][i] == ds[..j + 1][i];
      }
    }
    if ThroughPointer(ds[..j], r) {
      var i :| 0 <= i < j && Target(ds[..j][i]) == Some(r) && ReachedThroughPointer(ds[..j][i]);
      assert ds[..j + 1][i] == ds[..j][i];
    }
    if Target(ds[j]) == Some(r) && ReachedThroughPointer(ds[j]) {
      assert ds[..j + 1][j] == ds[j];
    }
  }

  /** injectSingle never reports a failed Init. */
  lemma SingleErrorNotInit(inj: Injector, d: Value, fs: seq<Field>)
    ensures SingleErrorOn(inj, d, fs).Some? ==> !SingleErrorOn(inj, d, fs).value.InitFailed?
  {
    if Target(d).Some? && SingleErrorOn(inj, d, fs).Some? {
      WalkFailsFast(inj, Target(d).value.typeName, ReachedThroughPointer(d), fs);
    }
  }

  /** A nil destination is skipped: nothing changes, and the prefix grows by one. */
  lemma SkipStep(inj: Injector, dests: seq<Value>, j: nat, m: map<Record, seq<Field>>, c: map<Record, nat>, trace: seq<Event>)
    requires j < |dests| && dests[j] == Nil
    requires Passed(inj, dests, j, m) && FieldsAt(inj, dests, j, m) && CallsAt(dests, j, c)
    requires TraceUpTo(inj, trace, dests, j, j, m)
    ensures Passed(inj, dests, j + 1, m) && FieldsAt(inj, dests, j + 1, m) && CallsAt(dests, j + 1, c)
    ensures TraceUpTo(inj, trace, dests, j + 1, j + 1, m)
  {
    forall r | r in Targets(dests) ensures r in m && r.fields == FieldsAfter(inj, dests[..j + 1], r, m[r]) {
      PrefixThrough(dests, j, r);
    }
    forall r | r in Targets(dests) ensures r in c && r.initCalls == c[r] + HookCount(dests[..j + 1], r) {
      PrefixHook(dests, j, r);
    }
    forall i: nat ensures InitCalled(i) in trace <==> i < j + 1 && Hook(dests[i]).Some? {
      if InitCalled(i) in trace {
        var p :| 0 <= p < |trace| && trace[p] == InitCalled(i);
      }
    }
    forall i: nat, x: nat ensures FieldWritten(i, x) in trace <==>
      i < j + 1 && x in SingleWritesOn(inj, dests[i], Before(m, dests[i]))
    {
      if FieldWritten(i, x) in trace {
        var p :| 0 <= p < |trace| && trace[p] == FieldWritten(i, x);
      }
    }
  }

  /** A destination without an Init hook: the counts stay, and the prefix of looked-at hooks grows by one. */
  lemma HooklessStep(inj: Injector, dests: seq<Value>, j: nat, c: map<Record, nat>, trace: seq<Event>, m: map<Record, seq<Field>>)
    requires j < |dests| && Hook(dests[j]).None?
    requires CallsAt(dests, j, c) && TraceUpTo(inj, trace, dests, j, j, m)
    ensures CallsAt(dests, j + 1, c) && TraceUpTo(inj, trace, dests, j + 1, j, m)
  {
    forall r | r in Targets(dests) ensures r in c && r.initCalls == c[r] + HookCount(dests[..j + 1], r) {
      PrefixHook(dests, j, r);
    }
    forall i: nat ensures InitCalled(i) in trace <==> i < j + 1 && Hook(dests[i]).Some? {
      if InitCalled(i) in trace {
        var p :| 0 <= p < |trace| && trace[p] == InitCalled(i);
      }
    }
  }

  /** Running the Init hook of destination j extends the trace in order. */
  lemma TraceInit(inj: Injector, trace: seq<Event>, dests: seq<Value>, j: nat, m: map<Record, seq<Field>>)
    requires j < |dests| && Hook(dests[j]).Some?
    requires TraceUpTo(inj, trace, dests, j, j, m)
    ensures TraceUpTo(inj, trace + [InitCalled(j)], dests, j + 1, j, m)
  {
    var t := trace + [InitCalled(j)];
    forall i: nat ensures InitCalled(i) in t <==> i < j + 1 && Hook(dests[i]).Some? {
      if InitCalled(i) in trace {
        var p :| 0 <= p < |trace| && trace[p] == InitCalled(i);
      }
      assert InitCalled(i) in t <==> InitCalled(i) in trace || i == j;
    }
    forall i: nat, x: nat ensures FieldWritten(i, x) in t <==>
      i < j && x in SingleWritesOn(inj, dests[i], Before(m, dests[i]))
    {
      assert FieldWritten(i, x) in t <==> FieldWritten(i, x) in trace;
    }
  }

  /**
   * Walking destination j, with its struct holding what the earlier
   * destinations made of it, reports the error and the written fields of
   * walking its fields before Inject began.
   */
  lemma WalkStep(inj: Injector, dests: seq<Value>, j: nat, m: map<Record, seq<Field>>, cur: seq<Field>)
    requires j < |dests|
    requires Target(dests[j]).Some? ==>
      var r := Target(dests[j]).value; r in m && cur == FieldsAfter(inj, dests[..j], r, m[r])
    ensures SingleErrorOn(inj, dests[j], cur) == SingleErrorOn(inj, dests[j], Before(m, dests[j]))
    ensures SingleWritesOn(inj, dests[j], cur) == SingleWritesOn(inj, dests[j], Before(m, dests[j]))
  {
    var d := dests[j];
    if Target(d).Some? {
      var r := Target(d).value;
      WalkAgain(inj, r.typeName, ReachedThroughPointer(d), m[r], ThroughPointer(dests[..j], r));
    }
  }

  /** The writes of walking destination j extend the trace in order. */
  lemma TraceWalk(inj: Injector, trace: seq<Event>, dests: seq<Value>, j: nat, m: map<Record, seq<Field>>)
    requires j < |dests|
    requires TraceUpTo(inj, trace, dests, j + 1, j, m)
    ensures TraceUpTo(inj, trace + WriteEvents(j, SingleWritesOn(inj, dests[j], Before(m, dests[j]))), dests, j + 1, j + 1, m)
  {
    var ws := SingleWritesOn(inj, dests[j], Before(m, dests[j]));
    AppendOrdered(trace, j, ws);
    AppendKeepsInits(trace, j, ws);
    AppendWrites(inj, trace, dests, j, m);
  }

  /** Write events of destination j, appended after events of destinations up to j, keep the trace ordered. */
  lemma AppendOrdered(trace: seq<Event>, j: nat, ws: seq<nat>)
    requires TraceOrdered(trace) && forall p :: 0 <= p < |trace| ==> trace[p].dest < j + 1
    ensures var t := trace + WriteEvents(j, ws);
      TraceOrdered(t) && forall p :: 0 <= p < |t| ==> t[p].dest < j + 1
  {
    var es := WriteEvents(j, ws);
    var t := trace + es;
    assert forall k :: |trace| <= k < |t| ==> t[k] == es[k - |trace|];
  }

  /** Appending write events adds no Init call. */
  lemma AppendKeepsInits(trace: seq<Event>, j: nat, ws: seq<nat>)
    ensures forall i: nat :: InitCalled(i) in trace + WriteEvents(j, ws) <==> InitCalled(i) in trace
  {
    var es := WriteEvents(j, ws);
    var t := trace + es;
    assert forall k :: |trace| <= k < |t| ==> t[k] == es[k - |trace|];
  }

  /** After appending the writes of destination j, the trace lists the writes of the first j + 1 walks. */
  lemma AppendWrites(inj: Injector, trace: seq<Event>, dests: seq<Value>, j: nat, m: map<Record, seq<Field>>)
    requires j < |dests|
    requires forall i: nat, x: nat :: FieldWritten(i, x) in trace <==>
      i < j && x in SingleWritesOn(inj, dests[i], Before(m, dests[i]))
    ensures var t := trace + WriteEvents(j, SingleWritesOn(inj, dests[j], Before(m, dests[j])));
      forall i: nat, x: nat :: FieldWritten(i, x) in t <==>
        i < j + 1 && x in SingleWritesOn(inj, dests[i], Before(m, dests[i]))
  {
    var ws := SingleWritesOn(inj, dests[j], Before(m, dests[j]));
    var es := WriteEvents(j, ws);
    var t := trace + es;
    forall i: nat, x: nat ensures FieldWritten(i, x) in t <==>
      i < j + 1 && x in SingleWritesOn(inj, dests[i], Before(m, dests[i]))
    {
      if FieldWritten(i, x) in t && FieldWritten(i, x) !in trace {
        var p :| 0 <= p < |t| && t[p] == FieldWritten(i, x);
        assert t[p] == es[p - |trace|];
      }
      if i == j && x in ws {
        var k :| 0 <= k < |ws| && ws[k] == x;
        assert t[|trace| + k] == es[k];
      }
    }
  }

  /**
   * A failing Init wins: when Inject stops at a destination whose Init
   * fails, it reports that Init's error, never the error of the walk.
   */
  lemma InitErrorWins(inj: Injector, dests: seq<Value>, err: Option<WireError>, stop: nat, trace: seq<Event>,
                      m: map<Record, seq<Field>>, c: map<Record, nat>)
    requires stop <= |dests| && (err.None? <==> stop == |dests|)
    requires Injected(inj, dests, err, stop, trace, m, c)
    requires stop < |dests| && Hook(dests[stop]).Some? && Hook(dests[stop]).value.initError.Some?
    ensures err == Some(InitFailed(Hook(dests[stop]).value.initError.value))
    ensures forall x: nat :: FieldWritten(stop, x) !in trace
  {
  }

  /**
   * A destination whose Init fails stops Inject there or earlier: the
   * call reports an error, and no destination after it is processed.
   */
  lemma FailingInitStops(inj: Injector, dests: seq<Value>, err: Option<WireError>, stop: nat, trace: seq<Event>,
                         m: map<Record, seq<Field>>, c: map<Record, nat>, k: nat)
    requires stop <= |dests| && (err.None? <==> stop == |dests|)
    requires Injected(inj, dests, err, stop, trace, m, c)
    requires k < |dests| && Hook(dests[k]).Some? && Hook(dests[k]).value.initError.Some?
    ensures err.Some? && stop <= k
    ensures stop == k ==> err == Some(InitFailed(Hook(dests[k]).value.initError.value))
  {
  }

  /** Inject stops at destination j when its Init fails. */
  lemma InitStop(inj: Injector, dests: seq<Value>, j: nat, msg: string, trace: seq<Event>,
                 m: map<Record, seq<Field>>, c: map<Record, nat>)
    requires j < |dests| && dests[j] != Nil
    requires Hook(dests[j]).Some? && Hook(dests[j]).value.initError == Some(msg)
    requires Passed(inj, dests, j, m) && FieldsAt(inj, dests, j, m) && CallsAt(dests, j + 1, c)
    requires TraceUpTo(inj, trace, dests, j + 1, j, m)
    ensures Injected(inj, dests, Some(InitFailed(msg)), j, trace, m, c)
  {
  }

  /** Inject stops at destination j when its walk fails. */
  lemma WalkStop(inj: Injector, dests: seq<Value>, j: nat, err: Option<WireError>, trace: seq<Event>,
                 m: map<Record, seq<Field>>, c: map<Record, nat>)
    requires j < |dests| && dests[j] != Nil
    requires err == SingleErrorOn(inj, dests[j], Before(m, dests[j]))
    requires err.Some? && !err.value.InitFailed?
    requires Hook(dests[j]).Some? ==> Hook(dests[j]).value.initError.None?
    requires Passed(inj, dests, j, m) && FieldsAt(inj, dests, j + 1, m) && CallsAt(dests, j + 1, c)
    requires TraceUpTo(inj, trace, dests, j + 1, j + 1, m)
    ensures Injected(inj, dests, err, j, trace, m, c)
  {
  }

  /** A destination whose Init and walk succeed passes. */
  lemma PassStep(inj: Injector, dests: seq<Value>, j: nat, m: map<Record, seq<Field>>)
    requires j < |dests| && Passed(inj, dests, j, m)
    requires Hook(dests[j]).Some? ==> Hook(dests[j]).value.initError.None?
    requires SingleErrorOn(inj, dests[j], Before(m, dests[j])).None?
    ensures Passed(inj, dests, j + 1, m)
  {
  }
}
