/**
 * The decisions of injectSingle, as functions: what happens to one tagged
 * field (Check), the order in which its conditions are tested, and what the
 * field loop does to a whole struct (Walk, the field walk driven by Check).
 */
module Checks {
  import opened Reflection
  import opened Registry
  import opened FieldWalk

  /** The errors Inject can return, with the context each one carries. */
  datatype WireError =
    | ComponentNotFound(structName: string, fieldName: string, refName: string)
    | ComponentNotExported(structName: string, fieldName: string, refName: string)
    | PrivateField(structName: string, fieldName: string)
    | NotPointerOrInterface(structName: string, fieldName: string)
    | NotSettable(structName: string, fieldName: string)
    | NotAssignable(structName: string, fieldName: string, from: TypeId, to: TypeId)
    | InitFailed(message: string)                                  // Init's own error, unchanged
    | InternalWalkFailure(structName: string, fieldName: string)   // a recovered panic

  /**
   * The injector: the tag key, the reference as reflect.Indirect left it
   * (its fields, or None when that value is not a struct, so that every
   * lookup panics), and Go's AssignableTo relation between types.
   */
  datatype Injector = Injector(
    tag: string,
    reference: Option<seq<Field>>,
    assignable: (TypeId, TypeId) -> bool)

  /**
   * One iteration of the field loop of injectSingle, on a struct named
   * `structName` that is `addressable` or not: skip an untagged field,
   * otherwise run the checks in the source's order; the first that fails
   * decides the error, and a field that passes all of them receives the
   * component's value.
   */
  function Check(inj: Injector, structName: string, addressable: bool, f: Field): (s: Step<WireError>)
    ensures s.Skip? <==> TagGet(f, inj.tag) == ""
    ensures s.Assign? ==>
      inj.reference.Some? && RefFieldByName(inj.reference.value, TagGet(f, inj.tag)) == Found(s.value)
    ensures s.Assign? ==>
      |f.name| > 0 && IsUpperInitial(f.name) && f.kind in {Ptr, Interface} && addressable && f.exported
    ensures s.Assign? ==> TypeOf(s.value).Some? && inj.assignable(TypeOf(s.value).value, f.declType)
    ensures s.Fail? ==> !s.error.InitFailed? && s.error.structName == structName && s.error.fieldName == f.name
  {
    var refName := TagGet(f, inj.tag);
    if refName == "" then Skip
    else if inj.reference.None? then Fail(InternalWalkFailure(structName, f.name))
    else match RefFieldByName(inj.reference.value, refName)
      case NotFound => Fail(ComponentNotFound(structName, f.name, refName))
      case NotExported => Fail(ComponentNotExported(structName, f.name, refName))
      case Found(v) =>
        if |f.name| == 0 then Fail(InternalWalkFailure(structName, f.name))
        else if !IsUpperInitial(f.name) then Fail(PrivateField(structName, f.name))
        else if f.kind != Ptr && f.kind != Interface then Fail(NotPointerOrInterface(structName, f.name))
        else if !(addressable && f.exported) then Fail(NotSettable(structName, f.name))
        else match TypeOf(v)
          case None => Fail(InternalWalkFailure(structName, f.name))
          case Some(t) =>
            if !inj.assignable(t, f.declType) then Fail(NotAssignable(structName, f.name, t, f.declType))
            else Assign(v)
  }

  /**
   * The conditions a tagged field can violate, in the order the source tests
   * them.  ReferenceNotStruct, EmptyName and NilComponent are the panics the
   * walk recovers from.
   */
  datatype Rule =
    | ReferenceNotStruct | RefNotFound | RefNotExported | EmptyName | Private
    | WrongKind | ReadOnly | NilComponent | WrongType

  function Rank(r: Rule): nat
  {
    match r
    case ReferenceNotStruct => 0
    case RefNotFound => 1
    case RefNotExported => 2
    case EmptyName => 3
    case Private => 4
    case WrongKind => 5
    case ReadOnly => 6
    case NilComponent => 7
    case WrongType => 8
  }

  /** The component the tag names, when the lookup succeeds. */
  function Resolved(inj: Injector, f: Field): Option<Value>
  {
    if inj.reference.None? then None
    else match RefFieldByName(inj.reference.value, TagGet(f, inj.tag))
      case Found(v) => Some(v)
      case _ => None
  }

  /** Whether field f violates rule r, each rule judged on its own. */
  predicate Violated(inj: Injector, addressable: bool, f: Field, r: Rule)
  {
    match r
    case ReferenceNotStruct => inj.reference.None?
    case RefNotFound =>
      inj.reference.Some? && RefFieldByName(inj.reference.value, TagGet(f, inj.tag)).NotFound?
    case RefNotExported =>
      inj.reference.Some? && RefFieldByName(inj.reference.value, TagGet(f, inj.tag)).NotExported?
    case EmptyName => |f.name| == 0
    case Private => |f.name| > 0 && !IsUpperInitial(f.name)
    case WrongKind => f.kind != Ptr && f.kind != Interface
    case ReadOnly => !(addressable && f.exported)
    case NilComponent => Resolved(inj, f) == Some(Nil)
    case WrongType =>
      && Resolved(inj, f).Some?
      && Resolved(inj, f).value != Nil
      && !inj.assignable(TypeOf(Resolved(inj, f).value).value, f.declType)
  }

  /** The error that reports a violation of rule r. */
  function ErrorFor(inj: Injector, structName: string, f: Field, r: Rule): WireError
  {
    match r
    case RefNotFound => ComponentNotFound(structName, f.name, TagGet(f, inj.tag))
    case RefNotExported => ComponentNotExported(structName, f.name, TagGet(f, inj.tag))
    case Private => PrivateField(structName, f.name)
    case WrongKind => NotPointerOrInterface(structName, f.name)
    case ReadOnly => NotSettable(structName, f.name)
    case WrongType =>
      (if Resolved(inj, f).Some? && TypeOf(Resolved(inj, f).value).Some?
       then NotAssignable(structName, f.name, TypeOf(Resolved(inj, f).value).value, f.declType)
       else InternalWalkFailure(structName, f.name))
    case _ => InternalWalkFailure(structName, f.name)
  }

  /** The violated rule of lowest rank, when there is one. */
  function FirstViolated(inj: Injector, addressable: bool, f: Field): (r: Option<Rule>)
    ensures r.Some? ==> Violated(inj, addressable, f, r.value)
    ensures r.None? ==> forall q :: !Violated(inj, addressable, f, q)
    ensures r.Some? ==> forall q :: Rank(q) < Rank(r.value) ==> !Violated(inj, addressable, f, q)
  {
    if Violated(inj, addressable, f, ReferenceNotStruct) then Some(ReferenceNotStruct)
    else if Violated(inj, addressable, f, RefNotFound) then Some(RefNotFound)
    else if Violated(inj, addressable, f, RefNotExported) then Some(RefNotExported)
    else if Violated(inj, addressable, f, EmptyName) then Some(EmptyName)
    else if Violated(inj, addressable, f, Private) then Some(Private)
    else if Violated(inj, addressable, f, WrongKind) then Some(WrongKind)
    else if Violated(inj, addressable, f, ReadOnly) then Some(ReadOnly)
    else if Violated(inj, addressable, f, NilComponent) then Some(NilComponent)
    else if Violated(inj, addressable, f, WrongType) then Some(WrongType)
    else None
  }

  /**
   * Check order: a tagged field is assigned exactly when it violates no
   * rule; otherwise the error is the one for the violated rule of lowest
   * rank, whatever else is wrong with the field.
   */
  lemma CheckReportsFirstViolation(inj: Injector, structName: string, addressable: bool, f: Field)
    requires TagGet(f, inj.tag) != ""
    ensures Check(inj, structName, addressable, f).Assign? <==> forall r :: !Violated(inj, addressable, f, r)
    ensures Check(inj, structName, addressable, f).Fail? ==>
      exists r ::
        && Violated(inj, addressable, f, r)
        && Check(inj, structName, addressable, f).error == ErrorFor(inj, structName, f, r)
        && forall q :: Rank(q) < Rank(r) ==> !Violated(inj, addressable, f, q)
  {
    var first := FirstViolated(inj, addressable, f);
    if inj.reference.Some? {
      var lk := RefFieldByName(inj.reference.value, TagGet(f, inj.tag));
      if lk.Found? {
        assert Resolved(inj, f) == Some(lk.value);
      }
    }
    if first.Some? {
      assert Check(inj, structName, addressable, f) == Fail(ErrorFor(inj, structName, f, first.value));
    }
  }

  /** Check never looks at the field's current value. */
  lemma CheckIgnoresValue(inj: Injector, structName: string, addressable: bool, f: Field, g: Field)
    requires SameDeclaration(f, g)
    ensures Check(inj, structName, addressable, f) == Check(inj, structName, addressable, g)
  {
    assert f.name == g.name && f.tags == g.tags && f.kind == g.kind;
    assert f.exported == g.exported && f.declType == g.declType;
  }

  /** Check, as the step of the field walk of one struct. */
  function StepOf(inj: Injector, structName: string, addressable: bool): Field -> Step<WireError>
  {
    f => Check(inj, structName, addressable, f)
  }

  /** The field loop of injectSingle over the fields `fs` of one struct. */
  function Walk(inj: Injector, structName: string, addressable: bool, fs: seq<Field>): Walked<WireError>
  {
    WalkWith(StepOf(inj, structName, addressable), fs)
  }

  lemma StepIgnoresValue(inj: Injector, structName: string, addressable: bool)
    ensures var step := StepOf(inj, structName, addressable);
      forall f, g :: SameDeclaration(f, g) ==> step(f) == step(g)
  {
    forall f, g | SameDeclaration(f, g)
      ensures Check(inj, structName, addressable, f) == Check(inj, structName, addressable, g)
    {
      CheckIgnoresValue(inj, structName, addressable, f, g);
    }
  }

  /** Untagged fields keep their value. */
  lemma WalkKeepsUntagged(inj: Injector, structName: string, addressable: bool, fs: seq<Field>, i: nat)
    requires i < |fs| && TagGet(fs[i], inj.tag) == ""
    ensures Walk(inj, structName, addressable, fs).fields[i] == fs[i]
  {
    WalkEffect(StepOf(inj, structName, addressable), fs);
  }

  /**
   * Identity sharing: a field the walk changed now holds exactly the value
   * of the reference member its tag names, and nothing else of it changed;
   * when the walk succeeds, every tagged field that passes its checks holds
   * that value.
   */
  lemma WalkSharesComponents(inj: Injector, structName: string, addressable: bool, fs: seq<Field>, i: nat)
    requires i < |fs|
    ensures var w := Walk(inj, structName, addressable, fs);
      w.fields[i] != fs[i] ==>
        && inj.reference.Some?
        && RefFieldByName(inj.reference.value, TagGet(fs[i], inj.tag)) == Found(w.fields[i].value)
        && w.fields[i] == fs[i].(value := w.fields[i].value)
    ensures var w := Walk(inj, structName, addressable, fs);
      w.err.None? && Check(inj, structName, addressable, fs[i]).Assign? ==>
        RefFieldByName(inj.reference.value, TagGet(fs[i], inj.tag)) == Found(w.fields[i].value)
  {
    WalkEffect(StepOf(inj, structName, addressable), fs);
  }

  /**
   * Fail-fast: a walk that ends in an error stopped at a field whose check
   * failed with that error; the fields before it passed their checks and
   * the failing field and all later ones are unchanged.
   */
  lemma WalkFailsFast(inj: Injector, structName: string, addressable: bool, fs: seq<Field>)
    requires Walk(inj, structName, addressable, fs).err.Some?
    ensures exists k ::
      && 0 <= k < |fs|
      && Check(inj, structName, addressable, fs[k]) == Fail(Walk(inj, structName, addressable, fs).err.value)
      && (forall j :: 0 <= j < k ==> !Check(inj, structName, addressable, fs[j]).Fail?)
      && Walk(inj, structName, addressable, fs).fields[k..] == fs[k..]
  {
    var step := StepOf(inj, structName, addressable);
    WalkEffect(step, fs);
    var k := FirstFailure(step, fs);
    assert WalkWith(step, fs).fields[k..] == fs[k..];
  }

  /** A walk succeeds exactly when no field fails its checks. */
  lemma WalkSucceeds(inj: Injector, structName: string, addressable: bool, fs: seq<Field>)
    ensures Walk(inj, structName, addressable, fs).err.None? <==>
      forall i :: 0 <= i < |fs| ==> !Check(inj, structName, addressable, fs[i]).Fail?
  {
    WalkEffect(StepOf(inj, structName, addressable), fs);
  }

  /**
   * Injecting the same struct twice is harmless: walking the fields a walk
   * produced changes nothing and reports the same error.
   */
  lemma WalkTwice(inj: Injector, structName: string, addressable: bool, fs: seq<Field>)
    ensures var w := Walk(inj, structName, addressable, fs);
      Walk(inj, structName, addressable, w.fields) == w
  {
    StepIgnoresValue(inj, structName, addressable);
    WalkIdempotent(StepOf(inj, structName, addressable), fs);
  }

  /** The error and the written fields of a walk do not depend on current values. */
  lemma WalkIgnoresValues(inj: Injector, structName: string, addressable: bool, fs: seq<Field>, gs: seq<Field>)
    requires |gs| == |fs| && forall i :: 0 <= i < |fs| ==> SameDeclaration(gs[i], fs[i])
    ensures Walk(inj, structName, addressable, gs).err == Walk(inj, structName, addressable, fs).err
    ensures Walk(inj, structName, addressable, gs).written == Walk(inj, structName, addressable, fs).written
  {
    StepIgnoresValue(inj, structName, addressable);
    WalkDeclarationsOnly(StepOf(inj, structName, addressable), fs, gs);
  }

  /**
   * A struct that is not addressable (passed by value, or held in an
   * interface) is never changed: every tagged field that passes the earlier
   * checks fails CanSet.
   */
  lemma WalkByValueKeepsFields(inj: Injector, structName: string, fs: seq<Field>)
    ensures Walk(inj, structName, false, fs).fields == fs
    ensures Walk(inj, structName, false, fs).written == []
  {
    WalkWithoutAssign(StepOf(inj, structName, false), fs);
  }

  /**
   * Aliasing: walk a struct whose fields are either its original ones or
   * what one walk through a pointer made of them.  The result is again at
   * most one walk through a pointer, and the error and the written fields
   * are those of walking the original fields.
   */
  lemma WalkAgain(inj: Injector, structName: string, addressable: bool, orig: seq<Field>, walked: bool)
    ensures var cur := if walked then Walk(inj, structName, true, orig).fields else orig;
      var w := Walk(inj, structName, addressable, cur);
      && w.fields == (if walked || addressable then Walk(inj, structName, true, orig).fields else orig)
      && w.err == Walk(inj, structName, addressable, orig).err
      && w.written == Walk(inj, structName, addressable, orig).written
  {
    var cur := if walked then Walk(inj, structName, true, orig).fields else orig;
    if walked {
      WalkKeepsDeclarations(StepOf(inj, structName, true), orig);
      WalkIgnoresValues(inj, structName, addressable, orig, cur);
      if addressable {
        WalkTwice(inj, structName, true, orig);
      } else {
        WalkByValueKeepsFields(inj, structName, cur);
      }
    } else if !addressable {
      WalkByValueKeepsFields(inj, structName, orig);
    }
  }
}
