/**
 * The view of Go values that the wiring engine gets through reflection:
 * values with their pointer and interface layers, struct fields with their
 * tags, and the structs that destinations point at, whose fields the engine
 * overwrites in place.
 */
module Reflection {

  datatype Option<+T> = None | Some(value: T)

  /** A Go type, by its printed name ("*Users", "Database"). */
  type TypeId = string

  /** The kinds of reflect.Kind that the engine tells apart. */
  datatype Kind = Ptr | Interface | Struct | Other

  /**
   * A value as reflect.ValueOf sees it.  `Nil` is the zero reflect.Value: what
   * ValueOf gives for a nil interface{}, and what Elem gives for a nil pointer
   * or a nil interface.  A pointer to a struct is identified by the struct's
   * record, so two pointers are equal exactly when they point at the same
   * struct.
   */
  datatype Value =
    | Nil
    | PointerTo(ty: TypeId, elem: Value)     // elem == Nil: the nil pointer of type ty
    | InterfaceOf(ty: TypeId, elem: Value)   // an interface variable reached through a pointer
    | StructOf(rec: Record)
    | Scalar(ty: TypeId)                     // a value of any other kind

  /** Value.Type(): the dynamic type; the zero Value has none (Type() panics). */
  function TypeOf(v: Value): (t: Option<TypeId>)
    ensures t.None? <==> v.Nil?
  {
    match v
    case Nil => None
    case PointerTo(ty, _) => Some(ty)
    case InterfaceOf(ty, _) => Some(ty)
    case StructOf(rec) => Some(rec.typeName)
    case Scalar(ty) => Some(ty)
  }

  /**
   * One field of a struct as reflect exposes it.  `tags` is the parsed struct
   * tag (key to value); `kind` and `declType` describe the declared type;
   * `exported` says the field is exported, so that CanInterface holds on it
   * (and CanSet, when the struct is addressable); `value` is what
   * field.Interface() yields (for an interface-typed field, the dynamic value
   * it holds, Nil when it is nil).
   */
  datatype Field = Field(
    name: string,
    tags: map<string, string>,
    kind: Kind,
    declType: TypeId,
    exported: bool,
    value: Value)

  /** StructTag.Get: the value under `key`, or "" when the key is absent. */
  function TagGet(f: Field, key: string): string
  {
    if key in f.tags then f.tags[key] else ""
  }

  /** Two fields that differ at most in their current value. */
  predicate SameDeclaration(f: Field, g: Field)
  {
    f.(value := g.value) == g
  }

  /**
   * A struct in memory.  Its fields are overwritten in place by the engine;
   * its declaration (type name, field names, tags, kinds) never changes.
   * `hasInit` says that the pointer type of this struct implements
   * Initializable; `initCalls` counts the calls of its Init method.
   */
  class Record {
    const typeName: string
    const hasInit: bool
    const initError: Option<string>
    var fields: seq<Field>
    var initCalls: nat

    constructor (typeName: string, fields: seq<Field>, hasInit: bool, initError: Option<string>)
      ensures this.typeName == typeName && this.fields == fields
      ensures this.hasInit == hasInit && this.initError == initError
      ensures initCalls == 0
    {
      this.typeName := typeName;
      this.fields := fields;
      this.hasInit := hasInit;
      this.initError := initError;
      this.initCalls := 0;
    }

    /**
     * The Initializable hook.  It returns this struct's `initError` (None
     * for a nil error), counts the call and leaves the fields alone.
     */
    method Init() returns (err: Option<string>)
      requires hasInit
      modifies this`initCalls
      ensures initCalls == old(initCalls) + 1
      ensures err == initError
    {
      initCalls := initCalls + 1;
      err := initError;
    }
  }

  /** `w` is `v` or is reached from `v` by Elem on pointer and interface layers. */
  predicate ElemReaches(v: Value, w: Value)
  {
    v == w || ((v.PointerTo? || v.InterfaceOf?) && ElemReaches(v.elem, w))
  }

  /**
   * What `dereference` ends with: the first value on the Elem chain that is
   * neither a pointer nor an interface, or None when the chain runs into the
   * zero Value (a nil pointer or interface), where Type() panics.
   */
  function Stripped(v: Value): (r: Option<Value>)
    ensures r.Some? ==> r.value.StructOf? || r.value.Scalar?
    ensures r.Some? ==> ElemReaches(v, r.value)
    ensures r.None? ==> ElemReaches(v, Nil)
  {
    match v
    case Nil => None
    case PointerTo(_, e) => Stripped(e)
    case InterfaceOf(_, e) => Stripped(e)
    case _ => Some(v)
  }

  /**
   * Whether the value `dereference` ends with was reached by the Elem of a
   * pointer, which is what makes it addressable (the Elem of an interface is
   * a copy, and a value that is not dereferenced at all is a copy too).
   */
  predicate ReachedThroughPointer(v: Value)
  {
    match v
    case PointerTo(_, e) => if e.PointerTo? || e.InterfaceOf? then ReachedThroughPointer(e) else true
    case InterfaceOf(_, e) => (e.PointerTo? || e.InterfaceOf?) && ReachedThroughPointer(e)
    case _ => false
  }

  /**
   * The loop of `dereference`: follow Elem while the kind is Ptr or
   * Interface.  `addressable` is the flag reflect keeps on the result.
   */
  method Dereference(v: Value) returns (r: Option<Value>, addressable: bool)
    ensures r == Stripped(v)
    ensures r.Some? ==> !r.value.PointerTo? && !r.value.InterfaceOf? && !r.value.Nil?
    ensures r.Some? ==> addressable == ReachedThroughPointer(v)
  {
    var cur := v;
    addressable := false;
    while true
      invariant Stripped(cur) == Stripped(v)
      invariant if cur.PointerTo? || cur.InterfaceOf? then ReachedThroughPointer(cur) == ReachedThroughPointer(v)
                else addressable == ReachedThroughPointer(v)
      decreases cur
    {
      if cur.Nil? {
        return None, addressable;
      }
      if cur.PointerTo? || cur.InterfaceOf? {
        addressable := cur.PointerTo?;
        cur := cur.elem;
      } else {
        return Some(cur), addressable;
      }
    }
  }

  /** The value dereference ends with already exists. */
  lemma StrippedAllocated(v: Value)
    ensures Stripped(v).Some? ==> allocated(Stripped(v).value)
  {
  }

  /** strings.ToLower on one character, ASCII letters only. */
  function LowerChar(c: char): char
  {
    if 'A' <= c <= 'Z' then (c as int + 32) as char else c
  }

  /** strings.ToLower, ASCII letters only. */
  function Lower(s: string): string
  {
    seq(|s|, i requires 0 <= i < |s| => LowerChar(s[i]))
  }

  /** unicode.IsUpper on the first byte of a name, ASCII letters only. */
  predicate IsUpperInitial(name: string)
    requires |name| > 0
  {
    'A' <= name[0] <= 'Z'
  }
}
