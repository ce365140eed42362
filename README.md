# simplewire, modelled in Dafny

simplewire is a small dependency-injection library for Go. A *reference*
struct holds the components of a program. Connect wires every exported
component of it to the others. Inject wires any further destination the
same way.

The wiring walks a destination struct field by field. A field tagged with
the injector's tag key (`component:"db"`) names a member of the reference.
That member is looked up by its name, ignoring letter case. It is then
assigned to the field, after checks for:

- export;
- a pointer or interface kind;
- settability;
- assignability.

A destination whose pointer type implements `Initializable` has its `Init`
run first. The first error ends the call, with no rollback.

The model has six modules:

- `Reflection` (reflection.dfy): the view of Go values the engine gets
  through reflect.
  - Values have pointer and interface layers.
  - Struct fields carry their tags.
  - `Record` is a class for structs in memory. The engine overwrites its
    `fields` in place, and its `Init` hook counts its calls.
  - `Dereference` is the Elem-following loop. It reports whether the struct
    it reaches is addressable.
- `Registry` (registry.dfy): the reference as a registry of components.
  - `RefFieldByName` is the case-insensitive lookup.
  - `GetFields` collects the exported member values.
- `FieldWalk` (walk.dfy): the shape of the field loop of injectSingle, for
  any per-field step. Fields are visited in declaration order; each is
  skipped, assigned or rejected; the first rejection ends the loop.
- `Checks` (checks.dfy): the decision for one field (`Check`), in the
  source's order of tests, and the field walk it drives (`Walk`), with
  what the walk guarantees.
- `Injection` (inject.dfy): the engine as methods that change the records.
  - `InjectSingle` is proved against `Walk`.
  - `Inject` is proved against a description of its whole outcome. That
    description covers the error and where it stopped, the fields of every
    struct, the count of Init calls, and a ghost trace that orders Init
    calls before field writes.
  - `Connect` builds the injector and injects the reference's members.
- `Scenario` (scenario.dfy): the repository's two tests, restated on the model.
  - Connect wires Users, AccountsS and MockDB to each other.
  - The returned injector then wires a later `Thing` to the same pointers.

The injector is the datatype `Checks.Injector`, the `injector` struct at
simplewire.go:30-33. It holds the tag key and the reference as
reflect.Indirect left it. Go's type relation `AssignableTo` is a further
parameter of the injector. The scenario gives the concrete relation among
the tests' types.

## Model

| member | source | states |
|---|---|---|
| Reflection.TypeOf | simplewire.go:92-100 | A value has a dynamic type exactly when it is not the zero Value; the type of the zero Value is where `refFieldValue.Type()` panics. |
| Reflection.TagGet | simplewire.go:76 | StructTag.Get on tags given already parsed: the value under the injector's key, or "" when the field has no such tag. An empty result is what makes the loop skip the field (Checks.Check). |
| Reflection.Lower | simplewire.go:115-117 | strings.ToLower for ASCII: turns 'A'..'Z' into 'a'..'z' and keeps every other character, keeping the length. Both the tag and every member name go through it before being compared. |
| Reflection.IsUpperInitial | simplewire.go:94 | unicode.IsUpper on the first byte of a non-empty field name, for ASCII letters. Check assigns a field only when this holds. |
| Reflection.Record.Init | simplewire.go:13-15 | The Initializable hook returns the struct's own Init error, counts one call, and touches no field. |
| Reflection.Stripped | simplewire.go:141-150 | Following Elem ends at a struct or another non-pointer, non-interface value on the chain, or reaches the zero Value. |
| Reflection.Dereference | simplewire.go:141-150 | The loop ends at the first value on the Elem chain that is neither a pointer nor an interface, or reports the nil it ran into. The result is addressable exactly when the last Elem taken was a pointer's. |
| Registry.FirstMatch | simplewire.go:116-118 | Finds the first field at or after a position whose lower-cased name matches; no earlier field matches, and None means no field matches. |
| Registry.RefFieldByName | simplewire.go:114-125 | Lower-cases the tag and each member name, and cancels matches found at the same depth. A Found value is that of an exported member whose name matches ignoring case. NotExported means a matching member is unexported. LookupOutcomes states all three outcomes exactly. |
| Registry.LookupOutcomes | simplewire.go:114-125 | Found holds exactly when one field, and only one, matches the name ignoring case and it is exported; the value is that field's. NotExported holds exactly when the only match is unexported. NotFound holds exactly when there is no match or more than one. |
| Registry.LookupIgnoresCase | simplewire.go:115-117 | Two names equal under lower-casing get the same lookup outcome. |
| Registry.DbSpellingsAgree | simplewire.go:115-117 | "db", "DB" and "Db" resolve to the same component. |
| Registry.LookupMatchingField | simplewire.go:116-124 | With names distinct under lower-casing, a matching field is found when exported and NotExported otherwise. |
| Registry.AmbiguousNameNotFound | simplewire.go:116-120 | Two fields whose names agree ignoring case hide each other, and the lookup reports not found. |
| Registry.ExportedValues | simplewire.go:131-138 | The collected values are never more than the fields. |
| Registry.ExportedValuesMembers | simplewire.go:132-137 | A value is collected exactly when some exported field holds it. |
| Registry.ExportedValuesSplit | simplewire.go:132-137 | Collection keeps declaration order: the values of earlier fields come before those of later ones. |
| Registry.GetFields | simplewire.go:128-139 | Returns values exactly when dereference reaches a struct; the values are those of its exported fields, in order. Otherwise it reports the panic that escapes. |
| FieldWalk.WalkWith | simplewire.go:72-104 | The loop keeps the number of fields. |
| FieldWalk.WalkKeepsDeclarations | simplewire.go:72-104 | Every field keeps its declaration (name, tags, kind, type, export); only current values can change. |
| FieldWalk.FirstFailure | simplewire.go:72-104 | Finds the position of the first rejected field: no field before it is rejected, and it is rejected when it is in range. |
| FieldWalk.WalkEffect | simplewire.go:72-104 | The error is that of the first rejected field, or none. Fields before it have their step applied; it and all later fields are unchanged. The written indices increase and are exactly the assigned fields before it. |
| FieldWalk.WalkDeclarationsOnly | simplewire.go:72-104 | When a step looks only at declarations, two field lists with the same declarations give the same error and the same written fields. |
| FieldWalk.WalkIdempotent | simplewire.go:72-104 | Walking again the fields a walk produced gives the same result. |
| FieldWalk.WalkWithoutAssign | simplewire.go:72-104 | A walk in which no step assigns changes no field and writes nothing. |
| FieldWalk.WalkLoopStep | simplewire.go:72-103 | One pass of the loop on a field that is not rejected turns "walked prefix + untouched rest" into the same with one more field, and records the write. |
| FieldWalk.WalkFailsAt | simplewire.go:81-102 | A rejected field after a successful prefix ends the walk with its error and is kept as it was. |
| FieldWalk.WalkAfterStop | simplewire.go:72-102 | Returning at a rejected field leaves what the whole walk would: the walked prefix, the untouched rest, and that field's error. |
| Checks.Check | simplewire.go:76-103 | An untagged field is skipped. An assigned field holds exactly the value the lookup found. It passed every test: public name, pointer or interface kind, settable (struct addressable and field exported), a non-nil component assignable to the declared type. A failure names the struct and the field and is never an Init error. |
| Checks.FirstViolated | simplewire.go:81-102 | Finds the lowest-ranked rule the field violates, or reports that it violates none. |
| Checks.Walk | simplewire.go:72-104 | The field loop of injectSingle: the generic walk with Check as its step. WalkEffect, WalkFailsFast, WalkSucceeds and WalkSharesComponents state what it does. |
| Checks.CheckReportsFirstViolation | simplewire.go:81-103 | A tagged field is assigned exactly when it violates no rule. Otherwise the error is the one for its violated rule of lowest rank, whatever else is wrong with it. |
| Checks.CheckIgnoresValue | simplewire.go:73-102 | The decision for a field depends on its declaration only, never on its current value. |
| Checks.WalkKeepsUntagged | simplewire.go:76-79 | A field without the tag key keeps its value. |
| Checks.WalkSharesComponents | simplewire.go:81-103 | A field the walk changed now holds the very value the reference member it names holds, and nothing else of it changed. When the walk succeeds, every field that passes its checks holds that member. |
| Checks.WalkFailsFast | simplewire.go:81-102 | A failing walk stopped at a field whose check failed with that error. Every field before it passed, and it and all later fields are unchanged. |
| Checks.WalkSucceeds | simplewire.go:72-106 | A walk succeeds exactly when no field fails its checks. |
| Checks.WalkTwice | simplewire.go:72-104 | Injecting the same struct a second time changes nothing and reports the same error. |
| Checks.WalkIgnoresValues | simplewire.go:72-104 | The error and the written fields do not depend on the fields' current values. |
| Checks.WalkByValueKeepsFields | simplewire.go:98-99 | A struct that is not addressable (passed by value, or held in an interface) is never changed: no field is written. |
| Checks.WalkAgain | simplewire.go:55-107 | Walking a struct that has already been walked through another alias gives at most one walk through a pointer of its original fields. The error and the writes are those of the original fields. |
| Injection.InjectSingle | simplewire.go:55-107 | Dereferences the destination. A nil on the way is a recovered failure; a non-struct is left alone with no error. For a struct, the error, the written indices and the new fields are exactly those of `Walk` over the fields before the call. |
| Injection.WriteEvents | simplewire.go:103 | One write event per written field, in order. |
| Injection.Hook | simplewire.go:41 | The type assertion `d.(Initializable)`: a destination has an Init hook exactly when it is a pointer to a struct whose pointer type implements Initializable, and the hook runs on that struct. |
| Injection.Injected | simplewire.go:36-53 | The outcome of Inject. It stops at the first non-nil destination whose Init fails (that Init's error) or whose walk fails (that walk's error, its Init having succeeded). Every earlier destination passed. The fields, the Init counts and the trace are those of the destinations processed, with no rollback. |
| Injection.Inject | simplewire.go:36-53 | The outcome is `Injected` over the fields and Init counts before the call. Inject stops at the first destination that fails. If that destination's Init failed, the error is Init's. Otherwise its Init (if any) succeeded and the error is the walk's. Every earlier destination passed. Fields, Init counts and the trace cover exactly the destinations processed. |
| Injection.InitErrorWins | simplewire.go:41-47 | When Inject stops at a destination whose Init fails, it reports that Init's error, and the trace holds no field write for that destination. |
| Injection.FailingInitStops | simplewire.go:37-46 | A destination whose Init fails makes Inject report an error, stopping at that destination or an earlier one; stopping at it means reporting its Init's error. |
| Injection.InjectDestination | simplewire.go:37-51 | Nil is skipped. Init runs first and its error returns at once. Otherwise the walk's error returns at once. A destination that passes extends everything to one more index. |
| Injection.RunInit | simplewire.go:41-46 | Init of destination j returns the hook's own error; that struct's Init count grows by one and the trace records the call after everything earlier. |
| Injection.InitStop | simplewire.go:41-45 | A failing Init at destination j, with no field of j written, is an outcome `Injected` describes: stop at j with Init's error (InitErrorWins shows it is the only one). |
| Injection.WalkStop | simplewire.go:42-50 | When Init (if any) succeeded and the walk fails, Inject stops at that destination with the walk's error, keeping the fields already written. |
| Injection.PassStep | simplewire.go:37-51 | A destination whose Init (if any) and walk both succeed counts as passed. |
| Injection.WalkDestination | simplewire.go:47-50 | The error is that of walking the destination's fields as they were before Inject began, even if an earlier destination aliases it. The new state covers one more destination. |
| Injection.SingleErrorNotInit | simplewire.go:55-107 | injectSingle never reports an Init error. |
| Injection.Indirect | simplewire.go:21 | reflect.Indirect: a pointer gives the value it points at, and any other value is returned as it is. |
| Injection.ReferenceFields | simplewire.go:21 | The reference the injector keeps: the fields of the struct Indirect leaves, or nothing when Indirect leaves something else, so that every later lookup panics. |
| Injection.Members | simplewire.go:22 | The arguments Connect passes to Inject: getFields of the reference, that is its exported member values in order, when the reference leads to a struct. |
| Injection.InjectSucceeds | simplewire.go:36-53 | Inject reports no error exactly when every destination is nil, or has an Init that succeeds and a walk that finds no error. |
| Injection.InjectedAll | simplewire.go:36-53 | After a successful Inject, each struct holds one walk through a pointer of its original fields if some destination reaches it through a pointer, and is unchanged otherwise. Its Init ran once per destination hooking it. |
| Injection.Connect | simplewire.go:20-23 | Panics exactly when the reference does not lead to a struct. Otherwise the injector keeps the tag and the reference's fields, with one pointer layer taken off by Indirect, and the error is that of injecting the reference's exported members, with the full Inject outcome. |
| Scenario.LowerNames | simplewire_test.go:14-15 | The component names and the tags agree after lower-casing. |
| Scenario.ComponentLookups | simplewire_test.go:14-15 | Each tag of the tests finds the pointer the components struct holds. |
| Scenario.TaggedAssigns | simplewire.go:94-103 | A tagged public pointer or interface field naming a component of an assignable type receives that component. |
| Scenario.UsersWalk | simplewire_test.go:13-17 | Walking a *Users succeeds and sets Accounts and DB to the components' pointers, leaving `initialized` alone. |
| Scenario.AccountsWalk | simplewire_test.go:28-31 | Walking a *AccountsS succeeds and sets Users and DB to the components' pointers. |
| Scenario.ThingWalk | simplewire_test.go:70-75 | Walking a *Thing succeeds and sets Users and Accounts to the components' pointers. |
| Scenario.ComponentsPass | simplewire_test.go:47-48 | All three components pass: Users' Init succeeds and no walk finds an error. |
| Scenario.ComponentsWired | simplewire_test.go:50-55 | After the walks, Users and AccountsS hold the very pointers of the components struct. |
| Scenario.ComponentsInjected | simplewire_test.go:47-55 | Injecting the three components succeeds. Users' Init ran once, and each component holds the others' pointers. |
| Scenario.NewComponents | simplewire_test.go:42-46 | The components struct holds pointers to fresh, zero valued Users, AccountsS and MockDB. |
| Scenario.ConnectWired | simplewire_test.go:47-55 | Connect on that struct returns no error. Users' Init ran once, and Users and AccountsS hold the very pointers of the components struct. |
| Scenario.ConnectComponents | simplewire_test.go:41-56 | TestConnect: Connect on the components struct passed by value returns no error. Users' Init ran once. Users and AccountsS hold the same pointers as the components struct. |
| Scenario.ThingInjected | simplewire_test.go:77-81 | Injecting a pointer to a fresh Thing with the Connect injector succeeds, and Thing holds the components' pointers. |
| Scenario.InjectThing | simplewire_test.go:59-81 | TestInject: Connect's injector wires a later Thing with the same Users and Accounts pointers, with no error, and Users' Init is not run again. |

## Left out

- Duplicate component names follow the code rather than a "first declared match wins" reading: when several reference members match a tag ignoring case, reflect.FieldByNameFunc cancels them, and the lookup reports not found.
- Embedded (anonymous) fields of the reference are not searched. The lookup looks only at the reference's own top-level fields; reflect's breadth-first descent into embedded structs is not modelled.
- Case folding is ASCII only. `Lower` and `IsUpperInitial` treat only 'A'..'Z' as upper case; Unicode letters and multi-byte names are not modelled.
- Struct tags are given already parsed, as a map from key to value. Parsing the tag string with StructTag.Get is not modelled.
- `AssignableTo` and the dynamic type names are inputs, not derived from Go's type system.
- Error messages are not modelled as strings: each error is a constructor carrying the struct name, the field name, the component name or the types.
- Recovered panics become `InternalWalkFailure`. They come from a nil on the dereference path, a reference that is not a struct, an empty field name, or a nil-interface component. The Go runtime's panic values are not modelled.
- Connect: the panic of getFields on a reference that is not a struct escapes, and is modelled as the `Panicked` outcome rather than a crash.
- Connect: the injector keeps a snapshot of the reference's fields at Connect. In Go it keeps a reflect.Value, which sees later changes to the reference struct when it was passed by pointer. The model departs from Go when that reference struct, passed by pointer, is itself a destination of Inject (or is reached by one through a member that points back at it): Go's later lookups see the fields Inject wrote into it, the model's see the fields it had at Connect.
- Reflection.Record.Init: Init is modelled only by its call count and its error. Every call returns the same error, because `initError` is a const of the record. An Init whose result changes from call to call is not modelled. That covers a pointer given twice to one Inject, and a component injected again after Connect. So InjectSucceeds, FailingInitStops and InitErrorWins speak of "a struct whose Init fails" as a fixed property. The component's own initialisation work (the tests' `initialized` flag) is not modelled. Init methods with a value receiver, or on a nil pointer receiver, are not modelled: only a pointer to a struct whose pointer type implements Initializable has a hook.
- Record fields are `seq<Field>` values reassigned one slot at a time, not Go memory. Two destinations alias exactly when they reach the same `Record`.
- Concurrency: Inject is not synchronised. The model is sequential.
- The mock database and account lookups in the test file (`AccountsByUser` and the like) are outside the wiring engine and are not modelled.
