/**
 * The wiring of the repository's own tests, proved on the model: a Users
 * component that needs Accounts and a Database, an AccountsS that needs
 * Users and a Database, and a MockDB that needs nothing.  Connect wires
 * them to each other through the pointers the components struct holds,
 * and the injector it returns wires a later struct the same way.
 */
module Scenario {
  import opened Reflection
  import opened Registry
  import opened FieldWalk
  import opened Checks
  import opened Injection

  /**
   * reflect's AssignableTo among the tests' types: identical types, or a
   * type that implements the interface.
   */
  function Assignable(from: TypeId, to: TypeId): bool
  {
    || from == to
    || (from in {"*AccountsS", "AccountsS"} && to == "Accounts")
    || (from in {"*MockDB", "MockDB"} && to == "Database")
  }

  /** An exported field carrying the component tag, at its zero value. */
  function Tagged(tag: string, name: string, kind: Kind, declType: TypeId, refName: string): Field
  {
    Field(name, map[tag := refName], kind, declType, true, if kind == Ptr then PointerTo(declType, Nil) else Nil)
  }

  /** Users{Accounts `accounts`, DB `db`, initialized}, zero-valued. */
  function UsersFields(tag: string): seq<Field>
  {
    [ Tagged(tag, "Accounts", Interface, "Accounts", "accounts"),
      Tagged(tag, "DB", Interface, "Database", "db"),
      Field("initialized", map[], Other, "bool", false, Scalar("bool")) ]
  }

  /** AccountsS{Users *Users `users`, DB `db`}, zero-valued. */
  function AccountsFields(tag: string): seq<Field>
  {
    [ Tagged(tag, "Users", Ptr, "*Users", "users"),
      Tagged(tag, "DB", Interface, "Database", "db") ]
  }

  /** Thing{Users *Users `users`, Accounts `accounts`}, zero-valued. */
  function ThingFields(tag: string): seq<Field>
  {
    [ Tagged(tag, "Users", Ptr, "*Users", "users"),
      Tagged(tag, "Accounts", Interface, "Accounts", "accounts") ]
  }

  /** Components{Users: &Users{}, Accounts: &AccountsS{}, DB: &MockDB{}}. */
  function ComponentFields(users: Record, accounts: Record, db: Record): seq<Field>
  {
    [ Field("Users", map[], Ptr, "*Users", true, PointerTo("*Users", StructOf(users))),
      Field("Accounts", map[], Interface, "Accounts", true, PointerTo("*AccountsS", StructOf(accounts))),
      Field("DB", map[], Interface, "Database", true, PointerTo("*MockDB", StructOf(db))) ]
  }

  /** The injector Connect builds from the components struct. */
  function TestInjector(tag: string, users: Record, accounts: Record, db: Record): Injector
  {
    Injector(tag, Some(ComponentFields(users, accounts, db)), Assignable)
  }

  /**
   * The three component structs as the tests declare them: distinct
   * structs of types Users (whose pointer implements Initializable, with an
   * Init that succeeds), AccountsS and MockDB.
   */
  predicate Declared(users: Record, accounts: Record, db: Record)
  {
    && users.typeName == "Users" && users.hasInit && users.initError.None?
    && accounts.typeName == "AccountsS" && !accounts.hasInit
    && db.typeName == "MockDB" && !db.hasInit
    && users != accounts && users != db && accounts != db
  }

  /** The names and tags, lower-cased. */
  lemma LowerNames()
    ensures Lower("Users") == "users" == Lower("users")
    ensures Lower("Accounts") == "accounts" == Lower("accounts")
    ensures Lower("DB") == "db" == Lower("db")
  {
  }

  /** The components' names stay apart under lower-casing. */
  lemma ComponentNamesDistinct(users: Record, accounts: Record, db: Record)
    ensures DistinctLowerNames(ComponentFields(users, accounts, db))
  {
    var cf := ComponentFields(users, accounts, db);
    assert |Lower(cf[0].name)| == 5 && |Lower(cf[1].name)| == 8 && |Lower(cf[2].name)| == 2;
  }

  /** Each tag the tests use finds the component of that name. */
  lemma ComponentLookups(users: Record, accounts: Record, db: Record)
    ensures var cf := ComponentFields(users, accounts, db);
      && RefFieldByName(cf, "users") == Found(PointerTo("*Users", StructOf(users)))
      && RefFieldByName(cf, "accounts") == Found(PointerTo("*AccountsS", StructOf(accounts)))
      && RefFieldByName(cf, "db") == Found(PointerTo("*MockDB", StructOf(db)))
  {
    var cf := ComponentFields(users, accounts, db);
    LowerNames();
    ComponentNamesDistinct(users, accounts, db);
    LookupMatchingField(cf, "users", 0);
    LookupMatchingField(cf, "accounts", 1);
    LookupMatchingField(cf, "db", 2);
  }

  /** A tagged field that names a component of an assignable type receives it. */
  lemma TaggedAssigns(tag: string, users: Record, accounts: Record, db: Record, structName: string,
                      name: string, kind: Kind, declType: TypeId, refName: string, v: Value)
    requires refName != "" && RefFieldByName(ComponentFields(users, accounts, db), refName) == Found(v)
    requires |name| > 0 && IsUpperInitial(name) && (kind == Ptr || kind == Interface)
    requires TypeOf(v).Some? && Assignable(TypeOf(v).value, declType)
    ensures Check(TestInjector(tag, users, accounts, db), structName, true, Tagged(tag, name, kind, declType, refName)) == Assign(v)
  {
  }

  /** Walking a *Users succeeds, sets Accounts and DB to the components' pointers and keeps `initialized`. */
  lemma UsersWalk(tag: string, users: Record, accounts: Record, db: Record)
    ensures var w := Walk(TestInjector(tag, users, accounts, db), "Users", true, UsersFields(tag));
      && w.err.None?
      && w.fields[0].value == PointerTo("*AccountsS", StructOf(accounts))
      && w.fields[1].value == PointerTo("*MockDB", StructOf(db))
      && w.fields[2] == UsersFields(tag)[2]
  {
    var inj, fs := TestInjector(tag, users, accounts, db), UsersFields(tag);
    ComponentLookups(users, accounts, db);
    TaggedAssigns(tag, users, accounts, db, "Users", "Accounts", Interface, "Accounts", "accounts", PointerTo("*AccountsS", StructOf(accounts)));
    TaggedAssigns(tag, users, accounts, db, "Users", "DB", Interface, "Database", "db", PointerTo("*MockDB", StructOf(db)));
    assert Check(inj, "Users", true, fs[2]).Skip?;
    WalkSucceeds(inj, "Users", true, fs);
    WalkSharesComponents(inj, "Users", true, fs, 0);
    WalkSharesComponents(inj, "Users", true, fs, 1);
    WalkKeepsUntagged(inj, "Users", true, fs, 2);
  }

  /** Walking an *AccountsS succeeds and sets Users and DB to the components' pointers. */
  lemma AccountsWalk(tag: string, users: Record, accounts: Record, db: Record)
    ensures var w := Walk(TestInjector(tag, users, accounts, db), "AccountsS", true, AccountsFields(tag));
      && w.err.None?
      && w.fields[0].value == PointerTo("*Users", StructOf(users))
      && w.fields[1].value == PointerTo("*MockDB", StructOf(db))
  {
    var inj, fs := TestInjector(tag, users, accounts, db), AccountsFields(tag);
    ComponentLookups(users, accounts, db);
    TaggedAssigns(tag, users, accounts, db, "AccountsS", "Users", Ptr, "*Users", "users", PointerTo("*Users", StructOf(users)));
    TaggedAssigns(tag, users, accounts, db, "AccountsS", "DB", Interface, "Database", "db", PointerTo("*MockDB", StructOf(db)));
    WalkSucceeds(inj, "AccountsS", true, fs);
    WalkSharesComponents(inj, "AccountsS", true, fs, 0);
    WalkSharesComponents(inj, "AccountsS", true, fs, 1);
  }

  /** Walking a *Thing succeeds and sets Users and Accounts to the components' pointers. */
  lemma ThingWalk(tag: string, users: Record, accounts: Record, db: Record)
    ensures var w := Walk(TestInjector(tag, users, accounts, db), "Thing", true, ThingFields(tag));
      && w.err.None?
      && w.fields[0].value == PointerTo("*Users", StructOf(users))
      && w.fields[1].value == PointerTo("*AccountsS", StructOf(accounts))
  {
    var inj, fs := TestInjector(tag, users, accounts, db), ThingFields(tag);
    ComponentLookups(users, accounts, db);
    TaggedAssigns(tag, users, accounts, db, "Thing", "Users", Ptr, "*Users", "users", PointerTo("*Users", StructOf(users)));
    TaggedAssigns(tag, users, accounts, db, "Thing", "Accounts", Interface, "Accounts", "accounts", PointerTo("*AccountsS", StructOf(accounts)));
    WalkSucceeds(inj, "Thing", true, fs);
    WalkSharesComponents(inj, "Thing", true, fs, 0);
    WalkSharesComponents(inj, "Thing", true, fs, 1);
  }

  /** The destinations Connect injects: the components' three pointers. */
  function ComponentPointers(users: Record, accounts: Record, db: Record): seq<Value>
  {
    [PointerTo("*Users", StructOf(users)), PointerTo("*AccountsS", StructOf(accounts)), PointerTo("*MockDB", StructOf(db))]
  }

  /** getFields on the components struct yields its three pointers, in order. */
  lemma ComponentMembers(users: Record, accounts: Record, db: Record)
    ensures ExportedValues(ComponentFields(users, accounts, db)) == ComponentPointers(users, accounts, db)
  {
    var cf := ComponentFields(users, accounts, db);
    assert cf[..1][..0] == [];
    assert ExportedValues(cf[..1]) == [cf[0].value];
    assert cf[..2][..1] == cf[..1];
    assert ExportedValues(cf[..2]) == [cf[0].value, cf[1].value];
    assert cf[..2] == cf[..|cf| - 1];
  }

  /** The structs the three pointers reach, and the one whose Init runs. */
  lemma ComponentTargets(users: Record, accounts: Record, db: Record)
    requires Declared(users, accounts, db)
    ensures var ms := ComponentPointers(users, accounts, db);
      && Targets(ms) == {users, accounts, db}
      && Target(ms[0]) == Some(users) && Target(ms[1]) == Some(accounts) && Target(ms[2]) == Some(db)
      && ReachedThroughPointer(ms[0]) && ReachedThroughPointer(ms[1]) && ReachedThroughPointer(ms[2])
      && HookCount(ms, users) == 1 && HookCount(ms, accounts) == 0 && HookCount(ms, db) == 0
  {
    var ms := ComponentPointers(users, accounts, db);
    assert Target(ms[0]) == Some(users) && Target(ms[1]) == Some(accounts) && Target(ms[2]) == Some(db);
    forall r | r in Targets(ms) ensures r in {users, accounts, db} {
      var j :| 0 <= j < |ms| && Target(ms[j]).Some? && Target(ms[j]).value == r;
    }
    assert users in Targets(ms) && accounts in Targets(ms) && db in Targets(ms);
    assert ms[..1][..0] == [];
    assert ms[..2][..1] == ms[..1];
    assert ms[..2] == ms[..|ms| - 1];
    forall r ensures HookCount(ms[..1], r) == if r == users then 1 else 0 {
      assert Hook(ms[0]) == Some(users);
    }
    forall r ensures HookCount(ms[..2], r) == if r == users then 1 else 0 {
      assert Hook(ms[1]).None?;
    }
    forall r ensures HookCount(ms, r) == if r == users then 1 else 0 {
      assert Hook(ms[2]).None?;
    }
  }

  /** A pointer to a struct is the one destination that reaches it. */
  lemma SingleTarget(p: Value, rec: Record)
    requires p.PointerTo? && p.elem == StructOf(rec)
    ensures Target(p) == Some(rec) && Targets([p]) == {rec}
  {
    assert Target([p][0]) == Some(rec);
  }

  /** Every component passes: Users' Init succeeds and the three walks find no error. */
  lemma ComponentsPass(tag: string, users: Record, accounts: Record, db: Record, m: map<Record, seq<Field>>)
    requires Declared(users, accounts, db)
    requires users in m && m[users] == UsersFields(tag) && accounts in m && m[accounts] == AccountsFields(tag)
    requires db in m && m[db] == []
    ensures Passed(TestInjector(tag, users, accounts, db), ComponentPointers(users, accounts, db), 3, m)
  {
    var inj, ms := TestInjector(tag, users, accounts, db), ComponentPointers(users, accounts, db);
    ComponentTargets(users, accounts, db);
    assert SingleErrorOn(inj, ms[0], Before(m, ms[0])).None? by {
      UsersWalk(tag, users, accounts, db);
      assert Before(m, ms[0]) == UsersFields(tag);
    }
    assert SingleErrorOn(inj, ms[1], Before(m, ms[1])).None? by {
      AccountsWalk(tag, users, accounts, db);
      assert Before(m, ms[1]) == AccountsFields(tag);
    }
    assert SingleErrorOn(inj, ms[2], Before(m, ms[2])).None? by {
      assert Before(m, ms[2]) == [];
    }
  }

  /** After all three walks, Users and AccountsS hold the components' pointers. */
  lemma ComponentsWired(tag: string, users: Record, accounts: Record, db: Record)
    requires Declared(users, accounts, db)
    ensures var inj, ms := TestInjector(tag, users, accounts, db), ComponentPointers(users, accounts, db);
      && var uf := FieldsAfter(inj, ms, users, UsersFields(tag));
      && var af := FieldsAfter(inj, ms, accounts, AccountsFields(tag));
      && |uf| == 3 && |af| == 2
      && uf[0].value == PointerTo("*AccountsS", StructOf(accounts))
      && uf[1].value == PointerTo("*MockDB", StructOf(db))
      && af[0].value == PointerTo("*Users", StructOf(users))
      && af[1].value == PointerTo("*MockDB", StructOf(db))
  {
    var ms := ComponentPointers(users, accounts, db);
    UsersWalk(tag, users, accounts, db);
    AccountsWalk(tag, users, accounts, db);
    assert Target(ms[0]) == Some(users) && ReachedThroughPointer(ms[0]);
    assert Target(ms[1]) == Some(accounts) && ReachedThroughPointer(ms[1]);
  }

  /**
   * What the outcome of injecting the three pointers, starting from zero
   * valued components and no Init calls, comes to.
   */
  lemma ComponentsInjected(tag: string, users: Record, accounts: Record, db: Record, err: Option<WireError>, stop: nat,
                           trace: seq<Event>, m: map<Record, seq<Field>>, c: map<Record, nat>)
    requires Declared(users, accounts, db)
    requires users in m && m[users] == UsersFields(tag) && accounts in m && m[accounts] == AccountsFields(tag)
    requires db in m && m[db] == [] && users in c && c[users] == 0
    requires stop <= 3 && (err.None? <==> stop == 3)
    requires Injected(TestInjector(tag, users, accounts, db), ComponentPointers(users, accounts, db), err, stop, trace, m, c)
    ensures err.None? && users.initCalls == 1
    ensures |users.fields| == 3 && |accounts.fields| == 2
    ensures users.fields[0].value == PointerTo("*AccountsS", StructOf(accounts))
    ensures users.fields[1].value == PointerTo("*MockDB", StructOf(db))
    ensures accounts.fields[0].value == PointerTo("*Users", StructOf(users))
    ensures accounts.fields[1].value == PointerTo("*MockDB", StructOf(db))
  {
    var inj, ms := TestInjector(tag, users, accounts, db), ComponentPointers(users, accounts, db);
    ComponentsPass(tag, users, accounts, db, m);
    InjectSucceeds(inj, ms, err, stop, trace, m, c);
    ComponentTargets(users, accounts, db);
    ComponentsWired(tag, users, accounts, db);
    InjectedAll(inj, ms, trace, m, c, users);
    InjectedAll(inj, ms, trace, m, c, accounts);
  }

  /**
   * TestConnect: Connect on the components struct, passed by value,
   * succeeds; Users' Init ran once; and Users and AccountsS hold the very
   * pointers the components struct holds.
   */
  method ConnectComponents(tag: string) returns (users: Record, accounts: Record, db: Record, c: Connection)
    ensures c == Connected(TestInjector(tag, users, accounts, db), None)
    ensures users.initCalls == 1
    ensures |users.fields| == 3 && |accounts.fields| == 2
    ensures users.fields[0].value == PointerTo("*AccountsS", StructOf(accounts))
    ensures users.fields[1].value == PointerTo("*MockDB", StructOf(db))
    ensures accounts.fields[0].value == PointerTo("*Users", StructOf(users))
    ensures accounts.fields[1].value == PointerTo("*MockDB", StructOf(db))
  {
    var reference;
    users, accounts, db, reference := NewComponents(tag);
    c := ConnectWired(tag, users, accounts, db, reference);
  }

  /** Components{Users: &Users{}, Accounts: &AccountsS{}, DB: &MockDB{}}, passed by value. */
  method NewComponents(tag: string) returns (users: Record, accounts: Record, db: Record, reference: Value)
    ensures fresh(users) && fresh(accounts) && fresh(db)
    ensures Declared(users, accounts, db)
    ensures users.fields == UsersFields(tag) && accounts.fields == AccountsFields(tag) && db.fields == []
    ensures users.initCalls == 0
    ensures reference.StructOf? && reference.rec.fields == ComponentFields(users, accounts, db)
  {
    users := new Record("Users", UsersFields(tag), true, None);
    accounts := new Record("AccountsS", AccountsFields(tag), false, None);
    db := new Record("MockDB", [], false, None);
    var components := new Record("Components", ComponentFields(users, accounts, db), false, None);
    reference := StructOf(components);
  }

  /** Connect on the zero valued components struct wires the three components to each other. */
  method ConnectWired(tag: string, users: Record, accounts: Record, db: Record, reference: Value) returns (c: Connection)
    requires Declared(users, accounts, db)
    requires users.fields == UsersFields(tag) && accounts.fields == AccountsFields(tag) && db.fields == []
    requires users.initCalls == 0
    requires reference.StructOf? && reference.rec.fields == ComponentFields(users, accounts, db)
    modifies users, accounts, db
    ensures c == Connected(TestInjector(tag, users, accounts, db), None)
    ensures users.initCalls == 1
    ensures |users.fields| == 3 && |accounts.fields| == 2
    ensures users.fields[0].value == PointerTo("*AccountsS", StructOf(accounts))
    ensures users.fields[1].value == PointerTo("*MockDB", StructOf(db))
    ensures accounts.fields[0].value == PointerTo("*Users", StructOf(users))
    ensures accounts.fields[1].value == PointerTo("*MockDB", StructOf(db))
  {
    ghost var ms := ComponentPointers(users, accounts, db);
    ComponentMembers(users, accounts, db);
    ComponentTargets(users, accounts, db);
    assert Members(reference) == ms;
    ghost var m, calls := FieldsMap(ms), CallsMap(ms);
    assert m[users] == UsersFields(tag) && m[accounts] == AccountsFields(tag) && m[db] == [] && calls[users] == 0;
    ghost var stop, trace;
    c, stop, trace := Connect(tag, reference, Assignable);
    assert c.injector == TestInjector(tag, users, accounts, db);
    ComponentsInjected(tag, users, accounts, db, c.err, stop, trace, m, calls);
  }

  /** Walking the one *Thing leaves it holding the components' pointers. */
  lemma ThingPasses(tag: string, users: Record, accounts: Record, db: Record, thing: Record, m: map<Record, seq<Field>>)
    requires thing.typeName == "Thing" && !thing.hasInit && thing in m && m[thing] == ThingFields(tag)
    ensures var inj, pt := TestInjector(tag, users, accounts, db), PointerTo("*Thing", StructOf(thing));
      && Passed(inj, [pt], 1, m)
      && var tf := FieldsAfter(inj, [pt], thing, ThingFields(tag));
      && |tf| == 2
      && tf[0].value == PointerTo("*Users", StructOf(users))
      && tf[1].value == PointerTo("*AccountsS", StructOf(accounts))
  {
    var inj, pt := TestInjector(tag, users, accounts, db), PointerTo("*Thing", StructOf(thing));
    var w := Walk(inj, "Thing", true, ThingFields(tag));
    assert Target(pt) == Some(thing) && ReachedThroughPointer(pt);
    assert Before(m, pt) == ThingFields(tag);
    assert SingleWalkOn(inj, pt, ThingFields(tag)) == Some(w);
    assert [pt][0] == pt;
    assert ThroughPointer([pt], thing);
    assert FieldsAfter(inj, [pt], thing, ThingFields(tag)) == w.fields;
    ThingWalk(tag, users, accounts, db);
    assert SingleErrorOn(inj, pt, Before(m, pt)).None?;
  }

  /**
   * What the outcome of injecting a pointer to a zero valued Thing, with
   * the injector Connect returned, comes to.
   */
  lemma ThingInjected(tag: string, users: Record, accounts: Record, db: Record, thing: Record, err: Option<WireError>, stop: nat,
                      trace: seq<Event>, m: map<Record, seq<Field>>, c: map<Record, nat>)
    requires thing.typeName == "Thing" && !thing.hasInit && thing in m && m[thing] == ThingFields(tag)
    requires stop <= 1 && (err.None? <==> stop == 1)
    requires Injected(TestInjector(tag, users, accounts, db), [PointerTo("*Thing", StructOf(thing))], err, stop, trace, m, c)
    ensures err.None?
    ensures |thing.fields| == 2
    ensures thing.fields[0].value == PointerTo("*Users", StructOf(users))
    ensures thing.fields[1].value == PointerTo("*AccountsS", StructOf(accounts))
  {
    var inj, pt := TestInjector(tag, users, accounts, db), PointerTo("*Thing", StructOf(thing));
    ThingPasses(tag, users, accounts, db, thing, m);
    InjectSucceeds(inj, [pt], err, stop, trace, m, c);
    SingleTarget(pt, thing);
    InjectedAll(inj, [pt], trace, m, c, thing);
  }

  /**
   * TestInject: the injector Connect returned wires a later *Thing with the
   * same Users and Accounts pointers.
   */
  method InjectThing(tag: string) returns (users: Record, accounts: Record, thing: Record, err: Option<WireError>)
    ensures err.None?
    ensures users.initCalls == 1
    ensures |thing.fields| == 2
    ensures thing.fields[0].value == PointerTo("*Users", StructOf(users))
    ensures thing.fields[1].value == PointerTo("*AccountsS", StructOf(accounts))
  {
    var db, c;
    users, accounts, db, c := ConnectComponents(tag);
    thing := new Record("Thing", ThingFields(tag), false, None);
    var pt := PointerTo("*Thing", StructOf(thing));
    SingleTarget(pt, thing);
    ghost var m, calls := FieldsMap([pt]), CallsMap([pt]);
    assert m[thing] == ThingFields(tag);
    ghost var stop, trace;
    err, stop, trace := Inject(c.injector, [pt]);
    ThingInjected(tag, users, accounts, db, thing, err, stop, trace, m, calls);
  }
}
