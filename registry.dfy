/**
 * The reference struct as a registry of components: lookup of a member by
 * a case-insensitive name (getRefFieldByName) and the list of its exported
 * member values (getFields).
 */
module Registry {
  import opened Reflection

  /** The three outcomes of getRefFieldByName. */
  datatype Lookup = Found(value: Value) | NotFound | NotExported

  /** Field i is the one and only field whose lower-cased name is `lname`. */
  predicate IsOnlyMatch(fs: seq<Field>, lname: string, i: int)
  {
    && 0 <= i < |fs|
    && Lower(fs[i].name) == lname
    && forall j :: 0 <= j < |fs| && j != i ==> Lower(fs[j].name) != lname
  }

  /** The first index at or after `from` whose lower-cased name is `lname`. */
  function FirstMatch(fs: seq<Field>, lname: string, from: nat): (r: Option<nat>)
    requires from <= |fs|
    ensures r.Some? ==> from <= r.value < |fs| && Lower(fs[r.value].name) == lname
    ensures r.Some? ==> forall j :: from <= j < r.value ==> Lower(fs[j].name) != lname
    ensures r.None? ==> forall j :: from <= j < |fs| ==> Lower(fs[j].name) != lname
    decreases |fs| - from
  {
    if from == |fs| then None
    else if Lower(fs[from].name) == lname then Some(from)
    else FirstMatch(fs, lname, from + 1)
  }

  /**
   * getRefFieldByName over the reference's top-level fields.  Names are
   * compared after lower-casing both sides.  As in reflect.FieldByNameFunc,
   * several matches at the same depth cancel each other, so a name that
   * matches two fields is not found.
   */
  function RefFieldByName(fs: seq<Field>, name: string): (r: Lookup)
    ensures r.Found? ==>
      exists i :: 0 <= i < |fs| && Lower(fs[i].name) == Lower(name) && fs[i].exported && fs[i].value == r.value
    ensures r.NotExported? ==>
      exists i :: 0 <= i < |fs| && Lower(fs[i].name) == Lower(name) && !fs[i].exported
  {
    var lname := Lower(name);
    match FirstMatch(fs, lname, 0)
    case None => NotFound
    case Some(i) =>
      if FirstMatch(fs, lname, i + 1).Some? then NotFound
      else if !fs[i].exported then NotExported
      else Found(fs[i].value)
  }

  /**
   * The three outcomes of the lookup: found with exactly the value of the
   * one exported field whose name matches, not exported when that field is
   * unexported, not found when no field or more than one field matches.
   */
  lemma LookupOutcomes(fs: seq<Field>, name: string)
    ensures var r := RefFieldByName(fs, name);
      && (r.Found? <==> exists i :: IsOnlyMatch(fs, Lower(name), i) && fs[i].exported)
      && (r.Found? ==> exists i :: IsOnlyMatch(fs, Lower(name), i) && r.value == fs[i].value)
      && (r.NotExported? <==> exists i :: IsOnlyMatch(fs, Lower(name), i) && !fs[i].exported)
      && (r.NotFound? <==> forall i :: !IsOnlyMatch(fs, Lower(name), i))
  {
    var lname := Lower(name);
    var first := FirstMatch(fs, lname, 0);
    if first.Some? {
      var i := first.value;
      var second := FirstMatch(fs, lname, i + 1);
      if second.Some? {
        forall k | 0 <= k < |fs|
          ensures !IsOnlyMatch(fs, lname, k)
        {
          if k == i { assert Lower(fs[second.value].name) == lname; }
          else { assert Lower(fs[i].name) == lname; }
        }
      } else {
        assert IsOnlyMatch(fs, lname, i);
      }
    }
  }

  /** Tags that differ only in letter case resolve to the same outcome. */
  lemma LookupIgnoresCase(fs: seq<Field>, a: string, b: string)
    requires Lower(a) == Lower(b)
    ensures RefFieldByName(fs, a) == RefFieldByName(fs, b)
  {
  }

  /** "db", "DB" and "Db" name the same component. */
  lemma DbSpellingsAgree(fs: seq<Field>)
    ensures RefFieldByName(fs, "db") == RefFieldByName(fs, "DB") == RefFieldByName(fs, "Db")
  {
    assert Lower("DB") == "db" == Lower("db");
    assert Lower("Db") == "db";
    LookupIgnoresCase(fs, "db", "DB");
    LookupIgnoresCase(fs, "db", "Db");
  }

  /** Reference names that stay distinct after lower-casing. */
  predicate DistinctLowerNames(fs: seq<Field>)
  {
    forall i, j :: 0 <= i < j < |fs| ==> Lower(fs[i].name) != Lower(fs[j].name)
  }

  /**
   * When reference names are distinct under lower-casing, a matching field
   * is found: its value when it is exported, NotExported otherwise.
   */
  lemma LookupMatchingField(fs: seq<Field>, name: string, i: nat)
    requires DistinctLowerNames(fs)
    requires i < |fs| && Lower(fs[i].name) == Lower(name)
    ensures RefFieldByName(fs, name) == if fs[i].exported then Found(fs[i].value) else NotExported
  {
    LookupOutcomes(fs, name);
    assert IsOnlyMatch(fs, Lower(name), i) by {
      forall j | 0 <= j < |fs| && j != i
        ensures Lower(fs[j].name) != Lower(name)
      {
        if j < i { assert Lower(fs[j].name) != Lower(fs[i].name); }
        else { assert Lower(fs[i].name) != Lower(fs[j].name); }
      }
    }
  }

  /** Two fields whose names agree under lower-casing hide each other. */
  lemma AmbiguousNameNotFound(fs: seq<Field>, name: string, i: nat, j: nat)
    requires i < j < |fs|
    requires Lower(fs[i].name) == Lower(name) == Lower(fs[j].name)
    ensures RefFieldByName(fs, name) == NotFound
  {
    LookupOutcomes(fs, name);
    forall k | 0 <= k < |fs|
      ensures !IsOnlyMatch(fs, Lower(name), k)
    {
      if k == i {
        assert Lower(fs[j].name) == Lower(name);
      } else {
        assert Lower(fs[i].name) == Lower(name);
      }
    }
  }

  /** The values of the exported fields, in declaration order. */
  function ExportedValues(fs: seq<Field>): (r: seq<Value>)
    ensures |r| <= |fs|
  {
    if fs == [] then []
    else
      var last := fs[|fs| - 1];
      ExportedValues(fs[..|fs| - 1]) + if last.exported then [last.value] else []
  }

  /** A value is collected exactly when some exported field holds it. */
  lemma {:induction false} ExportedValuesMembers(fs: seq<Field>, v: Value)
    ensures v in ExportedValues(fs) <==> exists i :: 0 <= i < |fs| && fs[i].exported && fs[i].value == v
  {
    if fs != [] {
      var init := fs[..|fs| - 1];
      ExportedValuesMembers(init, v);
      if v in ExportedValues(fs) && v !in ExportedValues(init) {
        assert fs[|fs| - 1].exported && fs[|fs| - 1].value == v;
      }
      if exists i :: 0 <= i < |fs| && fs[i].exported && fs[i].value == v {
        var i :| 0 <= i < |fs| && fs[i].exported && fs[i].value == v;
        if i < |fs| - 1 {
          assert init[i] == fs[i];
        }
      }
    }
  }

  /**
   * Order is kept: the values of the fields before position k come before
   * the values of the fields from k on.
   */
  lemma {:induction false} ExportedValuesSplit(fs: seq<Field>, k: nat)
    requires k <= |fs|
    ensures ExportedValues(fs) == ExportedValues(fs[..k]) + ExportedValues(fs[k..])
    decreases |fs|
  {
    if k < |fs| {
      var init := fs[..|fs| - 1];
      ExportedValuesSplit(init, k);
      assert init[..k] == fs[..k];
      assert fs[k..][..|fs[k..]| - 1] == init[k..];
    } else {
      assert fs[..k] == fs;
      assert fs[k..] == [];
    }
  }

  /**
   * getFields: dereference `s` and collect the values of its exported
   * fields.  None stands for the panic that escapes when the dereferenced
   * value is not a struct (NumField) or the Elem chain hits a nil.
   */
  method GetFields(s: Value) returns (r: Option<seq<Value>>)
    ensures Stripped(s).Some? && Stripped(s).value.StructOf? <==> r.Some?
    ensures r.Some? ==> r.value == ExportedValues(Stripped(s).value.rec.fields)
  {
    var v, _ := Dereference(s);
    if v.None? || !v.value.StructOf? {
      return None;
    }
    var fs := v.value.rec.fields;
    var collected: seq<Value> := [];
    for i := 0 to |fs|
      invariant collected == ExportedValues(fs[..i])
    {
      assert fs[..i + 1][..i] == fs[..i];
      if fs[i].exported {
        collected := collected + [fs[i].value];
      }
    }
    assert fs[..|fs|] == fs;
    return Some(collected);
  }
}
