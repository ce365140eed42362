/**
 * The shape of the field loop of injectSingle, independent of what the
 * checks are: fields are visited in declaration order, each one is skipped,
 * assigned or rejected, and the first rejection ends the loop.
 */
module FieldWalk {
  import opened Reflection

  /** What the loop does with one field. */
  datatype Step<E> = Skip | Assign(value: Value) | Fail(error: E)

  /** The outcome of a walk: new fields, error, indices written in order. */
  datatype Walked<E> = Walked(fields: seq<Field>, err: Option<E>, written: seq<nat>)

  /** The loop over `fs` with `step` deciding each field. */
  function WalkWith<E>(step: Field -> Step<E>, fs: seq<Field>): (w: Walked<E>)
    ensures |w.fields| == |fs|
    decreases |fs|
  {
    if fs == [] then Walked([], None, [])
    else
      var prev := WalkWith(step, fs[..|fs| - 1]);
      var f := fs[|fs| - 1];
      if prev.err.Some? then Walked(prev.fields + [f], prev.err, prev.written)
      else match step(f)
        case Skip => Walked(prev.fields + [f], None, prev.written)
        case Fail(e) => Walked(prev.fields + [f], Some(e), prev.written)
        case Assign(v) => Walked(prev.fields + [f.(value := v)], None, prev.written + [|fs| - 1])
  }

  /** The loop changes current values only: every field keeps its declaration. */
  lemma {:induction false} WalkKeepsDeclarations<E>(step: Field -> Step<E>, fs: seq<Field>)
    ensures forall i :: 0 <= i < |fs| ==> SameDeclaration(WalkWith(step, fs).fields[i], fs[i])
    decreases |fs|
  {
    if fs != [] {
      var n := |fs| - 1;
      WalkKeepsDeclarations(step, fs[..n]);
      var prev, w := WalkWith(step, fs[..n]), WalkWith(step, fs);
      forall i | 0 <= i < |fs| ensures SameDeclaration(w.fields[i], fs[i]) {
        if i < n {
          assert w.fields[i] == prev.fields[i] && fs[..n][i] == fs[i];
        }
      }
    }
  }

  /** Position of the first field that `step` rejects, |fs| when none is. */
  function FirstFailure<E>(step: Field -> Step<E>, fs: seq<Field>): (k: nat)
    ensures k <= |fs|
    ensures forall j :: 0 <= j < k ==> !step(fs[j]).Fail?
    ensures k < |fs| ==> step(fs[k]).Fail?
    decreases |fs|
  {
    if fs == [] then 0
    else
      var n := |fs| - 1;
      var kp := FirstFailure(step, fs[..n]);
      if kp < n then kp
      else if step(fs[n]).Fail? then n
      else |fs|
  }

  /** FirstFailure is determined by which fields are rejected. */
  lemma FirstFailureUnique<E>(step: Field -> Step<E>, fs: seq<Field>, k: nat)
    requires k <= |fs|
    requires forall j :: 0 <= j < k ==> !step(fs[j]).Fail?
    requires k < |fs| ==> step(fs[k]).Fail?
    ensures FirstFailure(step, fs) == k
  {
  }

  /** The field after its step, when the loop gets to apply it. */
  function Applied<E>(step: Field -> Step<E>, f: Field): Field
  {
    match step(f)
    case Assign(v) => f.(value := v)
    case _ => f
  }

  /** The error of a walk is the error of its first rejected field. */
  lemma {:induction false} WalkError<E>(step: Field -> Step<E>, fs: seq<Field>)
    ensures var k := FirstFailure(step, fs);
      WalkWith(step, fs).err == if k < |fs| then Some(step(fs[k]).error) else None
    decreases |fs|
  {
    if fs != [] {
      var n := |fs| - 1;
      WalkError(step, fs[..n]);
      var kp := FirstFailure(step, fs[..n]);
      if kp < n {
        assert fs[..n][kp] == fs[kp];
      }
    }
  }

  /**
   * Fields before the first rejected one have had their step applied; the
   * rejected field and all after it are unchanged.
   */
  lemma {:induction false} WalkFields<E>(step: Field -> Step<E>, fs: seq<Field>)
    ensures var w, k := WalkWith(step, fs), FirstFailure(step, fs);
      && (forall i :: 0 <= i < k ==> w.fields[i] == Applied(step, fs[i]))
      && (forall i :: k <= i < |fs| ==> w.fields[i] == fs[i])
    decreases |fs|
  {
    if fs != [] {
      var n := |fs| - 1;
      var init := fs[..n];
      WalkFields(step, init);
      WalkError(step, init);
      var prev, kp := WalkWith(step, init), FirstFailure(step, init);
      var w, k := WalkWith(step, fs), FirstFailure(step, fs);
      assert forall i :: 0 <= i < n ==> init[i] == fs[i];
      assert forall i :: 0 <= i < n ==> w.fields[i] == prev.fields[i];
      if kp < n {
        assert k == kp && w.fields[n] == fs[n];
      } else if step(fs[n]).Fail? {
        assert k == n && w.fields[n] == fs[n];
      } else {
        assert k == |fs| && w.fields[n] == Applied(step, fs[n]);
      }
    }
  }

  /** The written indices are the assigned fields before the first rejection, increasing. */
  lemma {:induction false} WalkWritten<E>(step: Field -> Step<E>, fs: seq<Field>)
    ensures var w, k := WalkWith(step, fs), FirstFailure(step, fs);
      && (forall p, q :: 0 <= p < q < |w.written| ==> w.written[p] < w.written[q])
      && (forall i :: i in w.written <==> 0 <= i < k && step(fs[i]).Assign?)
    decreases |fs|
  {
    if fs != [] {
      var n := |fs| - 1;
      var init := fs[..n];
      WalkWritten(step, init);
      WalkError(step, init);
      assert forall i :: 0 <= i < n ==> init[i] == fs[i];
      var prev := WalkWith(step, init);
      forall p | 0 <= p < |prev.written| ensures prev.written[p] < n {
        assert prev.written[p] in prev.written;
      }
    }
  }

  /** Everything a walk does, in terms of its first rejected field. */
  lemma WalkEffect<E>(step: Field -> Step<E>, fs: seq<Field>)
    ensures var w, k := WalkWith(step, fs), FirstFailure(step, fs);
      && (w.err == if k < |fs| then Some(step(fs[k]).error) else None)
      && (forall i :: 0 <= i < k ==> w.fields[i] == Applied(step, fs[i]))
      && (forall i :: k <= i < |fs| ==> w.fields[i] == fs[i])
      && (forall p, q :: 0 <= p < q < |w.written| ==> w.written[p] < w.written[q])
      && (forall i :: i in w.written <==> 0 <= i < k && step(fs[i]).Assign?)
  {
    WalkError(step, fs);
    WalkFields(step, fs);
    WalkWritten(step, fs);
  }

  /**
   * When `step` ignores current values, two field lists with the same
   * declarations walk to the same error and write the same indices.
   */
  lemma WalkDeclarationsOnly<E>(step: Field -> Step<E>, fs: seq<Field>, gs: seq<Field>)
    requires forall f, g :: SameDeclaration(f, g) ==> step(f) == step(g)
    requires |gs| == |fs| && forall i :: 0 <= i < |fs| ==> SameDeclaration(gs[i], fs[i])
    ensures WalkWith(step, gs).err == WalkWith(step, fs).err
    ensures WalkWith(step, gs).written == WalkWith(step, fs).written
  {
    forall i | 0 <= i < |fs| ensures step(gs[i]) == step(fs[i]) {
      assert SameDeclaration(gs[i], fs[i]);
    }
    var k := FirstFailure(step, fs);
    FirstFailureUnique(step, gs, k);
    WalkEffect(step, fs);
    WalkEffect(step, gs);
    WrittenDetermined(WalkWith(step, gs).written, WalkWith(step, fs).written);
  }

  /** A walk over the fields a walk produced changes nothing and reports the same. */
  lemma WalkIdempotent<E>(step: Field -> Step<E>, fs: seq<Field>)
    requires forall f, g :: SameDeclaration(f, g) ==> step(f) == step(g)
    ensures WalkWith(step, WalkWith(step, fs).fields) == WalkWith(step, fs)
  {
    var w := WalkWith(step, fs);
    var gs := w.fields;
    WalkKeepsDeclarations(step, fs);
    WalkDeclarationsOnly(step, fs, gs);
    forall i | 0 <= i < |fs| ensures step(gs[i]) == step(fs[i]) {
      assert SameDeclaration(gs[i], fs[i]);
    }
    WalkEffect(step, fs);
    WalkEffect(step, gs);
    assert WalkWith(step, gs).fields == gs;
  }

  /** A walk in which no step assigns leaves every field as it was. */
  lemma WalkWithoutAssign<E>(step: Field -> Step<E>, fs: seq<Field>)
    requires forall i :: 0 <= i < |fs| ==> !step(fs[i]).Assign?
    ensures WalkWith(step, fs).fields == fs && WalkWith(step, fs).written == []
  {
    WalkEffect(step, fs);
    var w := WalkWith(step, fs);
    if w.written != [] {
      HeadIn(w.written);
      assert false;
    }
  }

  /** Two strictly increasing sequences with the same elements are equal. */
  lemma {:induction false} WrittenDetermined(a: seq<nat>, b: seq<nat>)
    requires forall p, q :: 0 <= p < q < |a| ==> a[p] < a[q]
    requires forall p, q :: 0 <= p < q < |b| ==> b[p] < b[q]
    requires forall i :: i in a <==> i in b
    ensures a == b
    decreases |a|
  {
    if a != [] && b != [] {
      assert a[0] == b[0] by {
        assert a[0] in b && b[0] in a;
      }
      IncreasingTail(a);
      IncreasingTail(b);
      WrittenDetermined(a[1..], b[1..]);
    } else if a != [] {
      HeadIn(a);
      assert false;
    } else if b != [] {
      HeadIn(b);
      assert false;
    }
  }

  lemma HeadIn(s: seq<nat>)
    requires s != []
    ensures s[0] in s
  {
  }

  lemma IncreasingTail(a: seq<nat>)
    requires a != []
    requires forall p, q :: 0 <= p < q < |a| ==> a[p] < a[q]
    ensures forall i :: i in a[1..] <==> i in a && i != a[0]
  {
    forall i | i in a && i != a[0] ensures i in a[1..] {
      var p :| 0 <= p < |a| && a[p] == i;
      assert a[1..][p - 1] == i;
    }
    forall i | i in a[1..] ensures i in a && i != a[0] {
      var p :| 0 <= p < |a[1..]| && a[1..][p] == i;
      assert a[p + 1] == i;
    }
  }

  /** Once the walk of a prefix has failed, the rest of the fields change nothing. */
  lemma {:induction false} WalkStopsAtFailure<E>(step: Field -> Step<E>, fs: seq<Field>, n: nat)
    requires n <= |fs| && WalkWith(step, fs[..n]).err.Some?
    ensures var p := WalkWith(step, fs[..n]);
      WalkWith(step, fs) == Walked(p.fields + fs[n..], p.err, p.written)
    decreases |fs| - n
  {
    if n == |fs| {
      assert fs[..n] == fs;
    } else {
      var m := |fs| - 1;
      var init := fs[..m];
      assert init[..n] == fs[..n];
      WalkStopsAtFailure(step, init, n);
      WalkAfterFailure(step, fs);
      ConcatShift(fs, n);
    }
  }

  /** A walk that failed on its prefix appends the last field unchanged. */
  lemma WalkAfterFailure<E>(step: Field -> Step<E>, fs: seq<Field>)
    requires fs != [] && WalkWith(step, fs[..|fs| - 1]).err.Some?
    ensures var prev := WalkWith(step, fs[..|fs| - 1]);
      WalkWith(step, fs) == Walked(prev.fields + [fs[|fs| - 1]], prev.err, prev.written)
  {
  }

  lemma ConcatShift(fs: seq<Field>, n: nat)
    requires n < |fs|
    ensures fs[..|fs| - 1][n..] + [fs[|fs| - 1]] == fs[n..]
  {
  }

  /** The whole walk, once the field after a successful prefix is rejected. */
  lemma {:induction false} WalkAfterStop<E>(step: Field -> Step<E>, fs: seq<Field>, x: nat)
    requires x < |fs| && WalkWith(step, fs[..x]).err.None? && step(fs[x]).Fail?
    ensures var p := WalkWith(step, fs[..x]);
      WalkWith(step, fs) == Walked(p.fields + fs[x..], Some(step(fs[x]).error), p.written)
  {
    var p := WalkWith(step, fs[..x]);
    WalkFailsAt(step, fs, x);
    WalkStopsAtFailure(step, fs, x + 1);
    assert (p.fields + [fs[x]]) + fs[x + 1..] == p.fields + fs[x..] by {
      assert fs[x..] == [fs[x]] + fs[x + 1..];
    }
  }

  /** The walk one field further, when that field is rejected. */
  lemma WalkFailsAt<E>(step: Field -> Step<E>, fs: seq<Field>, n: nat)
    requires n < |fs| && WalkWith(step, fs[..n]).err.None? && step(fs[n]).Fail?
    ensures var p := WalkWith(step, fs[..n]);
      WalkWith(step, fs[..n + 1]) == Walked(p.fields + [fs[n]], Some(step(fs[n]).error), p.written)
  {
    assert fs[..n + 1][..n] == fs[..n];
  }

  /**
   * One iteration of a loop that writes the walk in place: `cur` holds the
   * walked prefix followed by the untouched rest, and so it does one field
   * further on.
   */
  lemma {:induction false} WalkLoopStep<E>(step: Field -> Step<E>, fs: seq<Field>, x: nat, cur: seq<Field>)
    requires x < |fs| && WalkWith(step, fs[..x]).err.None? && !step(fs[x]).Fail?
    requires cur == WalkWith(step, fs[..x]).fields + fs[x..]
    ensures var q := WalkWith(step, fs[..x + 1]);
      && q.err.None?
      && (match step(fs[x])
          case Assign(v) => cur[x := fs[x].(value := v)]
          case _ => cur) == q.fields + fs[x + 1..]
      && q.written == WalkWith(step, fs[..x]).written + if step(fs[x]).Assign? then [x] else []
  {
    var p := WalkWith(step, fs[..x]);
    WalkExtend(step, fs, x);
    SplitAt(fs, x);
    if step(fs[x]).Assign? {
      ReplaceAt(p.fields, fs[x], fs[x].(value := step(fs[x]).value), fs[x + 1..]);
    }
  }

  lemma SplitAt(fs: seq<Field>, x: nat)
    requires x < |fs|
    ensures fs[x..] == [fs[x]] + fs[x + 1..]
  {
  }

  lemma ReplaceAt(pre: seq<Field>, f: Field, g: Field, rest: seq<Field>)
    ensures (pre + [f] + rest)[|pre| := g] == pre + [g] + rest
  {
  }

  /** One more field on a walk that has not failed yet. */
  lemma {:induction false} WalkExtend<E>(step: Field -> Step<E>, fs: seq<Field>, n: nat)
    requires n < |fs| && WalkWith(step, fs[..n]).err.None?
    ensures var p := WalkWith(step, fs[..n]);
      WalkWith(step, fs[..n + 1]) == match step(fs[n])
        case Skip => Walked(p.fields + [fs[n]], None, p.written)
        case Fail(e) => Walked(p.fields + [fs[n]], Some(e), p.written)
        case Assign(v) => Walked(p.fields + [fs[n].(value := v)], None, p.written + [n])
  {
    assert fs[..n + 1][..n] == fs[..n];
  }
}
