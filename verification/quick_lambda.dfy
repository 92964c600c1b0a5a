/**
 * The quick-lambda macro `f[...]` of quicklambda.py: every `_` in the
 * expression becomes a fresh parameter `arg0`, `arg1`, ... in traversal
 * order, and the expression becomes the body of a lambda taking exactly
 * those parameters. The name generator yields 100 names.
 *
 * The tree walker is taken to visit names left to right, in preorder.
 */
module QuickLambda {
  import opened Outcomes
  import opened SeqFacts
  import Decimal

  /** The name the macro replaces. */
  const Placeholder: string := "_"
  /** How many names the generator yields. */
  const NameLimit: nat := 100

  /** An expression: a name, or any other node over its children in the order the tree walker visits them. */
  datatype Expr = Name(id: string) | Node(op: string, kids: seq<Expr>)

  /** `lambda params: body` */
  datatype Lambda = Lambda(params: seq<string>, body: Expr)

  /** The generator ran out of names. */
  datatype Error = NamesExhausted

  /** The k-th generated name, `'arg' + str(k)`. */
  function ArgName(k: nat): string {
    "arg" + Decimal.NatToString(k)
  }

  /** `n` consecutive generated names from the `start`-th on. */
  function ArgNames(start: nat, n: nat): (r: seq<string>)
    ensures |r| == n
  {
    seq(n, i requires 0 <= i < n => ArgName(start + i))
  }

  /** Spelled like a generated name: `arg` and a decimal numeral without a leading zero. */
  predicate IsArgName(id: string) {
    |id| >= 4 && id[..3] == "arg" && Decimal.AllDigits(id[3..]) && (|id| == 4 || id[3] != '0')
  }

  lemma ArgNameIsArgName(k: nat)
    ensures IsArgName(ArgName(k))
  {
    assert ArgName(k)[..3] == "arg";
    assert ArgName(k)[3..] == Decimal.NatToString(k);
  }

  lemma ArgNameInjective(a: nat, b: nat)
    ensures ArgName(a) == ArgName(b) ==> a == b
  {
    assert ArgName(a)[3..] == Decimal.NatToString(a);
    assert ArgName(b)[3..] == Decimal.NatToString(b);
    Decimal.NatToStringInjective(a, b);
  }

  // ---------------------------------------------------------------------------
  // Reference view: the names in traversal order, and the rest

  /** Every name in `e`, in traversal order. */
  function Names(e: Expr): seq<string>
    decreases e, 1
  {
    match e
    case Name(id) => [id]
    case Node(_, kids) => NamesAll(kids)
  }

  function NamesAll(es: seq<Expr>): seq<string>
    decreases es, 0
  {
    if |es| == 0 then [] else Names(es[0]) + NamesAll(es[1..])
  }

  /** `e` with every name blanked out. */
  function Shape(e: Expr): Expr
    decreases e, 1
  {
    match e
    case Name(_) => Name("")
    case Node(l, kids) => Node(l, ShapeAll(kids))
  }

  function ShapeAll(es: seq<Expr>): (r: seq<Expr>)
    ensures |r| == |es|
    decreases es, 0
  {
    if |es| == 0 then [] else [Shape(es[0])] + ShapeAll(es[1..])
  }

  /** How far one name moves the generator: one step for a placeholder, none otherwise. */
  function Step(id: string): nat {
    if id == Placeholder then 1 else 0
  }

  /** What one name becomes with the generator at its `start`-th name. */
  function Label(id: string, start: nat): string {
    if id == Placeholder then ArgName(start) else id
  }

  /** How many of the names are the placeholder. */
  function Occ(ns: seq<string>): nat {
    if |ns| == 0 then 0 else Step(ns[0]) + Occ(ns[1..])
  }

  /** How many placeholders `e` holds. */
  function Count(e: Expr): nat
    decreases e, 1
  {
    match e
    case Name(id) => Step(id)
    case Node(_, kids) => CountAll(kids)
  }

  function CountAll(es: seq<Expr>): nat
    decreases es, 0
  {
    if |es| == 0 then 0 else Count(es[0]) + CountAll(es[1..])
  }

  /** The intended renaming of a name list, the generator standing at its `start`-th name. */
  function Relabel(ns: seq<string>, start: nat): (r: seq<string>)
    ensures |r| == |ns|
    decreases |ns|
  {
    if |ns| == 0 then [] else [Label(ns[0], start)] + Relabel(ns[1..], start + Step(ns[0]))
  }

  /**
   * Relabelling name by name: a placeholder preceded by `k` placeholders
   * becomes the `start + k`-th generated name, and every other name stays.
   */
  lemma {:induction false} RelabelAt(ns: seq<string>, start: nat, i: nat)
    requires i < |ns|
    ensures Relabel(ns, start)[i] == if ns[i] == Placeholder then ArgName(start + Occ(ns[..i])) else ns[i]
    decreases |ns|
  {
    if i > 0 {
      RelabelAt(ns[1..], start + Step(ns[0]), i - 1);
      assert ns[..i][0] == ns[0] && ns[..i][1..] == ns[1..][..i - 1];
    } else {
      assert ns[..0] == [];
    }
  }

  lemma ConsAppend<X>(x: X, p: seq<X>, q: seq<X>)
    ensures [x] + (p + q) == ([x] + p) + q
  {
  }

  lemma {:induction false} OccAppend(a: seq<string>, b: seq<string>)
    ensures Occ(a + b) == Occ(a) + Occ(b)
    decreases |a|
  {
    if |a| > 0 {
      assert (a + b)[0] == a[0] && (a + b)[1..] == a[1..] + b;
      OccAppend(a[1..], b);
    } else {
      assert a + b == b;
    }
  }

  /** No placeholder counted means no placeholder present. */
  lemma {:induction false} OccZero(ns: seq<string>)
    ensures Occ(ns) == 0 <==> forall i :: 0 <= i < |ns| ==> ns[i] != Placeholder
    decreases |ns|
  {
    if |ns| > 0 {
      OccZero(ns[1..]);
      assert forall i :: 1 <= i < |ns| ==> ns[i] == ns[1..][i - 1];
    }
  }

  lemma {:induction false} RelabelAppend(a: seq<string>, b: seq<string>, start: nat)
    ensures Relabel(a + b, start) == Relabel(a, start) + Relabel(b, start + Occ(a))
    decreases |a|
  {
    if |a| > 0 {
      var h, r := a[0], a[1..];
      var s2 := start + Step(h);
      assert (a + b)[0] == h && (a + b)[1..] == r + b;
      RelabelAppend(r, b, s2);
      ConsAppend(Label(h, start), Relabel(r, s2), Relabel(b, s2 + Occ(r)));
    } else {
      assert a + b == b;
    }
  }

  /** After relabelling no placeholder is left. */
  lemma {:induction false} RelabelLeavesNoPlaceholder(ns: seq<string>, start: nat)
    ensures Occ(Relabel(ns, start)) == 0
    decreases |ns|
  {
    if |ns| > 0 {
      var s2 := start + Step(ns[0]);
      RelabelLeavesNoPlaceholder(ns[1..], s2);
      var r := Relabel(ns, start);
      assert r[1..] == Relabel(ns[1..], s2);
      if ns[0] == Placeholder {
        assert r[0][..3] == "arg";
      }
    }
  }

  /** A name list without placeholders relabels to itself. */
  lemma {:induction false} RelabelWithoutPlaceholder(ns: seq<string>, start: nat)
    requires Occ(ns) == 0
    ensures Relabel(ns, start) == ns
    decreases |ns|
  {
    if |ns| > 0 {
      RelabelWithoutPlaceholder(ns[1..], start);
    }
  }

  /** Equal shapes hold equally many names. */
  lemma {:induction false} ShapeCount(e1: Expr, e2: Expr)
    requires Shape(e1) == Shape(e2)
    ensures |Names(e1)| == |Names(e2)|
    decreases e1, 1
  {
    match e1
    case Name(_) =>
    case Node(_, kids) => ShapeCountAll(kids, e2.kids);
  }

  lemma {:induction false} ShapeCountAll(es1: seq<Expr>, es2: seq<Expr>)
    requires ShapeAll(es1) == ShapeAll(es2)
    ensures |NamesAll(es1)| == |NamesAll(es2)|
    decreases es1, 0
  {
    if |es1| > 0 {
      assert ShapeAll(es1)[0] == ShapeAll(es2)[0];
      assert ShapeAll(es1)[1..] == ShapeAll(es2)[1..];
      ShapeCount(es1[0], es2[0]);
      ShapeCountAll(es1[1..], es2[1..]);
    }
  }

  /** An expression is determined by its shape and its names. */
  lemma {:induction false} ShapeDetermines(e1: Expr, e2: Expr)
    requires Shape(e1) == Shape(e2) && Names(e1) == Names(e2)
    ensures e1 == e2
    decreases e1, 1
  {
    match e1
    case Name(id) =>
      assert Names(e2) == [id];
    case Node(_, kids) =>
      ShapeDeterminesAll(kids, e2.kids);
  }

  lemma {:induction false} ShapeDeterminesAll(es1: seq<Expr>, es2: seq<Expr>)
    requires ShapeAll(es1) == ShapeAll(es2) && NamesAll(es1) == NamesAll(es2)
    ensures es1 == es2
    decreases es1, 0
  {
    if |es1| > 0 {
      assert ShapeAll(es1)[0] == ShapeAll(es2)[0];
      assert ShapeAll(es1)[1..] == ShapeAll(es2)[1..];
      ShapeCount(es1[0], es2[0]);
      SplitAppend(Names(es1[0]), NamesAll(es1[1..]), Names(es2[0]), NamesAll(es2[1..]));
      ShapeDetermines(es1[0], es2[0]);
      ShapeDeterminesAll(es1[1..], es2[1..]);
      assert es1 == [es1[0]] + es1[1..];
      assert es2 == [es2[0]] + es2[1..];
    }
  }

  // ---------------------------------------------------------------------------
  // underscore_search

  /**
   * Renames the placeholders of `e`, the generator standing at its
   * `start`-th name; also yields the names used, in the order drawn.
   */
  function Rename(e: Expr, start: nat): Result<(Expr, seq<string>), Error>
    decreases e, 1
  {
    match e
    case Name(id) =>
      if id != Placeholder then Success((e, []))
      else if start < NameLimit then Success((Name(ArgName(start)), [ArgName(start)]))
      else Failure(NamesExhausted)
    case Node(l, kids) =>
      var r := RenameAll(kids, start);
      if r.Failure? then Failure(r.error) else Success((Node(l, r.value.0), r.value.1))
  }

  function RenameAll(es: seq<Expr>, start: nat): Result<(seq<Expr>, seq<string>), Error>
    decreases es, 0
  {
    if |es| == 0 then Success(([], []))
    else
      var rh := Rename(es[0], start);
      if rh.Failure? then Failure(rh.error)
      else
        var rt := RenameAll(es[1..], start + |rh.value.1|);
        if rt.Failure? then Failure(rt.error)
        else Success(([rh.value.0] + rt.value.0, rh.value.1 + rt.value.1))
  }

  /**
   * What renaming means, with a generator that never runs out: every name of
   * `e` relabelled by `Label`, the generator advancing one name per placeholder.
   */
  function Relabeled(e: Expr, start: nat): Expr
    decreases e, 1
  {
    match e
    case Name(id) => Name(Label(id, start))
    case Node(l, kids) => Node(l, RelabeledAll(kids, start))
  }

  function RelabeledAll(es: seq<Expr>, start: nat): (r: seq<Expr>)
    ensures |r| == |es|
    decreases es, 0
  {
    if |es| == 0 then [] else [Relabeled(es[0], start)] + RelabeledAll(es[1..], start + Count(es[0]))
  }

  /** The placeholders counted are those among the names, read left to right. */
  lemma {:induction false} CountNames(e: Expr)
    ensures Count(e) == Occ(Names(e))
    decreases e, 1
  {
    match e
    case Name(id) =>
      assert Names(e)[1..] == [];
    case Node(_, kids) => CountAllNames(kids);
  }

  lemma {:induction false} CountAllNames(es: seq<Expr>)
    ensures CountAll(es) == Occ(NamesAll(es))
    decreases es, 0
  {
    if |es| > 0 {
      CountNames(es[0]);
      CountAllNames(es[1..]);
      OccAppend(Names(es[0]), NamesAll(es[1..]));
    }
  }

  /**
   * With the generator not past its end, renaming succeeds exactly when the
   * generator has a name left for every placeholder.
   */
  lemma {:induction false} RenameSucceeds(e: Expr, start: nat)
    requires start <= NameLimit
    ensures Rename(e, start).Success? <==> start + Count(e) <= NameLimit
    decreases e, 1
  {
    match e
    case Name(id) =>
    case Node(l, kids) =>
      RenameAllSucceeds(kids, start);
  }

  lemma {:induction false} RenameAllSucceeds(es: seq<Expr>, start: nat)
    requires start <= NameLimit
    ensures RenameAll(es, start).Success? <==> start + CountAll(es) <= NameLimit
    decreases es, 0
  {
    if |es| > 0 {
      RenameSucceeds(es[0], start);
      if Rename(es[0], start).Success? {
        RenameValue(es[0], start);
        RenameAllSucceeds(es[1..], start + Count(es[0]));
      }
    }
  }

  /**
   * A successful renaming yields the relabelled expression and the next
   * `Count(e)` generated names, in order.
   */
  lemma {:induction false} RenameValue(e: Expr, start: nat)
    requires Rename(e, start).Success?
    ensures Rename(e, start).value == (Relabeled(e, start), ArgNames(start, Count(e)))
    decreases e, 1
  {
    match e
    case Name(id) =>
      if id == Placeholder {
        assert ArgNames(start, 1) == [ArgName(start)];
      }
    case Node(l, kids) =>
      RenameAllValue(kids, start);
  }

  lemma {:induction false} RenameAllValue(es: seq<Expr>, start: nat)
    requires RenameAll(es, start).Success?
    ensures RenameAll(es, start).value == (RelabeledAll(es, start), ArgNames(start, CountAll(es)))
    decreases es, 0
  {
    if |es| > 0 {
      RenameValue(es[0], start);
      RenameAllValue(es[1..], start + Count(es[0]));
      RenameAllJoins(es, start, (Relabeled(es[0], start), ArgNames(start, Count(es[0]))),
        (RelabeledAll(es[1..], start + Count(es[0])), ArgNames(start + Count(es[0]), CountAll(es[1..]))));
      ArgNamesAppend(start, Count(es[0]), CountAll(es[1..]));
    }
  }

  /** `RenameAll` joins the renamed head and tail and the names each used. */
  lemma RenameAllJoins(es: seq<Expr>, start: nat, hr: (Expr, seq<string>), tr: (seq<Expr>, seq<string>))
    requires |es| > 0
    requires Rename(es[0], start) == Success(hr)
    requires RenameAll(es[1..], start + |hr.1|) == Success(tr)
    ensures RenameAll(es, start) == Success(([hr.0] + tr.0, hr.1 + tr.1))
  {
  }

  /** The relabelled expression keeps the shape and relabels the names as `Relabel` says. */
  lemma {:induction false} RelabeledShape(e: Expr, start: nat)
    ensures Shape(Relabeled(e, start)) == Shape(e)
    ensures Names(Relabeled(e, start)) == Relabel(Names(e), start)
    decreases e, 1
  {
    match e
    case Name(id) =>
      assert Names(e) == [id];
      assert [id][1..] == [];
    case Node(l, kids) =>
      RelabeledAllShape(kids, start);
  }

  lemma {:induction false} RelabeledAllShape(es: seq<Expr>, start: nat)
    ensures ShapeAll(RelabeledAll(es, start)) == ShapeAll(es)
    ensures NamesAll(RelabeledAll(es, start)) == Relabel(NamesAll(es), start)
    decreases es, 0
  {
    if |es| > 0 {
      RelabeledShape(es[0], start);
      CountNames(es[0]);
      RelabeledAllShape(es[1..], start + Count(es[0]));
      NamesAllCons(Relabeled(es[0], start), RelabeledAll(es[1..], start + Count(es[0])));
      RelabelAppend(Names(es[0]), NamesAll(es[1..]), start);
    }
  }

  lemma NamesAllCons(h: Expr, t: seq<Expr>)
    ensures NamesAll([h] + t) == Names(h) + NamesAll(t)
    ensures ShapeAll([h] + t) == [Shape(h)] + ShapeAll(t)
  {
    assert ([h] + t)[0] == h && ([h] + t)[1..] == t;
  }

  lemma ArgNamesAppend(start: nat, a: nat, b: nat)
    ensures ArgNames(start, a) + ArgNames(start + a, b) == ArgNames(start, a + b)
  {
    var l, r := ArgNames(start, a) + ArgNames(start + a, b), ArgNames(start, a + b);
    forall i | 0 <= i < a + b
      ensures l[i] == r[i]
    {
      if i >= a {
        assert l[i] == ArgNames(start + a, b)[i - a];
      }
    }
  }

  /** Consecutive generated names are pairwise different. */
  lemma ArgNamesDistinct(start: nat, n: nat)
    ensures forall i, j :: 0 <= i < j < n ==> ArgNames(start, n)[i] != ArgNames(start, n)[j]
  {
    forall i, j | 0 <= i < j < n
      ensures ArgNames(start, n)[i] != ArgNames(start, n)[j]
    {
      ArgNameInjective(start + i, start + j);
    }
  }

  // ---------------------------------------------------------------------------
  // The macro

  /** `f[e]`: the lambda over the placeholders of `e`, or the generator's failure. */
  function F(e: Expr): (r: Result<Lambda, Error>)
    ensures r.Success? <==> Count(e) <= NameLimit
    ensures r.Success? ==> r.value == Lambda(ArgNames(0, Count(e)), Relabeled(e, 0))
  {
    RenameSucceeds(e, 0);
    match Rename(e, 0)
    case Failure(err) => Failure(err)
    case Success((body, used)) =>
      RenameValue(e, 0);
      Success(Lambda(used, body))
  }

  /**
   * The body is `e` with the k-th placeholder renamed to the k-th generated
   * name and every other name, and everything else, untouched.
   */
  lemma FRenamesInOrder(e: Expr)
    requires F(e).Success?
    ensures Shape(F(e).value.body) == Shape(e)
    ensures Names(F(e).value.body) == Relabel(Names(e), 0)
    ensures forall i :: 0 <= i < |Names(e)| ==>
              Names(F(e).value.body)[i]
              == if Names(e)[i] == Placeholder then ArgName(Occ(Names(e)[..i])) else Names(e)[i]
  {
    RelabeledShape(e, 0);
    forall i | 0 <= i < |Names(e)| {
      RelabelAt(Names(e), 0, i);
    }
  }

  /** No placeholder is left in the body. */
  lemma FNoPlaceholder(e: Expr)
    requires F(e).Success?
    ensures Count(F(e).value.body) == 0
  {
    FRenamesInOrder(e);
    RelabelLeavesNoPlaceholder(Names(e), 0);
    CountNames(F(e).value.body);
  }

  /** There is one parameter per placeholder, and no two are the same. */
  lemma FParamsDistinct(e: Expr)
    requires F(e).Success?
    ensures |F(e).value.params| == Count(e)
    ensures forall i, j :: 0 <= i < j < |F(e).value.params| ==> F(e).value.params[i] != F(e).value.params[j]
  {
    ArgNamesDistinct(0, Count(e));
  }

  /** An expression without placeholders becomes a lambda of no parameters around it, unchanged. */
  lemma FWithoutPlaceholder(e: Expr)
    requires Count(e) == 0
    ensures F(e) == Success(Lambda([], e))
  {
    FRenamesInOrder(e);
    CountNames(e);
    RelabelWithoutPlaceholder(Names(e), 0);
    ShapeDetermines(F(e).value.body, e);
  }

  /** Undoes the renaming of one name: a generated-looking name goes back to the placeholder. */
  function RestoreName(id: string): string {
    if IsArgName(id) then Placeholder else id
  }

  /** Undoes the renaming: every generated-looking name back to the placeholder. */
  function Restore(e: Expr): Expr
    decreases e, 1
  {
    match e
    case Name(id) => Name(RestoreName(id))
    case Node(l, kids) => Node(l, RestoreAll(kids))
  }

  function RestoreAll(es: seq<Expr>): (r: seq<Expr>)
    ensures |r| == |es|
    decreases es, 0
  {
    if |es| == 0 then [] else [Restore(es[0])] + RestoreAll(es[1..])
  }

  function RestoreNames(ns: seq<string>): (r: seq<string>)
    ensures |r| == |ns|
  {
    if |ns| == 0 then [] else [RestoreName(ns[0])] + RestoreNames(ns[1..])
  }

  lemma {:induction false} RestoreNamesAppend(a: seq<string>, b: seq<string>)
    ensures RestoreNames(a + b) == RestoreNames(a) + RestoreNames(b)
    decreases |a|
  {
    if |a| > 0 {
      assert (a + b)[0] == a[0] && (a + b)[1..] == a[1..] + b;
      RestoreNamesAppend(a[1..], b);
    } else {
      assert a + b == b;
    }
  }

  /** Restoring a relabelled name list gives it back, when it held no generated-looking name. */
  lemma {:induction false} RestoreRelabel(ns: seq<string>, start: nat)
    requires forall i :: 0 <= i < |ns| ==> !IsArgName(ns[i])
    ensures RestoreNames(Relabel(ns, start)) == ns
    decreases |ns|
  {
    if |ns| > 0 {
      assert forall i :: 0 <= i < |ns[1..]| ==> ns[1..][i] == ns[i + 1];
      RestoreRelabel(ns[1..], start + Step(ns[0]));
      RestoreNamesCons(Label(ns[0], start), Relabel(ns[1..], start + Step(ns[0])));
      RestoreLabel(ns[0], start);
      assert ns == [ns[0]] + ns[1..];
    }
  }

  lemma RestoreNamesCons(id: string, ns: seq<string>)
    ensures RestoreNames([id] + ns) == [RestoreName(id)] + RestoreNames(ns)
  {
    assert ([id] + ns)[0] == id && ([id] + ns)[1..] == ns;
  }

  /** Restoring undoes the relabelling of one name that is not generated-looking. */
  lemma RestoreLabel(id: string, start: nat)
    requires !IsArgName(id)
    ensures RestoreName(Label(id, start)) == id
  {
    if id == Placeholder {
      ArgNameIsArgName(start);
    }
  }


  lemma {:induction false} RestoreShape(e: Expr)
    ensures Shape(Restore(e)) == Shape(e)
    ensures Names(Restore(e)) == RestoreNames(Names(e))
    decreases e, 1
  {
    match e
    case Name(id) =>
      assert RestoreNames([id]) == [RestoreName(id)] + RestoreNames([]);
    case Node(l, kids) => RestoreAllShape(kids);
  }

  lemma {:induction false} RestoreAllShape(es: seq<Expr>)
    ensures ShapeAll(RestoreAll(es)) == ShapeAll(es)
    ensures NamesAll(RestoreAll(es)) == RestoreNames(NamesAll(es))
    decreases es, 0
  {
    if |es| > 0 {
      var r := RestoreAll(es);
      assert r[0] == Restore(es[0]) && r[1..] == RestoreAll(es[1..]);
      RestoreShape(es[0]);
      RestoreAllShape(es[1..]);
      RestoreNamesAppend(Names(es[0]), NamesAll(es[1..]));
    }
  }

  /** Round trip: when `e` uses no generated-looking name, restoring the body gives `e` back. */
  lemma FRestore(e: Expr)
    requires F(e).Success?
    requires forall i :: 0 <= i < |Names(e)| ==> !IsArgName(Names(e)[i])
    ensures Restore(F(e).value.body) == e
  {
    var body := F(e).value.body;
    FRenamesInOrder(e);
    RestoreShape(body);
    RestoreRelabel(Names(e), 0);
    ShapeDetermines(Restore(body), e);
  }
}
