/**
 * The `@case` class decorator (adt.py): a class declaration whose "bases"
 * list the field names is rewritten into one class per (possibly nested)
 * declaration, each carrying generated `__init__`, `__str__`, `__repr__`,
 * `__eq__`, `__ne__` and `copy` methods.
 *
 * Python statements are reduced to the forms the transform distinguishes:
 * class and function definitions, the statements the transform itself
 * generates, and `Other` for any statement it only moves around.
 */
module CaseClass {
  import opened Outcomes

  /** The base given to a top-level case class. */
  const ObjectBase: string := "object"
  /** The sentinel default of every `copy` parameter. */
  const NoArg: string := "NO_ARG"

  const InitName: string := "__init__"
  const StrName: string := "__str__"
  const ReprName: string := "__repr__"
  const EqName: string := "__eq__"
  const NeName: string := "__ne__"
  const CopyName: string := "copy"

  /** The generated method names, in the order they are appended to a class body. */
  const GeneratedNames: seq<string> := [InitName, StrName, ReprName, EqName, NeName, CopyName]

  /**
   * A statement as `@case` sees it. This is separate from
   * `TailCallRewrite.Stmt`, which keeps the forms `@tco` distinguishes.
   */
  datatype Stmt =
    | ClassDef(name: string, bases: seq<string>, body: seq<Stmt>)
      /** `def name(params...)`, the last `|defaults|` parameters having those defaults */
    | FunctionDef(name: string, params: seq<string>, defaults: seq<string>, body: seq<Stmt>)
      /** `super(cls, self).__init__()` */
    | SuperInit(cls: string)
      /** `self.<field> = <field>` */
    | SetField(field: string)
      /** `return cls + "(" + ", ".join(map(str, [self.f, ...])) + ")"` */
    | ReturnRender(cls: string, fields: seq<string>)
      /** `return self.__str__()` */
    | ReturnSelfStr
      /** `try: return all([self.f == other.f, ...]) except: return False` */
    | ReturnFieldsEqual(fields: seq<string>)
      /** `return not self.__eq__(other)` */
    | ReturnNotEqual
      /** `return cls(*[self.f if f is NO_ARG else f, ...])` */
    | ReturnCopy(cls: string, fields: seq<string>)
      /** any other statement (`pass`, an assignment, an expression, ...) */
    | Other(code: string)

  /** A class as the runtime sees it: its name, constructor fields and single base. */
  datatype ClassInfo = ClassInfo(name: string, fields: seq<string>, parent: string)

  // ---------------------------------------------------------------------------
  // Termination measure for the mutual recursion through class bodies

  function Size(s: Stmt): nat {
    match s
    case ClassDef(_, _, body) => 1 + SizeAll(body)
    case FunctionDef(_, _, _, body) => 1 + SizeAll(body)
    case _ => 1
  }

  function SizeAll(ss: seq<Stmt>): nat
    ensures |ss| > 0 ==> Size(ss[0]) < SizeAll(ss) && SizeAll(ss[1..]) < SizeAll(ss)
  {
    if |ss| == 0 then 0 else 1 + Size(ss[0]) + SizeAll(ss[1..])
  }

  // ---------------------------------------------------------------------------
  // Pieces of the transform

  /** The class-body statements kept in the class body: the function definitions, in order. */
  function Functions(body: seq<Stmt>): (r: seq<Stmt>)
    ensures forall i :: 0 <= i < |r| ==> r[i].FunctionDef?
    ensures |r| <= |body|
  {
    if |body| == 0 then []
    else (if body[0].FunctionDef? then [body[0]] else []) + Functions(body[1..])
  }

  /** The class-body statements that move into `__init__`: every non-function statement, in order. */
  function NonFunctions(body: seq<Stmt>): (r: seq<Stmt>)
    ensures forall i :: 0 <= i < |r| ==> !r[i].FunctionDef?
    ensures |r| + |Functions(body)| == |body|
  {
    if |body| == 0 then []
    else (if body[0].FunctionDef? then [] else [body[0]]) + NonFunctions(body[1..])
  }

  /** `self.<f> = <f>` for every field, in declaration order. */
  function Setters(fields: seq<string>): (r: seq<Stmt>)
    ensures |r| == |fields|
    ensures forall i :: 0 <= i < |fields| ==> r[i] == SetField(fields[i])
  {
    seq(|fields|, i requires 0 <= i < |fields| => SetField(fields[i]))
  }

  /** `n` copies of the `NO_ARG` default. */
  function NoArgDefaults(n: nat): (r: seq<string>)
    ensures |r| == n
    ensures forall i :: 0 <= i < n ==> r[i] == NoArg
  {
    seq(n, i => NoArg)
  }

  /** The generated `__init__`: parent's `__init__` with no arguments, the setters, then `tail`. */
  function InitDef(name: string, fields: seq<string>, tail: seq<Stmt>): Stmt {
    FunctionDef(InitName, ["self"] + fields, [], [SuperInit(name)] + Setters(fields) + tail)
  }

  /** The six generated methods, in the order they are appended. */
  function Methods(name: string, fields: seq<string>, tail: seq<Stmt>): (r: seq<Stmt>)
    ensures |r| == 6
    ensures forall i :: 0 <= i < 6 ==> r[i].FunctionDef? && r[i].name == GeneratedNames[i]
  {
    [ InitDef(name, fields, tail),
      FunctionDef(StrName, ["self"], [], [ReturnRender(name, fields)]),
      FunctionDef(ReprName, ["self"], [], [ReturnSelfStr]),
      FunctionDef(EqName, ["self", "other"], [], [ReturnFieldsEqual(fields)]),
      FunctionDef(NeName, ["self", "other"], [], [ReturnNotEqual]),
      FunctionDef(CopyName, ["self"] + fields, NoArgDefaults(|fields|), [ReturnCopy(name, fields)]) ]
  }

  // ---------------------------------------------------------------------------
  // The transform (`_case_transform`)

  /**
   * `_case_transform(c, parents)`: the transformed class followed by the
   * transformed nested classes, flattened in body order.
   */
  function Transform(c: Stmt, parents: seq<string>): (out: seq<Stmt>)
    requires c.ClassDef?
    ensures |out| >= 1
    ensures forall i :: 0 <= i < |out| ==> out[i].ClassDef?
    ensures out[0].name == c.name && out[0].bases == parents
    decreases Size(c), 1
  {
    [ClassDef(c.name, parents, Functions(c.body) + Methods(c.name, c.bases, InitTail(c.body, c.name)))]
      + Nested(c.body, c.name)
  }

  /**
   * The statements appended to `__init__` after the setters: every
   * non-function statement of the body. A nested class statement is the
   * same node the recursive transform later rewrites in place, so what ends
   * up in `__init__` is the transformed nested class.
   */
  function InitTail(body: seq<Stmt>, encl: string): (r: seq<Stmt>)
    ensures |r| == |NonFunctions(body)|
    decreases SizeAll(body), 0
  {
    if |body| == 0 then []
    else
      var s := body[0];
      (if s.FunctionDef? then [] else if s.ClassDef? then [Transform(s, [encl])[0]] else [s])
        + InitTail(body[1..], encl)
  }

  /** The transformed output of every nested class of `body`, concatenated in body order. */
  function Nested(body: seq<Stmt>, encl: string): (out: seq<Stmt>)
    ensures forall i :: 0 <= i < |out| ==> out[i].ClassDef?
    decreases SizeAll(body), 0
  {
    if |body| == 0 then []
    else (if body[0].ClassDef? then Transform(body[0], [encl]) else []) + Nested(body[1..], encl)
  }

  /** The `@case` decorator: a top-level case class derives from `object`. */
  function Case(c: Stmt): (out: seq<Stmt>)
    requires c.ClassDef?
    ensures out == Transform(c, [ObjectBase])
    ensures out[0].bases == [ObjectBase]
  {
    Transform(c, [ObjectBase])
  }

  // ---------------------------------------------------------------------------
  // Method resolution in a class body

  /** The definition a class attribute `name` is bound to: the LAST `def name` of the body. */
  function LookupMethod(body: seq<Stmt>, name: string): (r: Option<Stmt>)
    ensures r.Some? ==> r.value.FunctionDef? && r.value.name == name && r.value in body
    ensures r.None? <==> forall j :: 0 <= j < |body| ==> !(body[j].FunctionDef? && body[j].name == name)
  {
    if |body| == 0 then None
    else
      var last := body[|body| - 1];
      if last.FunctionDef? && last.name == name then Some(last)
      else
        var r := LookupMethod(body[..|body| - 1], name);
        assert forall j :: 0 <= j < |body| - 1 ==> body[..|body| - 1][j] == body[j];
        r
  }

  /** A definition with no later same-named definition is the one the name is bound to. */
  lemma {:induction false} LookupMethodLast(body: seq<Stmt>, i: nat)
    requires i < |body| && body[i].FunctionDef?
    requires forall j :: i < j < |body| ==> !(body[j].FunctionDef? && body[j].name == body[i].name)
    ensures LookupMethod(body, body[i].name) == Some(body[i])
    decreases |body|
  {
    if i < |body| - 1 {
      var prefix := body[..|body| - 1];
      assert prefix[i] == body[i];
      LookupMethodLast(prefix, i);
    }
  }

  /** The statement a non-function class-body statement becomes inside `__init__`. */
  function Moved(s: Stmt, encl: string): Stmt {
    if s.ClassDef? then Transform(s, [encl])[0] else s
  }

  /**
   * Every non-function statement of the class body reaches `__init__`, in
   * order; a nested class arrives already transformed.
   */
  lemma {:induction false} InitTailMatchesBody(body: seq<Stmt>, encl: string)
    ensures |InitTail(body, encl)| == |NonFunctions(body)|
    ensures forall i :: 0 <= i < |NonFunctions(body)| ==>
              InitTail(body, encl)[i] == Moved(NonFunctions(body)[i], encl)
    decreases |body|
  {
    if |body| > 0 {
      InitTailMatchesBody(body[1..], encl);
    }
  }

  /**
   * Layout of a transformed class body: the original function definitions in
   * their order, then the six generated methods `__init__`, `__str__`,
   * `__repr__`, `__eq__`, `__ne__`, `copy`. Nothing else stays in the body.
   */
  lemma TransformedBodyLayout(c: Stmt, parents: seq<string>)
    requires c.ClassDef?
    ensures var b := Transform(c, parents)[0].body;
            var k := |Functions(c.body)|;
            && |b| == k + 6
            && b[..k] == Functions(c.body)
            && (forall i :: 0 <= i < |b| ==> b[i].FunctionDef?)
            && (forall i :: 0 <= i < 6 ==> b[k + i].name == GeneratedNames[i])
  {
    var b := Transform(c, parents)[0].body;
    var k := |Functions(c.body)|;
    var m := Methods(c.name, c.bases, InitTail(c.body, c.name));
    assert b == Functions(c.body) + m;
    assert forall i :: 0 <= i < 6 ==> b[k + i] == m[i];
  }

  /**
   * The generated methods override any same-named method the class body
   * defines: after the transform each generated name resolves to the
   * generated definition.
   */
  lemma GeneratedMethodsWin(c: Stmt, parents: seq<string>, i: nat)
    requires c.ClassDef? && i < 6
    ensures LookupMethod(Transform(c, parents)[0].body, GeneratedNames[i])
            == Some(Methods(c.name, c.bases, InitTail(c.body, c.name))[i])
  {
    var m := Methods(c.name, c.bases, InitTail(c.body, c.name));
    var f := Functions(c.body);
    var b := Transform(c, parents)[0].body;
    assert b == f + m;
    assert b[|f| + i] == m[i];
    forall j | |f| + i < j < |b|
      ensures !(b[j].FunctionDef? && b[j].name == GeneratedNames[i])
    {
      assert b[j] == m[j - |f|];
    }
    LookupMethodLast(b, |f| + i);
  }

  /**
   * The generated `__init__`: its parameters are `self` followed by exactly
   * the declared fields in declaration order; its body first calls the
   * parent's `__init__` with no arguments, then assigns `self.f = f` for every
   * field in order, and only then runs the class body's other statements.
   */
  lemma InitContract(c: Stmt, parents: seq<string>)
    requires c.ClassDef?
    ensures var init := LookupMethod(Transform(c, parents)[0].body, InitName);
            && init.Some? && init.value.FunctionDef?
            && init.value.params == ["self"] + c.bases && init.value.defaults == []
            && |init.value.body| == 1 + |c.bases| + |NonFunctions(c.body)|
            && init.value.body[0] == SuperInit(c.name)
            && (forall j :: 0 <= j < |c.bases| ==> init.value.body[1 + j] == SetField(c.bases[j]))
            && (forall j :: 0 <= j < |NonFunctions(c.body)| ==>
                  init.value.body[1 + |c.bases| + j] == Moved(NonFunctions(c.body)[j], c.name))
  {
    InitIsGenerated(c, parents);
    InitShape(c, LookupMethod(Transform(c, parents)[0].body, InitName).value);
  }

  lemma InitShape(c: Stmt, d: Stmt)
    requires c.ClassDef? && d == InitDef(c.name, c.bases, InitTail(c.body, c.name))
    ensures && d.FunctionDef?
            && d.params == ["self"] + c.bases && d.defaults == []
            && |d.body| == 1 + |c.bases| + |NonFunctions(c.body)|
            && d.body[0] == SuperInit(c.name)
            && (forall j :: 0 <= j < |c.bases| ==> d.body[1 + j] == SetField(c.bases[j]))
            && (forall j :: 0 <= j < |NonFunctions(c.body)| ==>
                  d.body[1 + |c.bases| + j] == Moved(NonFunctions(c.body)[j], c.name))
  {
    InitTailMatchesBody(c.body, c.name);
    InitDefLayout(c.name, c.bases, InitTail(c.body, c.name));
  }

  lemma InitIsGenerated(c: Stmt, parents: seq<string>)
    requires c.ClassDef?
    ensures LookupMethod(Transform(c, parents)[0].body, InitName)
            == Some(InitDef(c.name, c.bases, InitTail(c.body, c.name)))
  {
    GeneratedMethodsWin(c, parents, 0);
  }

  /** The parts of a generated `__init__`, position by position. */
  lemma InitDefLayout(name: string, fields: seq<string>, tail: seq<Stmt>)
    ensures var d := InitDef(name, fields, tail);
            && d.FunctionDef? && d.params == ["self"] + fields && d.defaults == []
            && |d.body| == 1 + |fields| + |tail|
            && d.body[0] == SuperInit(name)
            && (forall j :: 0 <= j < |fields| ==> d.body[1 + j] == SetField(fields[j]))
            && (forall j :: 0 <= j < |tail| ==> d.body[1 + |fields| + j] == tail[j])
  {
    var head := [SuperInit(name)] + Setters(fields);
    var body := head + tail;
    assert InitDef(name, fields, tail).body == body;
    forall j | 0 <= j < |fields|
      ensures body[1 + j] == SetField(fields[j])
    {
      assert body[1 + j] == head[1 + j];
    }
    forall j | 0 <= j < |tail|
      ensures body[1 + |fields| + j] == tail[j]
    {
    }
  }

  /**
   * The generated `copy` takes `self` and every field, each defaulting to the
   * `NO_ARG` sentinel, and re-invokes the class's own constructor.
   */
  lemma CopySignature(c: Stmt, parents: seq<string>)
    requires c.ClassDef?
    ensures var cp := LookupMethod(Transform(c, parents)[0].body, CopyName);
            && cp.Some?
            && cp.value.params == ["self"] + c.bases
            && |cp.value.defaults| == |c.bases|
            && (forall j :: 0 <= j < |c.bases| ==> cp.value.defaults[j] == NoArg)
            && cp.value.body == [ReturnCopy(c.name, c.bases)]
  {
    GeneratedMethodsWin(c, parents, 5);
  }

  // ---------------------------------------------------------------------------
  // The classes the output defines, against the declaration tree

  /** Every class of a declaration tree, in preorder, with its fields and its enclosing class as parent. */
  function Declared(c: Stmt, parent: string): (r: seq<ClassInfo>)
    requires c.ClassDef?
    ensures |r| >= 1 && r[0] == ClassInfo(c.name, c.bases, parent)
    decreases Size(c), 1
  {
    [ClassInfo(c.name, c.bases, parent)] + DeclaredNested(c.body, c.name)
  }

  function DeclaredNested(body: seq<Stmt>, encl: string): seq<ClassInfo>
    decreases SizeAll(body), 0
  {
    if |body| == 0 then []
    else (if body[0].ClassDef? then Declared(body[0], encl) else []) + DeclaredNested(body[1..], encl)
  }

  /** The fields a transformed class's constructor takes: its `__init__` parameters after `self`. */
  function InitFields(body: seq<Stmt>): seq<string> {
    match LookupMethod(body, InitName)
    case Some(f) => if |f.params| > 0 then f.params[1..] else []
    case None => []
  }

  /** What executing the class statements of `out` defines, in order. */
  function Schema(out: seq<Stmt>): (r: seq<ClassInfo>)
    ensures |r| <= |out|
  {
    if |out| == 0 then []
    else
      var s := out[0];
      (if s.ClassDef?
       then [ClassInfo(s.name, InitFields(s.body), if |s.bases| > 0 then s.bases[0] else ObjectBase)]
       else [])
        + Schema(out[1..])
  }

  lemma {:induction false} SchemaAppend(a: seq<Stmt>, b: seq<Stmt>)
    ensures Schema(a + b) == Schema(a) + Schema(b)
    decreases |a|
  {
    if |a| > 0 {
      var h := if a[0].ClassDef?
               then [ClassInfo(a[0].name, InitFields(a[0].body), if |a[0].bases| > 0 then a[0].bases[0] else ObjectBase)]
               else [];
      assert (a + b)[0] == a[0];
      assert (a + b)[1..] == a[1..] + b;
      assert Schema(a + b) == h + Schema(a[1..] + b);
      SchemaAppend(a[1..], b);
      assert Schema(a) == h + Schema(a[1..]);
    } else {
      assert a + b == b;
    }
  }

  /**
   * Flattening and parent assignment: the transformed output defines, in
   * order, the enclosing class and then each nested class recursively
   * (preorder); each takes exactly its declared fields; the top class's
   * parent is the given base and each nested class's parent is the class
   * that encloses it.
   */
  lemma {:induction false} SchemaOfTransform(c: Stmt, parent: string)
    requires c.ClassDef?
    ensures Schema(Transform(c, [parent])) == Declared(c, parent)
    decreases Size(c), 1
  {
    var out := Transform(c, [parent]);
    var head := out[0];
    GeneratedMethodsWin(c, [parent], 0);
    assert InitFields(head.body) == c.bases;
    SchemaAppend([head], Nested(c.body, c.name));
    SchemaOfNested(c.body, c.name);
  }

  lemma {:induction false} SchemaOfNested(body: seq<Stmt>, encl: string)
    ensures Schema(Nested(body, encl)) == DeclaredNested(body, encl)
    decreases SizeAll(body), 0
  {
    if |body| > 0 {
      var first := if body[0].ClassDef? then Transform(body[0], [encl]) else [];
      SchemaAppend(first, Nested(body[1..], encl));
      if body[0].ClassDef? {
        SchemaOfTransform(body[0], encl);
      }
      SchemaOfNested(body[1..], encl);
    }
  }

  /** The transformed output holds one class per declared class, top-level included. */
  lemma OutputCount(c: Stmt, parent: string)
    requires c.ClassDef?
    ensures |Transform(c, [parent])| == |Declared(c, parent)|
  {
    SchemaOfTransform(c, parent);
    SchemaAllClasses(Transform(c, [parent]));
  }

  lemma {:induction false} SchemaAllClasses(out: seq<Stmt>)
    requires forall i :: 0 <= i < |out| ==> out[i].ClassDef?
    ensures |Schema(out)| == |out|
    decreases |out|
  {
    if |out| > 0 {
      SchemaAllClasses(out[1..]);
    }
  }
}
