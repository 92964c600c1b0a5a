/**
 * What the methods generated by `@case` (adt.py) do at run time, over
 * instance values: construction through the generated `__init__`, rendering
 * through `__str__`/`__repr__`, field-wise equality through `__eq__`/`__ne__`,
 * copy-with-overrides through `copy`, and `isinstance` through the parent
 * the transform assigns.
 */
module CaseRuntime {
  import opened Outcomes
  import opened Decimal
  import opened CaseClass

  /**
   * A run-time value stored in a field. `Obj` is an instance of a case
   * class: its class name, and the attributes its `__init__` set, one per
   * declared field, in declaration order. This is separate from
   * `Trampoline.Value`, which models what a tail-called step returns.
   */
  datatype Value =
    | NoneV
    | BoolV(b: bool)
    | IntV(i: int)
    | StrV(s: string)
    | Obj(cls: string, fields: seq<string>, vals: seq<Value>)

  datatype Error =
    | NameError(name: string)
    | TypeError(reason: string)
    | AttributeError(attr: string)

  predicate Distinct(xs: seq<string>) {
    forall i, j :: 0 <= i < j < |xs| ==> xs[i] != xs[j]
  }

  /** An instance as the generated `__init__` leaves it: one attribute per distinct field. */
  predicate WellFormed(v: Value) {
    match v
    case Obj(_, fields, vals) =>
      && Distinct(fields)
      && |vals| == |fields|
      && forall i :: 0 <= i < |vals| ==> WellFormed(vals[i])
    case _ => true
  }

  // ---------------------------------------------------------------------------
  // Classes and attributes

  /** The class a name is bound to: the last class statement of that name. */
  function Lookup(table: seq<ClassInfo>, name: string): (r: Option<nat>)
    ensures r.Some? ==> r.value < |table| && table[r.value].name == name
    ensures r.Some? ==> forall j :: r.value < j < |table| ==> table[j].name != name
    ensures r.None? ==> forall j :: 0 <= j < |table| ==> table[j].name != name
  {
    if |table| == 0 then None
    else if table[|table| - 1].name == name then Some(|table| - 1)
    else
      var r := Lookup(table[..|table| - 1], name);
      assert forall j :: 0 <= j < |table| - 1 ==> table[..|table| - 1][j] == table[j];
      r
  }

  function Remove(table: seq<ClassInfo>, i: nat): (r: seq<ClassInfo>)
    requires i < |table|
    ensures |r| == |table| - 1
  {
    table[..i] + table[i + 1..]
  }

  /**
   * Whether `super(C, self).__init__()` succeeds for a class whose parent is
   * `parent`: each ancestor's generated `__init__` is called with no
   * arguments, so every ancestor must declare no fields.
   */
  function AncestorsInitOk(table: seq<ClassInfo>, parent: string): bool
    decreases |table|
  {
    if parent == ObjectBase then true
    else
      match Lookup(table, parent)
      case None => false
      case Some(i) => |table[i].fields| == 0 && AncestorsInitOk(Remove(table, i), table[i].parent)
  }

  /** `issubclass(sub, sup)` following the single parent of each class. */
  function IsSubclass(table: seq<ClassInfo>, sub: string, sup: string): bool
    decreases |table|
  {
    if sub == sup then true
    else if sub == ObjectBase then false
    else
      match Lookup(table, sub)
      case None => false
      case Some(i) => IsSubclass(Remove(table, i), table[i].parent, sup)
  }

  /** `isinstance(v, cls)`. */
  predicate IsInstance(table: seq<ClassInfo>, v: Value, cls: string) {
    v.Obj? && IsSubclass(table, v.cls, cls)
  }

  /** Position of the first occurrence of `name`. */
  function IndexOf(xs: seq<string>, name: string): (r: Option<nat>)
    ensures r.Some? ==> r.value < |xs| && xs[r.value] == name
    ensures r.Some? ==> forall j :: 0 <= j < r.value ==> xs[j] != name
    ensures r.None? ==> forall j :: 0 <= j < |xs| ==> xs[j] != name
  {
    if |xs| == 0 then None
    else if xs[0] == name then Some(0)
    else match IndexOf(xs[1..], name)
      case None => None
      case Some(k) => Some(k + 1)
  }

  /** `v.<name>`: an instance's attribute; no other value has attributes. */
  function Attr(v: Value, name: string): (r: Option<Value>)
    ensures r.Some? ==> v.Obj? && r.value in v.vals
    ensures v.Obj? && Distinct(v.fields) && |v.vals| == |v.fields| ==>
              forall i :: 0 <= i < |v.fields| && v.fields[i] == name ==> r == Some(v.vals[i])
    ensures v.Obj? && |v.vals| == |v.fields| && name !in v.fields ==> r.None?
  {
    if !v.Obj? then None
    else match IndexOf(v.fields, name)
      case None => None
      case Some(k) => if k < |v.vals| then Some(v.vals[k]) else None
  }

  // ---------------------------------------------------------------------------
  // Construction (the generated `__init__`)

  /**
   * `cls(*args)`: the name must be bound to a class, the arguments must match
   * its fields one for one, and the parent's `__init__` (called with no
   * arguments) must succeed up the chain. The new instance's attributes are
   * the arguments, under the declared field names.
   */
  function Construct(table: seq<ClassInfo>, cls: string, args: seq<Value>): (r: Result<Value, Error>)
    ensures r.Success? <==>
              && Lookup(table, cls).Some?
              && |args| == |table[Lookup(table, cls).value].fields|
              && AncestorsInitOk(table, table[Lookup(table, cls).value].parent)
    ensures r.Success? ==>
              var info := table[Lookup(table, cls).value];
              && r.value.Obj? && r.value.cls == cls && r.value.fields == info.fields
              && (Distinct(info.fields) ==>
                    forall i :: 0 <= i < |info.fields| ==> Attr(r.value, info.fields[i]) == Some(args[i]))
  {
    match Lookup(table, cls)
    case None => Failure(NameError(cls))
    case Some(k) =>
      var info := table[k];
      if |args| != |info.fields| then Failure(TypeError("__init__ takes exactly " + NatToString(|info.fields| + 1) + " arguments"))
      else if !AncestorsInitOk(table, info.parent) then Failure(TypeError("parent __init__ called without its fields"))
      else Success(Obj(cls, info.fields, args))
  }

  // ---------------------------------------------------------------------------
  // Rendering (the generated `__str__` and `__repr__`)

  /** `sep.join(parts)`. */
  function Join(sep: string, parts: seq<string>): (r: string)
    ensures |parts| == 0 ==> r == ""
    ensures |parts| == 1 ==> r == parts[0]
  {
    if |parts| == 0 then ""
    else if |parts| == 1 then parts[0]
    else parts[0] + sep + Join(sep, parts[1..])
  }

  /** `str(v)`; for an instance, its class name and its fields' strings in field order. */
  function Render(v: Value): (r: string)
    ensures v.Obj? ==> |r| >= |v.cls| + 2 && r[..|v.cls| + 1] == v.cls + "(" && r[|r| - 1] == ')'
    ensures v.Obj? && |v.vals| == 0 ==> r == v.cls + "()"
    decreases v
  {
    match v
    case NoneV => "None"
    case BoolV(b) => if b then "True" else "False"
    case IntV(i) => IntToString(i)
    case StrV(s) => s
    case Obj(cls, _, vals) =>
      var inner := Join(", ", seq(|vals|, i requires 0 <= i < |vals| => Render(vals[i])));
      var r := cls + "(" + inner + ")";
      assert r[..|cls| + 1] == cls + "(";
      r
  }

  /** `repr(v)` of an instance: the generated `__repr__` returns `self.__str__()`. */
  function Repr(v: Value): (r: string)
    requires v.Obj?
    ensures r == Render(v)
  {
    Render(v)
  }

  /** Joining one more part appends the separator and that part. */
  lemma {:induction false} JoinSnoc(sep: string, parts: seq<string>, p: string)
    requires |parts| > 0
    ensures Join(sep, parts + [p]) == Join(sep, parts) + sep + p
    decreases |parts|
  {
    var ps := parts + [p];
    assert ps[0] == parts[0] && ps[1..] == parts[1..] + [p];
    if |parts| > 1 {
      JoinSnoc(sep, parts[1..], p);
    } else {
      assert ps[1..] == [p];
    }
  }

  /** An instance with one field renders as `cls(<its string>)`. */
  lemma RenderOne(cls: string, fields: seq<string>, x: Value)
    ensures Render(Obj(cls, fields, [x])) == cls + "(" + Render(x) + ")"
  {
    assert seq(1, i requires 0 <= i < 1 => Render([x][i])) == [Render(x)];
  }

  /**
   * One more field extends the rendering by `, ` and that field's string
   * before the closing parenthesis. With `RenderOne` and the empty case of
   * `Render`, this fixes the rendering of any number of fields.
   */
  lemma RenderSnoc(cls: string, fields: seq<string>, vals: seq<Value>, x: Value)
    requires |vals| > 0
    ensures var s := Render(Obj(cls, fields, vals));
            Render(Obj(cls, fields, vals + [x])) == s[..|s| - 1] + ", " + Render(x) + ")"
  {
    RenderParts(cls, fields, vals);
    RenderParts(cls, fields, vals + [x]);
    PartsSnoc(vals, x);
    JoinSnoc(", ", Parts(vals), Render(x));
    var inner := cls + "(" + Join(", ", Parts(vals));
    var s := Render(Obj(cls, fields, vals));
    assert s[..|s| - 1] == inner;
  }

  /** The strings of the field values, in field order. */
  function Parts(vals: seq<Value>): (r: seq<string>)
    ensures |r| == |vals|
  {
    seq(|vals|, i requires 0 <= i < |vals| => Render(vals[i]))
  }

  lemma RenderParts(cls: string, fields: seq<string>, vals: seq<Value>)
    ensures Render(Obj(cls, fields, vals)) == cls + "(" + Join(", ", Parts(vals)) + ")"
  {
  }

  lemma PartsSnoc(vals: seq<Value>, x: Value)
    ensures Parts(vals + [x]) == Parts(vals) + [Render(x)]
  {
    var l, r := Parts(vals + [x]), Parts(vals) + [Render(x)];
    forall i | 0 <= i < |l|
      ensures l[i] == r[i]
    {
      if i < |vals| {
        assert (vals + [x])[i] == vals[i];
      }
    }
  }

  // ---------------------------------------------------------------------------
  // Equality (the generated `__eq__` and `__ne__`)

  /**
   * `a == b` on field values. An instance on the left answers with its
   * generated `__eq__`. A plain value against an instance falls back to the
   * instance's reflected `__eq__`, whose first attribute read on the plain
   * value fails (plain values carry no attributes in this model), so it holds
   * only for an instance with no fields.
   */
  function ValueEq(a: Value, b: Value): bool
    decreases a, 2
  {
    if a.Obj? then FieldsEqualFrom(a, b, 0)
    else if b.Obj? then |b.fields| == 0
    else PlainEq(a, b)
  }

  /** `==` on plain values: `bool` is a subtype of `int`, so `True == 1` and `False == 0`. */
  predicate PlainEq(a: Value, b: Value)
    requires !a.Obj? && !b.Obj?
  {
    match (a, b)
    case (BoolV(x), IntV(i)) => i == BoolToInt(x)
    case (IntV(i), BoolV(x)) => i == BoolToInt(x)
    case _ => a == b
  }

  function BoolToInt(x: bool): int {
    if x then 1 else 0
  }

  /** Every field from position `from` on reads on both sides and compares equal. */
  function FieldsEqualFrom(self: Value, other: Value, from: nat): bool
    requires self.Obj?
    decreases self, 1, |self.fields| - from
  {
    if from >= |self.fields| then true
    else
      var f := self.fields[from];
      var x, y := Attr(self, f), Attr(other, f);
      if x.Some? && y.Some? then ValueEq(x.value, y.value) && FieldsEqualFrom(self, other, from + 1)
      else false
  }

  /** Field `i` of `self` is readable on both sides and `self.f == other.f`. */
  predicate FieldMatches(self: Value, other: Value, i: nat)
    requires self.Obj? && i < |self.fields|
    decreases self, 0
  {
    var f := self.fields[i];
    Attr(self, f).Some? && Attr(other, f).Some? && ValueEq(Attr(self, f).value, Attr(other, f).value)
  }

  /** The field-by-field loop of `__eq__` agrees with its quantified reading. */
  lemma {:induction false} FieldsEqualFromAll(self: Value, other: Value, from: nat)
    requires self.Obj?
    ensures FieldsEqualFrom(self, other, from) <==>
              forall i: nat :: from <= i < |self.fields| ==> FieldMatches(self, other, i)
    decreases |self.fields| - from
  {
    if from < |self.fields| {
      FieldsEqualFromAll(self, other, from + 1);
      var f := self.fields[from];
      var x, y := Attr(self, f), Attr(other, f);
      assert FieldMatches(self, other, from) <==> x.Some? && y.Some? && ValueEq(x.value, y.value);
      assert FieldsEqualFrom(self, other, from) <==>
             FieldMatches(self, other, from) && FieldsEqualFrom(self, other, from + 1);
    }
  }

  /**
   * The generated `__eq__`: true exactly when every declared field reads on
   * both sides with equal values; a failed read yields false. The class of
   * `other` is not consulted.
   */
  function CaseEq(self: Value, other: Value): (r: bool)
    requires self.Obj?
    ensures r <==> forall i: nat :: i < |self.fields| ==> FieldMatches(self, other, i)
  {
    FieldsEqualFromAll(self, other, 0);
    FieldsEqualFrom(self, other, 0)
  }

  /** The generated `__ne__`: some declared field fails to read or differs. */
  function CaseNe(self: Value, other: Value): (r: bool)
    requires self.Obj?
    ensures r <==> exists i: nat :: i < |self.fields| && !FieldMatches(self, other, i)
  {
    !CaseEq(self, other)
  }

  // ---------------------------------------------------------------------------
  // Copy (the generated `copy`)

  /** The constructor arguments `copy` passes: the override where given, else the current attribute. */
  function CopyArgs(self: Value, overrides: map<string, Value>, from: nat): (r: Result<seq<Value>, Error>)
    requires self.Obj? && from <= |self.fields|
    ensures r.Success? ==> |r.value| == |self.fields| - from
    ensures r.Success? ==> forall i :: from <= i < |self.fields| ==>
              Some(r.value[i - from]) == (if self.fields[i] in overrides then Some(overrides[self.fields[i]])
                                          else Attr(self, self.fields[i]))
    ensures r.Success? <==> forall i :: from <= i < |self.fields| ==>
              self.fields[i] in overrides || Attr(self, self.fields[i]).Some?
    decreases |self.fields| - from
  {
    if from >= |self.fields| then Success([])
    else
      var f := self.fields[from];
      var head :=
        if f in overrides then Success(overrides[f])
        else match Attr(self, f)
          case Some(x) => Success(x)
          case None => Failure(AttributeError(f));
      match head
      case Failure(e) => Failure(e)
      case Success(x) =>
        match CopyArgs(self, overrides, from + 1)
        case Failure(e) => Failure(e)
        case Success(rest) => Success([x] + rest)
  }

  /**
   * `self.copy(**overrides)`: a keyword that is not a field is refused;
   * otherwise the class is constructed again with each field taking its
   * override if given and its current value if not.
   */
  function Copy(table: seq<ClassInfo>, self: Value, overrides: map<string, Value>): (r: Result<Value, Error>)
    requires self.Obj?
    ensures (exists k :: k in overrides && k !in self.fields) ==> r.Failure?
    ensures r.Success? ==>
              && r.value.Obj? && r.value.cls == self.cls
              && CopyArgs(self, overrides, 0).Success?
              && r == Construct(table, self.cls, CopyArgs(self, overrides, 0).value)
    ensures (forall k :: k in overrides ==> k in self.fields) && CopyArgs(self, overrides, 0).Success? ==>
              r == Construct(table, self.cls, CopyArgs(self, overrides, 0).value)
  {
    if exists k :: k in overrides && k !in self.fields then Failure(TypeError("unexpected keyword argument"))
    else match CopyArgs(self, overrides, 0)
      case Failure(e) => Failure(e)
      case Success(args) => Construct(table, self.cls, args)
  }

  // ---------------------------------------------------------------------------
  // Properties of the generated methods

  /** Every well-formed value equals itself (`Point(x, y) == Point(x, y)`). */
  lemma {:induction false} ValueEqReflexive(v: Value)
    requires WellFormed(v)
    ensures ValueEq(v, v)
    decreases v
  {
    if v.Obj? {
      forall i: nat | i < |v.fields|
        ensures FieldMatches(v, v, i)
      {
        assert Attr(v, v.fields[i]) == Some(v.vals[i]);
        ValueEqReflexive(v.vals[i]);
      }
      assert CaseEq(v, v);
    }
  }

  /**
   * `__eq__` does not look at the class of `other`: an instance of another
   * class with the same fields and values compares equal.
   */
  lemma EqIgnoresClass(a: Value, b: Value)
    requires WellFormed(a) && a.Obj? && b.Obj?
    requires b.fields == a.fields && b.vals == a.vals
    ensures CaseEq(a, b) && !CaseNe(a, b)
  {
    forall i: nat | i < |a.fields|
      ensures FieldMatches(a, b, i)
    {
      assert Attr(a, a.fields[i]) == Some(a.vals[i]);
      assert Attr(b, a.fields[i]) == Some(a.vals[i]);
      ValueEqReflexive(a.vals[i]);
    }
  }

  /** An instance of a class without fields equals every value, even a plain one. */
  lemma FieldlessEqualsAnything(self: Value, other: Value)
    requires self.Obj? && |self.fields| == 0
    ensures CaseEq(self, other) && !CaseNe(self, other)
  {
  }

  /** A declared field that `other` lacks makes `__eq__` false (the caught exception). */
  lemma MissingFieldUnequal(self: Value, other: Value, i: nat)
    requires self.Obj? && i < |self.fields|
    requires Attr(other, self.fields[i]).None?
    ensures !CaseEq(self, other) && CaseNe(self, other)
  {
    assert !FieldMatches(self, other, i);
  }

  predicate UniqueNames(table: seq<ClassInfo>) {
    forall i, j :: 0 <= i < j < |table| ==> table[i].name != table[j].name
  }

  /** The class the name `cls` is bound to. */
  function ClassOf(table: seq<ClassInfo>, cls: string): ClassInfo
    requires Lookup(table, cls).Some?
  {
    table[Lookup(table, cls).value]
  }

  /** The arguments `copy` passes for the instance `v`: overrides where given, current values elsewhere. */
  function Overridden(fields: seq<string>, overrides: map<string, Value>, current: seq<Value>): (r: seq<Value>)
    requires |current| == |fields|
    ensures |r| == |fields|
    ensures forall i :: 0 <= i < |fields| ==>
              r[i] == (if fields[i] in overrides then overrides[fields[i]] else current[i])
  {
    seq(|fields|, i requires 0 <= i < |fields| =>
          if fields[i] in overrides then overrides[fields[i]] else current[i])
  }

  lemma CopyArgsOfInstance(v: Value, overrides: map<string, Value>)
    requires v.Obj? && Distinct(v.fields) && |v.vals| == |v.fields|
    ensures CopyArgs(v, overrides, 0) == Success(Overridden(v.fields, overrides, v.vals))
  {
    forall i | 0 <= i < |v.fields|
      ensures Attr(v, v.fields[i]) == Some(v.vals[i])
    {
    }
    var a := CopyArgs(v, overrides, 0);
    assert a.Success?;
    assert a.value == Overridden(v.fields, overrides, v.vals);
  }

  /**
   * `copy(**overrides)` on a constructed instance succeeds exactly when every
   * keyword names a field, and then builds the same class with each field
   * taking its override if given and its original value if not.
   */
  lemma CopyOverrides(table: seq<ClassInfo>, cls: string, args: seq<Value>, overrides: map<string, Value>)
    requires Construct(table, cls, args).Success?
    requires Distinct(ClassOf(table, cls).fields)
    ensures var r := Copy(table, Construct(table, cls, args).value, overrides);
            r.Success? <==> forall k :: k in overrides ==> k in ClassOf(table, cls).fields
    ensures var r := Copy(table, Construct(table, cls, args).value, overrides);
            r.Success? ==> r == Construct(table, cls, Overridden(ClassOf(table, cls).fields, overrides, args))
  {
    var v := Construct(table, cls, args).value;
    assert v.vals == args;
    CopyArgsOfInstance(v, overrides);
  }

  /** With no overrides, `copy` gives back an equal instance (a new object). */
  lemma CopyWithoutOverrides(table: seq<ClassInfo>, cls: string, args: seq<Value>)
    requires Construct(table, cls, args).Success?
    requires Distinct(ClassOf(table, cls).fields)
    ensures Copy(table, Construct(table, cls, args).value, map[]) == Construct(table, cls, args)
  {
    CopyOverrides(table, cls, args, map[]);
    assert Overridden(ClassOf(table, cls).fields, map[], args) == args;
  }

  /** Two copies in a row are one copy with the later overrides winning. */
  lemma CopyCompose(table: seq<ClassInfo>, cls: string, args: seq<Value>,
                    first: map<string, Value>, second: map<string, Value>)
    requires Construct(table, cls, args).Success?
    requires Distinct(ClassOf(table, cls).fields)
    requires Copy(table, Construct(table, cls, args).value, first).Success?
    ensures Copy(table, Copy(table, Construct(table, cls, args).value, first).value, second)
            == Copy(table, Construct(table, cls, args).value, first + second)
  {
    var fields := ClassOf(table, cls).fields;
    var v := Construct(table, cls, args).value;
    CopyOverrides(table, cls, args, first);
    var args1 := Overridden(fields, first, args);
    var v1 := Copy(table, v, first).value;
    assert v1.fields == fields;
    CopyOverrides(table, cls, args1, second);
    CopyOverrides(table, cls, args, first + second);
    if k :| k in second && k !in fields {
      CopyRefuses(table, v1, second, k);
      CopyRefuses(table, v, first + second, k);
    } else {
      OverriddenCompose(fields, first, second, args);
    }
  }

  /** A keyword that is not a field makes `copy` fail. */
  lemma CopyRefuses(table: seq<ClassInfo>, self: Value, overrides: map<string, Value>, k: string)
    requires self.Obj? && k in overrides && k !in self.fields
    ensures Copy(table, self, overrides) == Failure(TypeError("unexpected keyword argument"))
  {
  }

  /** Overriding twice is overriding once with the later overrides winning. */
  lemma OverriddenCompose(fields: seq<string>, first: map<string, Value>, second: map<string, Value>,
                          current: seq<Value>)
    requires |current| == |fields|
    ensures Overridden(fields, second, Overridden(fields, first, current))
            == Overridden(fields, first + second, current)
  {
  }

  /**
   * The generated `__init__` never forwards fields to the parent: a class
   * whose parent declares fields cannot be constructed.
   */
  lemma ParentFieldsNotForwarded(table: seq<ClassInfo>, cls: string, args: seq<Value>)
    requires Lookup(table, cls).Some?
    requires ClassOf(table, cls).parent != ObjectBase
    requires Lookup(table, ClassOf(table, cls).parent).Some?
    requires |ClassOf(table, ClassOf(table, cls).parent).fields| > 0
    ensures Construct(table, cls, args).Failure?
  {
  }

  // ---------------------------------------------------------------------------
  // Nested classes are subclasses of the enclosing class

  lemma {:induction false} DeclaredNestedContains(body: seq<Stmt>, encl: string, n: Stmt)
    requires n in body && n.ClassDef?
    ensures ClassInfo(n.name, n.bases, encl) in DeclaredNested(body, encl)
    decreases |body|
  {
    if body[0] != n {
      DeclaredNestedContains(body[1..], encl, n);
    }
  }

  /**
   * A class declared directly inside `c` has `c` as its parent, so its
   * instances are instances of `c` (when class names are unique).
   */
  lemma NestedIsSubclass(c: Stmt, n: Stmt)
    requires c.ClassDef? && n.ClassDef? && n in c.body && n.name != ObjectBase
    requires UniqueNames(Declared(c, ObjectBase))
    ensures IsSubclass(Schema(Case(c)), n.name, c.name)
  {
    SchemaOfTransform(c, ObjectBase);
    var table := Declared(c, ObjectBase);
    var nested := DeclaredNested(c.body, c.name);
    var info := ClassInfo(n.name, n.bases, c.name);
    DeclaredNestedContains(c.body, c.name, n);
    var k :| 0 <= k < |nested| && nested[k] == info;
    assert table == [table[0]] + nested;
    assert table[k + 1] == info;
    assert table[0].name == c.name;
    var i := Lookup(table, n.name).value;
    assert i == k + 1;
    SubclassByParent(table, n.name, c.name);
  }

  /** A class is a subclass of its parent. */
  lemma SubclassByParent(table: seq<ClassInfo>, sub: string, sup: string)
    requires sub != sup && sub != ObjectBase
    requires Lookup(table, sub).Some? && table[Lookup(table, sub).value].parent == sup
    ensures IsSubclass(table, sub, sup)
  {
    assert IsSubclass(Remove(table, Lookup(table, sub).value), sup, sup);
  }

  /** Every instance of a constructed nested class is an instance of the enclosing class. */
  lemma NestedInstanceIsEnclosingInstance(c: Stmt, n: Stmt, args: seq<Value>)
    requires c.ClassDef? && n.ClassDef? && n in c.body && n.name != ObjectBase
    requires UniqueNames(Declared(c, ObjectBase))
    requires Construct(Schema(Case(c)), n.name, args).Success?
    ensures IsInstance(Schema(Case(c)), Construct(Schema(Case(c)), n.name, args).value, c.name)
  {
    NestedIsSubclass(c, n);
  }
}
