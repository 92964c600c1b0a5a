/** The scenarios of adt_test.py, stated for every input they loop over. */
module CaseExamples {
  import opened Outcomes
  import opened Decimal
  import opened CaseClass
  import opened CaseRuntime

  /** `@case class Point(x, y): pass` */
  const PointDecl: Stmt := ClassDef("Point", ["x", "y"], [Other("pass")])

  /** `@case class List(): ...` with the nested `Nil` and `Cons(head, tail)`. */
  const ListDecl: Stmt :=
    ClassDef("List", [], [
      FunctionDef("__len__", ["self"], [], [Other("return 0")]),
      FunctionDef("__iter__", ["self"], [], [Other("return iter([])")]),
      ClassDef("Nil", [], [Other("pass")]),
      ClassDef("Cons", ["head", "tail"], [
        FunctionDef("__len__", ["self"], [], [Other("return 1 + len(self.tail)")]),
        FunctionDef("__iter__", ["self"], [], [Other("...")])])])

  /** The classes `@case` makes of `PointDecl`. */
  const PointTable: seq<ClassInfo> := [ClassInfo("Point", ["x", "y"], ObjectBase)]

  /** The classes `@case` makes of `ListDecl`. */
  const ListTable: seq<ClassInfo> :=
    [ClassInfo("List", [], ObjectBase), ClassInfo("Nil", [], "List"), ClassInfo("Cons", ["head", "tail"], "List")]

  lemma PointSchema()
    ensures Schema(Case(PointDecl)) == PointTable
  {
    SchemaOfTransform(PointDecl, ObjectBase);
    assert DeclaredNested(PointDecl.body, "Point") == [];
  }

  /** `Point(x, y)` builds the instance with attributes `x` and `y`, for any two values. */
  lemma PointConstruct(x: Value, y: Value)
    ensures Construct(PointTable, "Point", [x, y]) == Success(Obj("Point", ["x", "y"], [x, y]))
  {
    assert Lookup(PointTable, "Point") == Some(0);
  }

  /** An instance with two fields renders as `cls(a, b)`. */
  lemma RenderTwoFields(cls: string, fields: seq<string>, a: Value, b: Value)
    ensures Render(Obj(cls, fields, [a, b])) == cls + "(" + Render(a) + ", " + Render(b) + ")"
  {
    RenderOne(cls, fields, a);
    RenderSnoc(cls, fields, [a], b);
    assert [a] + [b] == [a, b];
    var s := Render(Obj(cls, fields, [a]));
    assert s[..|s| - 1] == cls + "(" + Render(a);
  }

  /** `str(p) == repr(p) == "Point(%s, %s)" % (x, y)` for `p = Point(x, y)`. */
  lemma PointRender(x: int, y: int)
    ensures var p := Construct(PointTable, "Point", [IntV(x), IntV(y)]);
            && p.Success?
            && Render(p.value) == "Point(" + IntToString(x) + ", " + IntToString(y) + ")"
            && Repr(p.value) == Render(p.value)
  {
    PointConstruct(IntV(x), IntV(y));
    RenderTwoFields("Point", ["x", "y"], IntV(x), IntV(y));
  }

  /** `p.x == x`, `p.y == y`, `Point(x, y) == Point(x, y)` and not `Point(x, y) != Point(x, y)`. */
  lemma PointFieldsAndEquality(x: int, y: int)
    ensures var p := Construct(PointTable, "Point", [IntV(x), IntV(y)]);
            && p.Success?
            && Attr(p.value, "x") == Some(IntV(x))
            && Attr(p.value, "y") == Some(IntV(y))
            && CaseEq(p.value, p.value)
            && !CaseNe(p.value, p.value)
  {
    PointConstruct(IntV(x), IntV(y));
    var p := Obj("Point", ["x", "y"], [IntV(x), IntV(y)]);
    assert Distinct(p.fields);
    assert p.fields[0] == "x" && p.fields[1] == "y";
    assert WellFormed(p);
    ValueEqReflexive(p);
  }

  /** `Point(True, 0) == Point(1, 0)`: fields compare with Python's `==`, where `True == 1`. */
  lemma PointBoolEqualsInt()
    ensures var p := Obj("Point", ["x", "y"], [BoolV(true), IntV(0)]);
            var q := Obj("Point", ["x", "y"], [IntV(1), IntV(0)]);
            CaseEq(p, q) && !CaseNe(p, q)
  {
    var p := Obj("Point", ["x", "y"], [BoolV(true), IntV(0)]);
    var q := Obj("Point", ["x", "y"], [IntV(1), IntV(0)]);
    assert Distinct(p.fields);
    assert p.fields[0] == "x" && p.fields[1] == "y";
    assert Attr(p, "x") == Some(BoolV(true)) && Attr(q, "x") == Some(IntV(1));
    assert Attr(p, "y") == Some(IntV(0)) && Attr(q, "y") == Some(IntV(0));
    assert FieldMatches(p, q, 0) && FieldMatches(p, q, 1);
  }

  /** `Point(a, b).copy(x = x2)` is `Point(x2, b)`. */
  lemma PointCopyX(a: Value, b: Value, x2: Value)
    ensures Copy(PointTable, Obj("Point", ["x", "y"], [a, b]), map["x" := x2])
            == Success(Obj("Point", ["x", "y"], [x2, b]))
  {
    var v := Obj("Point", ["x", "y"], [a, b]);
    var m := map["x" := x2];
    assert forall k :: k in m ==> k == v.fields[0];
    assert Distinct(v.fields);
    CopyArgsOfInstance(v, m);
    assert Overridden(v.fields, m, v.vals) == [x2, b];
    PointConstruct(x2, b);
  }

  /** `Point(a, b).copy(y = y2)` is `Point(a, y2)`. */
  lemma PointCopyY(a: Value, b: Value, y2: Value)
    ensures Copy(PointTable, Obj("Point", ["x", "y"], [a, b]), map["y" := y2])
            == Success(Obj("Point", ["x", "y"], [a, y2]))
  {
    var v := Obj("Point", ["x", "y"], [a, b]);
    var m := map["y" := y2];
    assert forall k :: k in m ==> k == v.fields[1];
    assert Distinct(v.fields);
    CopyArgsOfInstance(v, m);
    assert Overridden(v.fields, m, v.vals) == [a, y2];
    PointConstruct(a, y2);
  }

  /**
   * From `a = Point(x, y)`: `b = a.copy(x = x2)` is `Point(x2, y)` and
   * `c = b.copy(y = y2)` is `Point(x2, y2)`, while `a` stays `Point(x, y)`.
   */
  lemma PointCopies(x: int, y: int, x2: int, y2: int)
    ensures var a := Construct(PointTable, "Point", [IntV(x), IntV(y)]);
            && a == Success(Obj("Point", ["x", "y"], [IntV(x), IntV(y)]))
            && var b := Copy(PointTable, a.value, map["x" := IntV(x2)]);
            && b == Construct(PointTable, "Point", [IntV(x2), IntV(y)])
            && b.Success?
            && Copy(PointTable, b.value, map["y" := IntV(y2)]) == Construct(PointTable, "Point", [IntV(x2), IntV(y2)])
  {
    PointConstruct(IntV(x), IntV(y));
    PointConstruct(IntV(x2), IntV(y));
    PointConstruct(IntV(x2), IntV(y2));
    PointCopyX(IntV(x), IntV(y), IntV(x2));
    PointCopyY(IntV(x2), IntV(y), IntV(y2));
  }

  lemma ListSchema()
    ensures Schema(Case(ListDecl)) == ListTable
  {
    SchemaOfTransform(ListDecl, ObjectBase);
    ListDeclared();
  }

  lemma ListDeclared()
    ensures Declared(ListDecl, ObjectBase) == ListTable
  {
    var body := ListDecl.body;
    assert DeclaredNested(body[3..], "List") == Declared(body[3], "List");
    assert DeclaredNested(body[2..], "List") == Declared(body[2], "List") + Declared(body[3], "List");
    assert DeclaredNested(body, "List") == DeclaredNested(body[2..], "List");
  }

  /** `Cons(None, None)` and `Nil()` construct, and both are instances of `List`. */
  lemma NestedListInstances()
    ensures var table := ListTable;
            var cons := Construct(table, "Cons", [NoneV, NoneV]);
            var nil := Construct(table, "Nil", []);
            && cons.Success? && nil.Success?
            && IsInstance(table, cons.value, "List")
            && IsInstance(table, nil.value, "List")
  {
    var table := ListTable;
    assert Lookup(table, "Cons") == Some(2);
    assert Lookup(table, "Nil") == Some(1);
    assert Lookup(table[..1], "List") == Some(0);
    assert table[..2][..1] == table[..1];
    assert Lookup(table[..2], "List") == Some(0);
    assert Lookup(table, "List") == Some(0);
    assert AncestorsInitOk(Remove(table, 0), ObjectBase);
    assert AncestorsInitOk(table, "List");
    assert Lookup(Remove(table, 2), "List") == Some(0);
    assert IsSubclass(Remove(table, 2), "List", "List");
    assert IsSubclass(Remove(table, 1), "List", "List");
  }
}
