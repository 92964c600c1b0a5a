/**
 * The compile-time half of tail-call elimination (the `tco` macro of
 * tco.py): returned calls become call tuples, bare calls in tail position
 * become returned ignore tuples, and the trampoline decorator is put in
 * front of the function's decorators.
 *
 * The tree walker the macro uses is taken to visit every statement of every
 * nested body, left to right, in preorder.
 */
module TailCallRewrite {
  import opened Outcomes
  import opened SeqFacts
  import T = Trampoline

  datatype Expr =
    | Name(id: string)
    | Str(s: string)
    | Attribute(value: Expr, attr: string)
    | ListE(elts: seq<Expr>)
    | DictE(keys: seq<Expr>, vals: seq<Expr>)
    | TupleE(elts: seq<Expr>)
      /** `func(*args, k=v..., *starargs, **kwargs)` */
    | Call(func: Expr, args: seq<Expr>, keywords: seq<Keyword>, starargs: Option<Expr>, kwargs: Option<Expr>)
      /** any other expression */
    | Opaque(code: string)

  /** A keyword argument `arg=value` of a call. */
  datatype Keyword = Keyword(arg: string, value: Expr)

  /**
   * A statement as `@tco` sees it. This is separate from `CaseClass.Stmt`,
   * which keeps the forms `@case` distinguishes.
   */
  datatype Stmt =
    | Return(value: Option<Expr>)
    | ExprStmt(expr: Expr)
    | If(test: Expr, body: seq<Stmt>, orelse: seq<Stmt>)
      /**
       * a `while`/`for`/`with`/`try`/`class` statement with its two statement lists;
       * the `except` handlers and the `finally` body of a `try` are nested
       * `Block`s in its second list
       */
    | Block(keyword: string, header: Expr, body: seq<Stmt>, orelse: seq<Stmt>)
    | FunctionDef(name: string, params: seq<string>, body: seq<Stmt>, decorators: seq<Expr>)
    | Other(code: string)

  /** `tco.trampoline_decorator`, the decorator the macro prepends. */
  const DecoratorRef: Expr := Attribute(Name("tco"), "trampoline_decorator")

  // ---------------------------------------------------------------------------
  // The tuples that replace tail calls

  /** `starargs or []` */
  function OrEmptyList(e: Option<Expr>): Expr {
    if e.Some? then e.value else ListE([])
  }

  /** `kwargs or {}` */
  function OrEmptyDict(e: Option<Expr>): Expr {
    if e.Some? then e.value else DictE([], [])
  }

  /**
   * `(tag, func, [args], starargs or [], kwargs or {})` exactly as the macro
   * builds it: the call's keyword arguments are not copied.
   */
  function TailTupleAsWritten(tag: string, c: Expr): Expr
    requires c.Call?
  {
    TupleE([Str(tag), c.func, ListE(c.args), OrEmptyList(c.starargs), OrEmptyDict(c.kwargs)])
  }

  /** The keyword dictionary with the call's keyword arguments kept: `dict(kwargs or {}, k=v, ...)`. */
  function KeywordsDict(c: Expr): Expr
    requires c.Call?
  {
    if |c.keywords| == 0 then OrEmptyDict(c.kwargs)
    else Call(Name("dict"), [OrEmptyDict(c.kwargs)], c.keywords, None, None)
  }

  /** The tail tuple with every argument of the call carried over. */
  function TailTuple(tag: string, c: Expr): (t: Expr)
    requires c.Call?
    ensures t.TupleE? && |t.elts| == 5 && t.elts[0] == Str(tag)
    ensures |c.keywords| == 0 ==> t == TailTupleAsWritten(tag, c)
  {
    TupleE([Str(tag), c.func, ListE(c.args), OrEmptyList(c.starargs), KeywordsDict(c)])
  }

  /**
   * Which tuple the rewrites build: the one the macro builds, or the
   * corrected one that keeps the call's keyword arguments.
   */
  datatype Build = AsWritten | Corrected

  function Tail(style: Build, tag: string, c: Expr): (t: Expr)
    requires c.Call?
    ensures t.TupleE? && |t.elts| == 5 && t.elts[0] == Str(tag)
    ensures style.AsWritten? ==> t == TailTupleAsWritten(tag, c)
    ensures style.Corrected? ==> t == TailTuple(tag, c)
  {
    if style.AsWritten? then TailTupleAsWritten(tag, c) else TailTuple(tag, c)
  }

  // ---------------------------------------------------------------------------
  // What a call passes, and what the trampoline passes on from a tuple

  /** The arguments one invocation receives, symbolically. */
  datatype CallArgs = CallArgs(func: Expr, positional: seq<Expr>, star: Expr, keywords: seq<Keyword>, kwstar: Option<Expr>)

  /** Keyword arguments that `**e` supplies: the literal entries, plus an opaque rest. */
  function KwDenote(e: Expr): (seq<Keyword>, Option<Expr>) {
    match e
    case DictE(keys, vals) =>
      if |keys| == |vals| && forall i :: 0 <= i < |keys| ==> keys[i].Str?
      then (seq(|keys|, i requires 0 <= i < |keys| && keys[i].Str? => Keyword(keys[i].s, vals[i])), None)
      else ([], Some(e))
    case Call(Name("dict"), args, kws, None, None) =>
      if |args| == 1 then
        var (k, rest) := KwDenote(args[0]);
        (k + kws, rest)
      else ([], Some(e))
    case _ => ([], Some(e))
  }

  /** The arguments the call `c` passes. */
  function Passed(c: Expr): CallArgs
    requires c.Call?
  {
    var (k, rest) := KwDenote(OrEmptyDict(c.kwargs));
    CallArgs(c.func, c.args, OrEmptyList(c.starargs), k + c.keywords, rest)
  }

  /**
   * How the trampoline reads a returned tuple: its tag, and the arguments of
   * the invocation `func(*(list(args) + varargs), **kwargs)` it performs next.
   */
  function Unpack(t: Expr): Option<(string, CallArgs)> {
    if t.TupleE? && |t.elts| == 5 && t.elts[0].Str? && t.elts[2].ListE? then
      var (k, rest) := KwDenote(t.elts[4]);
      Some((t.elts[0].s, CallArgs(t.elts[1], t.elts[2].elts, t.elts[3], k, rest)))
    else None
  }

  /** With a keyword argument, the corrected keyword dictionary is not the one the macro builds. */
  lemma KeywordsKept(c: Expr)
    requires c.Call? && |c.keywords| > 0
    ensures KeywordsDict(c) != OrEmptyDict(c.kwargs)
  {
    var d := OrEmptyDict(c.kwargs);
    assert d in [d];
  }

  /** Round trip: the re-invocation from a tail tuple passes exactly what the replaced call passed. */
  lemma TailTupleRoundTrip(tag: string, c: Expr)
    requires c.Call?
    ensures Unpack(TailTuple(tag, c)) == Some((tag, Passed(c)))
  {
    var base := OrEmptyDict(c.kwargs);
    var t := TailTuple(tag, c);
    if |c.keywords| > 0 {
      var kd := Call(Name("dict"), [base], c.keywords, None, None);
      assert KwDenote(kd) == (KwDenote(base).0 + c.keywords, KwDenote(base).1);
      assert t.elts[4] == kd;
    } else {
      assert KwDenote(base).0 + c.keywords == KwDenote(base).0;
      assert t.elts[4] == base;
    }
  }

  /**
   * As written, the tail tuple loses the call's keyword arguments: for any
   * call with one, the re-invocation passes something else.
   */
  lemma AsWrittenDropsKeywords(tag: string, c: Expr)
    requires c.Call? && |c.keywords| > 0
    ensures Unpack(TailTupleAsWritten(tag, c)) != Some((tag, Passed(c)))
  {
    var u := Unpack(TailTupleAsWritten(tag, c));
    assert |u.value.1.keywords| < |Passed(c).keywords|;
  }

  /** `return f(1, b=2)`: the tuple as written re-invokes `f(1)`. */
  lemma AsWrittenExample()
    ensures var c := Call(Name("f"), [Opaque("1")], [Keyword("b", Opaque("2"))], None, None);
            && Unpack(TailTupleAsWritten(T.CallTag, c)) ==
                 Some((T.CallTag, CallArgs(Name("f"), [Opaque("1")], ListE([]), [], None)))
            && Passed(c) == CallArgs(Name("f"), [Opaque("1")], ListE([]), [Keyword("b", Opaque("2"))], None)
  {
    var c := Call(Name("f"), [Opaque("1")], [Keyword("b", Opaque("2"))], None, None);
    var empty: seq<Keyword> := [];
    var d := KwDenote(DictE([], []));
    assert |d.0| == 0 && d.1 == None;
    assert d.0 == empty;
    assert empty + c.keywords == c.keywords;
  }

  // ---------------------------------------------------------------------------
  // return_replacer

  /** Returns of calls, anywhere in `s`, become returns of call tuples. */
  function ReplaceReturns(s: Stmt, style: Build): Stmt
    decreases s, 1
  {
    match s
    case Return(v) =>
      if v.Some? && v.value.Call? then Return(Some(Tail(style, T.CallTag, v.value))) else s
    case If(t, b, o) => If(t, ReplaceReturnsAll(b, style), ReplaceReturnsAll(o, style))
    case Block(k, h, b, o) => Block(k, h, ReplaceReturnsAll(b, style), ReplaceReturnsAll(o, style))
    case FunctionDef(n, p, b, d) => FunctionDef(n, p, ReplaceReturnsAll(b, style), d)
    case _ => s
  }

  function ReplaceReturnsAll(ss: seq<Stmt>, style: Build): (r: seq<Stmt>)
    ensures |r| == |ss|
    decreases ss, 0
  {
    if |ss| == 0 then [] else [ReplaceReturns(ss[0], style)] + ReplaceReturnsAll(ss[1..], style)
  }

  // ---------------------------------------------------------------------------
  // Reference view of return_replacer: the returned values, and the rest

  /** A returned value that is a call. */
  predicate ReturnsCall(v: Option<Expr>) {
    v.Some? && v.value.Call?
  }

  predicate NoReturnedCall(vs: seq<Option<Expr>>) {
    forall i :: 0 <= i < |vs| ==> !ReturnsCall(vs[i])
  }

  /** The value of every `return` in `s`, nested bodies included, in preorder. */
  function Returned(s: Stmt): seq<Option<Expr>>
    decreases s, 1
  {
    match s
    case Return(v) => [v]
    case If(_, b, o) => ReturnedAll(b) + ReturnedAll(o)
    case Block(_, _, b, o) => ReturnedAll(b) + ReturnedAll(o)
    case FunctionDef(_, _, b, _) => ReturnedAll(b)
    case _ => []
  }

  function ReturnedAll(ss: seq<Stmt>): seq<Option<Expr>>
    decreases ss, 0
  {
    if |ss| == 0 then [] else Returned(ss[0]) + ReturnedAll(ss[1..])
  }

  /** `s` with every returned value erased. */
  function Hollow(s: Stmt): Stmt
    decreases s, 1
  {
    match s
    case Return(_) => Return(None)
    case If(t, b, o) => If(t, HollowAll(b), HollowAll(o))
    case Block(k, h, b, o) => Block(k, h, HollowAll(b), HollowAll(o))
    case FunctionDef(n, p, b, d) => FunctionDef(n, p, HollowAll(b), d)
    case _ => s
  }

  function HollowAll(ss: seq<Stmt>): (r: seq<Stmt>)
    ensures |r| == |ss|
    decreases ss, 0
  {
    if |ss| == 0 then [] else [Hollow(ss[0])] + HollowAll(ss[1..])
  }

  /** What return_replacer does to one returned value. */
  function RewriteReturned(v: Option<Expr>, style: Build): Option<Expr> {
    if ReturnsCall(v) then Some(Tail(style, T.CallTag, v.value)) else v
  }

  function RewriteAll(vs: seq<Option<Expr>>, style: Build): seq<Option<Expr>> {
    seq(|vs|, i requires 0 <= i < |vs| => RewriteReturned(vs[i], style))
  }

  /** Equal hollows hold equally many returns. */
  lemma {:induction false} HollowCount(s1: Stmt, s2: Stmt)
    requires Hollow(s1) == Hollow(s2)
    ensures |Returned(s1)| == |Returned(s2)|
    decreases s1, 1
  {
    match s1
    case If(_, b, o) => HollowCountAll(b, s2.body); HollowCountAll(o, s2.orelse);
    case Block(_, _, b, o) => HollowCountAll(b, s2.body); HollowCountAll(o, s2.orelse);
    case FunctionDef(_, _, b, _) => HollowCountAll(b, s2.body);
    case _ =>
  }

  lemma {:induction false} HollowCountAll(ss1: seq<Stmt>, ss2: seq<Stmt>)
    requires HollowAll(ss1) == HollowAll(ss2)
    ensures |ReturnedAll(ss1)| == |ReturnedAll(ss2)|
    decreases ss1, 0
  {
    if |ss1| > 0 {
      assert HollowAll(ss1)[0] == HollowAll(ss2)[0];
      assert HollowAll(ss1)[1..] == HollowAll(ss2)[1..];
      HollowCount(ss1[0], ss2[0]);
      HollowCountAll(ss1[1..], ss2[1..]);
    }
  }

  /** A statement is determined by its hollow and its returned values. */
  lemma {:induction false} HollowDetermines(s1: Stmt, s2: Stmt)
    requires Hollow(s1) == Hollow(s2) && Returned(s1) == Returned(s2)
    ensures s1 == s2
    decreases s1, 1
  {
    match s1
    case Return(v) =>
      assert Returned(s2) == [v];
    case If(_, b, o) =>
      HollowCountAll(b, s2.body);
      SplitAppend(ReturnedAll(b), ReturnedAll(o), ReturnedAll(s2.body), ReturnedAll(s2.orelse));
      HollowDeterminesAll(b, s2.body);
      HollowDeterminesAll(o, s2.orelse);
    case Block(_, _, b, o) =>
      HollowCountAll(b, s2.body);
      SplitAppend(ReturnedAll(b), ReturnedAll(o), ReturnedAll(s2.body), ReturnedAll(s2.orelse));
      HollowDeterminesAll(b, s2.body);
      HollowDeterminesAll(o, s2.orelse);
    case FunctionDef(_, _, b, _) =>
      HollowDeterminesAll(b, s2.body);
    case _ =>
  }

  lemma {:induction false} HollowDeterminesAll(ss1: seq<Stmt>, ss2: seq<Stmt>)
    requires HollowAll(ss1) == HollowAll(ss2) && ReturnedAll(ss1) == ReturnedAll(ss2)
    ensures ss1 == ss2
    decreases ss1, 0
  {
    if |ss1| > 0 {
      assert HollowAll(ss1)[0] == HollowAll(ss2)[0];
      assert HollowAll(ss1)[1..] == HollowAll(ss2)[1..];
      HollowCount(ss1[0], ss2[0]);
      SplitAppend(Returned(ss1[0]), ReturnedAll(ss1[1..]), Returned(ss2[0]), ReturnedAll(ss2[1..]));
      HollowDetermines(ss1[0], ss2[0]);
      HollowDeterminesAll(ss1[1..], ss2[1..]);
      assert ss1 == [ss1[0]] + ss1[1..];
      assert ss2 == [ss2[0]] + ss2[1..];
    }
  }

  lemma RewriteAppend(a: seq<Option<Expr>>, b: seq<Option<Expr>>, style: Build)
    ensures RewriteAll(a + b, style) == RewriteAll(a, style) + RewriteAll(b, style)
  {
  }

  /**
   * return_replacer keeps everything but the returned values, and rewrites
   * each of those in place: calls become call tuples, the rest stay.
   */
  lemma {:induction false} ReplaceReturnsShape(s: Stmt, style: Build)
    ensures Hollow(ReplaceReturns(s, style)) == Hollow(s)
    ensures Returned(ReplaceReturns(s, style)) == RewriteAll(Returned(s), style)
    decreases s, 1
  {
    match s
    case Return(v) =>
    case If(_, b, o) =>
      ReplaceReturnsAllShape(b, style);
      ReplaceReturnsAllShape(o, style);
      RewriteAppend(ReturnedAll(b), ReturnedAll(o), style);
    case Block(_, _, b, o) =>
      ReplaceReturnsAllShape(b, style);
      ReplaceReturnsAllShape(o, style);
      RewriteAppend(ReturnedAll(b), ReturnedAll(o), style);
    case FunctionDef(_, _, b, _) =>
      ReplaceReturnsAllShape(b, style);
    case _ =>
  }

  lemma {:induction false} ReplaceReturnsAllShape(ss: seq<Stmt>, style: Build)
    ensures HollowAll(ReplaceReturnsAll(ss, style)) == HollowAll(ss)
    ensures ReturnedAll(ReplaceReturnsAll(ss, style)) == RewriteAll(ReturnedAll(ss), style)
    decreases ss, 0
  {
    if |ss| > 0 {
      var r := ReplaceReturnsAll(ss, style);
      assert r[0] == ReplaceReturns(ss[0], style) && r[1..] == ReplaceReturnsAll(ss[1..], style);
      ReplaceReturnsShape(ss[0], style);
      ReplaceReturnsAllShape(ss[1..], style);
      RewriteAppend(Returned(ss[0]), ReturnedAll(ss[1..]), style);
    }
  }

  /** After return_replacer no `return` anywhere returns a call. */
  lemma ReplaceReturnsRemovesCalls(s: Stmt, style: Build)
    ensures NoReturnedCall(Returned(ReplaceReturns(s, style)))
  {
    ReplaceReturnsShape(s, style);
  }

  /** return_replacer changes a statement exactly when some `return` in it returns a call. */
  lemma ReplaceReturnsFixpoint(s: Stmt, style: Build)
    ensures ReplaceReturns(s, style) == s <==> NoReturnedCall(Returned(s))
  {
    ReplaceReturnsShape(s, style);
    var vs := Returned(s);
    if ReplaceReturns(s, style) == s {
      forall i | 0 <= i < |vs|
        ensures !ReturnsCall(vs[i])
      {
        assert RewriteAll(vs, style)[i] == vs[i];
      }
    }
    if NoReturnedCall(vs) {
      assert RewriteAll(vs, style) == vs;
      HollowDetermines(ReplaceReturns(s, style), s);
    }
  }

  lemma ReplaceReturnsIdempotent(s: Stmt, style: Build)
    ensures ReplaceReturns(ReplaceReturns(s, style), style) == ReplaceReturns(s, style)
  {
    ReplaceReturnsRemovesCalls(s, style);
    ReplaceReturnsFixpoint(ReplaceReturns(s, style), style);
  }

  /** A returned call with a keyword argument: where the two tuple styles part. */
  predicate ReturnsKeywordCall(v: Option<Expr>) {
    ReturnsCall(v) && |v.value.keywords| > 0
  }

  /**
   * return_replacer as written and as corrected give the same statement
   * exactly when no returned call has a keyword argument.
   */
  lemma ReplaceReturnsStylesAgree(s: Stmt)
    ensures ReplaceReturns(s, AsWritten) == ReplaceReturns(s, Corrected)
        <==> forall i :: 0 <= i < |Returned(s)| ==> !ReturnsKeywordCall(Returned(s)[i])
  {
    ReplaceReturnsShape(s, AsWritten);
    ReplaceReturnsShape(s, Corrected);
    var vs := Returned(s);
    if forall i :: 0 <= i < |vs| ==> !ReturnsKeywordCall(vs[i]) {
      assert RewriteAll(vs, AsWritten) == RewriteAll(vs, Corrected);
      HollowDetermines(ReplaceReturns(s, AsWritten), ReplaceReturns(s, Corrected));
    } else {
      var i :| 0 <= i < |vs| && ReturnsKeywordCall(vs[i]);
      KeywordsKept(vs[i].value);
      assert RewriteAll(vs, AsWritten)[i] != RewriteAll(vs, Corrected)[i];
    }
  }

  // ---------------------------------------------------------------------------
  // replace_tc_pos

  /** A bare call in tail position becomes a returned ignore tuple; `if` is entered through its last statements. */
  function ReplaceTailPos(s: Stmt, style: Build): Stmt
    decreases s, 1
  {
    match s
    case ExprStmt(e) => if e.Call? then Return(Some(Tail(style, T.IgnoreTag, e))) else s
    case If(t, b, o) => If(t, ReplaceLast(b, style), ReplaceLast(o, style))
    case _ => s
  }

  /** Rewrites the last statement of a body; an empty body stays empty. */
  function ReplaceLast(ss: seq<Stmt>, style: Build): (r: seq<Stmt>)
    ensures |r| == |ss|
    decreases ss, 0
  {
    if |ss| == 0 then [] else ss[..|ss| - 1] + [ReplaceTailPos(ss[|ss| - 1], style)]
  }

  /** The statements in tail position of `s`, left to right. */
  function TailLeaves(s: Stmt): seq<Stmt>
    decreases s, 1
  {
    match s
    case If(_, b, o) => LastLeaves(b) + LastLeaves(o)
    case _ => [s]
  }

  function LastLeaves(ss: seq<Stmt>): seq<Stmt>
    decreases ss, 0
  {
    if |ss| == 0 then [] else TailLeaves(ss[|ss| - 1])
  }

  /** `s` with each statement in tail position replaced by a hole. */
  function Frame(s: Stmt): Stmt
    decreases s, 1
  {
    match s
    case If(t, b, o) => If(t, FrameLast(b), FrameLast(o))
    case _ => Other("")
  }

  function FrameLast(ss: seq<Stmt>): (r: seq<Stmt>)
    ensures |r| == |ss|
    decreases ss, 0
  {
    if |ss| == 0 then [] else ss[..|ss| - 1] + [Frame(ss[|ss| - 1])]
  }

  /** A call statement: what replace_tc_pos rewrites. */
  predicate BareCall(s: Stmt) {
    s.ExprStmt? && s.expr.Call?
  }

  predicate NoBareCall(leaves: seq<Stmt>) {
    forall i :: 0 <= i < |leaves| ==> !BareCall(leaves[i])
  }

  /** What replace_tc_pos does to one statement in tail position. */
  function RewriteLeaf(s: Stmt, style: Build): Stmt {
    if BareCall(s) then Return(Some(Tail(style, T.IgnoreTag, s.expr))) else s
  }

  function RewriteLeaves(ss: seq<Stmt>, style: Build): seq<Stmt> {
    seq(|ss|, i requires 0 <= i < |ss| => RewriteLeaf(ss[i], style))
  }

  lemma RewriteLeavesAppend(a: seq<Stmt>, b: seq<Stmt>, style: Build)
    ensures RewriteLeaves(a + b, style) == RewriteLeaves(a, style) + RewriteLeaves(b, style)
  {
  }

  /** No statement in tail position is an `if`. */
  lemma {:induction false} LeavesAreNotIf(s: Stmt)
    ensures forall i :: 0 <= i < |TailLeaves(s)| ==> !TailLeaves(s)[i].If?
    decreases s, 1
  {
    match s
    case If(_, b, o) =>
      LastLeavesAreNotIf(b);
      LastLeavesAreNotIf(o);
    case _ =>
  }

  lemma {:induction false} LastLeavesAreNotIf(ss: seq<Stmt>)
    ensures forall i :: 0 <= i < |LastLeaves(ss)| ==> !LastLeaves(ss)[i].If?
    decreases ss, 0
  {
    if |ss| > 0 {
      LeavesAreNotIf(ss[|ss| - 1]);
    }
  }

  /** Equal frames hold equally many tail statements. */
  lemma {:induction false} FrameCount(s1: Stmt, s2: Stmt)
    requires Frame(s1) == Frame(s2)
    ensures |TailLeaves(s1)| == |TailLeaves(s2)|
    decreases s1, 1
  {
    match s1
    case If(_, b, o) =>
      FrameCountLast(b, s2.body);
      FrameCountLast(o, s2.orelse);
    case _ =>
  }

  lemma {:induction false} FrameCountLast(ss1: seq<Stmt>, ss2: seq<Stmt>)
    requires FrameLast(ss1) == FrameLast(ss2)
    ensures |LastLeaves(ss1)| == |LastLeaves(ss2)|
    decreases ss1, 0
  {
    if |ss1| > 0 {
      assert FrameLast(ss1)[|ss1| - 1] == FrameLast(ss2)[|ss2| - 1];
      FrameCount(ss1[|ss1| - 1], ss2[|ss2| - 1]);
    }
  }

  /** A statement is determined by its frame and its tail statements. */
  lemma {:induction false} FrameDetermines(s1: Stmt, s2: Stmt)
    requires Frame(s1) == Frame(s2) && TailLeaves(s1) == TailLeaves(s2)
    ensures s1 == s2
    decreases s1, 1
  {
    match s1
    case If(_, b, o) =>
      FrameCountLast(b, s2.body);
      SplitAppend(LastLeaves(b), LastLeaves(o), LastLeaves(s2.body), LastLeaves(s2.orelse));
      FrameDeterminesLast(b, s2.body);
      FrameDeterminesLast(o, s2.orelse);
    case _ =>
      assert TailLeaves(s1) == [s1];
  }

  lemma {:induction false} FrameDeterminesLast(ss1: seq<Stmt>, ss2: seq<Stmt>)
    requires FrameLast(ss1) == FrameLast(ss2) && LastLeaves(ss1) == LastLeaves(ss2)
    ensures ss1 == ss2
    decreases ss1, 0
  {
    if |ss1| > 0 {
      var n := |ss1| - 1;
      assert FrameLast(ss1)[..n] == ss1[..n] && FrameLast(ss2)[..n] == ss2[..n];
      assert FrameLast(ss1)[n] == FrameLast(ss2)[n];
      FrameDetermines(ss1[n], ss2[n]);
      assert ss1 == ss1[..n] + [ss1[n]];
      assert ss2 == ss2[..n] + [ss2[n]];
    }
  }

  /**
   * replace_tc_pos keeps the frame and rewrites each statement in tail
   * position in place: bare calls become ignore-tuple returns, the rest stay.
   */
  lemma {:induction false} ReplaceTailPosShape(s: Stmt, style: Build)
    ensures Frame(ReplaceTailPos(s, style)) == Frame(s)
    ensures TailLeaves(ReplaceTailPos(s, style)) == RewriteLeaves(TailLeaves(s), style)
    decreases s, 1
  {
    match s
    case If(_, b, o) =>
      ReplaceLastShape(b, style);
      ReplaceLastShape(o, style);
      RewriteLeavesAppend(LastLeaves(b), LastLeaves(o), style);
    case _ =>
      assert RewriteLeaves([s], style) == [RewriteLeaf(s, style)];
  }

  lemma {:induction false} ReplaceLastShape(ss: seq<Stmt>, style: Build)
    ensures FrameLast(ReplaceLast(ss, style)) == FrameLast(ss)
    ensures LastLeaves(ReplaceLast(ss, style)) == RewriteLeaves(LastLeaves(ss), style)
    decreases ss, 0
  {
    if |ss| > 0 {
      var n := |ss| - 1;
      var r := ReplaceLast(ss, style);
      assert r[..n] == ss[..n] && r[n] == ReplaceTailPos(ss[n], style);
      ReplaceTailPosShape(ss[n], style);
      assert FrameLast(r) == r[..n] + [Frame(r[n])];
    }
  }

  /** After replace_tc_pos no statement in tail position is a bare call. */
  lemma ReplaceTailPosRemovesBareCalls(s: Stmt, style: Build)
    ensures NoBareCall(TailLeaves(ReplaceTailPos(s, style)))
  {
    ReplaceTailPosShape(s, style);
  }

  /** replace_tc_pos changes a statement exactly when a statement in its tail position is a bare call. */
  lemma ReplaceTailPosFixpoint(s: Stmt, style: Build)
    ensures ReplaceTailPos(s, style) == s <==> NoBareCall(TailLeaves(s))
  {
    ReplaceTailPosShape(s, style);
    var ls := TailLeaves(s);
    if ReplaceTailPos(s, style) == s {
      forall i | 0 <= i < |ls|
        ensures !BareCall(ls[i])
      {
        assert RewriteLeaves(ls, style)[i] == ls[i];
      }
    }
    if NoBareCall(ls) {
      assert RewriteLeaves(ls, style) == ls;
      FrameDetermines(ReplaceTailPos(s, style), s);
    }
  }

  lemma ReplaceTailPosIdempotent(s: Stmt, style: Build)
    ensures ReplaceTailPos(ReplaceTailPos(s, style), style) == ReplaceTailPos(s, style)
  {
    ReplaceTailPosRemovesBareCalls(s, style);
    ReplaceTailPosFixpoint(ReplaceTailPos(s, style), style);
  }

  /** replace_tc_pos introduces no returned call: its new returns hold ignore tuples. */
  lemma NoReturnedCallAppend(a: seq<Option<Expr>>, b: seq<Option<Expr>>)
    ensures NoReturnedCall(a + b) <==> NoReturnedCall(a) && NoReturnedCall(b)
  {
    if NoReturnedCall(a) && NoReturnedCall(b) {
      forall i | 0 <= i < |a + b|
        ensures !ReturnsCall((a + b)[i])
      {
        if i >= |a| {
          assert (a + b)[i] == b[i - |a|];
        }
      }
    }
    if NoReturnedCall(a + b) {
      forall i | 0 <= i < |a|
        ensures !ReturnsCall(a[i])
      {
        assert (a + b)[i] == a[i];
      }
      forall i | 0 <= i < |b|
        ensures !ReturnsCall(b[i])
      {
        assert (a + b)[|a| + i] == b[i];
      }
    }
  }

  lemma {:induction false} ReplaceTailPosKeepsNoReturnedCall(s: Stmt, style: Build)
    requires NoReturnedCall(Returned(s))
    ensures NoReturnedCall(Returned(ReplaceTailPos(s, style)))
    decreases s, 1
  {
    match s
    case If(t, b, o) =>
      NoReturnedCallAppend(ReturnedAll(b), ReturnedAll(o));
      ReplaceLastKeepsNoReturnedCall(b, style);
      ReplaceLastKeepsNoReturnedCall(o, style);
      NoReturnedCallAppend(ReturnedAll(ReplaceLast(b, style)), ReturnedAll(ReplaceLast(o, style)));
    case _ =>
  }

  lemma {:induction false} ReplaceLastKeepsNoReturnedCall(ss: seq<Stmt>, style: Build)
    requires NoReturnedCall(ReturnedAll(ss))
    ensures NoReturnedCall(ReturnedAll(ReplaceLast(ss, style)))
    decreases ss, 0
  {
    if |ss| > 0 {
      var n := |ss| - 1;
      ReturnedAllAppend(ss[..n], [ss[n]]);
      assert ss == ss[..n] + [ss[n]];
      ReturnedAllAppend(ss[..n], [ReplaceTailPos(ss[n], style)]);
      assert ReturnedAll([ss[n]]) == Returned(ss[n]);
      assert ReturnedAll([ReplaceTailPos(ss[n], style)]) == Returned(ReplaceTailPos(ss[n], style));
      NoReturnedCallAppend(ReturnedAll(ss[..n]), Returned(ss[n]));
      ReplaceTailPosKeepsNoReturnedCall(ss[n], style);
      NoReturnedCallAppend(ReturnedAll(ss[..n]), Returned(ReplaceTailPos(ss[n], style)));
    }
  }

  lemma {:induction false} ReturnedAllAppend(a: seq<Stmt>, b: seq<Stmt>)
    ensures ReturnedAll(a + b) == ReturnedAll(a) + ReturnedAll(b)
    decreases |a|
  {
    if |a| > 0 {
      assert (a + b)[0] == a[0] && (a + b)[1..] == a[1..] + b;
      ReturnedAllAppend(a[1..], b);
    } else {
      assert a + b == b;
    }
  }

  // ---------------------------------------------------------------------------
  // The tco decorator

  /**
   * The function `f` after the macro: returns of calls rewritten everywhere,
   * the trampoline decorator in front, and the last statement's tail calls
   * turned into ignore tuples.
   */
  function Tco(f: Stmt, style: Build): (r: Stmt)
    requires f.FunctionDef? && |f.body| > 0
    ensures r.FunctionDef? && r.name == f.name && r.params == f.params
    ensures r.decorators == [DecoratorRef] + f.decorators
    ensures |r.body| == |f.body|
  {
    var g := ReplaceReturns(f, style);
    FunctionDef(g.name, g.params, ReplaceLast(g.body, style), [DecoratorRef] + g.decorators)
  }

  /**
   * After the macro no `return` in the function returns a call, and no
   * statement in tail position of its last statement is a bare call.
   */
  lemma TcoLeavesNoTailCall(f: Stmt, style: Build)
    requires f.FunctionDef? && |f.body| > 0
    ensures NoReturnedCall(ReturnedAll(Tco(f, style).body))
    ensures NoBareCall(TailLeaves(Tco(f, style).body[|f.body| - 1]))
  {
    var g := ReplaceReturns(f, style);
    ReplaceReturnsRemovesCalls(f, style);
    ReplaceLastKeepsNoReturnedCall(g.body, style);
    var n := |g.body| - 1;
    assert Tco(f, style).body[n] == ReplaceTailPos(g.body[n], style);
    ReplaceTailPosRemovesBareCalls(g.body[n], style);
  }

  /**
   * The macro only adds the decorator exactly when the function has no
   * returned call and no bare call in tail position.
   */
  lemma TcoOnlyDecorates(f: Stmt, style: Build)
    requires f.FunctionDef? && |f.body| > 0
    ensures Tco(f, style) == f.(decorators := [DecoratorRef] + f.decorators)
        <==> NoReturnedCall(ReturnedAll(f.body)) && NoBareCall(TailLeaves(f.body[|f.body| - 1]))
  {
    var n := |f.body| - 1;
    var plain := f.(decorators := [DecoratorRef] + f.decorators);
    if Tco(f, style) == plain {
      TcoLeavesNoTailCall(f, style);
      assert Tco(f, style).body == f.body;
    }
    if NoReturnedCall(ReturnedAll(f.body)) && NoBareCall(TailLeaves(f.body[n])) {
      assert Returned(f) == ReturnedAll(f.body);
      ReplaceReturnsFixpoint(f, style);
      ReplaceTailPosFixpoint(f.body[n], style);
      assert ReplaceLast(f.body, style) == f.body[..n] + [f.body[n]];
      assert f.body == f.body[..n] + [f.body[n]];
    }
  }
}
