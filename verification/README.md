# Case classes, tail calls and quick lambdas, modelled in Dafny

This project models three small syntactic macros for Python and the run-time code two of them rely on.

- **`@case` (adt.py).** A class declaration lists its field names where bases would go, for example `class Point(x, y)`. The macro rewrites it into an ordinary class. That class gets generated `__init__`, `__str__`, `__repr__`, `__eq__`, `__ne__` and `copy` methods. Each class nested in the declaration becomes its own top-level class, whose single parent is the enclosing class. The model covers both halves:
  - the rewrite itself, as a pure function over a small statement tree (module `CaseClass`);
  - what the generated methods do at run time, over instance values (module `CaseRuntime`).

  The test scenarios of adt_test.py are stated as lemmas in module `CaseExamples`.
- **`@tco` (tco.py).** This is tail-call elimination.
  - At compile time, every `return f(...)` becomes `return ('macropy-tco-call', f, [args], starargs or [], kwargs or {})`. A bare call in tail position becomes a returned `'macropy-tco-ignore'` tuple. The function also gets `tco.trampoline_decorator` prepended to its decorators (module `TailCallRewrite`). The rewrites take a tuple style: `AsWritten` builds the tuple exactly as tco.py does, dropping the call's keyword arguments; `Corrected` keeps them (see "## Findings"). Every rewrite lemma holds for both styles.
  - At run time, the trampoline keeps invoking while a step hands back a tagged tuple. It returns `None` if any step was an ignored call. A global flag tells a decorated function whether a trampoline is already running (module `Trampoline`).
- **`f[...]` (quicklambda.py).** Each `_` in the expression becomes `arg0`, `arg1`, … in traversal order. The expression becomes the body of a lambda over exactly those names. The name generator yields 100 names (module `QuickLambda`).

Supporting modules:
- `Outcomes` provides `Option` and `Result`.
- `SeqFacts` holds one fact about sequence concatenation shared by the tree proofs.
- `Decimal` models Python's `str()` of an integer, which is used for the generated names and for rendering fields.

Each operation is paired with a reference definition or an inverse, and a lemma connects the two:
- **Rendering.** `str` of an instance is fixed for every number of fields by its empty case, `RenderOne` and `RenderSnoc`, which relate it to `sep.join` one field at a time.
- **Transform output.** The transformed output is related to a preorder listing of the declared classes.
- **`return` rewriting.** The rewritten statement is related to its "hollow": the statement with returned values erased, plus the list of returned values.
- **Tail-position rewriting.** The rewritten statement is related to its "frame": the statement with its tail statements cut out, plus the list of those statements.
- **Quick-lambda renaming.** The renamed expression is related to its shape plus its name list, and to a `Restore` inverse.
- **Trampoline.** The trampoline is related to the chain of invocations it performs.

Programs are represented by small datatypes, not by Python's `ast` classes. The macros walk trees with a walker from their host library. That walker is taken to visit children left to right, in preorder.

## Model

| member | source | states |
|---|---|---|
| Decimal.NatToString | quicklambda.py:10 | `str(n)` is a non-empty run of digits with no leading zero, one digit exactly when `n < 10` |
| Decimal.ParseNatToString | quicklambda.py:10 | reading the decimal rendering back gives the number |
| Decimal.NatToStringInjective | quicklambda.py:10 | distinct counters render as distinct strings |
| Decimal.IntToString | adt.py:30 | `str(i)` starts with `-` exactly for negative `i`, followed by the digits of `-i`; otherwise it is the plain rendering of `i` |
| CaseClass.Methods | adt.py:25-46 | six methods are generated, named `__init__`, `__str__`, `__repr__`, `__eq__`, `__ne__`, `copy` in that order |
| CaseClass.Transform | adt.py:8-82 | the output is a non-empty list of classes; the first keeps the declared name and takes the given parents as its bases |
| CaseClass.Case | adt.py:84-86 | a top-level case class derives from `object` |
| CaseClass.InitTailMatchesBody | adt.py:63-66 | every non-function statement of the class body reaches `__init__`, in order; a nested class arrives transformed |
| CaseClass.TransformedBodyLayout | adt.py:68-79 | the class body becomes its own `def`s in order followed by the six generated methods; nothing else stays |
| CaseClass.GeneratedMethodsWin | adt.py:76-79 | each generated name resolves to the generated method even if the body defined one of that name |
| CaseClass.InitContract | adt.py:26-66 | `__init__` takes `self` and the fields in order, calls the parent `__init__` with no arguments, sets `self.f = f` per field, then runs the moved body statements |
| CaseClass.CopySignature | adt.py:43-52 | `copy` takes `self` and every field with default `NO_ARG`, and re-invokes the class's constructor |
| CaseClass.SchemaOfTransform | adt.py:68-82 | the output defines the declared classes in preorder, each with its own fields, the top one under the given base and each nested one under its enclosing class |
| CaseClass.OutputCount | adt.py:80-82 | one output class per declared class, nested ones included |
| CaseRuntime.Attr | adt.py:56-61 | an attribute read yields the value stored under that field, and fails for a name that is not a field |
| CaseRuntime.Construct | adt.py:54-61 | `cls(*args)` succeeds exactly when the class exists, the arity matches its fields and every ancestor's argument-less `__init__` succeeds; each field then reads back its argument |
| CaseRuntime.Render | adt.py:29-30 | `str` of an instance starts with the class name and `(` and ends with `)`; with no fields it is `cls()` |
| CaseRuntime.JoinSnoc | adt.py:30 | `sep.join` of one more part appends the separator and that part |
| CaseRuntime.RenderOne | adt.py:29-30 | an instance with one field renders as `cls(<its string>)` |
| CaseRuntime.RenderSnoc | adt.py:29-30 | one more field extends the rendering by `, ` and that field's string before the closing `)`; with the two rows above this fixes `str` for any number of fields, in field order |
| CaseRuntime.CaseEq | adt.py:35-39 | `__eq__` holds exactly when every declared field reads on both sides and compares equal under Python's `==` (`True == 1`); a failed read gives false |
| CaseRuntime.CaseNe | adt.py:41-42 | `__ne__` holds exactly when some declared field fails to read or differs |
| CaseRuntime.ValueEqReflexive | adt_test.py:19 | every constructed value equals itself |
| CaseRuntime.EqIgnoresClass | adt.py:35-39 | an instance of another class with the same fields and values compares equal |
| CaseRuntime.FieldlessEqualsAnything | adt.py:35-39 | an instance without fields equals every value |
| CaseRuntime.MissingFieldUnequal | adt.py:36-39 | a field the other side lacks makes `__eq__` false and `__ne__` true |
| CaseRuntime.CopyArgs | adt.py:50-52 | the arguments `copy` passes are the override where given and the current attribute otherwise, and exist exactly when every field is overridden or readable |
| CaseRuntime.Copy | adt.py:43-52 | a keyword that is not a field is refused; when every keyword is a field and the copy arguments exist, the result is the same class constructed again from them, and any success is of that form |
| CaseRuntime.CopyOverrides | adt.py:48-52 | copying a constructed instance succeeds exactly when every keyword names a field, and equals constructing the class with overrides in place of the old values |
| CaseRuntime.CopyWithoutOverrides | adt.py:49-52 | a copy without overrides equals the original (as a value; it is a new object) |
| CaseRuntime.CopyCompose | adt_test.py:33-40 | two successive copies equal one copy with the later overrides winning |
| CaseRuntime.ParentFieldsNotForwarded | adt.py:26-27 | a class whose parent declares fields cannot be constructed |
| CaseRuntime.NestedIsSubclass | adt.py:70-77 | a class declared inside `c` is a subclass of `c` |
| CaseRuntime.NestedInstanceIsEnclosingInstance | adt_test.py:66-67 | an instance of a nested class is an instance of the enclosing class |
| CaseExamples.PointSchema | adt_test.py:9-11 | `class Point(x, y): pass` defines one class `Point(x, y)` under `object` |
| CaseExamples.PointConstruct | adt_test.py:15 | `Point(x, y)` builds the instance with attributes `x` and `y` holding the two arguments, for any two values |
| CaseExamples.PointRender | adt_test.py:16 | for all integers `x`, `y`: `str(Point(x, y))` and `repr(Point(x, y))` are both `Point(<x>, <y>)` |
| CaseExamples.PointFieldsAndEquality | adt_test.py:17-20 | for all integers `x`, `y`: `p.x == x`, `p.y == y`, `==` holds and `!=` does not |
| CaseExamples.PointBoolEqualsInt | adt.py:35-39 | `Point(True, 0) == Point(1, 0)` holds and `!=` does not, as `True == 1` in Python |
| CaseExamples.PointCopyX | adt_test.py:34-36 | `Point(a, b).copy(x = x2)` is `Point(x2, b)` for any values |
| CaseExamples.PointCopyY | adt_test.py:37-40 | `Point(a, b).copy(y = y2)` is `Point(a, y2)` for any values |
| CaseExamples.RenderTwoFields | adt.py:29-30 | an instance with two fields renders as its class name, `(`, the two fields' strings separated by `, `, and `)` |
| CaseExamples.PointCopies | adt_test.py:33-40 | for all integers: `a = Point(x, y)`, `b = a.copy(x = x2)` is `Point(x2, y)`, `b.copy(y = y2)` is `Point(x2, y2)`, and `a` is still `Point(x, y)` |
| CaseExamples.ListSchema | adt_test.py:44-64 | the `List` declaration defines `List`, then `Nil` and `Cons(head, tail)` under `List` |
| CaseExamples.ListDeclared | adt_test.py:44-64 | the preorder listing of the `List` declaration is `List` under `object`, then `Nil` and `Cons(head, tail)` under `List` |
| CaseExamples.NestedListInstances | adt_test.py:66-67 | `Cons(None, None)` and `Nil()` construct and are instances of `List` |
| Trampoline.Classify | tco.py:37-43 | a 5-tuple tagged as a call or ignored call continues with its other four elements; anything else is final and unchanged |
| Trampoline.ClassifyEncode | tco.py:38-41 | a step returned as a tagged tuple is read back as that very step |
| Trampoline.RunReturns | tco.py:33-49 | when invocations before the n-th continue and the n-th is final, the trampoline returns its value, or `None` if an earlier step was ignored |
| Trampoline.RunReturnedHasFinal | tco.py:35-49 | a trampoline that returns met a final step after only continuing steps and returned what `RunReturns` says |
| Trampoline.IgnoringIsSticky | tco.py:40-46 | once a step was an ignored call the run can only return `None` |
| Trampoline.Trampoline | tco.py:27-49 | the imperative loop computes the same outcome, every invocation sees the flag set, and the flag is clear after a normal return |
| Trampoline.Decorated | tco.py:52-59 | outside a trampoline the decorated call runs the trampoline from the call with no extra varargs, and the flag is clear afterwards exactly when it returned; inside one it returns the raw step and the flag stays set |
| Trampoline.DecoratedOutside | tco.py:55-57 | outside a trampoline, a decorated call whose n-th step is the first final one returns that step's value (or `None` after an ignored call) and leaves the flag clear |
| Trampoline.DecoratedInside | tco.py:56-58 | inside a trampoline a decorated call returns the raw step, so a tail call reaches the running loop as that call |
| TailCallRewrite.TailTuple | tco.py:69-74 | the tail tuple is a 5-tuple led by its tag and, without keyword arguments, is the tuple as written |
| TailCallRewrite.TailTupleRoundTrip | tco.py:69-74 | the trampoline's re-invocation from the tail tuple passes the same argument expressions as the replaced call: the positional ones, the `*` expression and the `**` dictionary with the keyword arguments merged in |
| TailCallRewrite.AsWrittenDropsKeywords | tco.py:69-74 | with the tuple as written, any call with a keyword argument is re-invoked with different arguments |
| TailCallRewrite.AsWrittenExample | tco.py:69-74 | `return f(1, b=2)` is re-invoked as `f(1)` by the tuple as written |
| TailCallRewrite.ReplaceReturnsShape | tco.py:66-78 | return rewriting keeps everything but returned values and rewrites each returned call in place into the call tuple of the chosen style (as written: tco.py:70-74) |
| TailCallRewrite.ReplaceReturnsRemovesCalls | tco.py:66-78 | afterwards no `return` anywhere returns a call |
| TailCallRewrite.ReplaceReturnsFixpoint | tco.py:66-78 | a statement is left unchanged exactly when none of its returns returns a call |
| TailCallRewrite.ReplaceReturnsIdempotent | tco.py:66-78 | rewriting returns twice is rewriting them once |
| TailCallRewrite.ReplaceReturnsStylesAgree | tco.py:69-74 | return rewriting as written and as corrected give the same statement exactly when no returned call has a keyword argument |
| TailCallRewrite.ReplaceTailPosShape | tco.py:82-95 | tail rewriting keeps the frame and turns each bare call in tail position in place into a returned ignore tuple of the chosen style (as written: tco.py:85-88) |
| TailCallRewrite.ReplaceTailPosRemovesBareCalls | tco.py:82-95 | afterwards no statement in tail position is a bare call |
| TailCallRewrite.ReplaceTailPosFixpoint | tco.py:82-95 | a statement is left unchanged exactly when no statement in its tail position is a bare call |
| TailCallRewrite.ReplaceTailPosIdempotent | tco.py:82-95 | rewriting tail positions twice is rewriting them once |
| TailCallRewrite.ReplaceTailPosKeepsNoReturnedCall | tco.py:84-89 | tail rewriting introduces no returned call |
| TailCallRewrite.Tco | tco.py:105-109 | the macro keeps the name, parameters and statement count, and its decorators are `tco.trampoline_decorator` then the original ones in order; `Tco(f, AsWritten)` is the macro as written |
| TailCallRewrite.TcoLeavesNoTailCall | tco.py:105-108 | after the macro no return returns a call and the last statement has no bare call in tail position |
| TailCallRewrite.TcoOnlyDecorates | tco.py:105-109 | the macro only adds the decorator exactly when the function has no returned call and no bare tail call |
| QuickLambda.ArgNameInjective | quicklambda.py:10 | distinct counters give distinct generated names |
| QuickLambda.RelabelAt | quicklambda.py:13-16 | in a name list, a `_` preceded by k other `_` becomes the generator's next name plus k; every other name stays |
| QuickLambda.ArgNamesDistinct | quicklambda.py:10 | the names the generator yields are pairwise distinct |
| QuickLambda.RenameSucceeds | quicklambda.py:10-15 | while the generator is not past its end, renaming succeeds exactly when it has a name left for every `_` |
| QuickLambda.RenameValue | quicklambda.py:12-19 | a successful renaming yields the reference relabelling of the expression and the next generated names, one per `_`, in the order drawn |
| QuickLambda.RelabeledShape | quicklambda.py:13-17 | the reference relabelling keeps the expression's shape and relabels its name list left to right |
| QuickLambda.CountNames | quicklambda.py:13-15 | the number of names drawn for an expression is the number of `_` among its names, read left to right |
| QuickLambda.RestoreRelabel | quicklambda.py:14-16 | turning generated names back into `_` undoes relabelling on a name list that held no generated-looking name |
| QuickLambda.F | quicklambda.py:8-23 | the macro succeeds exactly when there are at most 100 `_`; the parameters are then `arg0 … arg(n-1)` and the body is the reference relabelling of the expression |
| QuickLambda.FRenamesInOrder | quicklambda.py:14-17 | the k-th `_` becomes `argk`; other names and the rest of the expression are untouched |
| QuickLambda.FNoPlaceholder | quicklambda.py:14-17 | no `_` remains in the lambda body |
| QuickLambda.FParamsDistinct | quicklambda.py:19-22 | one parameter per `_`, pairwise distinct |
| QuickLambda.FWithoutPlaceholder | quicklambda.py:19-23 | an expression without `_` becomes a zero-parameter lambda around the unchanged expression |
| QuickLambda.FRestore | quicklambda.py:14-17 | when the input uses no `argN` name, turning generated names back into `_` gives the input back |

## Left out

- The macro host library is not part of this model. This covers quasi-quotes, `Walker`/`recurse`/`collect`, and Python's `ast` classes. Programs are small datatypes, and the walker is taken to visit children in its own visiting order, in preorder. The list built at adt.py:72 and adt.py:80 is a list of lists, and the quasi-quote at tco.py:69-75 and tco.py:84-89 produces a one-statement list. Both are modelled as the flattened statements the host splices in.
- The `switch` pattern engine at tco.py:37-43 is not part of this model. It is reduced to `Classify` on tagged 5-tuples. The docstring at tco.py:31 mentions a `('return', val)` form, but the code has no such case; the model follows the code.
- Termination of user code: `Trampoline.Loop` takes a fuel bound. Running out of fuel stands for a run that does not finish within that many invocations.
- TailCallRewrite.TailTupleRoundTrip: the round trip is over argument expressions and assumes the `*` argument evaluates to a list. tco.py:36 computes `list(args) + varargs`, which raises `TypeError` for any other iterable (for example the tuple in `def g(*a): return h(*a)`), with either tuple style; that exception is not modelled.
- Exceptions are not modelled. This includes an exception escaping `trampoline` and leaving the global flag set, and the assertion at tco.py:100-103 that parameters are plain names: parameters are plain strings here.
- TailCallRewrite.ReplaceLast: an empty `if` body is left unchanged, where tco.py:91 would raise. Python's parser never produces an empty body.
- Statements other than `return`, expression statements, `if`, compound statements and `def` are opaque (`Other`) in the tail-call model. `while`/`for`/`with`/`try`/`class` share one compound form (`Block`) with two statement lists; the `except` handlers and the `finally` body of a `try` are nested `Block`s in its second list, so return rewriting reaches them as it reaches every statement.
- Statements that `@case` moves into `__init__` are opaque. Their effect on attributes (adt_test.py:79) is not modelled, and neither is the floating-point arithmetic of adt_test.py:27 and adt_test.py:79.
- The test-only `__len__`/`__iter__` methods of `List`, `Nil` and `Cons` (adt_test.py:46-64, 72-74) are kept as method definitions, but their behaviour is not modelled.
- Python's `==` is simplified. A plain value compared with an instance uses the instance's reflected `__eq__`. The rule that a subclass's reflected method takes priority is not modelled. Among plain values only `bool` against `int` (`True == 1`, `False == 0`) is treated beyond structural equality; floats are not modelled.
- CaseRuntime.Attr: plain values carry no attributes here. In Python an `int` or `bool` has `real`, `imag`, `numerator` and `denominator`, and every value has method attributes, so for `@case class R(real)` Python finds `R(3) == 3` true where `CaseRuntime.ValueEq` says false.
- CaseRuntime.Construct: the constructor is modelled as positional only (`cls(*args)`); keyword arguments such as `Point(y=2, x=1)`, which the generated `__init__(self, x, y)` also accepts, are not modelled.
- `copy` takes keyword overrides only. Positional overrides, and passing `NO_ARG` explicitly, are not modelled.
- Duplicate field names are excluded from the runtime lemmas, which require `Distinct` field lists. Python rejects duplicate parameter names in the generated `__init__`.
- CaseRuntime.NestedIsSubclass: stated under the assumption that class names in a declaration are unique. With a repeated name, a later class rebinds it.
- CaseRuntime.NestedInstanceIsEnclosingInstance: carries the same unique-names assumption as `NestedIsSubclass`, for the same reason.
- Python 2 specifics (`xrange`, `.next()`) are modelled only through the 100-name bound. setup.py is packaging only.

## Findings

| source | as written | input that shows it | evidently intended | confidence | as-written member | corrected member |
|---|---|---|---|---|---|---|
| tco.py:69-74 | the call tuple copies `func`, `args`, `starargs` and `kwargs` from the call, but not its keyword arguments (`Call.keywords`); tco.py:85-88 does the same for ignore tuples | `return f(1, b=2)` is re-invoked by the trampoline as `f(1)` | the re-invocation passes the same argument expressions as the replaced call, keyword arguments merged into the `**` dictionary | not executed | TailCallRewrite.AsWrittenDropsKeywords | TailCallRewrite.TailTupleRoundTrip |

`TailCallRewrite.TailTupleAsWritten` is the tuple as the source builds it. `TailCallRewrite.TailTuple` is the corrected tuple, `(tag, func, [args], starargs or [], dict(kwargs or {}, k=v, ...))`. The rewrites `ReplaceReturns`, `ReplaceTailPos` and `Tco` build the first under the style `AsWritten` and the second under `Corrected`; every property in the "## Model" table is proved for both. `ReplaceReturnsStylesAgree` shows that the two styles agree exactly on functions whose returned calls have no keyword arguments.
