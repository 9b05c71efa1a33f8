/**
 * Values, handlers and the per-string handler pipeline of the resolver
 * (src/resolver.js, `_resolve`): a tagged string's content runs through the
 * assembled handler stack as an `async.waterfall`, each stage feeding the
 * next, the first failure ending the run.
 */
module Pipeline {
  import opened Basics

  /** A resolvable value. Booleans, numbers, null, Buffers, Dates and RegExps
      are opaque leaves, told apart only by a token. */
  datatype Value =
    | Str(s: string)
    | Arr(items: seq<Value>)
    | Obj(fields: seq<Field>)
    | Leaf(token: nat)

  /** One key/value pair of a plain object. */
  datatype Field = Field(key: string, value: Value)

  /** What a caller may pass in the filename or callback position of `resolve`. */
  datatype Arg = Undefined | Null | Text(text: string) | Func(fn: nat)

  /** JavaScript falsiness of an argument. The handlers module has its own
      value type and `Truthy`, because handler inputs (booleans, numbers,
      parsed filter results) and the resolver's arguments (the filename and
      callback positions) are different sets of JavaScript values; the two
      modules share none of them. */
  predicate Falsy(a: Arg) {
    a.Undefined? || a.Null? || a == Text("")
  }

  datatype Error =
    | Raised(code: nat)            // an error a handler throws, rejects with or passes to its continuation
    | NoHandlers(protocol: string) // the TypeError of reading `tasks[0].length` on an empty assembled stack
    | FileHandlerNotFirst          // a handler with three or more parameters placed after the first stage
    | NotAFunction                 // a truthy callback that cannot be called

  type Outcome = Result<Value, Error>

  /** A handler implementation, classified by its declared parameter count
      (`implementation.length`). */
  datatype Impl =
    | Transform(apply: Value -> Outcome)            // at most one parameter: its return value or throw
    | Cont(apply: Value -> Outcome)                 // (input, next)
    | ContFile(applyWithFile: (Value, Arg) -> Outcome) // (input, filename, next)

  /** A registered handler; `id` stands for the identity of the `Handler` object. */
  datatype Entry = Entry(id: nat, impl: Impl)

  /** The stack registered under `protocol`, empty when there is none. */
  function StackOf(stacks: map<string, seq<Entry>>, protocol: string): seq<Entry> {
    if protocol in stacks then stacks[protocol] else []
  }

  /** The implementations of a stack, in stack order. */
  function Impls(entries: seq<Entry>): seq<Impl> {
    seq(|entries|, i requires 0 <= i < |entries| => entries[i].impl)
  }

  /** The implementations of a concatenation are the concatenated implementations. */
  lemma ImplsAppend(a: seq<Entry>, b: seq<Entry>)
    ensures Impls(a + b) == Impls(a) + Impls(b)
  {
    assert forall i | 0 <= i < |a + b| :: (a + b)[i] == if i < |a| then a[i] else b[i - |a|];
  }

  /** Position of the first entry with identity `id`, or -1 (`indexOf`). */
  function IndexOfId(s: seq<Entry>, id: nat): (i: int)
    ensures -1 <= i < |s|
    ensures 0 <= i ==> s[i].id == id && forall j | 0 <= j < i :: s[j].id != id
    ensures i == -1 ==> forall j | 0 <= j < |s| :: s[j].id != id
    decreases |s|
  {
    if s == [] then -1
    else if s[0].id == id then 0
    else
      var k := IndexOfId(s[1..], id);
      if k == -1 then -1 else k + 1
  }

  /** Every identity in `s` is below `bound`. */
  predicate IdsBelow(s: seq<Entry>, bound: nat) {
    forall j | 0 <= j < |s| :: s[j].id < bound
  }

  /** No identity occurs twice in `s`. */
  predicate DistinctIds(s: seq<Entry>) {
    forall i, j | 0 <= i < j < |s| :: s[i].id != s[j].id
  }

  /** Some entry of `s` has identity `id`. */
  predicate Present(s: seq<Entry>, id: nat) {
    exists j | 0 <= j < |s| :: s[j].id == id
  }

  /** Splicing out the entry at `i` keeps every other identity and, identities
      being distinct, leaves none with the removed one. */
  lemma RemoveEntry(s: seq<Entry>, i: nat, bound: nat)
    requires i < |s| && DistinctIds(s) && IdsBelow(s, bound)
    ensures DistinctIds(s[..i] + s[i + 1..]) && IdsBelow(s[..i] + s[i + 1..], bound)
    ensures forall id :: Present(s[..i] + s[i + 1..], id) <==> Present(s, id) && id != s[i].id
  {
    var t := s[..i] + s[i + 1..];
    assert forall j | 0 <= j < i :: t[j] == s[j];
    assert forall j | i <= j < |t| :: t[j] == s[j + 1];
    forall id
      ensures Present(t, id) <==> Present(s, id) && id != s[i].id
    {
      if Present(s, id) && id != s[i].id {
        var k :| 0 <= k < |s| && s[k].id == id;
        var j := if k < i then k else k - 1;
        assert t[j].id == id;
      }
      if Present(t, id) {
        var j :| 0 <= j < |t| && t[j].id == id;
        var k := if j < i then j else j + 1;
        assert s[k].id == id && k != i;
      }
    }
  }

  /** Pushing an entry with a fresh identity keeps every other identity and adds the new one. */
  lemma PushEntry(s: seq<Entry>, e: Entry)
    requires DistinctIds(s) && IdsBelow(s, e.id)
    ensures DistinctIds(s + [e]) && IdsBelow(s + [e], e.id + 1)
    ensures forall id :: Present(s + [e], id) <==> Present(s, id) || id == e.id
  {
    var t := s + [e];
    assert t[|s|] == e;
    forall id
      ensures Present(t, id) <==> Present(s, id) || id == e.id
    {
      if Present(s, id) {
        var k :| 0 <= k < |s| && s[k].id == id;
        assert t[k].id == id;
      }
      if Present(t, id) && id != e.id {
        var j :| 0 <= j < |t| && t[j].id == id;
        assert s[j].id == id;
      }
    }
  }

  /** Stage 0. The waterfall is bootstrapped with `(content)` when the first
      task has exactly two parameters and with `(content, filename)` otherwise;
      a one-parameter handler is wrapped as `async input => impl(input)` and so
      never sees the filename. */
  function Seed(first: Impl, content: string, file: Arg): (r: Outcome)
    ensures !first.ContFile? ==> r == Step(first, Str(content))
  {
    match first
    case Transform(f) => f(Str(content))
    case Cont(f) => f(Str(content))
    case ContFile(g) => g(Str(content), file)
  }

  /** A later stage receives only the previous stage's output. */
  function Step(stage: Impl, x: Value): (r: Outcome)
    ensures stage.ContFile? ==> r == Err(FileHandlerNotFirst)
  {
    match stage
    case Transform(f) => f(x)
    case Cont(f) => f(x)
    case ContFile(_) => Err(FileHandlerNotFirst)
  }

  /** Runs the remaining stages in order, stopping at the first failure. */
  function Continue(stages: seq<Impl>, x: Value): (r: Outcome)
    ensures r.Err? ==> stages != []
    ensures |stages| == 1 ==> r == Step(stages[0], x)
    decreases |stages|
  {
    if stages == [] then Ok(x)
    else
      match Step(stages[0], x)
      case Err(e) => Err(e)
      case Ok(y) => Continue(stages[1..], y)
  }

  /** Feeds a successful outcome to further stages; a failure passes through. */
  function Then(r: Outcome, stages: seq<Impl>): Outcome {
    match r
    case Err(e) => Err(e)
    case Ok(x) => Continue(stages, x)
  }

  /** The waterfall over an assembled stack. An empty stack is the TypeError
      the source raises on `tasks[0].length`. */
  function RunStack(protocol: string, stack: seq<Impl>, content: string, file: Arg): (r: Outcome)
    ensures stack == [] ==> r.Err?
    ensures |stack| == 1 ==> r == Seed(stack[0], content, file)
    ensures stack != [] && Seed(stack[0], content, file).Err? ==> r == Seed(stack[0], content, file)
  {
    if stack == [] then Err(NoHandlers(protocol))
    else Then(Seed(stack[0], content, file), stack[1..])
  }

  /** Running `a + b` is running `a`, then feeding its result to `b`. */
  lemma {:induction false} ContinueAppend(a: seq<Impl>, b: seq<Impl>, x: Value)
    ensures Continue(a + b, x) == Then(Continue(a, x), b)
    decreases |a|
  {
    if a == [] {
      assert a + b == b;
    } else {
      assert (a + b)[0] == a[0];
      assert (a + b)[1..] == a[1..] + b;
      match Step(a[0], x)
      case Err(e) =>
      case Ok(y) => ContinueAppend(a[1..], b, y);
    }
  }

  /** Once a prefix of the stages fails, the whole run fails with that error. */
  lemma FirstFailureStops(stages: seq<Impl>, k: nat, x: Value, e: Error)
    requires k <= |stages|
    requires Continue(stages[..k], x) == Err(e)
    ensures Continue(stages, x) == Err(e)
  {
    assert stages == stages[..k] + stages[k..];
    ContinueAppend(stages[..k], stages[k..], x);
  }

  /** A non-empty stack followed by more stages runs the stack, then the rest. */
  lemma RunStackAppend(protocol: string, a: seq<Impl>, b: seq<Impl>, content: string, file: Arg)
    requires a != []
    ensures RunStack(protocol, a + b, content, file) == Then(RunStack(protocol, a, content, file), b)
  {
    assert (a + b)[0] == a[0];
    assert (a + b)[1..] == a[1..] + b;
    match Seed(a[0], content, file)
    case Err(e) =>
    case Ok(y) => ContinueAppend(a[1..], b, y);
  }

  /** Two transforms registered in turn compose: the first registered runs first. */
  lemma TwoTransforms(protocol: string, f: Value -> Outcome, g: Value -> Outcome, content: string, file: Arg)
    ensures RunStack(protocol, [Transform(f), Transform(g)], content, file)
         == match f(Str(content)) case Err(e) => Err(e) case Ok(y) => g(y)
  {
    var stack := [Transform(f), Transform(g)];
    assert stack[1..] == [Transform(g)];
    match f(Str(content))
    case Err(e) =>
    case Ok(y) =>
      assert Continue([Transform(g)], y) == Then(g(y), []);
  }

  /** Only a first stage with three or more parameters sees the filename. */
  lemma SeedUsesFileOnlyWhenFileAware(first: Impl, content: string, f1: Arg, f2: Arg)
    requires !first.ContFile?
    ensures Seed(first, content, f1) == Seed(first, content, f2)
  {
  }
}
