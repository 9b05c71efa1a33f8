/**
 * Client runs of the resolver, replaying the repository's own test cases
 * (test/resolver.core.test.js, test/resolver.async.test.js) against the model.
 */
module Scenarios {
  import opened Basics
  import opened Protocols
  import opened Pipeline
  import opened Resolution

  /** Three distinguishable handlers, standing for `customA`, `customB` and `customC`. */
  function CustomA(v: Value): Outcome { Ok(Leaf(0)) }
  function CustomB(v: Value): Outcome { Ok(Leaf(1)) }
  function CustomC(v: Value): Outcome { Ok(Leaf(2)) }

  /** Three handlers on one name. Unregistering the bottom one removes that
      very entry, not the top of the stack; each comes off exactly once, a
      spent closure returns undefined, and the name is left with an empty
      stack. The invariant is only passed along here, so its definition is
      kept out of this proof. */
  method UnuseStack(name: string)
    returns (a1: Option<Impl>, a2: Option<Impl>, b: Option<Impl>, c: Option<Impl>, left: seq<Entry>)
    ensures a1 == Some(Transform(CustomA)) && a2 == None
    ensures b == Some(Transform(CustomB)) && c == Some(Transform(CustomC))
    ensures left == []
  {
    hide Resolver.Registry;
    var r := new Resolver(null);
    var unuseA := r.Use(name, Transform(CustomA));
    var unuseB := r.Use(name, Transform(CustomB));
    var unuseC := r.Use(name, Transform(CustomC));
    assert r.stacks[name] == [Entry(0, Transform(CustomA)), Entry(1, Transform(CustomB)), Entry(2, Transform(CustomC))];
    a1 := unuseA.Call();
    assert r.stacks[name] == [Entry(1, Transform(CustomB)), Entry(2, Transform(CustomC))];
    a2 := unuseA.Call();
    b := unuseB.Call();
    assert r.stacks[name] == [Entry(2, Transform(CustomC))];
    c := unuseC.Call();
    left := r.stacks[name];
  }

  /** Once its only handler is unregistered, a name stays supported and its
      strings fail to resolve instead of passing through. */
  method EmptiedStack() returns (removed: Option<Impl>, after: Outcome)
    ensures removed == Some(Transform(CustomA))
    ensures after == Err(NoHandlers("custom"))
  {
    var r := new Resolver(null);
    var unuse := r.Use("custom", Transform(CustomA));
    assert IndexOfId([Entry(0, Transform(CustomA))], 0) == 0;
    removed := unuse.Call();
    EmptiedNameFails(r);
    after := r.ResolveString("custom:x", Undefined);
  }

  /** A name registered on a root resolver whose stack has been emptied. */
  lemma EmptiedNameFails(r: Resolver)
    requires r.Valid() && r.Registry() && r.parent == null
    requires r.keys == ["custom"] && StackOf(r.stacks, "custom") == []
    ensures r.ResolveString("custom:x", Undefined) == Err(NoHandlers("custom"))
  {
    r.SupportedProtocolsLayout();
    assert "custom" + ":" + "x" == "custom:x";
    r.ResolvesContentAfterTag("custom", "x", Undefined);
  }

  /** The `foo` handler of the fixtures: appends "_foo" to a string. */
  function Foo(v: Value): Outcome {
    match v
    case Str(s) => Ok(Str(s + "_foo"))
    case _ => Ok(v)
  }

  /** A child resolver sees its parent's handlers; once it registers its own,
      they run after the parent's. */
  method ParentThenChild() returns (first: Outcome, second: Outcome)
    ensures first == Ok(Str("maybe_foo"))
    ensures second == Ok(Str("maybe_foo_foo"))
  {
    var parent := FooRoot();
    var child := new Resolver(parent);
    InheritedOnly(child);
    first := child.ResolveString("foo:maybe", Undefined);
    ChildAddsFoo(child);
    second := child.ResolveString("foo:maybe", Undefined);
  }

  /** A root resolver with one `foo` handler. */
  method FooRoot() returns (parent: Resolver)
    ensures fresh(parent) && parent.Valid() && parent.Registry() && parent.parent == null
    ensures parent.keys == ["foo"] && StackOf(parent.stacks, "foo") == [Entry(0, Transform(Foo))]
  {
    parent := new Resolver(null);
    var _ := parent.Use("foo", Transform(Foo));
  }

  /** The child of ParentThenChild registers its own `foo` handler. */
  method ChildAddsFoo(child: Resolver)
    requires child.Valid() && child.Registry() && child.keys == [] && child.stacks == map[] && child.nextId == 0
    requires child.parent != null && child.parent.parent == null && child.parent.Registry()
    requires child.parent.keys == ["foo"] && StackOf(child.parent.stacks, "foo") == [Entry(0, Transform(Foo))]
    modifies child`keys, child`stacks, child`nextId, child`tokens
    ensures child.ResolveString("foo:maybe", Undefined) == Ok(Str("maybe_foo_foo"))
  {
    var _ := child.Use("foo", Transform(Foo));
    InheritedAndOwn(child);
  }

  /** Under a root parent that registered `foo`, a child whose own names are
      none or just `foo` supports exactly `foo`, and `foo:maybe` runs the
      child's assembled `foo` stack on `maybe`. */
  lemma FooLookup(child: Resolver)
    requires child.Valid() && child.Registry() && (child.keys == [] || child.keys == ["foo"])
    requires child.parent != null && child.parent.parent == null && child.parent.Registry()
    requires child.parent.keys == ["foo"]
    ensures child.SupportedProtocols() == ["foo"]
    ensures child.ResolveString("foo:maybe", Undefined)
         == RunStack("foo", Impls(child.GetHandlers("foo")), "maybe", Undefined)
  {
    child.parent.SupportedProtocolsLayout();
    child.SupportedProtocolsLayout();
    assert Without(["foo"], child.keys) == (if child.keys == [] then ["foo"] else []) by {
      assert ["foo"][..0] == [];
    }
    assert child.SupportedProtocols() == ["foo"];
    assert ':' !in "foo";
    assert "foo" + ":" + "maybe" == "foo:maybe";
    child.ResolvesContentAfterTag("foo", "maybe", Undefined);
  }

  /** A child without handlers of its own under a parent with one `foo` handler. */
  lemma InheritedOnly(child: Resolver)
    requires child.Valid() && child.Registry() && child.keys == [] && StackOf(child.stacks, "foo") == []
    requires child.parent != null && child.parent.parent == null && child.parent.Registry()
    requires child.parent.keys == ["foo"] && StackOf(child.parent.stacks, "foo") == [Entry(0, Transform(Foo))]
    ensures child.ResolveString("foo:maybe", Undefined) == Ok(Str("maybe_foo"))
  {
    hide Resolver.Registry, Resolver.SupportedProtocols, Resolver.ResolveString;
    FooLookup(child);
    var parent := child.parent;
    assert parent.Valid();
    assert parent.GetHandlers("foo") == [] + StackOf(parent.stacks, "foo");
    assert child.GetHandlers("foo") == [Entry(0, Transform(Foo))] + [];
    assert Impls(child.GetHandlers("foo")) == [Transform(Foo)];
    FooOnce();
  }

  /** One `foo` handler appends "_foo" once. */
  lemma FooOnce()
    ensures RunStack("foo", [Transform(Foo)], "maybe", Undefined) == Ok(Str("maybe_foo"))
  {
    assert "maybe" + "_foo" == "maybe_foo";
    assert RunStack("foo", [Transform(Foo)], "maybe", Undefined) == Then(Ok(Str("maybe_foo")), []);
  }

  /** The same child after registering its own `foo` handler. */
  lemma InheritedAndOwn(child: Resolver)
    requires child.Valid() && child.Registry() && child.keys == ["foo"]
    requires StackOf(child.stacks, "foo") == [Entry(0, Transform(Foo))]
    requires child.parent != null && child.parent.parent == null && child.parent.Registry()
    requires child.parent.keys == ["foo"] && StackOf(child.parent.stacks, "foo") == [Entry(0, Transform(Foo))]
    ensures child.ResolveString("foo:maybe", Undefined) == Ok(Str("maybe_foo_foo"))
  {
    hide Resolver.Registry, Resolver.SupportedProtocols, Resolver.ResolveString;
    FooLookup(child);
    assert child.parent.GetHandlers("foo") == [] + [Entry(0, Transform(Foo))];
    assert child.GetHandlers("foo") == [Entry(0, Transform(Foo))] + [Entry(0, Transform(Foo))];
    assert Impls(child.GetHandlers("foo")) == [Transform(Foo), Transform(Foo)];
    FooTwice();
  }

  /** Two `foo` handlers in a row append "_foo" twice. */
  lemma FooTwice()
    ensures RunStack("foo", [Transform(Foo), Transform(Foo)], "maybe", Undefined) == Ok(Str("maybe_foo_foo"))
  {
    var stack := [Transform(Foo), Transform(Foo)];
    assert stack[1..] == [Transform(Foo)];
    assert "maybe" + "_foo" == "maybe_foo";
    assert "maybe_foo" + "_foo" == "maybe_foo_foo";
    assert Continue([Transform(Foo)], Str("maybe_foo")) == Then(Ok(Str("maybe_foo_foo")), []);
  }
}
