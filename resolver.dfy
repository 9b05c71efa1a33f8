/**
 * The resolution engine of src/resolver.js: a `Resolver` owns a registry of
 * handler stacks keyed by protocol name, may have a parent resolver, and
 * resolves a data tree by rebuilding arrays and plain objects and running
 * every tagged string through the handler stack assembled for its protocol.
 */
module Resolution {
  import opened Basics
  import opened Protocols
  import opened Pipeline

  /** How `resolve` hands its outcome back: as the returned promise's outcome,
      as the arguments of a call of the callback, or as an exception thrown
      by `resolve` itself before any promise exists. */
  datatype Delivery =
    | Returned(outcome: Outcome)
    | Called(callback: nat, err: Option<Error>, data: Option<Value>)
    | Thrown(thrown: Error)

  class Resolver {
    /** The parent resolver, fixed at construction. */
    const parent: Resolver?
    /** Length of the parent chain, so that walking it terminates. */
    ghost const depth: nat
    /** This resolver and its ancestors. */
    ghost const Repr: set<Resolver>

    /** The registered protocol names, in insertion order (the keys of `_handlers`). */
    var keys: seq<string>
    /** `_handlers`: the stack of entries registered under each name. */
    var stacks: map<string, seq<Entry>>
    /** The identity the next registration receives. */
    var nextId: nat
    /** The unregister closures handed out by `Use`. */
    ghost var tokens: set<Unregister>

    /** The parent chain is finite and `Repr` collects it. */
    ghost predicate Valid()
      decreases depth
    {
      && this in Repr
      && (parent == null ==> Repr == {this})
      && (parent != null ==> parent.depth < depth && Repr == {this} + parent.Repr && parent.Valid())
    }

    /** The registry's invariant: names and stacks agree, identities are
        distinct, and a closure is spent exactly when its entry is gone. */
    ghost predicate Registry()
      reads this, tokens
    {
      RegistryOf(this, keys, stacks, nextId, tokens)
    }

    constructor (parent: Resolver?)
      requires parent != null ==> parent.Valid()
      ensures Valid() && Registry()
      ensures this.parent == parent
      ensures keys == [] && stacks == map[] && nextId == 0 && tokens == {}
    {
      this.parent := parent;
      this.depth := if parent == null then 0 else parent.depth + 1;
      this.Repr := if parent == null then {this} else {this} + parent.Repr;
      keys := [];
      stacks := map[];
      nextId := 0;
      tokens := {};
    }

    /** `use(protocol, implementation)`: pushes a new entry on the protocol's
        stack, creating the stack first when there is none, and returns the
        closure that removes that very entry. */
    method Use(protocol: string, impl: Impl) returns (unuse: Unregister)
      requires Registry()
      modifies this`keys, this`stacks, this`nextId, this`tokens
      ensures Registry()
      ensures fresh(unuse) && !unuse.removed
      ensures unuse.owner == this && unuse.protocol == protocol && unuse.id == old(nextId)
      ensures nextId == old(nextId) + 1 && tokens == old(tokens) + {unuse}
      ensures keys == if protocol in old(stacks) then old(keys) else old(keys) + [protocol]
      ensures stacks == old(stacks)[protocol := StackOf(old(stacks), protocol) + [Entry(old(nextId), impl)]]
    {
      hide RegistryOf;
      unuse := new Unregister(this, protocol, nextId);
      RegistryPush(this, keys, stacks, nextId, tokens, unuse, impl);
      var keys' := if protocol in stacks then keys else keys + [protocol];
      var stacks' := stacks[protocol := StackOf(stacks, protocol) + [Entry(nextId, impl)]];
      keys, stacks, nextId, tokens := keys', stacks', nextId + 1, tokens + {unuse};
    }

    /** `use({name: implementation, ...})`: registers the object's pairs in
        order and returns the closure issued for each, in the same order. */
    method UseAll(pairs: seq<(string, Impl)>) returns (unuses: seq<Unregister>)
      requires Registry()
      modifies this`keys, this`stacks, this`nextId, this`tokens
      ensures Registry()
      ensures nextId == old(nextId) + |pairs|
      ensures stacks == PushAll(old(stacks), pairs, old(nextId))
      ensures keys == AddNames(old(keys), pairs)
      ensures Issued(unuses, this, pairs, old(nextId))
      ensures forall u | u in unuses :: u in tokens
      ensures old(tokens) <= tokens
      ensures forall u | u in tokens :: u in old(tokens) || u in unuses
      decreases |pairs|
    {
      if pairs == [] {
        return [];
      }
      var n := |pairs| - 1;
      var name, impl := pairs[n].0, pairs[n].1;
      var prefix := pairs[..n];
      assert pairs == prefix + [(name, impl)];
      ghost var (stacks0, keys0, id0) := (stacks, keys, nextId);
      unuses := UseAll(prefix);
      ghost var (stacks1, keys1, id1, before) := (stacks, keys, nextId, unuses);
      var u := Use(name, impl);
      unuses := unuses + [u];
      IssuedSnoc(before, this, prefix, id0, name, impl, u);
      PushAllSnoc(stacks0, prefix, name, impl, id0, id1, stacks1, stacks);
      AddNamesSnoc(keys0, prefix, name, impl, keys1, keys);
    }

    /** `supportedProtocols`: own names in insertion order, then the parent's,
        later duplicates dropped. */
    function SupportedProtocols(): (names: seq<string>)
      reads Repr
      requires Valid()
      ensures NoDup(names)
      decreases depth
    {
      Dedup(keys + (if parent == null then [] else parent.SupportedProtocols()))
    }

    /** `getProtocol(value)`: the first supported name whose tag `value` carries. */
    function GetProtocol(value: string): (r: Option<string>)
      reads Repr
      requires Valid()
      ensures r.Some? ==> r.value in SupportedProtocols() && Tagged(value, r.value)
      ensures r.None? <==> forall p | p in SupportedProtocols() :: !Tagged(value, p)
    {
      FirstMatch(SupportedProtocols(), value)
    }

    /** `getHandlers(protocol)`: the parent's assembled stack, then this resolver's own. */
    function GetHandlers(protocol: string): (stack: seq<Entry>)
      reads Repr
      requires Valid()
      ensures |StackOf(stacks, protocol)| <= |stack|
      ensures stack[|stack| - |StackOf(stacks, protocol)|..] == StackOf(stacks, protocol)
      ensures parent == null ==> stack == StackOf(stacks, protocol)
      decreases depth
    {
      (if parent == null then [] else parent.GetHandlers(protocol)) + StackOf(stacks, protocol)
    }

    /** `_resolve` on a string. `if (!protocol)` also lets the empty name through unresolved. */
    function ResolveString(s: string, file: Arg): (r: Outcome)
      reads Repr
      requires Valid()
      ensures GetProtocol(s).None? ==> r == Ok(Str(s))
      ensures r.Err? ==> GetProtocol(s).Some? && GetProtocol(s).value != ""
    {
      match GetProtocol(s)
      case None => Ok(Str(s))
      case Some(p) =>
        if p == "" then Ok(Str(s))
        else RunStack(p, Impls(GetHandlers(p)), s[|p| + 1..], file)
    }

    /** `_resolve`: rebuilds arrays and plain objects, passes other non-strings through. */
    function ResolveValue(data: Value, file: Arg): (r: Outcome)
      reads Repr
      requires Valid()
      ensures data.Leaf? ==> r == Ok(data)
      ensures data.Arr? && r.Ok? ==> r.value.Arr? && |r.value.items| == |data.items|
      ensures data.Obj? && r.Ok? ==> r.value.Obj? && |r.value.fields| == |data.fields|
      decreases data
    {
      match data
      case Arr(items) =>
        (match ResolveItems(items, file)
         case Ok(rs) => Ok(Arr(rs))
         case Err(e) => Err(e))
      case Obj(fields) =>
        (match ResolveFields(fields, file)
         case Ok(fs) => Ok(Obj(fs))
         case Err(e) => Err(e))
      case Leaf(_) => Ok(data)
      case Str(s) => ResolveString(s, file)
    }

    /** The members of an array, each resolved with the same filename; the
        parallel fan-out taken in index order. */
    function ResolveItems(items: seq<Value>, file: Arg): (r: Result<seq<Value>, Error>)
      reads Repr
      requires Valid()
      ensures r.Ok? ==> |r.value| == |items|
      ensures items == [] ==> r == Ok([])
      decreases items
    {
      if items == [] then Ok([])
      else
        match ResolveValue(items[0], file)
        case Err(e) => Err(e)
        case Ok(x) =>
          match ResolveItems(items[1..], file)
          case Err(e) => Err(e)
          case Ok(rest) => Ok([x] + rest)
    }

    /** The values of a plain object, each resolved with the same filename, keys kept. */
    function ResolveFields(fields: seq<Field>, file: Arg): (r: Result<seq<Field>, Error>)
      reads Repr
      requires Valid()
      ensures r.Ok? ==> |r.value| == |fields| && forall i | 0 <= i < |fields| :: r.value[i].key == fields[i].key
      decreases fields
    {
      if fields == [] then Ok([])
      else
        match ResolveValue(fields[0].value, file)
        case Err(e) => Err(e)
        case Ok(x) =>
          match ResolveFields(fields[1..], file)
          case Err(e) => Err(e)
          case Ok(rest) => Ok([Field(fields[0].key, x)] + rest)
    }

    /** Whether `_resolve` itself throws on `data`: a string tagged with a
        non-empty supported name whose assembled stack is empty reads
        `tasks[0].length` synchronously, before any promise is made. */
    predicate ThrowsAtOnce(data: Value)
      reads Repr
      requires Valid()
    {
      && data.Str?
      && GetProtocol(data.s).Some?
      && GetProtocol(data.s).value != ""
      && GetHandlers(GetProtocol(data.s).value) == []
    }

    /** `resolve(data, filename, callback)`. A function in the filename
        position with no callback becomes the callback, the filename null.
        With a truthy callback that is not a function, `.then` throws on
        success and the rejection passes on unchanged on failure. */
    function Resolve(data: Value, filename: Arg, callback: Arg): (r: Delivery)
      reads Repr
      requires Valid()
      ensures ThrowsAtOnce(data) <==> r.Thrown?
      ensures r.Thrown? ==> r == Thrown(NoHandlers(GetProtocol(data.s).value))
      ensures Falsy(callback) && !filename.Func? && !ThrowsAtOnce(data) ==> r == Returned(ResolveValue(data, filename))
      ensures !Falsy(callback) && !callback.Func? && !ThrowsAtOnce(data) ==>
                r == Returned(if ResolveValue(data, filename).Ok? then Err(NotAFunction) else ResolveValue(data, filename))
    {
      var shuffle := Falsy(callback) && filename.Func?;
      var file := if shuffle then Null else filename;
      var cb := if shuffle then filename else callback;
      if ThrowsAtOnce(data) then Thrown(NoHandlers(GetProtocol(data.s).value))
      else
        var outcome := ResolveValue(data, file);
        if Falsy(cb) then Returned(outcome)
        else if cb.Func? then
          match outcome
          case Ok(v) => Called(cb.fn, None, Some(v))
          case Err(e) => Called(cb.fn, Some(e), None)
        else Returned(if outcome.Ok? then Err(NotAFunction) else outcome)
    }

    /** The supported names are this resolver's own names in insertion order,
        followed by the parent's names that are not its own. */
    lemma SupportedProtocolsLayout()
      requires Valid() && Registry()
      ensures parent == null ==> SupportedProtocols() == keys
      ensures parent != null ==> SupportedProtocols() == keys + Without(parent.SupportedProtocols(), keys)
    {
      DedupOfNoDup(keys);
      if parent == null {
        assert keys + [] == keys;
      } else {
        var inherited := parent.SupportedProtocols();
        DedupAppend(keys, inherited);
        DedupOfNoDup(inherited);
      }
    }

    /** A value is matched against this resolver's own names first; only when
        none of them tags it do the parent's names decide. */
    lemma GetProtocolOwnFirst(value: string)
      requires Valid()
      ensures FirstMatch(keys, value).Some? ==> GetProtocol(value) == FirstMatch(keys, value)
      ensures FirstMatch(keys, value).None? ==>
                GetProtocol(value) == if parent == null then None else parent.GetProtocol(value)
    {
      var inherited := if parent == null then [] else parent.SupportedProtocols();
      FirstMatchDedup(keys + inherited, value);
      FirstMatchAppend(keys, inherited, value);
    }

    /** When no supported name contains ':', a value tagged with a supported
        name is matched to that name, whatever the registration order. */
    lemma GetProtocolUnique(value: string, p: string)
      requires Valid()
      requires forall q | q in SupportedProtocols() :: ':' !in q
      requires p in SupportedProtocols() && Tagged(value, p)
      ensures GetProtocol(value) == Some(p)
    {
      MatchIsOrderIndependent(SupportedProtocols(), value, p);
    }

    /** The handlers of a tagged string receive exactly the text after the tag. */
    lemma ResolvesContentAfterTag(p: string, content: string, file: Arg)
      requires Valid() && p != ""
      requires forall q | q in SupportedProtocols() :: ':' !in q
      requires p in SupportedProtocols()
      ensures ResolveString(p + ":" + content, file)
           == RunStack(p, Impls(GetHandlers(p)), content, file)
    {
      var s := p + ":" + content;
      assert s[..|p + ":"|] == p + ":";
      GetProtocolUnique(s, p);
      assert s[|p| + 1..] == content;
    }

    /** A child's stack runs after its parent's: the parent's handlers see the
        content first and the child's own handlers continue from their result. */
    lemma ChildRunsAfterParent(p: string, content: string, file: Arg)
      requires Valid() && parent != null
      requires parent.GetHandlers(p) != []
      ensures RunStack(p, Impls(GetHandlers(p)), content, file)
           == Then(RunStack(p, Impls(parent.GetHandlers(p)), content, file), Impls(StackOf(stacks, p)))
    {
      ImplsAppend(parent.GetHandlers(p), StackOf(stacks, p));
      RunStackAppend(p, Impls(parent.GetHandlers(p)), Impls(StackOf(stacks, p)), content, file);
    }

    /** A name that is still supported but whose assembled stack is empty (every
        handler unregistered) makes resolution of its strings fail. */
    lemma EmptyStackFails(s: string, p: string, file: Arg)
      requires Valid()
      requires GetProtocol(s) == Some(p) && p != "" && GetHandlers(p) == []
      ensures ResolveString(s, file) == Err(NoHandlers(p))
    {
    }

    /** An array resolves exactly when every member does; the result keeps the
        members' order, and a failure is the failure of some member. */
    lemma {:induction false} ItemsShape(items: seq<Value>, file: Arg)
      requires Valid()
      ensures ResolveItems(items, file).Ok? <==> forall i | 0 <= i < |items| :: ResolveValue(items[i], file).Ok?
      ensures ResolveItems(items, file).Ok? ==>
                var rs := ResolveItems(items, file).value;
                |rs| == |items| && forall i | 0 <= i < |items| :: ResolveValue(items[i], file) == Ok(rs[i])
      ensures ResolveItems(items, file).Err? ==>
                exists i | 0 <= i < |items| :: ResolveValue(items[i], file) == Err(ResolveItems(items, file).error)
      decreases items
    {
      hide ResolveValue;
      if items != [] {
        ItemsShape(items[1..], file);
        assert forall i | 1 <= i < |items| :: items[i] == items[1..][i - 1];
        match ResolveValue(items[0], file)
        case Err(e) =>
        case Ok(x) =>
          match ResolveItems(items[1..], file)
          case Err(e) =>
            var j :| 0 <= j < |items[1..]| && ResolveValue(items[1..][j], file) == Err(e);
            assert ResolveValue(items[j + 1], file) == Err(e);
          case Ok(rest) =>
            assert ResolveItems(items, file) == Ok([x] + rest);
      }
    }

    /** An object resolves exactly when every value does; the result keeps every
        key in place, and a failure is the failure of some value. */
    lemma {:induction false} FieldsShape(fields: seq<Field>, file: Arg)
      requires Valid()
      ensures ResolveFields(fields, file).Ok? <==> forall i | 0 <= i < |fields| :: ResolveValue(fields[i].value, file).Ok?
      ensures ResolveFields(fields, file).Ok? ==>
                var rs := ResolveFields(fields, file).value;
                && |rs| == |fields|
                && forall i | 0 <= i < |fields| ::
                     rs[i].key == fields[i].key && ResolveValue(fields[i].value, file) == Ok(rs[i].value)
      ensures ResolveFields(fields, file).Err? ==>
                exists i | 0 <= i < |fields| :: ResolveValue(fields[i].value, file) == Err(ResolveFields(fields, file).error)
      decreases fields
    {
      hide ResolveValue;
      if fields != [] {
        FieldsShape(fields[1..], file);
        assert forall i | 1 <= i < |fields| :: fields[i] == fields[1..][i - 1];
        match ResolveValue(fields[0].value, file)
        case Err(e) =>
        case Ok(x) =>
          match ResolveFields(fields[1..], file)
          case Err(e) =>
            var j :| 0 <= j < |fields[1..]| && ResolveValue(fields[1..][j].value, file) == Err(e);
            assert ResolveValue(fields[j + 1].value, file) == Err(e);
          case Ok(rest) =>
            assert ResolveFields(fields, file) == Ok([Field(fields[0].key, x)] + rest);
      }
    }

    /** No string of `data` is tagged with a name that has handlers to run:
        every string is either untagged or tagged with the empty name. */
    predicate Untouched(data: Value)
      reads Repr
      requires Valid()
      decreases data
    {
      match data
      case Str(s) => GetProtocol(s).None? || GetProtocol(s) == Some("")
      case Arr(items) => forall i | 0 <= i < |items| :: Untouched(items[i])
      case Obj(fields) => forall i | 0 <= i < |fields| :: Untouched(fields[i].value)
      case Leaf(_) => true
    }

    /** Data without tagged strings comes back as an equal copy. */
    lemma {:induction false} UntouchedIsCopy(data: Value, file: Arg)
      requires Valid() && Untouched(data)
      ensures ResolveValue(data, file) == Ok(data)
      decreases data, 1
    {
      match data
      case Str(s) =>
      case Leaf(_) =>
      case Arr(items) => UntouchedItems(items, file);
      case Obj(fields) => UntouchedFields(fields, file);
    }

    lemma {:induction false} UntouchedItems(items: seq<Value>, file: Arg)
      requires Valid() && forall i | 0 <= i < |items| :: Untouched(items[i])
      ensures ResolveItems(items, file) == Ok(items)
      decreases items, 0
    {
      if items != [] {
        UntouchedIsCopy(items[0], file);
        UntouchedItems(items[1..], file);
        assert items == [items[0]] + items[1..];
      }
    }

    lemma {:induction false} UntouchedFields(fields: seq<Field>, file: Arg)
      requires Valid() && forall i | 0 <= i < |fields| :: Untouched(fields[i].value)
      ensures ResolveFields(fields, file) == Ok(fields)
      decreases fields, 0
    {
      if fields != [] {
        UntouchedIsCopy(fields[0].value, file);
        UntouchedFields(fields[1..], file);
        assert fields == [Field(fields[0].key, fields[0].value)] + fields[1..];
      }
    }

    /** A function passed as filename with no callback is the callback, and the
        filename is then null. */
    lemma CallbackInFilenamePosition(data: Value, fn: nat, callback: Arg)
      requires Valid() && Falsy(callback)
      ensures Resolve(data, Func(fn), callback) == Resolve(data, Null, Func(fn))
    {
    }

    /** The callback receives exactly the outcome the promise would settle with:
        `(null, data)` on success, `(err)` on failure. */
    lemma CallbackMatchesPromise(data: Value, file: Arg, fn: nat)
      requires Valid() && !file.Func?
      ensures Resolve(data, file, Undefined).Returned? || Resolve(data, file, Undefined).Thrown?
      ensures Resolve(data, file, Func(fn)).Thrown? == Resolve(data, file, Undefined).Thrown?
      ensures Resolve(data, file, Func(fn)).Thrown? ==> Resolve(data, file, Func(fn)) == Resolve(data, file, Undefined)
      ensures !Resolve(data, file, Func(fn)).Thrown? ==>
                Resolve(data, file, Func(fn)).Called? && Resolve(data, file, Func(fn)).callback == fn
      ensures forall v :: Resolve(data, file, Undefined) == Returned(Ok(v))
                  <==> Resolve(data, file, Func(fn)) == Called(fn, None, Some(v))
      ensures forall e :: Resolve(data, file, Undefined) == Returned(Err(e))
                  <==> Resolve(data, file, Func(fn)) == Called(fn, Some(e), None)
    {
      if ThrowsAtOnce(data) {
        return;
      }
      match ResolveValue(data, file)
      case Ok(v) =>
        assert Resolve(data, file, Undefined) == Returned(Ok(v));
        assert Resolve(data, file, Func(fn)) == Called(fn, None, Some(v));
      case Err(e) =>
        assert Resolve(data, file, Undefined) == Returned(Err(e));
        assert Resolve(data, file, Func(fn)) == Called(fn, Some(e), None);
    }

    /** An emptied name throws out of `resolve` itself when the string is the
        whole input, but only rejects the promise when the string is nested
        in an array, whose members run inside the parallel fan-out. */
    lemma EmptyStackThrowsOnlyAtTop(s: string, p: string, file: Arg, callback: Arg)
      requires Valid() && GetProtocol(s) == Some(p) && p != "" && GetHandlers(p) == []
      ensures Resolve(Str(s), file, callback) == Thrown(NoHandlers(p))
      ensures !file.Func? ==> Resolve(Arr([Str(s)]), file, Undefined) == Returned(Err(NoHandlers(p)))
    {
      assert ThrowsAtOnce(Str(s));
      assert !ThrowsAtOnce(Arr([Str(s)]));
      NestedEmptyStack(s, p, file);
    }

    /** The array's fan-out fails with its only member's error. */
    lemma NestedEmptyStack(s: string, p: string, file: Arg)
      requires Valid() && GetProtocol(s) == Some(p) && p != "" && GetHandlers(p) == []
      ensures ResolveValue(Arr([Str(s)]), file) == Err(NoHandlers(p))
    {
      EmptyStackFails(s, p, file);
      assert ResolveValue(Str(s), file) == Err(NoHandlers(p));
      assert ResolveItems([Str(s)], file) == Err(NoHandlers(p));
    }
  }

  /** The `unuse` closure returned by `use`; `removed` is the closure's flag. */
  class Unregister {
    const owner: Resolver
    const protocol: string
    const id: nat
    var removed: bool

    constructor (owner: Resolver, protocol: string, id: nat)
      ensures this.owner == owner && this.protocol == protocol && this.id == id && !removed
    {
      this.owner := owner;
      this.protocol := protocol;
      this.id := id;
      removed := false;
    }

    /** The first call splices this registration's own entry out of its stack
        and returns its implementation; every later call returns undefined
        and changes nothing. The name stays registered, its stack possibly empty. */
    method Call() returns (r: Option<Impl>)
      requires this in owner.tokens && owner.Registry()
      modifies this, owner`stacks
      ensures owner.Registry() && removed
      ensures old(removed) ==> r.None? && owner.stacks == old(owner.stacks)
      ensures !old(removed) ==>
                && protocol in old(owner.stacks)
                && var s := old(owner.stacks[protocol]);
                   var i := IndexOfId(s, id);
                   && 0 <= i < |s|
                   && r == Some(s[i].impl)
                   && owner.stacks == old(owner.stacks)[protocol := s[..i] + s[i + 1..]]
    {
      if removed {
        return None;
      }
      hide RegistryOf, RegistryExcept;
      var s := owner.stacks[protocol];
      var i := IndexOfId(s, id);
      RegistryPop(owner, owner.keys, owner.stacks, owner.nextId, owner.tokens, this);
      removed := true;
      r := Some(s[i].impl);
      owner.stacks := owner.stacks[protocol := s[..i] + s[i + 1..]];
      RegistrySpent(owner, owner.keys, owner.stacks, owner.nextId, owner.tokens, this);
    }
  }

  /** The registry invariant of `owner`, over given field values. */
  ghost predicate RegistryOf(owner: Resolver, keys: seq<string>, stacks: map<string, seq<Entry>>,
                             nextId: nat, tokens: set<Unregister>)
    reads tokens
  {
    && (forall p :: p in stacks <==> p in keys)
    && NoDup(keys)
    && (forall p | p in stacks :: IdsBelow(stacks[p], nextId) && DistinctIds(stacks[p]))
    && (forall u | u in tokens ::
          && u.owner == owner && u.id < nextId && u.protocol in stacks
          && (u.removed <==> !Present(stacks[u.protocol], u.id)))
    && (forall u, w | u in tokens && w in tokens && u != w :: u.id != w.id)
  }

  /** The registry invariant, except for what it says of the closure `u`. */
  ghost predicate RegistryExcept(owner: Resolver, keys: seq<string>, stacks: map<string, seq<Entry>>,
                                 nextId: nat, tokens: set<Unregister>, u: Unregister)
    reads tokens - {u}
  {
    && (forall p :: p in stacks <==> p in keys)
    && NoDup(keys)
    && (forall p | p in stacks :: IdsBelow(stacks[p], nextId) && DistinctIds(stacks[p]))
    && (forall w | w in tokens && w != u ::
          && w.owner == owner && w.id < nextId && w.protocol in stacks
          && (w.removed <==> !Present(stacks[w.protocol], w.id)))
    && (forall v, w | v in tokens && w in tokens && v != w :: v.id != w.id)
  }

  /** Splicing a live closure's entry out of its stack keeps the invariant of
      every other closure, and leaves that closure's identity absent. */
  lemma RegistryPop(owner: Resolver, keys: seq<string>, stacks: map<string, seq<Entry>>,
                    nextId: nat, tokens: set<Unregister>, u: Unregister)
    requires RegistryOf(owner, keys, stacks, nextId, tokens) && u in tokens && !u.removed
    ensures u.protocol in stacks
    ensures var s := stacks[u.protocol];
            var i := IndexOfId(s, u.id);
            && 0 <= i < |s|
            && RegistryExcept(owner, keys, stacks[u.protocol := s[..i] + s[i + 1..]], nextId, tokens, u)
            && !Present(s[..i] + s[i + 1..], u.id)
  {
    var p := u.protocol;
    var s := stacks[p];
    var i := IndexOfId(s, u.id);
    RemoveEntry(s, i, nextId);
    var s' := s[..i] + s[i + 1..];
    assert forall w | w in tokens && w.protocol == p && w != u :: Present(s', w.id) <==> Present(s, w.id);
  }

  /** A spent closure whose identity is absent completes the invariant. */
  lemma RegistrySpent(owner: Resolver, keys: seq<string>, stacks: map<string, seq<Entry>>,
                      nextId: nat, tokens: set<Unregister>, u: Unregister)
    requires RegistryExcept(owner, keys, stacks, nextId, tokens, u)
    requires u in tokens && u.removed && u.owner == owner && u.id < nextId && u.protocol in stacks
    requires !Present(stacks[u.protocol], u.id)
    ensures RegistryOf(owner, keys, stacks, nextId, tokens)
  {
  }

  /** Registering one more entry, with a fresh closure, keeps the registry invariant. */
  lemma RegistryPush(owner: Resolver, keys: seq<string>, stacks: map<string, seq<Entry>>,
                     nextId: nat, tokens: set<Unregister>, u: Unregister, impl: Impl)
    requires RegistryOf(owner, keys, stacks, nextId, tokens)
    requires u !in tokens && u.owner == owner && u.id == nextId && !u.removed
    ensures var p := u.protocol;
            RegistryOf(owner,
                       if p in stacks then keys else keys + [p],
                       stacks[p := StackOf(stacks, p) + [Entry(nextId, impl)]],
                       nextId + 1, tokens + {u})
  {
    StacksPush(keys, stacks, nextId, u.protocol, impl);
    TokensPush(owner, stacks, nextId, tokens, u, impl);
  }

  /** The name and stack part of the registry invariant survives a push. */
  lemma StacksPush(keys: seq<string>, stacks: map<string, seq<Entry>>, nextId: nat, p: string, impl: Impl)
    requires forall q :: q in stacks <==> q in keys
    requires NoDup(keys)
    requires forall q | q in stacks :: IdsBelow(stacks[q], nextId) && DistinctIds(stacks[q])
    ensures var keys' := if p in stacks then keys else keys + [p];
            var stacks' := stacks[p := StackOf(stacks, p) + [Entry(nextId, impl)]];
            && (forall q :: q in stacks' <==> q in keys')
            && NoDup(keys')
            && (forall q | q in stacks' :: IdsBelow(stacks'[q], nextId + 1) && DistinctIds(stacks'[q]))
  {
    PushEntry(StackOf(stacks, p), Entry(nextId, impl));
    assert forall q | q in stacks :: IdsBelow(stacks[q], nextId + 1);
  }

  /** The closure part of the registry invariant survives a push with a fresh closure. */
  lemma TokensPush(owner: Resolver, stacks: map<string, seq<Entry>>, nextId: nat, tokens: set<Unregister>,
                   u: Unregister, impl: Impl)
    requires forall q | q in stacks :: IdsBelow(stacks[q], nextId) && DistinctIds(stacks[q])
    requires forall w | w in tokens ::
               && w.owner == owner && w.id < nextId && w.protocol in stacks
               && (w.removed <==> !Present(stacks[w.protocol], w.id))
    requires forall v, w | v in tokens && w in tokens && v != w :: v.id != w.id
    requires u !in tokens && u.owner == owner && u.id == nextId && !u.removed
    ensures var p := u.protocol;
            var stacks' := stacks[p := StackOf(stacks, p) + [Entry(nextId, impl)]];
            var tokens' := tokens + {u};
            && (forall w | w in tokens' ::
                  && w.owner == owner && w.id < nextId + 1 && w.protocol in stacks'
                  && (w.removed <==> !Present(stacks'[w.protocol], w.id)))
            && (forall v, w | v in tokens' && w in tokens' && v != w :: v.id != w.id)
  {
    var p := u.protocol;
    var s := StackOf(stacks, p);
    PushEntry(s, Entry(nextId, impl));
    assert forall w | w in tokens && w.protocol == p :: Present(s + [Entry(nextId, impl)], w.id) <==> Present(s, w.id);
  }

  /** The stacks after registering `pairs` in order, identities from `firstId` on. */
  function PushAll(stacks: map<string, seq<Entry>>, pairs: seq<(string, Impl)>, firstId: nat): map<string, seq<Entry>>
    decreases |pairs|
  {
    if pairs == [] then stacks
    else
      var before := PushAll(stacks, pairs[..|pairs| - 1], firstId);
      var (name, impl) := pairs[|pairs| - 1];
      before[name := StackOf(before, name) + [Entry(firstId + |pairs| - 1, impl)]]
  }

  /** The names after registering `pairs` in order: each new name is appended once. */
  function AddNames(keys: seq<string>, pairs: seq<(string, Impl)>): seq<string>
    decreases |pairs|
  {
    if pairs == [] then keys
    else
      var before := AddNames(keys, pairs[..|pairs| - 1]);
      var name := pairs[|pairs| - 1].0;
      if name in before then before else before + [name]
  }

  lemma PushAllSnoc(stacks: map<string, seq<Entry>>, pairs: seq<(string, Impl)>, name: string, impl: Impl,
                    firstId: nat, id: nat, before: map<string, seq<Entry>>, after: map<string, seq<Entry>>)
    requires before == PushAll(stacks, pairs, firstId) && id == firstId + |pairs|
    requires after == before[name := StackOf(before, name) + [Entry(id, impl)]]
    ensures after == PushAll(stacks, pairs + [(name, impl)], firstId)
  {
    assert (pairs + [(name, impl)])[..|pairs|] == pairs;
  }

  lemma AddNamesSnoc(keys: seq<string>, pairs: seq<(string, Impl)>, name: string, impl: Impl,
                     before: seq<string>, after: seq<string>)
    requires before == AddNames(keys, pairs)
    requires after == if name in before then before else before + [name]
    ensures after == AddNames(keys, pairs + [(name, impl)])
  {
    assert (pairs + [(name, impl)])[..|pairs|] == pairs;
  }

  /** `unuses[i]` is the closure issued for `pairs[i]`, with identity `firstId + i`. */
  predicate Issued(unuses: seq<Unregister>, owner: Resolver, pairs: seq<(string, Impl)>, firstId: nat) {
    && |unuses| == |pairs|
    && forall i | 0 <= i < |pairs| ::
         unuses[i].owner == owner && unuses[i].protocol == pairs[i].0 && unuses[i].id == firstId + i
  }

  lemma IssuedSnoc(unuses: seq<Unregister>, owner: Resolver, pairs: seq<(string, Impl)>, firstId: nat,
                   name: string, impl: Impl, u: Unregister)
    requires Issued(unuses, owner, pairs, firstId)
    requires u.owner == owner && u.protocol == name && u.id == firstId + |pairs|
    ensures Issued(unuses + [u], owner, pairs + [(name, impl)], firstId)
  {
  }
}
