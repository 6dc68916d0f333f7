/**
 * The container's state as a value: the map of definitions (key to factory)
 * and the map of elements (key to memoized instance), with the two
 * operations `defineElement` and `getElement` as functions from the old
 * state to a result and a new state, and sequences of such calls.
 */
module Registry {
  import opened Host

  type Key = string

  /** What the two operations can raise. */
  datatype Error =
    | InvalidPrototypeProvided
    | NonExistingElementError(element: Key)
      // raised by the host: property access on `null`/`undefined`, or `new` on a non-constructor
    | TypeError
      // whatever the factory's constructor throws, propagated unchanged
    | Thrown(value: Value)

  datatype Result<+T> = Ok(value: T) | Err(error: Error)

  /** The messages the container gives its own two errors. */
  function Message(e: Error): string
    requires e.InvalidPrototypeProvided? || e.NonExistingElementError?
  {
    match e
    case InvalidPrototypeProvided => "Provided element is not a prototype."
    case NonExistingElementError(element) => "You haven't provided instance definitions for " + element
  }

  /** The messages tell the container's errors apart, and name the missing key. */
  lemma MessageIdentifiesError(e1: Error, e2: Error)
    requires e1.InvalidPrototypeProvided? || e1.NonExistingElementError?
    requires e2.InvalidPrototypeProvided? || e2.NonExistingElementError?
    requires Message(e1) == Message(e2)
    ensures e1 == e2
  {
    var prefix := "You haven't provided instance definitions for ";
    if e1.NonExistingElementError? && e2.NonExistingElementError? {
      assert e1.element == Message(e1)[|prefix|..];
      assert e2.element == Message(e2)[|prefix|..];
    }
  }

  /**
   * What `new definition()` does when it is evaluated: it returns a new
   * object, or its constructor throws a value.
   */
  datatype Construction = Constructed(obj: Instance) | Threw(thrown: Value)

  datatype State = State(definitions: map<Key, Value>, elements: map<Key, Instance>)

  /** The result of one call together with the state after it. */
  datatype Outcome<+T> = Outcome(result: Result<T>, after: State)

  /**
   * The container's invariant: an element exists only for a defined key,
   * and only values that passed the prototype check are ever defined.
   */
  ghost predicate Valid(s: State)
  {
    && s.elements.Keys <= s.definitions.Keys
    && forall k :: k in s.definitions ==> HasOwnPrototype(s.definitions[k])
  }

  /** The state of a newly constructed container. */
  function Empty(): (s: State)
    ensures Valid(s)
    ensures |s.definitions| == 0 && |s.elements| == 0
  {
    State(map[], map[])
  }

  /**
   * `defineElement(element, prototype)`: check that `prototype` has an own
   * `prototype` property, then register it under `element`, replacing any
   * earlier definition and leaving the memoized elements alone.
   */
  function Define(s: State, element: Key, prototype: Value): (out: Outcome<()>)
    ensures out.result.Ok? <==> HasOwnPrototype(prototype)
    ensures out.result.Err? ==> out.after == s
    ensures out.result.Err? && IsNullish(prototype) ==> out.result.error == TypeError
    ensures out.result.Err? && !IsNullish(prototype) ==> out.result.error == InvalidPrototypeProvided
    ensures out.result.Ok? ==>
              && element in out.after.definitions
              && out.after.definitions[element] == prototype
              && out.after.definitions.Keys == s.definitions.Keys + {element}
              && forall j :: j in s.definitions && j != element ==> out.after.definitions[j] == s.definitions[j]
    ensures out.after.elements == s.elements
    ensures Valid(s) ==> Valid(out.after)
  {
    if IsNullish(prototype) then
      Outcome(Err(TypeError), s)
    else if !HasOwnPrototype(prototype) then
      Outcome(Err(InvalidPrototypeProvided), s)
    else
      Outcome(Ok(()), s.(definitions := s.definitions[element := prototype]))
  }

  /**
   * `getElement(element)`: fail on an undefined key, return the memoized
   * instance when there is one, and otherwise construct an instance from the
   * definition (as `construction` says), memoize it and return it. Only a
   * construction that completes changes the state.
   */
  function Get(s: State, element: Key, construction: Construction): (out: Outcome<Instance>)
    ensures out.result == Err(NonExistingElementError(element)) <==> element !in s.definitions
    ensures out.result.Err? ==> out.after == s
    ensures out.after.definitions == s.definitions
    ensures element in s.definitions && element in s.elements ==> out == Outcome(Ok(s.elements[element]), s)
    ensures element in s.definitions && element !in s.elements ==>
              && (!IsConstructor(s.definitions[element]) ==> out.result == Err(TypeError))
              && (IsConstructor(s.definitions[element]) && construction.Threw? ==>
                    out.result == Err(Thrown(construction.thrown)))
              && (out.result.Ok? <==> IsConstructor(s.definitions[element]) && construction.Constructed?)
              && (out.result.Ok? ==> out.result.value == construction.obj)
    ensures out.result.Ok? ==> element in out.after.elements && out.after.elements[element] == out.result.value
    ensures out.after.elements.Keys == s.elements.Keys + (if out.result.Ok? then {element} else {})
    ensures forall j :: j in s.elements ==> j in out.after.elements && out.after.elements[j] == s.elements[j]
    ensures Valid(s) ==> Valid(out.after)
  {
    if element !in s.definitions then
      Outcome(Err(NonExistingElementError(element)), s)
    else if element in s.elements then
      Outcome(Ok(s.elements[element]), s)
    else
      var definition := s.definitions[element];
      if !IsConstructor(definition) then
        Outcome(Err(TypeError), s)
      else
        match construction
        case Threw(v) => Outcome(Err(Thrown(v)), s)
        case Constructed(obj) => Outcome(Ok(obj), s.(elements := s.elements[element := obj]))
  }

  /** One call on the container, with what its factory does if it is invoked. */
  datatype Call =
    | DefineCall(element: Key, prototype: Value)
    | GetCall(element: Key, construction: Construction)

  function Step(s: State, call: Call): State
  {
    match call
    case DefineCall(element, prototype) => Define(s, element, prototype).after
    case GetCall(element, construction) => Get(s, element, construction).after
  }

  /**
   * The state after a sequence of calls. Every sequence keeps the invariant
   * and never removes a definition.
   */
  function Run(s: State, calls: seq<Call>): (t: State)
    ensures Valid(s) ==> Valid(t)
    ensures s.definitions.Keys <= t.definitions.Keys
    decreases |calls|
  {
    if calls == [] then s else Run(Step(s, calls[0]), calls[1..])
  }

  /** Running two sequences one after the other is running their concatenation. */
  lemma {:induction false} RunAppend(s: State, a: seq<Call>, b: seq<Call>)
    ensures Run(s, a + b) == Run(Run(s, a), b)
    decreases |a|
  {
    if a != [] {
      assert (a + b)[0] == a[0];
      assert (a + b)[1..] == a[1..] + b;
      RunAppend(Step(s, a[0]), a[1..], b);
    } else {
      assert a + b == b;
    }
  }

  /** A memoized instance survives every later call, redefinitions of its key included. */
  lemma {:induction false} MemoizedStays(s: State, calls: seq<Call>, k: Key)
    requires k in s.elements
    ensures k in Run(s, calls).elements && Run(s, calls).elements[k] == s.elements[k]
    decreases |calls|
  {
    if calls != [] {
      MemoizedStays(Step(s, calls[0]), calls[1..], k);
    }
  }

  /**
   * Memoization identity: once an instance is memoized for `k`, every later
   * `getElement(k)` returns that same instance, whatever the factory would
   * do and whatever was defined in between, and changes nothing.
   */
  lemma {:induction false} MemoizedIsReturned(s: State, calls: seq<Call>, k: Key, construction: Construction)
    requires Valid(s)
    requires k in s.elements
    ensures Get(Run(s, calls), k, construction) == Outcome(Ok(s.elements[k]), Run(s, calls))
  {
    MemoizedStays(s, calls, k);
  }

  /**
   * The memoized instance returned by `getElement(k)` is returned again by an
   * immediately following `getElement(k)`.
   */
  lemma SecondGetReturnsSameInstance(s: State, k: Key, first: Construction, second: Construction)
    requires Get(s, k, first).result.Ok?
    ensures Get(Get(s, k, first).after, k, second) == Outcome(Get(s, k, first).result, Get(s, k, first).after)
  {
  }

  /**
   * Redefining a key that already has an instance replaces its definition
   * but does not evict the instance: the next `getElement` returns the old one.
   */
  lemma RedefinitionKeepsInstance(s: State, k: Key, prototype: Value, construction: Construction)
    requires k in s.elements
    requires HasOwnPrototype(prototype)
    ensures Define(s, k, prototype).after.definitions[k] == prototype
    ensures Get(Define(s, k, prototype).after, k, construction).result == Ok(s.elements[k])
  {
  }

  /**
   * A call that fails leaves no trace: running it between two sequences
   * gives the same state as leaving it out.
   */
  lemma FailedCallLeavesNoTrace(s: State, before: seq<Call>, call: Call, after: seq<Call>)
    requires call.DefineCall? ==> Define(Run(s, before), call.element, call.prototype).result.Err?
    requires call.GetCall? ==> Get(Run(s, before), call.element, call.construction).result.Err?
    ensures Run(s, before + [call] + after) == Run(s, before + after)
  {
    RunAppend(s, before + [call], after);
    RunAppend(s, before, [call]);
    RunAppend(s, before, after);
  }

  /**
   * A constructor that throws does not poison its key: the key stays
   * without an element, and the next `getElement` constructs again.
   */
  lemma ConstructionIsRetried(s: State, k: Key, thrown: Value, obj: Instance)
    requires Get(s, k, Threw(thrown)).result == Err(Thrown(thrown))
    ensures k !in Get(s, k, Threw(thrown)).after.elements
    ensures Get(Get(s, k, Threw(thrown)).after, k, Constructed(obj)) ==
            Outcome(Ok(obj), s.(elements := s.elements[k := obj]))
  {
  }

  /** A key that no call defines stays undefined, and `getElement` on it fails. */
  lemma {:induction false} NeverDefinedFails(s: State, calls: seq<Call>, k: Key, construction: Construction)
    requires k !in s.definitions
    requires forall i :: 0 <= i < |calls| ==> !(calls[i].DefineCall? && calls[i].element == k)
    ensures k !in Run(s, calls).definitions
    ensures Get(Run(s, calls), k, construction) == Outcome(Err(NonExistingElementError(k)), Run(s, calls))
    decreases |calls|
  {
    if calls != [] {
      assert !(calls[0].DefineCall? && calls[0].element == k);
      forall i | 0 <= i < |calls[1..]|
        ensures !(calls[1..][i].DefineCall? && calls[1..][i].element == k)
      {
        assert calls[1..][i] == calls[i + 1];
      }
      NeverDefinedFails(Step(s, calls[0]), calls[1..], k, construction);
    }
  }

  /**
   * An element appears only through a `getElement` of its key whose
   * construction completed, and the memoized instance is the one that
   * construction produced.
   */
  lemma {:induction false} ElementComesFromGet(s: State, calls: seq<Call>, k: Key)
    requires k !in s.elements
    requires k in Run(s, calls).elements
    ensures exists i :: 0 <= i < |calls| && calls[i].GetCall? && calls[i].element == k &&
                        calls[i].construction.Constructed? &&
                        calls[i].construction.obj == Run(s, calls).elements[k]
    decreases |calls|
  {
    var t := Step(s, calls[0]);
    assert Run(s, calls) == Run(t, calls[1..]);
    if k in t.elements {
      MemoizedStays(t, calls[1..], k);
      assert calls[0].GetCall? && calls[0].element == k && calls[0].construction.Constructed?;
    } else {
      ElementComesFromGet(t, calls[1..], k);
      var i :| 0 <= i < |calls[1..]| && calls[1..][i].GetCall? && calls[1..][i].element == k &&
               calls[1..][i].construction.Constructed? &&
               calls[1..][i].construction.obj == Run(t, calls[1..]).elements[k];
      assert calls[i + 1] == calls[1..][i];
    }
  }
}
