/**
 * The dependency-injection container as the program has it: an object whose
 * two map fields are updated in place, and the static side of the class,
 * which holds the lazily created process-wide instance.
 */
module Containers {
  import opened Host
  import opened Registry

  /**
   * The construction a `getElement` call observed: the object it built when
   * it returned one, otherwise what the constructor threw (any value stands
   * in when the constructor was never invoked).
   */
  function Observed(r: Result<Instance>, thrown: Option<Value>): Construction
  {
    if r.Ok? then Constructed(r.value)
    else match thrown
      case Some(v) => Threw(v)
      case None => Threw(Undefined)
  }

  class Container {
    var definitions: map<Key, Value>
    var elements: map<Key, Instance>

    function Model(): State
      reads this
    {
      State(definitions, elements)
    }

    /**
     * The invariant of the maps; besides, distinct keys hold distinct
     * instances, since each instance is allocated by its own construction.
     */
    ghost predicate Valid()
      reads this
    {
      && Registry.Valid(Model())
      && forall j, k :: j in elements && k in elements && j != k ==> elements[j] != elements[k]
    }

    constructor ()
      ensures Valid() && Model() == Empty()
    {
      definitions := map[];
      elements := map[];
    }

    /**
     * Register `prototype` under `element` once it is shown to have an own
     * `prototype` property; a failed check changes nothing.
     */
    method DefineElement(element: Key, prototype: Value) returns (r: Result<()>)
      requires Valid()
      modifies this
      ensures Valid()
      ensures Outcome(r, Model()) == Define(old(Model()), element, prototype)
    {
      if IsNullish(prototype) {
        return Err(TypeError);
      }
      if !HasOwnPrototype(prototype) {
        return Err(InvalidPrototypeProvided);
      }
      definitions := definitions[element := prototype];
      r := Ok(());
    }

    /**
     * Return the instance memoized for `element`, or build one from its
     * definition, memoize it and return it. `thrown` is what the
     * definition's constructor does if it is invoked: `None` when it
     * completes, `Some(v)` when it throws `v`.
     */
    method GetElement(element: Key, thrown: Option<Value>) returns (r: Result<Instance>)
      requires Valid()
      modifies this
      ensures Valid()
      ensures Outcome(r, Model()) == Get(old(Model()), element, Observed(r, thrown))
      ensures r.Ok? && element !in old(elements) ==>
                fresh(r.value) && r.value.definition == definitions[element]
      ensures r.Ok? && element in old(elements) ==> r.value == old(elements[element])
      ensures element in old(definitions) && element !in old(elements) && IsConstructor(old(definitions)[element]) ==>
                && (r.Ok? <==> thrown.None?)
                && (thrown.Some? ==> r == Err(Thrown(thrown.value)))
    {
      if element !in definitions {
        return Err(NonExistingElementError(element));
      }
      if element in elements {
        return Ok(elements[element]);
      }
      var definition := definitions[element];
      if !IsConstructor(definition) {
        return Err(TypeError);
      }
      if thrown.Some? {
        return Err(Thrown(thrown.value));
      }
      var instance := new Instance(definition);
      elements := elements[element := instance];
      r := Ok(instance);
    }
  }

  /** The static side of `Container`: the `instance` field and the static methods. */
  class Statics {
    var instance: Container?

    ghost predicate Valid()
      reads this, instance
    {
      instance != null ==> instance.Valid()
    }

    /** The state of the process-wide container, which is empty until it exists. */
    ghost function Current(): State
      reads this, instance
    {
      if instance == null then Empty() else instance.Model()
    }

    /** The initial value of the static field: no instance yet. */
    constructor ()
      ensures Valid() && instance == null
    {
      instance := null;
    }

    /** Create the process-wide container on first use; afterwards return the same one. */
    method GetInstance() returns (c: Container)
      requires Valid()
      modifies this
      ensures Valid() && instance == c
      ensures old(instance) != null ==> c == old(instance)
      ensures old(instance) == null ==> fresh(c)
      ensures Current() == old(Current())
    {
      if instance == null {
        instance := new Container();
      }
      c := instance;
    }

    /** `Container.get`: `getElement` on the process-wide container. */
    method Get(element: Key, thrown: Option<Value>) returns (r: Result<Instance>)
      requires Valid()
      modifies this, instance
      ensures Valid() && instance != null
      ensures old(instance) != null ==> instance == old(instance)
      ensures Outcome(r, Current()) == Registry.Get(old(Current()), element, Observed(r, thrown))
      ensures r.Ok? && element !in old(Current()).elements ==>
                fresh(r.value) && r.value.definition == Current().definitions[element]
      ensures var was := old(Current());
              element in was.definitions && element !in was.elements && IsConstructor(was.definitions[element]) ==>
                && (r.Ok? <==> thrown.None?)
                && (thrown.Some? ==> r == Err(Thrown(thrown.value)))
    {
      var c := GetInstance();
      r := c.GetElement(element, thrown);
    }

    /** `Container.define`: `defineElement` on the process-wide container. */
    method Define(element: Key, prototype: Value) returns (r: Result<()>)
      requires Valid()
      modifies this, instance
      ensures Valid() && instance != null
      ensures old(instance) != null ==> instance == old(instance)
      ensures Outcome(r, Current()) == Registry.Define(old(Current()), element, prototype)
    {
      var c := GetInstance();
      r := c.DefineElement(element, prototype);
    }
  }

  /** Two calls of `getInstance` return the same container. */
  method GetInstanceTwice(statics: Statics) returns (first: Container, second: Container)
    requires statics.Valid()
    modifies statics
    ensures first == second
  {
    first := statics.GetInstance();
    second := statics.GetInstance();
  }
}
