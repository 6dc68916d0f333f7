/**
 * The host-language values the container handles, reduced to what its code
 * observes of them: whether `hasOwnProperty('prototype')` throws or answers,
 * whether `new` can be applied, and the identity of the objects `new` returns.
 */
module Host {

  datatype Option<+T> = None | Some(value: T)

  /**
   * A JavaScript value. An object is told apart from other objects by its
   * `identity`; `ownKeys` are its own property names and `isConstructor`
   * says whether `new` may be applied to it (classes and ordinary functions
   * have both an own `prototype` and a constructor; arrow functions have
   * neither).
   */
  datatype Value =
    | Undefined
    | Null
    | Primitive(literal: string)
    | Object(identity: nat, ownKeys: set<string>, isConstructor: bool)

  /** Reading a property of `undefined` or `null` throws a TypeError. */
  predicate IsNullish(v: Value)
  {
    v.Undefined? || v.Null?
  }

  /**
   * The answer of `v.hasOwnProperty('prototype')` when it does not throw:
   * primitives own no `prototype` property, objects own the keys they list.
   */
  predicate HasOwnPrototype(v: Value)
  {
    v.Object? && "prototype" in v.ownKeys
  }

  /** `new v()` is allowed only on constructors; on anything else it throws a TypeError. */
  predicate IsConstructor(v: Value)
  {
    v.Object? && v.isConstructor
  }

  /** An object created by `new definition()`; it remembers the constructor it came from. */
  class Instance {
    const definition: Value

    constructor (definition: Value)
      ensures this.definition == definition
    {
      this.definition := definition;
    }
  }
}
