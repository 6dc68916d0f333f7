# ts-container: a verified model of the dependency-injection container

The repository is one class, `Container` (`src/Container/Container.ts`).
It is a dependency-injection registry made of two maps. `_definitions` maps a
string key to a factory, called a "prototype". `_elements` maps a key to the
instance built from that factory, which is memoized. The class has two
operations:

- `defineElement` checks that the value has an own `prototype` property, then
  registers it. An earlier definition of the same key is silently replaced.
- `getElement` fails on an unknown key. It returns the memoized instance when
  there is one. Otherwise it builds an instance with `new`, memoizes it and
  returns it.

On the static side, `getInstance` creates one process-wide container lazily,
and `Container.get` and `Container.define` forward to it.

The model has three modules:

- `Host` (`host.dfy`) stands in for the JavaScript values the code inspects.
  A value is `undefined`, `null`, a primitive, or an object. An object has an
  identity, its own property names, and a flag that says whether it is a
  constructor. Instances are Dafny objects (class `Instance`), so "the same
  instance" means reference equality.
- `Registry` (`registry.dfy`) is the container's state as a value (`State`).
  It defines `defineElement` and `getElement` as functions (`Define`, `Get`),
  sequences of calls (`Run`), and the lemmas about them.
- `Containers` (`container.dfy`) is the class as the program has it.
  `Container` has the two map fields, which `DefineElement` and `GetElement`
  update in place. Each method's postcondition ties the pair (result, new
  state) to `Registry.Define` or `Registry.Get` applied to the old state.
  `Statics` holds the static field `instance`, plus `GetInstance` and the two
  forwarding static methods. Dafny has no mutable static fields, so this
  static state is an explicit object.

What `new definition()` does is decided by the definition's own constructor,
which is code the model cannot see. So it is an input. `GetElement` takes
`thrown: Option<Value>`: `None` means the constructor completes, and
`Some(v)` means it throws `v`. `Registry.Get` takes a `Construction`, either
the object built or the value thrown.

Where the code behaves differently from a plain reading of its description,
the model follows the code:

- `defineElement(k, null)` and `defineElement(k, undefined)` do not raise
  `InvalidPrototypeProvided`. `prototype.hasOwnProperty` is read from
  `null`/`undefined` at line 35, and that throws a `TypeError`.
- A value that has an own `prototype` property but is not a constructor is
  accepted by `defineElement`. For example, `{ prototype: {} }`. The first
  `getElement` on its key then fails with a `TypeError` from `new` at line 53,
  and nothing is memoized.

## Model

| member | source | states |
|---|---|---|
| Registry.Empty | src/Container/Container.ts:28-31 | a new container has no definitions and no elements, which satisfies the invariant |
| Registry.Define | src/Container/Container.ts:33-39 | success exactly when the value has an own `prototype`; otherwise a `TypeError` for `null`/`undefined` or `InvalidPrototypeProvided`, and no state change; on success the key maps to the value and every other definition stays the same; elements never change; the invariant is preserved |
| Registry.Get | src/Container/Container.ts:41-58 | `NonExistingElementError` exactly for undefined keys; a memoized key returns its instance and changes nothing; otherwise (`TypeError` for a non-constructor, the thrown value when the constructor throws) no change, or the built object is returned and memoized under the key; definitions never change; no existing element is removed or replaced; the invariant is preserved |
| Registry.Run | src/Container/Container.ts:33-58 | any sequence of calls keeps the invariant (elements only for defined keys, definitions only of checked values) and never removes a definition |
| Registry.RunAppend | src/Container/Container.ts:33-58 | running two call sequences one after the other equals running their concatenation |
| Registry.MemoizedStays | src/Container/Container.ts:38-55 | a memoized instance is still memoized, unchanged, after any later calls, including redefinitions of its key |
| Registry.MemoizedIsReturned | src/Container/Container.ts:46-48 | once a key has an instance, a `getElement` after any sequence of calls returns that same instance and changes nothing |
| Registry.SecondGetReturnsSameInstance | src/Container/Container.ts:52-57 | after a successful `getElement(k)`, the next `getElement(k)` returns the identical instance and changes nothing |
| Registry.RedefinitionKeepsInstance | src/Container/Container.ts:38-47 | redefining a key that has an instance replaces its definition, yet the next `getElement` returns the old instance |
| Registry.FailedCallLeavesNoTrace | src/Container/Container.ts:35-53 | a failed `defineElement` or `getElement` in the middle of any call sequence leaves the same final state as if it had not been made |
| Registry.ConstructionIsRetried | src/Container/Container.ts:53-55 | when the constructor throws, the key stays without an element, and the next `getElement` constructs again and memoizes the new object |
| Registry.NeverDefinedFails | src/Container/Container.ts:42-44 | a key that no call in a sequence defines stays undefined, and `getElement` on it then fails with `NonExistingElementError` and changes nothing |
| Registry.ElementComesFromGet | src/Container/Container.ts:52-55 | a key gains an element only through a `getElement` of that key whose construction completed, and the memoized instance is the object that construction built |
| Registry.MessageIdentifiesError | src/Container/Container.ts:36-43 | the messages of `InvalidPrototypeProvided` and `NonExistingElementError` are told apart, and the latter's message determines the missing key |
| Containers.Container.constructor | src/Container/Container.ts:28-31 | both maps start empty and the object invariant holds |
| Containers.Container.DefineElement | src/Container/Container.ts:33-39 | result and new maps are exactly `Registry.Define` of the old maps; the object invariant is kept |
| Containers.Container.GetElement | src/Container/Container.ts:41-58 | result and new maps are exactly `Registry.Get` of the old maps under the construction observed; a newly built instance is a fresh object made from the key's definition; a memoized one is the old element; when the key is defined, not yet memoized and its definition is a constructor, the call succeeds exactly when the constructor completes, and a throw of `v` returns `Thrown(v)`; distinct keys keep distinct instances |
| Containers.Statics.constructor | src/Container/Container.ts:24 | the static `instance` starts as `null` |
| Containers.Statics.GetInstance | src/Container/Container.ts:8-14 | creates a fresh, empty container only when `instance` is `null`; otherwise returns the same reference; the registry's state does not change |
| Containers.Statics.Get | src/Container/Container.ts:16-18 | result and new state of the process-wide container are `Registry.Get` of its old state, which is empty if it did not exist yet; as for `GetElement`, whether the constructor completes or throws decides success or failure of a construction, and a newly built instance is a fresh object made from the key's definition |
| Containers.Statics.Define | src/Container/Container.ts:20-22 | result and new state of the process-wide container are `Registry.Define` of its old state, which is empty if it did not exist yet |
| Containers.GetInstanceTwice | src/Container/Container.ts:8-14 | two calls of `getInstance` return the same container |

## Left out

- Other ways `hasOwnProperty` can be reached are not modelled: an object that overrides `hasOwnProperty`, an object without `Object.prototype` in its chain, and proxies. An object's own keys are taken as given.
- Containers.Container.GetElement: a constructor that explicitly returns another object is not modelled. The model assumes `new` yields a freshly allocated instance. This is what gives "distinct keys hold distinct instances".
- Bound functions are constructors without an own `prototype`. The model represents them like any other object, by their own keys, so `defineElement` rejects them as line 35 does.
- The generic type parameter `T` and the `any` casts have no run-time behaviour and are left out. Instances have the single type `Instance`.
- The error classes in `./errors/` are not part of this model. Only the two messages the container passes to them are kept (`Registry.Message`).
- Containers.Container.GetElement: re-entrant calls are not modelled. The constructor run by `new definition()` at line 53 can call back into the same container (`Container.get`, `Container.define`) before line 55 runs. Then `getElement` can memoize other keys, change `_definitions`, and even overwrite at line 55 an instance that a nested `getElement` of the same key already memoized and returned. The contracts of `Registry.Get` ("definitions never change", "no element is removed or replaced"), `Registry.MemoizedStays`, `Registry.MemoizedIsReturned` and of the two `Get` methods assume the constructor makes no call into the container.
- Other side effects of the constructor are left out. The value it throws is only propagated.
- Concurrency is not modelled: the code assumes a single thread of control.
