# Store injection for Inferno components

This project models `inject`, the higher-order component of Inferno's MobX bindings
(`src/mobx/inject.ts`). `inject` wraps a component so that every render receives
named stores from the ambient store registry (`context.mobxStores`) as props.
The model covers three parts:

- `grabStoresByName`. For each requested store name, in order, it skips names the
  caller already passes as props. It throws a "Store ... is not available" error
  for a name the registry lacks. Otherwise it writes the store into the props
  object in place, and it returns that same object.
- The props assembly in the injector's `render`. It copies the caller's own props
  and calls the grab function with the registry (an empty one when no Provider
  supplied it). A falsy result counts as an empty object. Every key of the result
  is written over the copy, and last the `ref` callback is attached.
- The argument dispatch of `inject`. A function first argument is the grab
  function. Otherwise all arguments are store names.

Everything is in one module, `Inject` (`inject.dfy`). Props objects that the
source mutates are `PropsBag` objects with a `map<string, V>` field, where `V`
is an opaque prop value. This keeps one aliasing fact visible:
`grabStoresByName` returns the very bag it was given, so render's overwrite loop
copies that bag onto itself. `GrabByName` is the specification function for
`grabStoresByName`. It records the props bag's contents after a failure too,
because the names before the missing one have already been written.
`AssembleProps` is the specification of render. A user-supplied grab function is
an uninterpreted total function. The rendered element is the wrapped component
paired with its final props.

The source's comment `// Prefer props over stores` (src/mobx/inject.ts:66)
states that caller props beat injected stores, but only `grabStoresByName`
enforces it. With a custom grab function, every key that
function returns overwrites the caller's prop of the same name (see
`RenderCustomOverridesProps`). Also, `ref` always overwrites the caller's `ref`,
and it also overwrites a store injected under the name `ref`.

## Model

| member | source | states |
|---|---|---|
| `Inject.InjectError.Message` | src/mobx/inject.ts:72-75 | the error message quotes the missing store's name after a fixed prefix |
| `Inject.MessageIdentifiesStore` | src/mobx/inject.ts:72-75 | two equal messages name the same store, so the message identifies the missing store |
| `Inject.GrabByName` | src/mobx/inject.ts:63-81 | caller props are never overwritten; each added key is a requested name whose value comes from the registry; a failure names a requested store that is in neither props nor the registry |
| `Inject.InjectedCoversNames` | src/mobx/inject.ts:64-79 | after a successful injection every requested name is a key of the props |
| `Inject.GrabByNameSucceedsIff` | src/mobx/inject.ts:64-79 | injection succeeds if and only if every requested name is in props or in the registry |
| `Inject.GrabByNameInjected` | src/mobx/inject.ts:63-80 | on success, the keys are exactly the caller's keys plus the requested names; caller values are kept; every other requested name maps to its store |
| `Inject.GrabByNameConcat` | src/mobx/inject.ts:64-79 | names are handled in list order: injecting `a + b` means injecting `a`, then injecting `b` into the result, and a failure in `a` stops everything |
| `Inject.FirstMissingIsReported` | src/mobx/inject.ts:64-79 | the first name missing from both props and registry is the one reported, and the props already hold the injection of every name before it |
| `Inject.FailureIsFirstMissing` | src/mobx/inject.ts:64-79 | conversely, every failure reports such a first missing name |
| `Inject.PresentNamesAreSkipped` | src/mobx/inject.ts:66-69 | when every requested name is already a prop, the props come back unchanged |
| `Inject.GrabByNameIdempotent` | src/mobx/inject.ts:67-78 | injecting the same names again into a successful result changes nothing |
| `Inject.GrabStoresByName` | src/mobx/inject.ts:63-81 | the loop mutates the props bag to exactly `GrabByName`'s contents, also after a failure; it returns the same bag on success and the missing store's error otherwise |
| `Inject.AssembleProps` | src/mobx/inject.ts:17-29 | the final props of a successful render keep every caller key and always map `ref` to the injector's callback |
| `Inject.RenderByNamesPrefersProps` | src/mobx/inject.ts:17-29 | by-name render succeeds when every name is available; keys are the caller's, the names and `ref`; caller values win; other names take the registry's value |
| `Inject.RenderByNamesFails` | src/mobx/inject.ts:23 | by-name render fails with the first store missing from both props and registry |
| `Inject.RenderByNamesFailsOnlyIfMissing` | src/mobx/inject.ts:23 | conversely, by-name render fails only when some requested name is in neither props nor the registry |
| `Inject.RenderCustomOverridesProps` | src/mobx/inject.ts:23-26 | with a custom grab function, every returned key except `ref` overwrites the caller's prop; caller keys it does not return are kept |
| `Inject.FalsyGrabResultIsEmpty` | src/mobx/inject.ts:23 | a falsy grab result adds nothing: the final props are the caller's props plus `ref` |
| `Inject.MissingRegistryIsEmpty` | src/mobx/inject.ts:23 | an absent registry acts as an empty one: by-name render then succeeds exactly when every name is a caller prop, and only adds `ref` |
| `Inject.CopyOwnProps` | src/mobx/inject.ts:17-22 | the key-by-key copy loop yields a fresh bag equal to the caller's props |
| `Inject.Overwrite` | src/mobx/inject.ts:24-26 | the overwrite loop leaves the target equal to its old contents overwritten by the source's; when source and target are one bag, it is a no-op |
| `Inject.Injector.constructor` | src/mobx/inject.ts:13-15 | the injector keeps the grab function and component, and takes the component's name as its display name |
| `Inject.Injector.Render` | src/mobx/inject.ts:16-32 | render returns the wrapped component applied to `AssembleProps`'s props, or throws that specification's missing-store error |
| `Inject.InjectGrab` | src/mobx/inject.ts:89-99 | a function first argument becomes the grab function; otherwise the grab is by names, with all arguments as names in order |
| `Inject.InjectComponent` | src/mobx/inject.ts:89-101 | applying `inject(...)` to a component yields a fresh injector for that component and callback; its grab function is the first argument when that is a function, and otherwise the store names of all arguments in order |

## Left out

- `hoistStatics` (line 37) is a call into an external library, so the copied statics are not modelled.
- `injectStaticWarnings` (lines 42-61) is not modelled. It depends on `process.env`, accessor interception and `console.warn`, and computes no result.
- The `contextTypes` declaration (line 35) is not modelled. The context, with its optional registry, is passed to render as an explicit parameter.
- `createClass` and `createElement` (lines 14, 31) are framework calls. The rendered element is modelled as the component paired with its final props.
- The body of the `ref` callback (lines 27-29) runs later, inside the framework lifecycle. The model only places a given callback value under `ref`, so `wrappedInstance` is not modelled.
- Props and the registry are finite maps, so only own keys exist. The prototype-chain behaviour of `in` and `hasOwnProperty` (lines 19, 67, 71) is not modelled. Maps are unordered, so the key order of the final props object is not modelled.
- A custom grab function is a pure total function of the registry, the props copy and the context. The model does not capture it mutating the props copy, throwing, or returning the props object itself.
- `Inject.InjectGrab`: the by-names path requires every argument to be a string. JavaScript would coerce other values to property keys, which the model does not capture.
- `Inject.InjectComponent`: the same requirement as `Inject.InjectGrab`, for the same reason.
