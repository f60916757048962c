/**
 * Store injection for Inferno components (the `inject` higher-order component
 * of the MobX bindings).
 *
 * Props bags and the store registry are finite maps from a property name to an
 * opaque value of type V; only own keys exist. A props bag that the source
 * mutates in place is a `PropsBag` object, so that aliasing between the bag the
 * grab function receives and the bag it returns is visible to the proofs.
 */
module Inject {

  /* ---------------------------------------------------------------------- */
  /* Values, errors and results                                             */
  /* ---------------------------------------------------------------------- */

  datatype Option<+T> = None | Some(value: T) {
    /** The value, or `default` for a falsy/absent one (the `x || {}` idiom). */
    function GetOr(default: T): T {
      match this
      case Some(v) => v
      case None => default
    }
  }

  /** The key under which render attaches the instance-capturing callback. */
  const RefKey: string := "ref"

  const MissingStorePrefix: string := "MobX observer: Store \""
  const MissingStoreSuffix: string := "\" is not available! Make sure it is provided by some Provider"

  /** The single error the injector raises. */
  datatype InjectError = MissingStore(storeName: string) {

    /** The text of the thrown Error: it quotes the missing store's name. */
    function Message(): (m: string)
      ensures |MissingStorePrefix| + |storeName| <= |m|
      ensures m[|MissingStorePrefix|..|MissingStorePrefix| + |storeName|] == storeName
      ensures m[..|MissingStorePrefix|] == MissingStorePrefix
    {
      MissingStorePrefix + storeName + MissingStoreSuffix
    }
  }

  /** Distinct missing stores give distinct messages: the message names the store. */
  lemma MessageIdentifiesStore(a: InjectError, b: InjectError)
    requires a.Message() == b.Message()
    ensures a == b
  {
    var p := |MissingStorePrefix|;
    assert |a.storeName| == |b.storeName| by {
      assert |a.Message()| == p + |a.storeName| + |MissingStoreSuffix|;
      assert |b.Message()| == p + |b.storeName| + |MissingStoreSuffix|;
    }
    assert a.storeName == a.Message()[p..p + |a.storeName|];
  }

  datatype Result<+T> = Ok(value: T) | Err(error: InjectError)

  /** The ambient render context; `mobxStores` is None when no Provider supplied one. */
  datatype Context<V> = Context(mobxStores: Option<map<string, V>>, rest: map<string, V>)

  /** A user-supplied grab function `(mobxStores, props, context) => newProps`; None is a falsy return. */
  type GrabStoresFn<!V> = (map<string, V>, map<string, V>, Context<V>) -> Option<map<string, V>>

  /** The grab function an injector uses: synthesized from store names, or supplied by the user. */
  datatype GrabFn<!V> = ByNames(names: seq<string>) | Custom(f: GrabStoresFn<V>)

  /** The wrapped component, opaque apart from its name. */
  datatype Component = Component(name: string)

  /** What render returns: the wrapped component applied to the final props. */
  datatype Element<V> = Element(component: Component, props: map<string, V>)

  /** A JavaScript props object, updated in place. */
  class PropsBag<V> {
    var entries: map<string, V>

    constructor (init: map<string, V>)
      ensures entries == init
    {
      entries := init;
    }
  }

  /* ---------------------------------------------------------------------- */
  /* grabStoresByName                                                       */
  /* ---------------------------------------------------------------------- */

  /**
   * Outcome of injecting stores by name into a props bag: `props` is the bag's
   * contents afterwards, also on failure, since names handled before the
   * missing one were already written into it.
   */
  datatype GrabOutcome<V> =
    | Injected(props: map<string, V>)
    | Missing(storeName: string, props: map<string, V>)

  /**
   * The names, handled left to right: a name already in props is skipped, a
   * name missing from the registry stops with an error, any other name is
   * copied from the registry into props.
   */
  function GrabByName<V>(names: seq<string>, stores: map<string, V>, props: map<string, V>): (r: GrabOutcome<V>)
    // caller props are never overwritten
    ensures forall k :: k in props ==> k in r.props && r.props[k] == props[k]
    // every new key is a requested name, taken from the registry
    ensures forall k :: k in r.props && k !in props ==> k in names && k in stores && r.props[k] == stores[k]
    // the failing name was requested, is not in props and not in the registry
    ensures r.Missing? ==> r.storeName in names && r.storeName !in r.props && r.storeName !in stores
    decreases |names|
  {
    if names == [] then Injected(props)
    else if names[0] in props then GrabByName(names[1..], stores, props)
    else if names[0] !in stores then Missing(names[0], props)
    else GrabByName(names[1..], stores, props[names[0] := stores[names[0]]])
  }

  /** Every requested name is a key of props or of the registry. */
  ghost predicate AllAvailable<V>(names: seq<string>, stores: map<string, V>, props: map<string, V>)
  {
    forall n :: n in names ==> n in props || n in stores
  }

  /** After a successful injection every requested name is a key of the result. */
  lemma {:induction false} InjectedCoversNames<V>(names: seq<string>, stores: map<string, V>, props: map<string, V>)
    requires GrabByName(names, stores, props).Injected?
    ensures forall n :: n in names ==> n in GrabByName(names, stores, props).props
  {
    if names != [] {
      var rest := names[1..];
      var next := if names[0] in props then props else props[names[0] := stores[names[0]]];
      InjectedCoversNames(rest, stores, next);
      forall n | n in names ensures n in GrabByName(names, stores, props).props {
        if n != names[0] {
          assert n in rest;
        }
      }
    }
  }

  /** Injection succeeds exactly when every requested name is in props or in the registry. */
  lemma {:induction false} GrabByNameSucceedsIff<V>(names: seq<string>, stores: map<string, V>, props: map<string, V>)
    ensures GrabByName(names, stores, props).Injected? <==> AllAvailable(names, stores, props)
  {
    if GrabByName(names, stores, props).Injected? {
      InjectedCoversNames(names, stores, props);
    }
  }

  /**
   * On success the result is fully determined: keys are the caller's keys
   * plus the requested names, caller values are kept, and every other
   * requested name maps to its store.
   */
  lemma {:induction false} GrabByNameInjected<V>(names: seq<string>, stores: map<string, V>, props: map<string, V>)
    requires AllAvailable(names, stores, props)
    ensures GrabByName(names, stores, props).Injected?
    ensures var r := GrabByName(names, stores, props).props;
      && (forall k :: k in r <==> k in props || k in names)
      && (forall k :: k in props ==> r[k] == props[k])
      && (forall k :: k in names && k !in props ==> r[k] == stores[k])
  {
    GrabByNameSucceedsIff(names, stores, props);
    InjectedCoversNames(names, stores, props);
  }

  /** Names are handled in list order: injecting `a + b` is injecting `a`, then `b` into the result. */
  lemma {:induction false} GrabByNameConcat<V>(a: seq<string>, b: seq<string>, stores: map<string, V>, props: map<string, V>)
    ensures GrabByName(a + b, stores, props) ==
      match GrabByName(a, stores, props)
      case Injected(m) => GrabByName(b, stores, m)
      case Missing(n, m) => Missing(n, m)
    decreases |a|
  {
    if a != [] {
      assert (a + b)[0] == a[0];
      assert (a + b)[1..] == a[1..] + b;
      if a[0] in props {
        GrabByNameConcat(a[1..], b, stores, props);
      } else if a[0] in stores {
        GrabByNameConcat(a[1..], b, stores, props[a[0] := stores[a[0]]]);
      }
    } else {
      assert a + b == b;
    }
  }

  /**
   * The error reports the first name that is in neither props nor the
   * registry, and the names before it have already been written into props.
   */
  lemma FirstMissingIsReported<V>(names: seq<string>, stores: map<string, V>, props: map<string, V>, k: nat)
    requires k < |names|
    requires AllAvailable(names[..k], stores, props)
    requires names[k] !in props && names[k] !in stores
    ensures GrabByName(names[..k], stores, props).Injected?
    ensures GrabByName(names, stores, props) == Missing(names[k], GrabByName(names[..k], stores, props).props)
  {
    GrabByNameSucceedsIff(names[..k], stores, props);
    var m := GrabByName(names[..k], stores, props).props;
    assert names == names[..k] + names[k..];
    GrabByNameConcat(names[..k], names[k..], stores, props);
    assert names[k..][0] == names[k];
    assert names[k] !in m;
  }

  /** Conversely, a failure always is such a first missing name. */
  lemma {:induction false} FailureIsFirstMissing<V>(names: seq<string>, stores: map<string, V>, props: map<string, V>)
    requires GrabByName(names, stores, props).Missing?
    ensures exists k :: (0 <= k < |names| && names[k] == GrabByName(names, stores, props).storeName
      && AllAvailable(names[..k], stores, props)
      && names[k] !in props && names[k] !in stores)
  {
    GrabByNameSucceedsIff(names, stores, props);
    var k :| 0 <= k < |names| && names[k] !in props && names[k] !in stores;
    // pick the least such index
    var i := 0;
    while i < k && (names[i] in props || names[i] in stores)
      invariant 0 <= i <= k
      invariant AllAvailable(names[..i], stores, props)
    {
      assert names[..i + 1] == names[..i] + [names[i]];
      i := i + 1;
    }
    FirstMissingIsReported(names, stores, props, i);
  }

  /** Names that are all already props are all skipped: the props come back unchanged. */
  lemma {:induction false} PresentNamesAreSkipped<V>(names: seq<string>, stores: map<string, V>, props: map<string, V>)
    requires forall n :: n in names ==> n in props
    ensures GrabByName(names, stores, props) == Injected(props)
  {
    if names != [] {
      assert forall n :: n in names[1..] ==> n in names;
      PresentNamesAreSkipped(names[1..], stores, props);
    }
  }

  /** Injecting again into a successful result changes nothing. */
  lemma {:induction false} GrabByNameIdempotent<V>(names: seq<string>, stores: map<string, V>, props: map<string, V>)
    requires GrabByName(names, stores, props).Injected?
    ensures GrabByName(names, stores, GrabByName(names, stores, props).props)
         == GrabByName(names, stores, props)
  {
    InjectedCoversNames(names, stores, props);
    PresentNamesAreSkipped(names, stores, GrabByName(names, stores, props).props);
  }

  /**
   * `grabStoresByName(names)(stores, props)`: writes the stores into `props`
   * in place and hands back that same bag, or fails naming the missing store
   * after having written the names before it.
   */
  method GrabStoresByName<V>(names: seq<string>, stores: map<string, V>, props: PropsBag<V>)
    returns (r: Result<PropsBag<V>>)
    modifies props
    ensures props.entries == GrabByName(names, stores, old(props.entries)).props
    ensures r == match GrabByName(names, stores, old(props.entries))
      case Injected(_) => Ok(props)
      case Missing(n, _) => Err(MissingStore(n))
  {
    var i := 0;
    while i < |names|
      invariant 0 <= i <= |names|
      invariant GrabByName(names[i..], stores, props.entries) == GrabByName(names, stores, old(props.entries))
    {
      assert names[i..][1..] == names[i + 1..];
      var storeName := names[i];
      if storeName in props.entries {
        // prefer props over stores
        i := i + 1;
        continue;
      }
      if storeName !in stores {
        return Err(MissingStore(storeName));
      }
      props.entries := props.entries[storeName := stores[storeName]];
      i := i + 1;
    }
    return Ok(props);
  }

  /* ---------------------------------------------------------------------- */
  /* Injector render                                                        */
  /* ---------------------------------------------------------------------- */

  /** The registry handed to the grab function: `context.mobxStores || {}`. */
  function RegistryOf<V>(context: Context<V>): map<string, V>
  {
    context.mobxStores.GetOr(map[])
  }

  /** The final props: `base` overwritten key by key with `extra`, then `ref`. */
  function MergeProps<V>(base: map<string, V>, extra: map<string, V>, refCallback: V): map<string, V>
  {
    (base + extra)[RefKey := refCallback]
  }

  /**
   * The props render passes to the wrapped component, or the error it throws.
   * For a by-name grab the returned bag is the copy itself, so the copy is
   * merged with itself.
   */
  function AssembleProps<V>(grab: GrabFn<V>, props: map<string, V>, context: Context<V>, refCallback: V)
    : (r: Result<map<string, V>>)
    ensures r.Ok? ==> props.Keys <= r.value.Keys
    ensures r.Ok? ==> RefKey in r.value && r.value[RefKey] == refCallback
  {
    match grab
    case ByNames(names) =>
      (match GrabByName(names, RegistryOf(context), props)
       case Injected(m) => Ok(MergeProps(m, m, refCallback))
       case Missing(n, _) => Err(MissingStore(n)))
    case Custom(f) =>
      Ok(MergeProps(props, f(RegistryOf(context), props, context).GetOr(map[]), refCallback))
  }

  /**
   * By-name injection through render: caller props win (except `ref`),
   * requested names come from the registry, and nothing else is added.
   */
  lemma RenderByNamesPrefersProps<V>(names: seq<string>, props: map<string, V>, context: Context<V>, refCallback: V)
    requires AllAvailable(names, RegistryOf(context), props)
    ensures var r := AssembleProps(ByNames(names), props, context, refCallback);
      && r.Ok?
      && (forall k :: k in r.value <==> k in props || k in names || k == RefKey)
      && (forall k :: k in props && k != RefKey ==> r.value[k] == props[k])
      && (forall k :: k in names && k !in props && k != RefKey ==> r.value[k] == RegistryOf(context)[k])
  {
    GrabByNameInjected(names, RegistryOf(context), props);
  }

  /** By-name render fails when some requested name is missing, and reports the first one. */
  lemma RenderByNamesFails<V>(names: seq<string>, props: map<string, V>, context: Context<V>, refCallback: V, k: nat)
    requires k < |names|
    requires AllAvailable(names[..k], RegistryOf(context), props)
    requires names[k] !in props && names[k] !in RegistryOf(context)
    ensures AssembleProps(ByNames(names), props, context, refCallback) == Err(MissingStore(names[k]))
  {
    FirstMissingIsReported(names, RegistryOf(context), props, k);
  }

  /** Conversely, by-name render fails only when some requested name is in neither props nor the registry. */
  lemma {:induction false} RenderByNamesFailsOnlyIfMissing<V>(names: seq<string>, props: map<string, V>, context: Context<V>, refCallback: V)
    requires AssembleProps(ByNames(names), props, context, refCallback).Err?
    ensures exists n :: n in names && n !in props && n !in RegistryOf(context)
  {
    GrabByNameSucceedsIff(names, RegistryOf(context), props);
  }

  /**
   * A custom grab function's keys overwrite the caller's props (only `ref`
   * is set after them); caller keys it does not return are kept.
   */
  lemma RenderCustomOverridesProps<V>(f: GrabStoresFn<V>, props: map<string, V>, context: Context<V>, refCallback: V)
    ensures var r := AssembleProps(Custom(f), props, context, refCallback);
      var extra := f(RegistryOf(context), props, context).GetOr(map[]);
      && r.Ok?
      && (forall k :: k in r.value <==> k in props || k in extra || k == RefKey)
      && (forall k :: k in extra && k != RefKey ==> r.value[k] == extra[k])
      && (forall k :: k in props && k !in extra && k != RefKey ==> r.value[k] == props[k])
  {
  }

  /** A falsy return from the grab function adds nothing: the caller's props plus `ref`. */
  lemma FalsyGrabResultIsEmpty<V>(f: GrabStoresFn<V>, props: map<string, V>, context: Context<V>, refCallback: V)
    requires f(RegistryOf(context), props, context).None?
    ensures AssembleProps(Custom(f), props, context, refCallback) == Ok(props[RefKey := refCallback])
  {
    assert props + map[] == props;
  }

  /**
   * Without a Provider the registry is empty: by-name injection then succeeds
   * exactly when every name is already a prop, and adds only `ref`.
   */
  lemma MissingRegistryIsEmpty<V>(names: seq<string>, props: map<string, V>, rest: map<string, V>, refCallback: V)
    ensures var r := AssembleProps(ByNames(names), props, Context(None, rest), refCallback);
      && r == AssembleProps(ByNames(names), props, Context(Some(map[]), rest), refCallback)
      && (r.Ok? <==> forall n :: n in names ==> n in props)
      && (r.Ok? ==> r.value == props[RefKey := refCallback])
  {
    var empty: map<string, V> := map[];
    GrabByNameSucceedsIff(names, empty, props);
    if forall n :: n in names ==> n in props {
      PresentNamesAreSkipped(names, empty, props);
    }
  }

  /** A shallow copy of the caller's own props into a new bag, key by key. */
  method CopyOwnProps<V>(props: map<string, V>) returns (copy: PropsBag<V>)
    ensures fresh(copy) && copy.entries == props
  {
    copy := new PropsBag<V>(map[]);
    var pending := props.Keys;
    while pending != {}
      invariant pending <= props.Keys
      invariant copy.entries.Keys == props.Keys - pending
      invariant forall k :: k in copy.entries ==> copy.entries[k] == props[k]
      decreases pending
    {
      var key :| key in pending;
      copy.entries := copy.entries[key := props[key]];
      pending := pending - {key};
    }
  }

  /**
   * `for (key in source) target[key] = source[key]`. The two bags may be one
   * object, in which case nothing changes.
   */
  method Overwrite<V>(target: PropsBag<V>, source: PropsBag<V>)
    modifies target
    ensures target.entries == old(target.entries) + old(source.entries)
    ensures source == target ==> target.entries == old(target.entries)
  {
    ghost var base := target.entries;
    ghost var extra := source.entries;
    var pending := source.entries.Keys;
    while pending != {}
      invariant pending <= extra.Keys
      invariant source == target ==> base == extra
      invariant source != target ==> source.entries == extra
      invariant target.entries == base + (extra - pending)
      decreases pending
    {
      var key :| key in pending;
      assert key in source.entries && source.entries[key] == extra[key];
      target.entries := target.entries[key := source.entries[key]];
      pending := pending - {key};
    }
    assert extra - {} == extra;
  }

  /**
   * The component `createStoreInjector(grab, component)` builds. Each render
   * attaches a fresh instance-capturing callback under `ref`; the model
   * gives that callback as the value `refCallback`.
   */
  class Injector<V> {
    const grab: GrabFn<V>
    const component: Component
    const displayName: string
    const refCallback: V

    constructor (grab: GrabFn<V>, component: Component, refCallback: V)
      ensures this.grab == grab && this.component == component && this.refCallback == refCallback
      ensures displayName == component.name
    {
      this.grab := grab;
      this.component := component;
      this.displayName := component.name;
      this.refCallback := refCallback;
    }

    /** Render: copy the props, grab stores into the copy, merge the grab result, attach `ref`. */
    method Render(props: map<string, V>, context: Context<V>) returns (r: Result<Element<V>>)
      ensures var a := AssembleProps(grab, props, context, refCallback);
        r == match a
          case Ok(p) => Ok(Element(component, p))
          case Err(e) => Err(e)
    {
      var newProps := CopyOwnProps(props);

      var stores := RegistryOf(context);
      var additional: PropsBag<V>;
      match grab {
        case ByNames(names) =>
          var grabbed := GrabStoresByName(names, stores, newProps);
          if grabbed.Err? {
            return Err(grabbed.error);
          }
          additional := grabbed.value;
        case Custom(f) =>
          additional := new PropsBag<V>(f(stores, newProps.entries, context).GetOr(map[]));
      }

      Overwrite(newProps, additional);
      newProps.entries := newProps.entries[RefKey := refCallback];
      r := Ok(Element(component, newProps.entries));
    }
  }

  /* ---------------------------------------------------------------------- */
  /* inject                                                                 */
  /* ---------------------------------------------------------------------- */

  /** An argument of `inject(...)`: a store name or a grab function. */
  datatype InjectArg<!V> = StoreName(name: string) | GrabFunction(f: GrabStoresFn<V>)

  /**
   * `inject(...)`: a function first argument is the grab function; otherwise
   * every argument, in order, is a store name.
   */
  method InjectGrab<V>(args: seq<InjectArg<V>>) returns (g: GrabFn<V>)
    requires (|args| > 0 && args[0].GrabFunction?) || forall i :: 0 <= i < |args| ==> args[i].StoreName?
    ensures g.Custom? <==> |args| > 0 && args[0].GrabFunction?
    ensures g.Custom? ==> g.f == args[0].f
    ensures g.ByNames? ==> |g.names| == |args| && forall i :: 0 <= i < |args| ==> g.names[i] == args[i].name
  {
    if |args| > 0 && args[0].GrabFunction? {
      return Custom(args[0].f);
    }
    var storeNames: seq<string> := [];
    var i := 0;
    while i < |args|
      invariant 0 <= i <= |args|
      invariant |storeNames| == i
      invariant forall j :: 0 <= j < i ==> storeNames[j] == args[j].name
    {
      storeNames := storeNames + [args[i].name];
      i := i + 1;
    }
    g := ByNames(storeNames);
  }

  /** `inject(...)(component)`: the injector wrapping `component`. */
  method InjectComponent<V>(args: seq<InjectArg<V>>, component: Component, refCallback: V) returns (injector: Injector<V>)
    requires (|args| > 0 && args[0].GrabFunction?) || forall i :: 0 <= i < |args| ==> args[i].StoreName?
    ensures fresh(injector)
    ensures injector.component == component && injector.displayName == component.name
    ensures injector.refCallback == refCallback
    ensures injector.grab.Custom? <==> |args| > 0 && args[0].GrabFunction?
    ensures injector.grab.Custom? ==> injector.grab.f == args[0].f
    ensures injector.grab.ByNames? ==>
      |injector.grab.names| == |args| && forall i :: 0 <= i < |args| ==> injector.grab.names[i] == args[i].name
  {
    var grab := InjectGrab(args);
    injector := new Injector(grab, component, refCallback);
  }
}
