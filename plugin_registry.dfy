/**
 * The plugin registry (plugin_registry.cpp, plugin_registry.h): a table from component names to
 * factories, and one registry shared by the whole process. A factory is a function value that
 * yields a component or nothing (the null `shared_ptr`); `P` is the type of the components.
 */
module Plugins {
  import opened Wrappers
  import opened Bytes

  /** `FactoryFunc`: invoked with no arguments, it yields a component or `None` for null. */
  type Factory<P> = () -> Option<P>

  /** What `create` yields for `name` from the table `factories`. */
  function Created<P>(factories: map<Str, Factory<P>>, name: Str): (r: Option<P>)
    ensures name !in factories ==> r == None
    ensures name in factories ==> r == factories[name]()
  {
    if name in factories then factories[name]() else None
  }

  /**
   * After `name` is bound to `f`, `create(name)` invokes `f`, and every other name creates what
   * it created before.
   */
  lemma CreatedAfterRegister<P>(factories: map<Str, Factory<P>>, name: Str, f: Factory<P>, other: Str)
    ensures Created(factories[name := f], name) == f()
    ensures other != name ==> Created(factories[name := f], other) == Created(factories, other)
  {
  }

  class PluginRegistry<P> {
    /** `factories_`. */
    var factories: map<Str, Factory<P>>

    /** The implicit constructor: no factory is registered. */
    constructor ()
      ensures factories == map[]
    {
      factories := map[];
    }

    /** `register_plugin`: binds `name` to `factory`, replacing an earlier binding of `name`. */
    method RegisterPlugin(name: Str, factory: Factory<P>)
      modifies this
      ensures factories == old(factories)[name := factory]
      ensures name in factories && factories[name] == factory
      ensures forall n :: n != name ==> (n in factories <==> n in old(factories))
      ensures forall n :: n != name && n in factories ==> factories[n] == old(factories)[n]
    {
      factories := factories[name := factory];
    }

    /**
     * `create`: the result of invoking the factory registered for `name`, or `None` (a null
     * pointer) when `name` was never registered.
     */
    method Create(name: Str) returns (r: Option<P>)
      ensures name !in factories ==> r == None
      ensures name in factories ==> r == factories[name]()
      ensures r == Created(factories, name)
    {
      if name in factories {
        var f := factories[name];
        r := f();
      } else {
        r := None;
      }
    }
  }

  /**
   * The process-wide state that `instance()` reads: the function-local `static` registry, which
   * is built on the first call and is `null` here until then.
   */
  class Process<P> {
    var registry: PluginRegistry?<P>

    constructor ()
      ensures registry == null
    {
      registry := null;
    }

    /** `instance`: the registry, built empty on the first call; every later call returns the same one. */
    method Instance() returns (r: PluginRegistry<P>)
      modifies this
      ensures old(registry) != null ==> r == old(registry)
      ensures old(registry) == null ==> fresh(r) && r.factories == map[]
      ensures registry == r
    {
      if registry == null {
        registry := new PluginRegistry();
      }
      r := registry;
    }

    /** Two calls of `instance` give the same registry, and the second call changes nothing. */
    method InstanceTwice() returns (a: PluginRegistry<P>, b: PluginRegistry<P>)
      modifies this
      ensures a == b && registry == a
      ensures old(registry) != null ==> a == old(registry)
    {
      a := Instance();
      b := Instance();
    }
  }
}
