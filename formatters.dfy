/**
 * The formatter registry: a dictionary from names to formatting callables,
 * seeded from a table of defaults, with register/unregister and a call that
 * takes either a callable or the name of a registered one.
 */
module Formatters {
  import opened Outcomes

  /**
   * A formatting callable: its `__name__`, or None when it has none (a `functools.partial`,
   * an instance with `__call__`), and what it returns for a value and the extra positional
   * arguments. Values are modelled as strings.
   */
  datatype Callable = Callable(name: Option<string>, run: (string, seq<string>) -> string)

  /** The `func` argument of a call: a callable itself, or a name to look up. */
  datatype FuncRef = Direct(f: Callable) | Named(key: string)

  type Registry = map<string, Callable>

  /** The defaults every new formatter starts from: there are none. */
  const DefaultFormatters: Registry := map[]

  /** The attribute read when no name is given; its absence raises `AttributeError`. */
  const NameAttribute: string := "__name__"

  /**
   * A missing or empty name falls back to the callable's own `__name__`, and reading that
   * attribute fails on a callable that lacks it.
   */
  function ResolveName(f: Callable, name: Option<string>): (r: Result<string>)
    ensures name.Some? && name.value != "" ==> r == Ok(name.value)
    ensures name.None? || name.value == "" ==> (r.Ok? <==> f.name.Some?)
    ensures (name.None? || name.value == "") && f.name.Some? ==> r == Ok(f.name.value)
    ensures r.Err? ==> r.error == AttributeError(NameAttribute)
  {
    if name.Some? && name.value != "" then Ok(name.value)
    else if f.name.Some? then Ok(f.name.value)
    else Err(AttributeError(NameAttribute))
  }

  /** The registry after `register(f, name)`, or the error it raises. */
  function Registered(filters: Registry, f: Callable, name: Option<string>): (r: Result<Registry>)
    ensures r.Ok? <==> ResolveName(f, name).Ok?
    ensures r.Err? ==> r.error == ResolveName(f, name).error
    ensures r.Ok? ==>
      var n := ResolveName(f, name).value;
      && n in r.value && r.value[n] == f
      && r.value.Keys == filters.Keys + {n}
      && forall k :: k in filters && k != n ==> r.value[k] == filters[k]
  {
    match ResolveName(f, name)
    case Ok(n) => Ok(filters[n := f])
    case Err(e) => Err(e)
  }

  /** The registry after `unregister(f, name)`, or the error it raises. */
  function Unregistered(filters: Registry, f: Callable, name: Option<string>): (r: Result<Registry>)
    ensures r.Ok? <==> ResolveName(f, name).Ok?
    ensures r.Err? ==> r.error == ResolveName(f, name).error
    ensures r.Ok? ==>
      var n := ResolveName(f, name).value;
      && n !in r.value
      && r.value.Keys == filters.Keys - {n}
      && (forall k :: k in r.value ==> r.value[k] == filters[k])
      && (n !in filters ==> r.value == filters)
  {
    match ResolveName(f, name)
    case Ok(n) => if n !in filters then Ok(filters) else Ok(filters - {n})
    case Err(e) => Err(e)
  }

  /** `formatter(value, func, *args)`: a callable runs as given, a name is looked up first. */
  function Apply(filters: Registry, value: string, func: FuncRef, args: seq<string>): (r: Result<string>)
    ensures func.Direct? ==> r == Ok(func.f.run(value, args))
    ensures func.Named? ==> (r.Ok? <==> func.key in filters)
    ensures func.Named? && r.Ok? ==> r.value == filters[func.key].run(value, args)
    ensures func.Named? && r.Err? ==> r.error == KeyError(func.key)
  {
    match func
    case Direct(f) => Ok(f.run(value, args))
    case Named(key) => if key in filters then Ok(filters[key].run(value, args)) else Err(KeyError(key))
  }

  class Formatter {
    var filters: Registry

    /** Registers every default under its own key, one `register` call at a time. */
    constructor(defaults: Registry)
      requires "" !in defaults
      ensures filters == defaults
    {
      filters := map[];
      new;
      var pending := defaults.Keys;
      while pending != {}
        invariant pending <= defaults.Keys
        invariant filters == map k | k in defaults && k !in pending :: defaults[k]
        decreases pending
      {
        var name :| name in pending;
        var o := Register(defaults[name], Some(name));
        pending := pending - {name};
      }
    }

    /** `register(f, name)`: binds the resolved name, or raises and leaves the registry as it was. */
    method Register(f: Callable, name: Option<string>) returns (o: Outcome)
      modifies this
      ensures Registered(old(filters), f, name).Ok? ==>
        o == Pass && filters == Registered(old(filters), f, name).value
      ensures Registered(old(filters), f, name).Err? ==>
        o == Fail(Registered(old(filters), f, name).error) && filters == old(filters)
    {
      var n := ResolveName(f, name);
      if n.Err? {
        return Fail(n.error);
      }
      filters := filters[n.value := f];
      return Pass;
    }

    /** `unregister(f, name)`: drops the resolved name if present, or raises and changes nothing. */
    method Unregister(f: Callable, name: Option<string>) returns (o: Outcome)
      modifies this
      ensures Unregistered(old(filters), f, name).Ok? ==>
        o == Pass && filters == Unregistered(old(filters), f, name).value
      ensures Unregistered(old(filters), f, name).Err? ==>
        o == Fail(Unregistered(old(filters), f, name).error) && filters == old(filters)
    {
      var n := ResolveName(f, name);
      if n.Err? {
        return Fail(n.error);
      }
      if n.value !in filters {
        return Pass;
      }
      filters := filters - {n.value};
      return Pass;
    }

    /** `formatter(value, func, *args)` on this instance's registry. */
    function Call(value: string, func: FuncRef, args: seq<string>): (r: Result<string>)
      reads this
      ensures r == Apply(filters, value, func, args)
      ensures func.Named? ==> (r == Err(KeyError(func.key)) <==> func.key !in filters)
    {
      Apply(filters, value, func, args)
    }
  }

  /** `Formatter()`: a formatter over the defaults, which starts out empty. */
  method NewFormatter() returns (fm: Formatter)
    ensures fresh(fm) && fm.filters == map[]
  {
    fm := new Formatter(DefaultFormatters);
  }

  /** Registering twice under one name keeps only the second callable. */
  lemma RegisterLastWins(filters: Registry, f: Callable, g: Callable, name: string)
    requires name != ""
    ensures Registered(Registered(filters, f, Some(name)).value, g, Some(name)) == Registered(filters, g, Some(name))
  {
    assert Registered(filters, f, Some(name)) == Ok(filters[name := f]);
    assert filters[name := f][name := g] == filters[name := g];
  }

  /** Registering and then unregistering a name drops that name and nothing else; both raise alike. */
  lemma RegisterThenUnregister(filters: Registry, f: Callable, name: Option<string>)
    ensures match ResolveName(f, name)
      case Ok(n) => Unregistered(Registered(filters, f, name).value, f, name) == Ok(filters - {n})
      case Err(e) => Registered(filters, f, name) == Err(e) && Unregistered(filters, f, name) == Err(e)
  {
    if ResolveName(f, name).Ok? {
      var n := ResolveName(f, name).value;
      var m := filters[n := f];
      assert Registered(filters, f, name) == Ok(m);
      assert Unregistered(m, f, name) == Ok(m - {n});
      assert m - {n} == filters - {n};
    }
  }

  /** After `register(f, name)`, calling by that name runs `f`. */
  lemma CallAfterRegister(filters: Registry, f: Callable, name: Option<string>, value: string, args: seq<string>)
    ensures ResolveName(f, name).Ok? ==>
      Apply(Registered(filters, f, name).value, value, Named(ResolveName(f, name).value), args) == Ok(f.run(value, args))
  {
  }

  /** After `unregister(f, name)`, calling by that name raises `KeyError`. */
  lemma CallAfterUnregister(filters: Registry, f: Callable, name: Option<string>, value: string, args: seq<string>)
    ensures ResolveName(f, name).Ok? ==>
      var n := ResolveName(f, name).value;
      Apply(Unregistered(filters, f, name).value, value, Named(n), args) == Err(KeyError(n))
  {
  }

  /** Without a name, a callable that has no `__name__` can be neither registered nor unregistered. */
  lemma NamelessFails(filters: Registry, f: Callable, name: Option<string>)
    requires f.name.None? && (name.None? || name.value == "")
    ensures Registered(filters, f, name) == Err(AttributeError(NameAttribute))
    ensures Unregistered(filters, f, name) == Err(AttributeError(NameAttribute))
  {
  }

  /** A callable passed directly does not depend on what is registered. */
  lemma DirectIgnoresRegistry(m1: Registry, m2: Registry, f: Callable, value: string, args: seq<string>)
    ensures Apply(m1, value, Direct(f), args) == Apply(m2, value, Direct(f), args)
  {
  }
}
