/**
 * The quiver: the routes a router serves (src/base-types.d.ts `Route`), and the
 * conversion of a route configuration into routes that `missElf` and `missNorishre`
 * perform (src/dark-elves.ts:377-398, src/norishre.ts:50-70).
 */
module Quiver {
  import opened Wrappers

  /**
   * A page model. Models are JavaScript objects the router only stores and hands out,
   * so one is an opaque handle; `Base404Page` is the router's built-in 404 page.
   */
  datatype PageModel = Base404Page | Page(handle: nat)

  /**
   * One route object. The router rewrites `path` once at construction and flips
   * `loaded` and `model` when a loader settles; `load` and `on_pulled` are foreign
   * callbacks, so only their presence is recorded.
   */
  class Route {
    var path: string
    var loaded: bool
    var model: Option<PageModel>
    const hasLoader: bool
    const hasOnPulled: bool

    constructor(path: string, loaded: bool, model: Option<PageModel>, hasLoader: bool, hasOnPulled: bool)
      ensures this.path == path && this.loaded == loaded && this.model == model
      ensures this.hasLoader == hasLoader && this.hasOnPulled == hasOnPulled
    {
      this.path := path;
      this.loaded := loaded;
      this.model := model;
      this.hasLoader := hasLoader;
      this.hasOnPulled := hasOnPulled;
    }
  }

  /** `keys` lists the keys of `m` once each: the `Object.keys` order of a record. */
  ghost predicate IsQuiver<V>(keys: seq<string>, m: map<string, V>)
  {
    && (forall i, j :: 0 <= i < j < |keys| ==> keys[i] != keys[j])
    && (forall k :: k in m <==> k in keys)
  }

  /** No route object is shared by two keys. */
  predicate DistinctRoutes(routes: map<string, Route>)
  {
    forall a, b :: a in routes && b in routes && a != b ==> routes[a] != routes[b]
  }

  // ---------------------------------------------------------------------------
  // Configuration

  /** A configured model: a model object, or a loader function. */
  datatype ModelSource = Given(m: PageModel) | Loader

  /** One configuration entry; any field other than `path` and `model` (such as `on_pulled`) is only noted. */
  datatype ConfigEntry = ConfigEntry(path: Option<string>, model: ModelSource, hasOnPulled: bool)

  /** The path a model-carrying entry without one receives. */
  const DefaultPath := "/**/*"

  /** A route the conversion produces: `DelayedRoute` (a loader) or `LaidRoute` (a model). */
  datatype RouteShape = Delayed(path: string) | Laid(path: string, model: PageModel)

  /** An entry with a loader must carry its own path (the configuration type demands one). */
  predicate Convertible(e: ConfigEntry)
  {
    e.model.Loader? ==> e.path.Some?
  }

  /**
   * The conversion of one entry (src/dark-elves.ts:381-390): a loader becomes a delayed
   * route with the entry's path, a model a laid route with the entry's path or the
   * default one.
   */
  function ShapeOf(e: ConfigEntry): RouteShape
    requires Convertible(e)
  {
    match e.model
    case Loader => Delayed(e.path.value)
    case Given(m) => Laid(e.path.GetOr(DefaultPath), m)
  }

  /** Route `r` is the object the conversion builds for shape `s`: no `on_pulled` survives. */
  predicate HasShape(r: Route, s: RouteShape)
    reads r
  {
    && r.path == s.path
    && !r.hasOnPulled
    && match s
       case Delayed(_) => !r.loaded && r.hasLoader && r.model == None
       case Laid(_, m) => r.loaded && !r.hasLoader && r.model == Some(m)
  }

  /** The route object the conversion builds for one entry (src/dark-elves.ts:381-390). */
  method ConvertEntry(data: ConfigEntry) returns (route: Route)
    requires Convertible(data)
    ensures fresh(route) && HasShape(route, ShapeOf(data))
  {
    match data.model {
      case Loader =>
        route := new Route(data.path.value, false, None, true, false);
      case Given(m) =>
        route := new Route(data.path.GetOr(DefaultPath), true, Some(m), false, false);
    }
  }

  /**
   * The loop that builds the quiver: one fresh route object per key, of the shape its
   * entry calls for.
   */
  method BuildQuiver(keys: seq<string>, config: map<string, ConfigEntry>) returns (routes: map<string, Route>)
    requires IsQuiver(keys, config)
    requires forall id :: id in config ==> Convertible(config[id])
    ensures IsQuiver(keys, routes) && DistinctRoutes(routes)
    ensures forall id :: id in routes ==> fresh(routes[id]) && HasShape(routes[id], ShapeOf(config[id]))
  {
    routes := map[];
    for i := 0 to |keys|
      invariant forall k :: k in routes <==> k in keys[..i]
      invariant DistinctRoutes(routes)
      invariant forall id :: id in routes ==> fresh(routes[id]) && HasShape(routes[id], ShapeOf(config[id]))
    {
      var id := keys[i];
      var route := ConvertEntry(config[id]);
      assert id !in keys[..i];
      routes := routes[id := route];
      assert keys[..i + 1] == keys[..i] + [id];
    }
    assert keys[..|keys|] == keys;
  }

  // ---------------------------------------------------------------------------
  // Key-ordered views

  /** The routes as `(id, pattern)` pairs in key order: what a scan over `Object.keys` visits. */
  function PathTable(keys: seq<string>, routes: map<string, Route>): (t: seq<(string, string)>)
    requires forall i :: 0 <= i < |keys| ==> keys[i] in routes
    reads routes.Values
    ensures |t| == |keys|
    ensures forall i :: 0 <= i < |keys| ==> t[i] == (keys[i], routes[keys[i]].path)
  {
    if keys == [] then []
    else [(keys[0], routes[keys[0]].path)] + PathTable(keys[1..], routes)
  }

  /** The `(id, path)` pairs the conversion of a configuration gives, in key order. */
  function ConfigTable(keys: seq<string>, config: map<string, ConfigEntry>): (t: seq<(string, string)>)
    requires forall i :: 0 <= i < |keys| ==> keys[i] in config && Convertible(config[keys[i]])
    ensures |t| == |keys|
    ensures forall i :: 0 <= i < |keys| ==> t[i] == (keys[i], ShapeOf(config[keys[i]]).path)
  {
    if keys == [] then []
    else [(keys[0], ShapeOf(config[keys[0]]).path)] + ConfigTable(keys[1..], config)
  }

  /** A quiver built from a configuration lists, in key order, the paths the configuration gives. */
  lemma BuiltTable(keys: seq<string>, config: map<string, ConfigEntry>, routes: map<string, Route>)
    requires IsQuiver(keys, config) && IsQuiver(keys, routes)
    requires forall id :: id in config ==> Convertible(config[id])
    requires forall id :: id in routes ==> HasShape(routes[id], ShapeOf(config[id]))
    ensures PathTable(keys, routes) == ConfigTable(keys, config)
  {
    var a, b := PathTable(keys, routes), ConfigTable(keys, config);
    forall i | 0 <= i < |keys|
      ensures a[i] == b[i]
    {
      assert keys[i] in routes;
    }
  }
}
