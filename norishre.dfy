/**
 * src/norishre.ts: the exact-match route lookup, the `Norishre` router (a
 * `CrimsonRanger` that picks its first route from the URL, follows the browser's back
 * and forward buttons, and replaces the parameter-aware lookup by an exact one) and
 * `missNorishre`.
 *
 * `Norishre` extends `CrimsonRanger` in the source; here it holds the router it extends
 * and acts on that router's fields. The URL `location.pathname` is a parameter.
 */
module NorishreRouter {
  import opened Wrappers
  import opened PathPattern
  import opened PathFill
  import opened UrlMatch
  import opened Quiver
  import opened DarkElves

  /** Entry `j` is a key other than `%404%` whose base path plus pattern is the URL. */
  predicate HitAt(table: seq<(string, string)>, base: string, url: string, j: int)
  {
    0 <= j < |table| && table[j].0 != NotFoundId && base + table[j].1 == url
  }

  /**
   * The scan of both `find_arrow_id_by_url` versions of src/norishre.ts from entry `k`
   * on: the first hit, or `%404%` when there is none.
   */
  function FindExactFrom(table: seq<(string, string)>, base: string, url: string, k: nat): (r: string)
    requires k <= |table|
    ensures r == NotFoundId <==> forall j :: k <= j < |table| ==> !HitAt(table, base, url, j)
    ensures r != NotFoundId ==>
              exists j :: k <= j < |table| && HitAt(table, base, url, j) && table[j].0 == r
                && forall i :: k <= i < j ==> !HitAt(table, base, url, i)
    decreases |table| - k
  {
    if k == |table| then NotFoundId
    else if table[k].0 == NotFoundId || base + table[k].1 != url then FindExactFrom(table, base, url, k + 1)
    else
      assert HitAt(table, base, url, k);
      table[k].0
  }

  /**
   * The module-level `find_arrow_id_by_url(base_path, quiver)` (src/norishre.ts:4-19)
   * and, over the router's own base path and patterns, the `Norishre` method
   * (src/norishre.ts:32-47).
   */
  function FindExact(table: seq<(string, string)>, base: string, url: string): string
  {
    FindExactFrom(table, base, url, 0)
  }

  /**
   * Over placeholder-free patterns, where `%404%` is the only key starting and ending
   * with `%`, the exact lookup answers what the parameter-aware lookup of `CrimsonRanger`
   * answers, with `{}` parameters.
   */
  lemma {:induction false} ShadowsFrom(table: seq<(string, string)>, base: string, url: string, k: nat)
    requires k <= |table| && PlainTable(table)
    requires forall j :: 0 <= j < |table| && IsReserved(table[j].0) ==> table[j].0 == NotFoundId
    ensures FindFrom(table, base, url, k) == Some((FindExactFrom(table, base, url, k), NoParams))
    decreases |table| - k
  {
    if k < |table| {
      NotFoundIsReserved();
      ShadowsFrom(table, base, url, k + 1);
    }
  }

  /**
   * Looking up the link of route `k` by its exact path answers a key other than `%404%`
   * that comes no later than `k` and has the same pattern.
   */
  lemma ExactRoundTrip(table: seq<(string, string)>, base: string, k: nat)
    requires k < |table| && table[k].0 != NotFoundId
    ensures FindExact(table, base, base + table[k].1) != NotFoundId
    ensures exists j :: 0 <= j <= k && table[j].0 == FindExact(table, base, base + table[k].1) && table[j].1 == table[k].1
  {
    var url := base + table[k].1;
    assert HitAt(table, base, url, k);
    var r := FindExact(table, base, url);
    var j :| 0 <= j < |table| && HitAt(table, base, url, j) && table[j].0 == r
      && forall i :: 0 <= i < j ==> !HitAt(table, base, url, i);
    assert table[j].1 == (base + table[j].1)[|base|..];
  }

  /** No entry of the table is a hit for the URL. */
  predicate NoHit(table: seq<(string, string)>, base: string, url: string)
  {
    forall j :: 0 <= j < |table| ==> !HitAt(table, base, url, j)
  }

  /** No route other than `%404%` has the URL as its base path plus pattern. */
  ghost predicate NoExactRoute(routes: map<string, Route>, base: string, url: string)
    reads routes.Values
  {
    forall id :: id in routes && id != NotFoundId ==> base + routes[id].path != url
  }

  lemma NoHitNoExactRoute(keys: seq<string>, routes: map<string, Route>, base: string, url: string, id: string)
    requires IsQuiver(keys, routes) && id in routes && id != NotFoundId
    requires NoHit(PathTable(keys, routes), base, url)
    ensures base + routes[id].path != url
  {
    var table := PathTable(keys, routes);
    var j :| 0 <= j < |keys| && keys[j] == id;
    assert table[j] == (id, routes[id].path);
    assert !HitAt(table, base, url, j);
  }

  lemma NoExactRouteNoHit(keys: seq<string>, routes: map<string, Route>, base: string, url: string, j: nat)
    requires IsQuiver(keys, routes) && j < |keys|
    requires NoExactRoute(routes, base, url)
    ensures !HitAt(PathTable(keys, routes), base, url, j)
  {
    var table := PathTable(keys, routes);
    assert keys[j] in routes;
    assert table[j] == (keys[j], routes[keys[j]].path);
  }

  /** Over a quiver, a hit in the key-ordered table is a key other than `%404%` whose path matches. */
  lemma TableHits(keys: seq<string>, routes: map<string, Route>, base: string, url: string)
    requires IsQuiver(keys, routes)
    ensures NoHit(PathTable(keys, routes), base, url) <==> NoExactRoute(routes, base, url)
  {
    var table := PathTable(keys, routes);
    if NoHit(table, base, url) {
      forall id | id in routes && id != NotFoundId
        ensures base + routes[id].path != url
      {
        NoHitNoExactRoute(keys, routes, base, url, id);
      }
    }
    if NoExactRoute(routes, base, url) {
      forall j | 0 <= j < |table|
        ensures !HitAt(table, base, url, j)
      {
        NoExactRouteNoHit(keys, routes, base, url, j);
      }
    }
  }

  class Norishre {
    /** The `CrimsonRanger` this router extends. */
    const ranger: CrimsonRanger

    ghost predicate Valid()
      reads this, ranger, ranger.routes.Values
    {
      ranger.Valid()
    }

    /**
     * The constructor (src/norishre.ts:22-30): a given first route is kept; without one
     * the first route is the exact lookup of the URL over the base path and the patterns
     * as they were passed in, before the router encodes them.
     */
    constructor(keys: seq<string>, routes: map<string, Route>, rawBase: string, firstArrow: Option<string>, url: string)
      requires IsQuiver(keys, routes) && DistinctRoutes(routes)
      requires forall id :: id in routes && routes[id].loaded ==> routes[id].model.Some?
      modifies routes.Values
      ensures Valid() && fresh(ranger)
      ensures ranger.keys == keys && ranger.routes == routes
      ensures ranger.basePath == NormaliseBasePath(rawBase)
      ensures firstArrow.Some? ==> ranger.active == firstArrow.value
      ensures firstArrow.None? ==> ranger.active == FindExact(old(PathTable(keys, routes)), rawBase, url)
      ensures ranger.prev == ranger.active
      ensures forall id :: id in routes ==>
                && routes[id].path == EncodePathPieces(old(routes[id].path))
                && routes[id].loaded == old(routes[id].loaded)
                && routes[id].model == old(routes[id].model)
      ensures ranger.models.Keys <= routes.Keys && forall id :: id in routes ==> (id in ranger.models <==> routes[id].loaded)
      ensures ranger.loading == map[] && ranger.live == map[] && ranger.history == []
    {
      var first := if firstArrow.Some? then firstArrow.value else FindExact(PathTable(keys, routes), rawBase, url);
      ranger := new CrimsonRanger(keys, routes, rawBase, first);
    }

    /**
     * The `Norishre` `find_arrow_id_by_url` (src/norishre.ts:32-47): a bare id, which
     * is `%404%` or a key whose base path plus pattern is the URL.
     */
    function FindArrowIdByUrl(url: string): (r: string)
      requires Valid()
      reads this, ranger, ranger.routes.Values
      ensures r == NotFoundId || (r in ranger.routes && ranger.basePath + ranger.routes[r].path == url)
      ensures r == NotFoundId <==>
                forall id :: id in ranger.routes && id != NotFoundId ==> ranger.basePath + ranger.routes[id].path != url
    {
      TableHits(ranger.keys, ranger.routes, ranger.basePath, url);
      FindExact(ranger.Table(), ranger.basePath, url)
    }

    /**
     * The `popstate` listener (src/norishre.ts:25-29): the route found for the new URL
     * becomes active and the one active before becomes previous; nothing is pushed,
     * loaded or called.
     */
    method Popstate(url: string)
      requires Valid()
      modifies ranger
      ensures Valid()
      ensures ranger.prev == old(ranger.active) && ranger.active == old(FindArrowIdByUrl(url))
      ensures ranger.models == old(ranger.models) && ranger.loading == old(ranger.loading)
      ensures ranger.loadCount == old(ranger.loadCount)
      ensures ranger.live == old(ranger.live) && ranger.history == old(ranger.history)
    {
      var id := FindArrowIdByUrl(url);
      ranger.Arrive(id);
    }
  }

  /**
   * `missNorishre` (src/norishre.ts:50-70): the configuration converted route by route,
   * then a `Norishre` with no first route, so the first route always comes from the
   * lookup of the URL over the converted paths.
   */
  method MissNorishre(keys: seq<string>, config: map<string, ConfigEntry>, path: string, url: string)
    returns (n: Norishre)
    requires IsQuiver(keys, config)
    requires forall id :: id in config ==> Convertible(config[id])
    ensures fresh(n) && fresh(n.ranger) && n.Valid()
    ensures n.ranger.keys == keys && n.ranger.routes.Keys == config.Keys
    ensures n.ranger.basePath == NormaliseBasePath(path)
    ensures n.ranger.active == FindExact(ConfigTable(keys, config), path, url) && n.ranger.prev == n.ranger.active
    ensures n.ranger.loading == map[] && n.ranger.live == map[] && n.ranger.history == []
    ensures forall id :: id in config ==>
              && n.ranger.routes[id].path == EncodePathPieces(ShapeOf(config[id]).path)
              && !n.ranger.routes[id].hasOnPulled
              && (n.ranger.routes[id].loaded <==> config[id].model.Given?)
    ensures forall id :: id in config && config[id].model.Given? ==> n.ranger.models[id] == config[id].model.m
  {
    var routes := BuildQuiver(keys, config);
    BuiltTable(keys, config, routes);
    n := new Norishre(keys, routes, path, None, url);
    var r := n.ranger;
    forall id | id in config && config[id].model.Given?
      ensures r.models[id] == config[id].model.m
    {
      assert RouteAgrees(r.routes[id], id, r.models, r.loading, r.loadCount);
    }
  }
}
