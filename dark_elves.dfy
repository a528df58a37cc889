/**
 * The router engine of src/dark-elves.ts: `CrimsonRanger` (the quiver, the model cache
 * with its in-flight loads, the active and previous route, the link cache), the links
 * it hands out (`CrimsonArrow`) and `missElf`.
 *
 * The two awaits of `pull_from_quiver` and the loader promise of `_load_model` are split
 * into explicit steps: a step ends where the source awaits, and a later call resumes it.
 * The browser's history is a ghost log of the paths pushed.
 */
module DarkElves {
  import opened Wrappers
  import opened Text
  import opened PathPattern
  import opened PathFill
  import opened UrlMatch
  import opened Quiver

  /** The state of an entry of `_loading_models`: a pending promise, or one that rejected. */
  datatype LoadState = Pending | Failed

  /**
   * What the synchronous part of `_load_model` does: await an entry already in flight,
   * answer a model at once, start and register a load, or reject (an unknown id).
   */
  datatype LoadStart = Joined(state: LoadState) | Immediate(m: PageModel) | Started | Rejected

  /**
   * Where a pull stands: finished, aborted by a rejection, waiting for the load it
   * started, or waiting for the route's `on_pulled` callback, which was handed `passed`.
   */
  datatype PullStage =
    | Done
    | Aborted
    | AwaitingLoad(target: string, params: Option<ExtraParams>)
    | AwaitingCallback(target: string, params: Option<ExtraParams>, passed: Option<PageModel>)

  /** A link's default label (src/dark-elves.ts:355): the id with every `_` and `-` turned into a space. */
  function DefaultIntent(target: string): (r: string)
    ensures |r| == |target|
    ensures forall i :: 0 <= i < |r| ==> r[i] == if target[i] == '_' || target[i] == '-' then ' ' else target[i]
  {
    if target == [] then []
    else [if target[0] == '_' || target[0] == '-' then ' ' else target[0]] + DefaultIntent(target[1..])
  }

  /** The ids `list_arrow_ids` keeps: not starting with `%`, and not matching the placeholder expression. */
  predicate Listable(id: string)
  {
    !(StartsWith(id, '%') || HasParam(id))
  }

  /** `list_arrow_ids` (src/dark-elves.ts:306-312): the listable keys, in key order. */
  function ListArrowIds(keys: seq<string>): (r: seq<string>)
    ensures forall id :: id in r <==> id in keys && Listable(id)
    ensures |r| <= |keys|
  {
    if keys == [] then []
    else
      assert forall id :: id in keys <==> id == keys[0] || id in keys[1..];
      (if Listable(keys[0]) then [keys[0]] else []) + ListArrowIds(keys[1..])
  }

  /** `x` occurs among `keys` before some occurrence of `y`. */
  ghost predicate OccursBefore(x: string, y: string, keys: seq<string>)
  {
    exists a, b :: 0 <= a < b < |keys| && keys[a] == x && keys[b] == y
  }

  /** Any two elements of `r` occur in the same order among `keys`. */
  ghost predicate InKeyOrder(r: seq<string>, keys: seq<string>)
  {
    forall i, j :: 0 <= i < j < |r| ==> OccursBefore(r[i], r[j], keys)
  }

  /** Putting `k` in front of the keys, and at most `k` in front of the list, keeps the order. */
  lemma InKeyOrderCons(k: string, head: seq<string>, rest: seq<string>, tail: seq<string>)
    requires head == [] || head == [k]
    requires InKeyOrder(rest, tail)
    requires forall x :: x in rest ==> x in tail
    ensures InKeyOrder(head + rest, [k] + tail)
  {
    var r, keys := head + rest, [k] + tail;
    forall i, j | 0 <= i < j < |r|
      ensures OccursBefore(r[i], r[j], keys)
    {
      if i < |head| {
        assert rest[j - 1] in tail;
        var b :| 0 <= b < |tail| && tail[b] == rest[j - 1];
        assert keys[0] == r[i] && keys[b + 1] == r[j];
      } else {
        var i', j' := i - |head|, j - |head|;
        assert rest[i'] == r[i] && rest[j'] == r[j];
        assert OccursBefore(rest[i'], rest[j'], tail);
        var a, b :| 0 <= a < b < |tail| && tail[a] == rest[i'] && tail[b] == rest[j'];
        assert keys[a + 1] == r[i] && keys[b + 1] == r[j];
      }
    }
  }

  /** The listed ids keep the order of the keys. */
  lemma {:induction false} ListArrowIdsInOrder(keys: seq<string>)
    ensures InKeyOrder(ListArrowIds(keys), keys)
  {
    if keys == [] {
      assert ListArrowIds(keys) == [];
    } else {
      ListArrowIdsInOrder(keys[1..]);
      InKeyOrderCons(keys[0], if Listable(keys[0]) then [keys[0]] else [], ListArrowIds(keys[1..]), keys[1..]);
      assert keys == [keys[0]] + keys[1..];
    }
  }

  /**
   * The constructor's handling of `base_path` (src/dark-elves.ts:27-31): the `while` loop
   * strips every trailing `/`, then each `/`-piece is encoded.
   */
  method EncodeBasePath(raw: string) returns (base: string)
    ensures base == NormaliseBasePath(raw) && !EndsWith(base, '/')
  {
    base := TrimTrailing(raw, '/');
    base := Join(EncodeAll(Split(base, '/')), '/');
    BasePathShape(raw);
  }

  /**
   * The loop of `_init_` (src/dark-elves.ts:44-59): every route's pattern is rewritten
   * in place by `_encode_path_pieces`, and the models of the routes already loaded are
   * collected.
   */
  method InitRoutes(keys: seq<string>, routes: map<string, Route>) returns (m: map<string, PageModel>)
    requires IsQuiver(keys, routes) && DistinctRoutes(routes)
    requires forall id :: id in routes && routes[id].loaded ==> routes[id].model.Some?
    modifies routes.Values
    ensures forall id :: id in m <==> id in routes && routes[id].loaded
    ensures forall id :: id in m ==> routes[id].model == Some(m[id])
    ensures forall id :: id in routes ==>
              && routes[id].path == EncodePathPieces(old(routes[id].path))
              && routes[id].loaded == old(routes[id].loaded)
              && routes[id].model == old(routes[id].model)
  {
    m := map[];
    for i := 0 to |keys|
      invariant m.Keys <= routes.Keys
      invariant forall j :: 0 <= j < i ==> (keys[j] in m <==> routes[keys[j]].loaded)
      invariant forall j :: i <= j < |keys| ==> keys[j] !in m
      invariant forall id :: id in m ==> routes[id].model == Some(m[id])
      invariant forall j :: 0 <= j < i ==> routes[keys[j]].path == EncodePathPieces(old(routes[keys[j]].path))
      invariant forall j :: i <= j < |keys| ==> routes[keys[j]].path == old(routes[keys[j]].path)
      invariant forall id :: id in routes ==> routes[id].loaded == old(routes[id].loaded) && routes[id].model == old(routes[id].model)
    {
      var id := keys[i];
      var arrow := routes[id];
      label before:
      arrow.path := EncodePathPieces(arrow.path);
      forall j | 0 <= j < |keys| && j != i
        ensures routes[keys[j]].path == old@before(routes[keys[j]].path)
      {
        assert keys[j] != id;
        assert routes[keys[j]] != arrow;
      }
      if arrow.loaded {
        m := m[id := arrow.model.value];
      }
    }
    forall id | id in routes
      ensures (id in m <==> routes[id].loaded) && routes[id].path == EncodePathPieces(old(routes[id].path))
    {
      var j :| 0 <= j < |keys| && keys[j] == id;
    }
  }

  /**
   * Route `r`, under key `id`, agrees with the router's caches: it is loaded exactly when
   * the cache holds its model, and then its own `model` is that model; an in-flight or
   * failed load belongs to a route that is not loaded and whose loader ran once; a route
   * neither loaded nor loading never ran its loader.
   */
  ghost predicate RouteAgrees(r: Route, id: string, models: map<string, PageModel>,
                              loading: map<string, LoadState>, loadCount: map<string, nat>)
    requires id in loadCount
    reads r
  {
    && (r.loaded <==> id in models)
    && (r.loaded ==> r.model == Some(models[id]))
    && (id in loading ==> !r.loaded && loadCount[id] == 1)
    && (id !in loading && !r.loaded ==> loadCount[id] == 0)
    && loadCount[id] <= 1
  }

  ghost predicate RoutesAgree(routes: map<string, Route>, models: map<string, PageModel>,
                              loading: map<string, LoadState>, loadCount: map<string, nat>)
    reads routes.Values
  {
    forall id :: id in routes ==> id in loadCount && RouteAgrees(routes[id], id, models, loading, loadCount)
  }

  /** Right after `_init_`, every route agrees with the collected models, no load in flight. */
  lemma InitialAgree(routes: map<string, Route>, m: map<string, PageModel>, count: map<string, nat>)
    requires forall id :: id in m <==> id in routes && routes[id].loaded
    requires forall id :: id in m ==> routes[id].model == Some(m[id])
    requires count == map id | id in routes :: 0
    ensures RoutesAgree(routes, m, map[], count)
  {
  }

  /** Adding a fresh key and removing it again gives the map back. */
  lemma MapAddRemove<K, V>(m: map<K, V>, k: K, v: V)
    requires k !in m
    ensures m[k := v] - {k} == m
  {
    assert (m[k := v] - {k}).Keys == m.Keys;
  }

  /** Every link is an arrow of router `r` aimed at the route it is filed under. */
  predicate LinksOf(live: map<string, CrimsonArrow>, r: CrimsonRanger)
  {
    forall id :: id in live ==> live[id].router == r && live[id].target == id
  }

  lemma LinkAdded(live: map<string, CrimsonArrow>, r: CrimsonRanger, id: string, a: CrimsonArrow)
    requires LinksOf(live, r) && a.router == r && a.target == id
    ensures LinksOf(live[id := a], r)
  {
  }

  /** One more link taken from the cache keeps every earlier link the cached one for its id. */
  lemma LinksStep(ids: seq<string>, links: seq<CrimsonArrow>, before: map<string, CrimsonArrow>,
                  after: map<string, CrimsonArrow>, i: nat, a: CrimsonArrow)
    requires i < |ids| && |links| == i
    requires forall j :: 0 <= j < i ==> ids[j] in before && before[ids[j]] == links[j]
    requires after == before[ids[i] := a]
    requires ids[i] in before ==> a == before[ids[i]]
    ensures forall j :: 0 <= j < i + 1 ==> ids[j] in after && after[ids[j]] == (links + [a])[j]
  {
  }

  /** The keys `after` are the keys `before` plus those of `added` that are not in `skip`. */
  ghost predicate AddsKeys(after: set<string>, before: set<string>, added: seq<string>, skip: set<string>)
  {
    forall id :: id in after <==> id in before || (id in added && id !in skip)
  }

  /** Every entry of `before` is still in `after`, unchanged. */
  predicate KeepsLinks(after: map<string, CrimsonArrow>, before: map<string, CrimsonArrow>)
  {
    forall id :: id in before ==> id in after && after[id] == before[id]
  }

  /** Every entry of `after` is the entry `before` had, or a new pending load. */
  predicate KeepsLoads(after: map<string, LoadState>, before: map<string, LoadState>)
  {
    forall id :: id in after ==> after[id] == if id in before then before[id] else Pending
  }

  /** One more link through `links_list`: the link cache keeps its links and gains the id. */
  lemma LinkCacheStep(ids: seq<string>, i: nat, live0: map<string, CrimsonArrow>,
                      mid: map<string, CrimsonArrow>, after: map<string, CrimsonArrow>, a: CrimsonArrow)
    requires i < |ids|
    requires AddsKeys(mid.Keys, live0.Keys, ids[..i], {}) && KeepsLinks(mid, live0)
    requires after == mid[ids[i] := a] && (ids[i] in mid ==> a == mid[ids[i]])
    ensures AddsKeys(after.Keys, live0.Keys, ids[..i + 1], {}) && KeepsLinks(after, live0)
  {
    assert ids[..i + 1] == ids[..i] + [ids[i]];
  }

  /**
   * One more link through `links_list`: a load is registered for the id when its model
   * is not cached and no load is in flight; every other entry stays.
   */
  lemma LoadCacheStep(ids: seq<string>, i: nat, models0: set<string>, loading0: map<string, LoadState>,
                      mid: map<string, LoadState>, after: map<string, LoadState>)
    requires i < |ids|
    requires AddsKeys(mid.Keys, loading0.Keys, ids[..i], models0) && KeepsLoads(mid, loading0)
    requires after == if ids[i] !in models0 && ids[i] !in mid then mid[ids[i] := Pending] else mid
    ensures AddsKeys(after.Keys, loading0.Keys, ids[..i + 1], models0) && KeepsLoads(after, loading0)
  {
    assert ids[..i + 1] == ids[..i] + [ids[i]];
  }

  class CrimsonRanger {
    const keys: seq<string>
    const routes: map<string, Route>
    const basePath: string
    var active: string
    var prev: string
    var models: map<string, PageModel>
    var loading: map<string, LoadState>
    var live: map<string, CrimsonArrow>
    /** How many times each route's loader has been called. */
    ghost var loadCount: map<string, nat>
    /** The paths pushed onto the browser's history, oldest first. */
    ghost var history: seq<string>

    ghost predicate Valid()
      reads this, routes.Values
    {
      && IsQuiver(keys, routes)
      && DistinctRoutes(routes)
      && models.Keys <= routes.Keys
      && loading.Keys <= routes.Keys
      && live.Keys <= routes.Keys
      && loadCount.Keys == routes.Keys
      && LinksOf(live, this)
      && RoutesAgree(routes, models, loading, loadCount)
    }

    /**
     * The constructor (src/dark-elves.ts:26-41) with `_init_` (src/dark-elves.ts:44-59):
     * the base path loses its trailing `/` and is encoded piece by piece, every pattern
     * is rewritten by `_encode_path_pieces` in place, and the cache starts with the
     * models of the routes that already carry one.
     */
    constructor(keys: seq<string>, routes: map<string, Route>, rawBase: string, firstArrow: string)
      requires IsQuiver(keys, routes) && DistinctRoutes(routes)
      requires forall id :: id in routes && routes[id].loaded ==> routes[id].model.Some?
      modifies routes.Values
      ensures Valid()
      ensures this.keys == keys && this.routes == routes
      ensures basePath == NormaliseBasePath(rawBase) && !EndsWith(basePath, '/')
      ensures active == firstArrow && prev == firstArrow
      ensures forall id :: id in routes ==>
                && routes[id].path == EncodePathPieces(old(routes[id].path))
                && routes[id].loaded == old(routes[id].loaded)
                && routes[id].model == old(routes[id].model)
      ensures models.Keys <= routes.Keys && forall id :: id in routes ==> (id in models <==> routes[id].loaded)
      ensures loading == map[] && live == map[] && history == []
    {
      var base := EncodeBasePath(rawBase);
      var m := InitRoutes(keys, routes);
      ghost var count := map id | id in routes :: 0;
      InitialAgree(routes, m, count);
      this.keys := keys;
      this.routes := routes;
      basePath := base;
      active := firstArrow;
      prev := firstArrow;
      models := m;
      loading := map[];
      live := map[];
      loadCount := count;
      history := [];
      new;
    }

    // -------------------------------------------------------------------------
    // The model cache

    /**
     * The synchronous part of `_load_model` (src/dark-elves.ts:70-120): an id in flight
     * gets its entry back; a `%404%` missing from the quiver gives the built-in page; a
     * loaded route gives its model; an unknown id rejects; otherwise the loader is called
     * once and its promise registered. Nothing else changes.
     */
    method LoadModel(id: string) returns (out: LoadStart)
      requires Valid()
      modifies this
      ensures Valid()
      ensures models == old(models) && live == old(live) && history == old(history)
      ensures active == old(active) && prev == old(prev)
      ensures id in old(loading) ==>
                out == Joined(old(loading)[id]) && loading == old(loading) && loadCount == old(loadCount)
      ensures id !in old(loading) && id !in routes ==>
                && out == (if id == NotFoundId then Immediate(Base404Page) else Rejected)
                && loading == old(loading) && loadCount == old(loadCount)
      ensures id !in old(loading) && id in routes && routes[id].loaded ==>
                out == Immediate(models[id]) && loading == old(loading) && loadCount == old(loadCount)
      ensures id !in old(loading) && id in routes && !routes[id].loaded ==>
                && out == Started
                && loading == old(loading)[id := Pending]
                && loadCount == old(loadCount)[id := 1]
    {
      if id in loading {
        return Joined(loading[id]);
      }
      if id !in routes {
        return if id == NotFoundId then Immediate(Base404Page) else Rejected;
      }
      var arrow := routes[id];
      assert RouteAgrees(routes[id], id, models, loading, loadCount);
      if arrow.loaded {
        return Immediate(arrow.model.value);
      }
      Register(id);
      return Started;
    }

    /** `_loading_models.set(id, promise)` after the loader of an unloaded route was called. */
    method Register(id: string)
      requires Valid() && id in routes && id !in loading && !routes[id].loaded
      modifies this
      ensures Valid()
      ensures loading == old(loading)[id := Pending] && loadCount == old(loadCount)[id := old(loadCount)[id] + 1]
      ensures models == old(models) && live == old(live) && history == old(history)
      ensures active == old(active) && prev == old(prev)
    {
      assert RouteAgrees(routes[id], id, models, loading, loadCount);
      loading := loading[id := Pending];
      loadCount := loadCount[id := loadCount[id] + 1];
      forall k | k in routes
        ensures RouteAgrees(routes[k], k, models, loading, loadCount)
      {
        if k != id {
          assert old(RouteAgrees(routes[k], k, models, loading, loadCount));
        }
      }
    }

    /**
     * A registered loader settles (src/dark-elves.ts:91-96, 112-117): on success the model
     * is cached, the route flips to loaded with that model, and the entry is deleted; on
     * failure the rejected entry stays.
     */
    method Settle(id: string, ok: bool, m: PageModel)
      requires Valid() && id in loading && loading[id] == Pending
      modifies this, routes[id]
      ensures Valid()
      ensures ok ==>
                && models == old(models)[id := m]
                && loading == old(loading) - {id}
                && routes[id].loaded && routes[id].model == Some(m)
      ensures !ok ==>
                && models == old(models)
                && loading == old(loading)[id := Failed]
                && routes[id].loaded == old(routes[id].loaded) && routes[id].model == old(routes[id].model)
      ensures routes[id].path == old(routes[id].path)
      ensures loadCount == old(loadCount) && live == old(live) && history == old(history)
      ensures active == old(active) && prev == old(prev)
    {
      assert RouteAgrees(routes[id], id, models, loading, loadCount);
      if ok {
        models := models[id := m];
        var arrow := routes[id];
        arrow.loaded := true;
        arrow.model := Some(m);
        loading := loading - {id};
      } else {
        loading := loading[id := Failed];
      }
      forall k | k in routes
        ensures RouteAgrees(routes[k], k, models, loading, loadCount)
      {
        if k != id {
          assert routes[k] != routes[id];
          assert old(RouteAgrees(routes[k], k, models, loading, loadCount));
        }
      }
    }

    /**
     * `loadDrawnArrow` (src/dark-elves.ts:122-124): `_load_model` on the active route,
     * with each of its outcomes.
     */
    method LoadDrawnArrow() returns (out: LoadStart)
      requires Valid()
      modifies this
      ensures Valid()
      ensures models == old(models) && live == old(live) && history == old(history)
      ensures active == old(active) && prev == old(prev)
      ensures active in old(loading) ==>
                out == Joined(old(loading)[active]) && loading == old(loading) && loadCount == old(loadCount)
      ensures active !in old(loading) && active !in routes ==>
                && out == (if active == NotFoundId then Immediate(Base404Page) else Rejected)
                && loading == old(loading) && loadCount == old(loadCount)
      ensures active !in old(loading) && active in routes && routes[active].loaded ==>
                out == Immediate(models[active]) && loading == old(loading) && loadCount == old(loadCount)
      ensures active !in old(loading) && active in routes && !routes[active].loaded ==>
                && out == Started
                && loading == old(loading)[active := Pending]
                && loadCount == old(loadCount)[active := 1]
    {
      out := LoadModel(active);
    }

    /** A route's loader ran at most once, and a cached model and an in-flight entry exclude each other. */
    lemma LoadAtMostOnce(id: string)
      requires Valid() && id in routes
      ensures loadCount[id] <= 1
      ensures !(IsModelLoaded(id) && IsModelLoading(id))
    {
      assert RouteAgrees(routes[id], id, models, loading, loadCount);
    }

    // -------------------------------------------------------------------------
    // Paths and links

    /**
     * `arrow_path(id, extra_params)` (src/dark-elves.ts:149-209): the stored pattern with
     * its placeholders filled, a query string only when a path record is present, behind
     * the base path; without a path record, the base path and the pattern unchanged.
     */
    method ArrowPath(id: string, extra: Option<ExtraParams>) returns (r: string)
      requires id in routes && FillableExtra(extra)
      ensures r == ArrowPathOf(basePath, routes[id].path, extra)
      ensures extra.None? || extra.value.path.None? ==> r == basePath + routes[id].path
    {
      var path := routes[id].path;
      if extra.Some? && extra.value.path.Some? {
        path := FillPathParams(path, extra.value.path.value);
        if extra.value.query.Some? {
          var query := BuildQuery(extra.value.query.value);
          path := path + query;
        }
      }
      r := basePath + path;
    }

    /**
     * `create_or_retrieve_arrow` (src/dark-elves.ts:211-218): a live link is returned
     * as it is (its label unchanged); otherwise a new link is made and cached.
     */
    method CreateOrRetrieveArrow(id: string, message: Option<string>) returns (a: CrimsonArrow)
      requires Valid() && id in routes
      modifies this
      ensures Valid()
      ensures a.router == this && a.target == id
      ensures id in old(live) ==> a == old(live)[id] && live == old(live) && a.intent == old(a.intent)
      ensures id !in old(live) ==>
                && fresh(a) && live == old(live)[id := a]
                && a.aim == ArrowPathOf(basePath, routes[id].path, None)
                && a.intent == message.GetOr(DefaultIntent(id))
      ensures live == old(live)[id := a] && |live| <= |old(live)| + 1
      ensures models == old(models) && loading == old(loading) && loadCount == old(loadCount)
      ensures history == old(history) && active == old(active) && prev == old(prev)
    {
      if id in live {
        a := live[id];
        assert live == live[id := a];
        return;
      }
      a := new CrimsonArrow(this, id, message);
      LinkAdded(live, this, id, a);
      live := live[id := a];
    }

    /**
     * `get_arrow` (src/dark-elves.ts:286-295): starts the route's load when it is neither
     * loaded nor loading, then returns its link; an unknown id throws (`None`) after the
     * rejected load attempt, and nothing changes.
     */
    method GetArrow(id: string, message: Option<string>) returns (a: Option<CrimsonArrow>)
      requires Valid()
      modifies this
      ensures Valid()
      ensures id !in routes ==>
                && a == None && live == old(live)
                && loading == old(loading) && loadCount == old(loadCount)
      ensures id in routes ==> a.Some? && a.value.target == id && live == old(live)[id := a.value]
      ensures id in routes && id in old(live) ==>
                a == Some(old(live)[id]) && live == old(live) && a.value.intent == old(a.value.intent)
      ensures id in routes && id !in old(live) ==>
                && fresh(a.value)
                && a.value.aim == ArrowPathOf(basePath, routes[id].path, None)
                && a.value.intent == message.GetOr(DefaultIntent(id))
      ensures id in routes && id !in old(models) && id !in old(loading) ==>
                loading == old(loading)[id := Pending] && loadCount == old(loadCount)[id := 1]
      ensures id in old(models) || id in old(loading) ==>
                loading == old(loading) && loadCount == old(loadCount)
      ensures models == old(models) && history == old(history)
      ensures active == old(active) && prev == old(prev)
    {
      if !IsModelLoaded(id) && !IsModelLoading(id) {
        var _ := LoadModel(id);
      }
      if id !in routes {
        return None;
      }
      var arrow := CreateOrRetrieveArrow(id, message);
      return Some(arrow);
    }

    // -------------------------------------------------------------------------
    // Navigation

    /**
     * The step after the load of a pull (src/dark-elves.ts:137-145): with an `on_pulled`
     * callback, the pull waits for it, handing it the model of the route active now;
     * otherwise the pulled route becomes active and the active one previous.
     */
    method CallbackStep(id: string, params: Option<ExtraParams>) returns (stage: PullStage)
      requires Valid() && id in routes
      modifies this
      ensures Valid()
      ensures routes[id].hasOnPulled ==>
                && stage == AwaitingCallback(id, params, if old(active) in models then Some(models[old(active)]) else None)
                && active == old(active) && prev == old(prev)
      ensures !routes[id].hasOnPulled ==> stage == Done && prev == old(active) && active == id
      ensures models == old(models) && loading == old(loading) && loadCount == old(loadCount)
      ensures live == old(live) && history == old(history)
    {
      if routes[id].hasOnPulled {
        var model := if active in models then Some(models[active]) else None;
        return AwaitingCallback(id, params, model);
      }
      Arrive(id);
      return Done;
    }

    /**
     * `pull_from_quiver` up to its first await (src/dark-elves.ts:126-135). An unknown id
     * makes `%404%` active and pushes nothing. A known id pushes exactly its
     * `arrow_path`; a route neither cached nor loading starts its load and waits for it;
     * any other route (one in flight included) goes straight to the callback step.
     */
    method PullFromQuiver(id: string, params: Option<ExtraParams>) returns (stage: PullStage)
      requires Valid() && FillableExtra(params)
      modifies this
      ensures Valid()
      ensures id !in routes ==>
                && stage == Done && prev == old(active) && active == NotFoundId
                && history == old(history) && loading == old(loading) && loadCount == old(loadCount)
      ensures id in routes ==> history == old(history) + [ArrowPathOf(basePath, routes[id].path, params)]
      ensures id in routes && id !in old(models) && id !in old(loading) ==>
                && stage == AwaitingLoad(id, params)
                && loading == old(loading)[id := Pending] && loadCount == old(loadCount)[id := 1]
                && active == old(active) && prev == old(prev)
      ensures id in routes && (id in old(models) || id in old(loading)) ==>
                && loading == old(loading) && loadCount == old(loadCount)
                && (routes[id].hasOnPulled ==>
                      && stage == AwaitingCallback(id, params, if old(active) in models then Some(models[old(active)]) else None)
                      && active == old(active) && prev == old(prev))
                && (!routes[id].hasOnPulled ==> stage == Done && prev == old(active) && active == id)
      ensures models == old(models) && live == old(live)
    {
      if id !in routes {
        Arrive(NotFoundId);
        return Done;
      }
      var path := ArrowPath(id, params);
      history := history + [path];
      if !IsModelLoaded(id) && !IsModelLoading(id) {
        var _ := LoadModel(id);
        return AwaitingLoad(id, params);
      }
      stage := CallbackStep(id, params);
    }

    /**
     * A pull resumes once the load it awaited has settled (src/dark-elves.ts:135): a
     * rejected load aborts the pull with nothing further changed; a cached model moves on
     * to the callback step.
     */
    method ResumeAfterLoad(id: string, params: Option<ExtraParams>) returns (stage: PullStage)
      requires Valid() && id in routes
      requires id in models || (id in loading && loading[id] == Failed)
      modifies this
      ensures Valid()
      ensures id !in old(models) ==> stage == Aborted && active == old(active) && prev == old(prev)
      ensures id in old(models) && !routes[id].hasOnPulled ==> stage == Done && prev == old(active) && active == id
      ensures id in old(models) && routes[id].hasOnPulled ==>
                && stage == AwaitingCallback(id, params, if old(active) in models then Some(models[old(active)]) else None)
                && active == old(active) && prev == old(prev)
      ensures models == old(models) && loading == old(loading) && loadCount == old(loadCount)
      ensures live == old(live) && history == old(history)
    {
      if !IsModelLoaded(id) {
        return Aborted;
      }
      stage := CallbackStep(id, params);
    }

    /**
     * A pull resumes once `on_pulled` has settled (src/dark-elves.ts:139-145): after a
     * success the pulled route becomes active and the route active at that moment becomes
     * previous; a rejection aborts the pull.
     */
    method ResumeAfterCallback(id: string, ok: bool) returns (stage: PullStage)
      requires Valid()
      modifies this
      ensures Valid()
      ensures ok ==> stage == Done && prev == old(active) && active == id
      ensures !ok ==> stage == Aborted && active == old(active) && prev == old(prev)
      ensures models == old(models) && loading == old(loading) && loadCount == old(loadCount)
      ensures live == old(live) && history == old(history)
    {
      if !ok {
        return Aborted;
      }
      Arrive(id);
      return Done;
    }

    /** The last step of a navigation: route `id` becomes active and the active one previous. */
    method Arrive(id: string)
      requires Valid()
      modifies this
      ensures Valid()
      ensures prev == old(active) && active == id
      ensures models == old(models) && loading == old(loading) && loadCount == old(loadCount)
      ensures live == old(live) && history == old(history)
    {
      prev := active;
      active := id;
    }

    // -------------------------------------------------------------------------
    // Readers

    /** `is_arrow_live` (src/dark-elves.ts:220-222). */
    predicate IsArrowLive(id: string)
      reads this
    {
      id in live
    }

    /** `is_model_loaded` (src/dark-elves.ts:224-226). */
    predicate IsModelLoaded(id: string)
      reads this
    {
      id in models
    }

    /** `is_model_loading` (src/dark-elves.ts:228-230). */
    predicate IsModelLoading(id: string)
      reads this
    {
      id in loading
    }

    /** `active_id` (src/dark-elves.ts:331-333). */
    function ActiveId(): string
      reads this
    {
      active
    }

    /**
     * `full_path` (src/dark-elves.ts:314-317): the link of the active route without
     * parameters; an active id outside the quiver throws (`None`).
     */
    function FullPath(): (r: Option<string>)
      reads this, routes.Values
      ensures r.Some? <==> active in routes
      ensures r.Some? ==> r.value == ArrowPathOf(basePath, routes[active].path, None)
    {
      if active in routes then Some(basePath + routes[active].path) else None
    }

    /**
     * `pulled_arrow` (src/dark-elves.ts:319-329): the active route's cached model; when
     * there is none, the built-in 404 page if `%404%` is active and uncached, and
     * otherwise the previous route's cached model (`None` when that is missing too).
     */
    function PulledArrow(): (r: Option<PageModel>)
      reads this
      ensures active in models ==> r == Some(models[active])
      ensures active !in models && active == NotFoundId ==> r == Some(Base404Page)
      ensures active !in models && active != NotFoundId ==> r == (if prev in models then Some(models[prev]) else None)
    {
      if active in models then Some(models[active])
      else if active == NotFoundId && NotFoundId !in models then Some(Base404Page)
      else if prev in models then Some(models[prev])
      else None
    }

    /** The routes as `(id, stored pattern)` pairs in key order. */
    function Table(): seq<(string, string)>
      requires Valid()
      reads this, routes.Values
    {
      PathTable(keys, routes)
    }

    /**
     * `find_arrow_id_by_url(url)` (src/dark-elves.ts:232-284): the scan over the keys in
     * order with early return, proved to compute the lookup of `UrlMatch`.
     */
    method FindArrowIdByUrl(url: string) returns (r: Option<(string, ExtraParams)>)
      requires Valid()
      ensures r == UrlMatch.FindArrowIdByUrl(Table(), basePath, url)
    {
      ghost var table := Table();
      for k := 0 to |keys|
        invariant FindFrom(table, basePath, url, k) == FindFrom(table, basePath, url, 0)
      {
        var id := keys[k];
        if StartsWith(id, '%') && EndsWith(id, '%') {
          continue;
        }
        var arrow := routes[id];
        if HasParam(arrow.path) {
          var m := MatchPieces(arrow.path, url);
          match m {
            case Threw => return None;
            case NoMatch => continue;
            case Matched(ps) => return Some((id, ExtraParams(Some(ps), Some([]))));
          }
        }
        if basePath + arrow.path != url {
          continue;
        }
        return Some((id, NoParams));
      }
      return Some((NotFoundId, NoParams));
    }

    /**
     * A pull of a route whose model is cached and that has no `on_pulled` runs to its
     * end at once: its link is pushed, it becomes active, and `pulled_arrow` is its model.
     */
    method PullCached(id: string, params: Option<ExtraParams>)
      requires Valid() && id in models && !routes[id].hasOnPulled && FillableExtra(params)
      modifies this
      ensures Valid()
      ensures ActiveId() == id && prev == old(active) && PulledArrow() == Some(models[id])
      ensures history == old(history) + [ArrowPathOf(basePath, routes[id].path, params)]
    {
      var stage := PullFromQuiver(id, params);
      assert stage == Done;
    }

    /**
     * A pull of a route that is neither cached nor loading, with no `on_pulled`, whose
     * load then succeeds with `m`: the loader runs once, the route ends loaded with `m`,
     * active, and `pulled_arrow` is `m`.
     */
    method PullThroughLoad(id: string, params: Option<ExtraParams>, m: PageModel)
      requires Valid() && id in routes && id !in models && id !in loading && FillableExtra(params)
      requires !routes[id].hasOnPulled
      modifies this, routes[id]
      ensures Valid()
      ensures ActiveId() == id && prev == old(active) && PulledArrow() == Some(m)
      ensures routes[id].loaded && routes[id].model == Some(m) && models == old(models)[id := m]
      ensures loadCount[id] == 1 && loading == old(loading)
      ensures history == old(history) + [ArrowPathOf(basePath, old(routes[id].path), params)]
    {
      ghost var before := loading;
      var stage := PullFromQuiver(id, params);
      assert stage == AwaitingLoad(id, params);
      Settle(id, true, m);
      MapAddRemove(before, id, Pending);
      stage := ResumeAfterLoad(id, params);
      assert stage == Done;
    }

    /**
     * `links_list` (src/dark-elves.ts:297-303): `get_arrow` on each id in turn, one link
     * per id in the same order.
     */
    method LinksList(ids: seq<string>) returns (links: seq<CrimsonArrow>)
      requires Valid() && forall i :: 0 <= i < |ids| ==> ids[i] in routes
      modifies this
      ensures Valid()
      ensures |links| == |ids|
      ensures forall i :: 0 <= i < |ids| ==> links[i].target == ids[i] && ids[i] in live && live[ids[i]] == links[i]
      ensures AddsKeys(live.Keys, old(live).Keys, ids, {})
      ensures KeepsLinks(live, old(live))
      ensures AddsKeys(loading.Keys, old(loading).Keys, ids, old(models).Keys)
      ensures KeepsLoads(loading, old(loading))
      ensures models == old(models) && history == old(history)
      ensures active == old(active) && prev == old(prev)
    {
      links := [];
      for i := 0 to |ids|
        invariant Valid()
        invariant |links| == i
        invariant forall j :: 0 <= j < i ==> ids[j] in live && live[ids[j]] == links[j]
        invariant AddsKeys(live.Keys, old(live).Keys, ids[..i], {}) && KeepsLinks(live, old(live))
        invariant AddsKeys(loading.Keys, old(loading).Keys, ids[..i], old(models).Keys) && KeepsLoads(loading, old(loading))
        invariant models == old(models) && history == old(history)
        invariant active == old(active) && prev == old(prev)
      {
        ghost var before := live;
        ghost var loadingBefore := loading;
        var link := GetArrow(ids[i], None);
        LinksStep(ids, links, before, live, i, link.value);
        links := links + [link.value];
        LinkCacheStep(ids, i, old(live), before, live, link.value);
        LoadCacheStep(ids, i, old(models).Keys, old(loading), loadingBefore, loading);
      }
      assert ids[..|ids|] == ids;
      forall i | 0 <= i < |ids|
        ensures links[i].target == ids[i]
      {
        assert live[ids[i]] == links[i];
      }
    }
  }

  /**
   * A link to a route (src/dark-elves.ts:340-364): its target and its `aim`, the
   * route's path without parameters, are fixed when it is made; `intent`, the label,
   * defaults to the id with `_` and `-` spaced out.
   */
  class CrimsonArrow {
    const router: CrimsonRanger
    const target: string
    const aim: string
    var intent: string

    constructor(router: CrimsonRanger, target: string, message: Option<string>)
      requires target in router.routes
      ensures this.router == router && this.target == target
      ensures aim == ArrowPathOf(router.basePath, router.routes[target].path, None)
      ensures intent == message.GetOr(DefaultIntent(target))
    {
      this.router := router;
      this.target := target;
      var path := router.ArrowPath(target, None);
      aim := path;
      intent := message.GetOr(DefaultIntent(target));
    }
  }

  /**
   * `missElf` (src/dark-elves.ts:377-398): the configuration converted route by route,
   * in key order, then a router over it.
   */
  method MissElf(keys: seq<string>, config: map<string, ConfigEntry>, path: string, firstArrow: string)
    returns (ranger: CrimsonRanger)
    requires IsQuiver(keys, config)
    requires forall id :: id in config ==> Convertible(config[id])
    ensures fresh(ranger) && ranger.Valid()
    ensures ranger.keys == keys && ranger.routes.Keys == config.Keys
    ensures ranger.basePath == NormaliseBasePath(path) && ranger.active == firstArrow && ranger.prev == firstArrow
    ensures ranger.loading == map[] && ranger.live == map[] && ranger.history == []
    ensures forall id :: id in config ==>
              && ranger.routes[id].path == EncodePathPieces(ShapeOf(config[id]).path)
              && !ranger.routes[id].hasOnPulled
              && (ranger.routes[id].loaded <==> config[id].model.Given?)
    ensures forall id :: id in config && config[id].model.Given? ==> ranger.models[id] == config[id].model.m
  {
    var routes := BuildQuiver(keys, config);
    ranger := new CrimsonRanger(keys, routes, path, firstArrow);
    forall id | id in config && config[id].model.Given?
      ensures ranger.models[id] == config[id].model.m
    {
      assert RouteAgrees(ranger.routes[id], id, ranger.models, ranger.loading, ranger.loadCount);
    }
  }
}
