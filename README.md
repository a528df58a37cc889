# Crimson router core in Dafny

This project models the client-side router of the Crimson/Norishre library:

- `CrimsonRanger` (src/dark-elves.ts). It serves a *quiver*: routes keyed by id, in `Object.keys` order. It keeps:
  - a normalised base path;
  - the active and previous route ids;
  - a cache of page models, with the loads still in flight;
  - a cache of links.
- `CrimsonArrow`, the link object a router hands out.
- `missElf`, which turns a route configuration into a quiver and a router.
- `Norishre` (src/norishre.ts). It is a `CrimsonRanger` that takes its first route from the URL, follows the browser's back and forward buttons, and looks routes up by exact path only.
- `missNorishre`, the configuration helper for `Norishre`.

Modules, one file each:

- `Text`: `split`/`join`, `includes`/`replace` and the trailing-`/` trim, on `seq<char>`.
- `Uri`: `encodeURIComponent` and `decodeURIComponent` as ECMA-262 section 19.2.6 defines them. They percent-encode the UTF-8 bytes of every character outside the unreserved set, as in RFC 3986 section 2.1. Decoding is proved to invert encoding.
- `PathPattern`: the placeholder expression `\[([^\]]+)\]`, `_encode_path_pieces` and the base-path normalisation.
- `PathFill`: the path-filling and query-string parts of `arrow_path`.
- `UrlMatch`: the parameter-aware `find_arrow_id_by_url` of `CrimsonRanger`.
- `Quiver`: route objects, the configuration conversion and key-ordered views.
- `DarkElves`: `CrimsonRanger`, `CrimsonArrow` and `missElf`.
- `NorishreRouter`: `Norishre` and `missNorishre`.

The loops of src/dark-elves.ts are methods proved against the functions that specify them. The two first-match loops of src/norishre.ts return early from a scan, and are recursive functions instead.

**Router state.** The router is a class:

- a route's `path`, `loaded` and `model` change in place;
- `_loading_models`, `models` and `_live_arrows` are `map` fields that the methods reassign.

The router invariant `Valid` ties these together:

- A route is loaded exactly when the cache holds its model.
- A load in flight or a failed load belongs to a route that is not loaded.
- Every loader has been called at most once. A ghost per-route load counter tracks this.
- Every link is filed under its own target.

**Asynchrony.** The `await`s of `_load_model` and `pull_from_quiver` are split into steps: starting a load and settling it, and a pull that stops at each await and is resumed by a later call. Every navigation ends in the same step, `DarkElves.CrimsonRanger.Arrive`: the active route becomes the previous one and the target becomes active (src/dark-elves.ts:128-129 and 144-145, and `popstate` at src/norishre.ts:27-28).

**Browser state.** `location.pathname` is a parameter, and `history.pushState` appends to a ghost log.

The model follows the code as written where it departs from the obvious intent:

- A literal piece of a placeholder pattern is compared with the whole URL (src/dark-elves.ts:251). So a placeholder route whose pattern starts with `/` matches only the empty URL.
- The query record is read only when a path record is present (src/dark-elves.ts:153, 181).
- `on_pulled` receives the model of the route that was active before the pull (src/dark-elves.ts:138).
- A failed load stays in `_loading_models` (src/dark-elves.ts:93, 114).
- `pull_from_quiver` does not wait for a load already in flight (src/dark-elves.ts:134).
- Query names are not encoded (src/dark-elves.ts:192, 202).
- Both configuration helpers drop `on_pulled` (src/dark-elves.ts:382-390, src/norishre.ts:54-62).
- The `Norishre` constructor looks up its first route over the raw base path and the raw patterns, before the router encodes them (src/norishre.ts:23-24).
- The two lookups skip different keys. `CrimsonRanger`'s lookup skips every key that starts and ends with `%`. The `Norishre` lookups skip only `%404%`.

The readers `is_arrow_live`, `is_model_loaded`, `is_model_loading` and `active_id` (src/dark-elves.ts:220-230, 331-333) are the predicates and function `CrimsonRanger.IsArrowLive`, `IsModelLoaded`, `IsModelLoading` and `ActiveId`. They read one field each. The contracts below state their properties, chiefly `LoadAtMostOnce`, `PullCached` and `PullThroughLoad`.

## Model

| member | source | states |
|---|---|---|
| Text.TrimTrailing | src/dark-elves.ts:28-30 | The `while` loop that strips trailing `/` computes the trim, and its result never ends in `/` |
| Text.TrimEndShape | src/dark-elves.ts:28-30 | The trimmed string does not end in the character, and the input is the trimmed string followed by some number of copies of it |
| Text.JoinSplit | src/dark-elves.ts:31 | Joining the `/`-pieces of a string gives the string back, so splitting, mapping and joining loses nothing |
| Text.SplitJoin | src/dark-elves.ts:62-67 | Splitting a join of separator-free pieces gives the same pieces back |
| Uri.EncodedCharset | src/dark-elves.ts:31 | Every character `encodeURIComponent` emits is unreserved or `%` |
| Uri.EncodeUnreserved | src/dark-elves.ts:66 | A string of unreserved characters encodes to itself, and encoding never shortens a string |
| Uri.DecodeEncode | src/dark-elves.ts:259 | `decodeURIComponent` inverts `encodeURIComponent` on every string, with no `URIError` |
| PathPattern.FirstParamFrom | src/dark-elves.ts:14 | The match of `\[([^\]]+)\]` is the leftmost `[`…`]` with a non-empty, `]`-free name, and no match means no such pair exists |
| PathPattern.ParamShape | src/dark-elves.ts:14 | `test` succeeds exactly when `match` finds a name, and exactly when some bracketed non-empty name occurs; the name holds no `]` |
| PathPattern.PlaceholderPiece | src/dark-elves.ts:249 | The piece `[name]` matches with exactly `name` as its parameter |
| PathPattern.EncodedHasNoParam | src/dark-elves.ts:62-66 | An encoded piece never matches the placeholder expression, because `[` is escaped |
| PathPattern.EncodePathPiecesShape | src/dark-elves.ts:61-68 | `_encode_path_pieces` keeps the number of `/`-pieces, keeps placeholder pieces unchanged and encodes every other piece |
| PathPattern.BasePathShape | src/dark-elves.ts:28-31 | The stored base path never ends in `/`, its pieces are the encoded pieces of the trimmed input, and it is empty exactly when the trimmed input is |
| PathFill.ReplaceAll | src/dark-elves.ts:173-175 | After the loop no `[name]` remains in the piece, and a piece without `[name]` is returned unchanged |
| PathFill.ReplaceNeverClears | src/dark-elves.ts:173-175 | When the value itself contains `[name]`, a replacement leaves `[name]` in the piece, so the loop never ends |
| PathFill.ReplaceLoop | src/dark-elves.ts:173-175 | The `while`/`replace` loop computes the full replacement |
| PathFill.FillOnePiece | src/dark-elves.ts:159-177 | The body for one piece: a string value replaces every placeholder and then encodes; an array value only encodes; a piece without the placeholder is kept |
| PathFill.FillPiecesLoop | src/dark-elves.ts:157-179 | The indexed loop over the pieces fills each piece independently |
| PathFill.FillPathParams | src/dark-elves.ts:155-180 | The loop over the path record applies one name after another to the whole path |
| PathFill.FillPieceDecodes | src/dark-elves.ts:159-177 | A filled piece decodes back to the replaced text, or to the unchanged piece for an array, and holds no `/` or `[` |
| PathFill.FillStepPieces | src/dark-elves.ts:157-179 | The `/`-pieces of the filled path are exactly the filled pieces of the original path |
| PathFill.FillPathUnused | src/dark-elves.ts:155-180 | A path record none of whose names occurs in the pattern leaves the path unchanged |
| PathFill.FillWholePiece | src/dark-elves.ts:173-177 | A piece that is just `[name]` becomes the encoded value |
| PathFill.FillSecondPiece | src/dark-elves.ts:155-180 | A pattern `/a/[name]` filled with `{ path: { name: v } }` gives `/a/` followed by the encoded `v`, as for `/hello/[name]` and `John` |
| PathFill.QueryStringSnoc | src/dark-elves.ts:184-204 | Each record entry adds `?` first and `&` afterwards, then its text, so the query string grows entry by entry in key order |
| PathFill.BuildQuery | src/dark-elves.ts:181-205 | The query loop produces `?` and the entries joined by `&` in key order: `name=enc(value)` for a string, one pair per element for an array, nothing for an empty record |
| PathFill.AppendArrayPairs | src/dark-elves.ts:195-203 | The inner loop over an array value appends its pairs in element order, separated by `&`, and nothing for an empty array |
| PathFill.ArrPairsSnoc | src/dark-elves.ts:196-202 | One more element of an array value appends `&` and one more pair, except for the first |
| PathFill.QueryRoundTrip | src/dark-elves.ts:181-205 | Splitting the query string at `&` and `=` and decoding the values gives back every (name, value) pair in order, for names without `&` or `=` |
| UrlMatch.AddParamValues | src/dark-elves.ts:260-269 | Adding a value appends it to that name's values and changes no other name; a new name is appended; distinct names stay distinct; a first value is stored as a string, a second turns it into a two-element array, later ones are pushed, and every array keeps at least two values |
| UrlMatch.MatchPieces | src/dark-elves.ts:238-271 | The loop with its `correct_id` flag computes the piece-by-piece match of one placeholder route |
| UrlMatch.MatchCollects | src/dark-elves.ts:243-270 | A successful match holds, for every name, exactly the decoded URL pieces at that name's placeholder positions in order, with names kept distinct and no array of fewer than two values |
| UrlMatch.MatchRouteForms | src/dark-elves.ts:241-272 | The parameters of a match hold, per name, its decoded URL pieces in order: absent when there are none, a string when there is one, an array when there are several; names are distinct |
| UrlMatch.ThrewOnBadEscape | src/dark-elves.ts:257-259 | Matching throws only where a placeholder piece meets a URL piece that `decodeURIComponent` rejects |
| UrlMatch.LeadingSlashRoute | src/dark-elves.ts:250-256 | A placeholder pattern starting with `/` matches only the empty URL, with no parameters, because the literal first piece is compared with the whole URL |
| UrlMatch.FindFrom | src/dark-elves.ts:232-284 | The scan returns `%404%` with `{}` or a key that does not start and end with `%`; `None` (the `URIError`) only when some eligible placeholder route's match throws |
| UrlMatch.SkipReserved | src/dark-elves.ts:234-236 | Keys that start and end with `%` do not affect the scan |
| UrlMatch.FindPlainFrom | src/dark-elves.ts:276-283 | Without placeholders the scan never throws, returns `{}`, and answers the first eligible key whose base path plus pattern is the URL, or `%404%` exactly when there is none |
| UrlMatch.FindMixedFrom | src/dark-elves.ts:232-284 | With `/`-led placeholder patterns and a non-empty URL (or no placeholders at all), the scan never throws, returns `{}`, and answers the first eligible key without placeholders whose base path plus pattern is the URL, or `%404%` exactly when there is none |
| UrlMatch.LookupArrowPath | src/dark-elves.ts:232-284 | Looking up the non-empty `arrow_path` of a route without placeholders, in a table whose placeholder patterns start with `/`, answers the first eligible key with the same pattern, at or before that route |
| UrlMatch.NonEmptyUrlSkipsPlaceholders | src/dark-elves.ts:239-275 | For a non-empty URL and `/`-led placeholder patterns, the scan never throws and never returns path parameters |
| UrlMatch.EmptyUrlTakesPlaceholder | src/dark-elves.ts:239-274 | For the empty URL, when the first eligible route is a `/`-led placeholder route, it wins with `{ path: {}, query: {} }` |
| Quiver.ConvertEntry | src/dark-elves.ts:381-390 | A loader becomes a delayed route with the entry's path; a model becomes a loaded route with the entry's path or `/**/*`; `on_pulled` is dropped |
| Quiver.BuildQuiver | src/dark-elves.ts:378-393 | The loop builds one fresh route object per key, each of its entry's shape, and no two keys share a route |
| Quiver.PathTable | src/dark-elves.ts:233-237 | The key-ordered view lists each key with its current pattern |
| Quiver.BuiltTable | src/norishre.ts:50-68 | The patterns of a built quiver are, in key order, the paths the configuration gives |
| DarkElves.DefaultIntent | src/dark-elves.ts:355 | The default label has the id's length, with every `_` and `-` replaced by a space and every other character kept |
| DarkElves.ListArrowIds | src/dark-elves.ts:306-312 | An id is listed exactly when it is a key that neither starts with `%` nor matches the placeholder expression |
| DarkElves.ListArrowIdsInOrder | src/dark-elves.ts:306-312 | The listed ids keep the order of the keys: any two listed ids occur in that order among the keys |
| DarkElves.EncodeBasePath | src/dark-elves.ts:27-32 | The stored base path is the normalised input and never ends in `/` |
| DarkElves.InitRoutes | src/dark-elves.ts:41-59 | Every pattern is rewritten by `_encode_path_pieces` and nothing else changes; the cache holds exactly the loaded routes, with their own models |
| DarkElves.CrimsonRanger.constructor | src/dark-elves.ts:26-39 | The new router satisfies the invariant, with the normalised base path, both ids equal to the first route, encoded patterns, the models of the loaded routes, and nothing loading, linked or pushed |
| DarkElves.CrimsonRanger.LoadModel | src/dark-elves.ts:70-120 | An id in flight gets its entry back; an absent `%404%` gives the built-in page and an unknown id rejects, with no change; a loaded route gives its model; otherwise one load starts and is registered |
| DarkElves.CrimsonRanger.Register | src/dark-elves.ts:104-118 | Calling the loader registers a pending entry and adds one to the route's loader-call count |
| DarkElves.CrimsonRanger.Settle | src/dark-elves.ts:86-96 | Success stores the model in the cache and on the route, marks it loaded and deletes the entry; failure leaves only a failed entry |
| DarkElves.CrimsonRanger.LoadDrawnArrow | src/dark-elves.ts:122-124 | The load of the active route, with every outcome: an entry in flight is joined; an absent `%404%` gives the built-in page and another unknown id rejects; a loaded route gives its cached model; otherwise one load starts. Only a started load changes `_loading_models` |
| DarkElves.CrimsonRanger.LoadAtMostOnce | src/dark-elves.ts:70-120 | A route's loader runs at most once over the router's lifetime, and no route is both loaded and loading |
| DarkElves.CrimsonRanger.ArrowPath | src/dark-elves.ts:149-209 | The path is the base path, the filled pattern and the query; without a path record it is the base path plus the stored pattern, and a lone query is ignored |
| DarkElves.CrimsonRanger.CreateOrRetrieveArrow | src/dark-elves.ts:211-218 | A repeated id gets the identical link with its first label; a new id gets a fresh link, the cache grows by exactly that link, and nothing else changes |
| DarkElves.CrimsonRanger.GetArrow | src/dark-elves.ts:286-295 | A load starts only for a route neither loaded nor loading. The link is the cached one, with its label unchanged, or a fresh one aimed at the route's `arrow_path` and labelled with the message or the default label. An unknown id changes nothing and has no link |
| DarkElves.CrimsonRanger.CallbackStep | src/dark-elves.ts:137-145 | With `on_pulled`, the pull waits for it, having passed the model of the route active before; without one, the route becomes active and the old one previous |
| DarkElves.CrimsonRanger.PullFromQuiver | src/dark-elves.ts:126-146 | An unknown id makes `%404%` active and pushes nothing; a known id pushes exactly its `arrow_path`, starts a load only when the model is neither cached nor loading, and otherwise goes on to the callback or finishes |
| DarkElves.CrimsonRanger.ResumeAfterLoad | src/dark-elves.ts:134-145 | After the awaited load, a failure aborts the pull with the ids unchanged, a success with an `on_pulled` callback waits for it with the ids unchanged, and a success without one finishes |
| DarkElves.CrimsonRanger.ResumeAfterCallback | src/dark-elves.ts:139-145 | After `on_pulled` settles, the route becomes active and the old one previous; a rejection leaves both ids |
| DarkElves.CrimsonRanger.PullCached | src/dark-elves.ts:126-146 | Pulling a cached route without a callback makes it active, pushes its path and shows its model |
| DarkElves.CrimsonRanger.PullThroughLoad | src/dark-elves.ts:126-146 | Pulling an unloaded route through a successful load makes it active and shows the loaded model, with one loader call |
| DarkElves.CrimsonRanger.FullPath | src/dark-elves.ts:314-317 | For a known active route, the base path plus its pattern, which is its `arrow_path` without parameters |
| DarkElves.CrimsonRanger.PulledArrow | src/dark-elves.ts:319-329 | The cached model of the active route; otherwise the built-in 404 page when `%404%` is active without a model; otherwise the previous route's model |
| DarkElves.CrimsonRanger.FindArrowIdByUrl | src/dark-elves.ts:232-284 | The loop computes the key-ordered scan over the router's base path and stored patterns |
| DarkElves.CrimsonRanger.LinksList | src/dark-elves.ts:297-304 | One link per requested id, in order, each the cached link for its id; the link cache gains exactly the requested ids and keeps its old links; a load is registered, as pending, for exactly the requested ids with no cached model and no load already in flight, and old load entries stay |
| DarkElves.CrimsonArrow.constructor | src/dark-elves.ts:351-356 | A link keeps its router and target; its aim is the target's `arrow_path` without parameters; its label is the message or the default label |
| DarkElves.MissElf | src/dark-elves.ts:377-398 | The router serves the configuration's keys in order, each route converted and encoded, loaded exactly when a model was given, with that model cached, without `on_pulled`, and with the given first route |
| NorishreRouter.FindExactFrom | src/norishre.ts:4-19 | The result is `%404%` exactly when no key other than `%404%` has base path plus pattern equal to the URL; otherwise it is the first such key |
| NorishreRouter.ShadowsFrom | src/norishre.ts:32-47 | Over patterns without placeholders, where `%404%` is the only reserved key, the exact lookup answers what the parameter-aware lookup answers, with `{}` parameters |
| NorishreRouter.ExactRoundTrip | src/norishre.ts:32-47 | Looking up a route's base path plus pattern finds a key other than `%404%`, at or before that route, with the same pattern |
| NorishreRouter.TableHits | src/norishre.ts:34-46 | The key-ordered scan finds no hit exactly when no route other than `%404%` has the URL as its base path plus pattern |
| NorishreRouter.Norishre.constructor | src/norishre.ts:22-30 | A given first route is kept; without one, the first route is the exact lookup over the raw base path and raw patterns; the rest is the `CrimsonRanger` construction |
| NorishreRouter.Norishre.FindArrowIdByUrl | src/norishre.ts:32-47 | The id is `%404%` or a route whose stored base path plus pattern is the URL, and it is `%404%` exactly when no such route other than `%404%` exists |
| NorishreRouter.Norishre.Popstate | src/norishre.ts:25-29 | The looked-up route becomes active and the old active route previous; nothing is pushed, loaded, cached or linked |
| NorishreRouter.MissNorishre | src/norishre.ts:50-70 | The router serves the configuration's keys in order, each route converted and encoded, loaded exactly when a model was given, with that model cached, and without `on_pulled`. No first route is given, so the first route is the exact lookup of the URL over the converted paths |

## Left out

- Browser globals: `location.pathname` is a parameter, `history.pushState` appends to a ghost log, and the `popstate` listener is the method `Popstate`.
- The event loop: promises become explicit steps. The bodies of `arrow.load()` and `on_pulled` are foreign callbacks. Only their outcome, a model or a rejection, enters the model.
- The eager 404 preload in `_init_` (src/dark-elves.ts:54-56) is a no-op here. It runs before `_loading_models` is assigned, so it throws before changing anything.
- The `CrimsonArrow` click handler, its `element` slot and `on_pulled` (src/dark-elves.ts:346-349, 356-363), the template strings, and the content of the built-in 404 page are UI and are not modelled.
- `Object.freeze` on the quiver is not modelled. The route objects stay mutable, as the source's own writes to `path`, `loaded` and `model` need.
- The key order is a given sequence. The `Object.keys` rule that integer-like keys come first is not modelled.
- Names inherited from `Object.prototype` are not modelled. JavaScript's `in` also sees names such as `constructor`, `toString` and `__proto__` on a plain object. Membership here is own-key map membership. So a placeholder `[constructor]` gives `{constructor: v}` here (src/dark-elves.ts:260), where the source builds an array holding the inherited function and `v`. Likewise `pull_from_quiver("toString")` (src/dark-elves.ts:127) and `is_model_loaded` (src/dark-elves.ts:225) treat such a name as absent here.
- Models are opaque handles. A cached model is always truthy, so the falsy checks of src/dark-elves.ts:134 and 322 become map membership.
- `Norishre` holds the `CrimsonRanger` it extends instead of inheriting from it. The override is the method `Norishre.FindArrowIdByUrl`, which `Popstate` calls. `ShadowsFrom` only shows that the two lookups agree on patterns without placeholders when `%404%` is the only reserved key.
- src/router.ts and src/base-types.d.ts are not part of this model. The first is a superseded prototype. The second holds declarations only, which became the datatypes and the `Route` class.
- The UTF-8 error paths of the URI functions are not modelled. Strings are taken to hold Unicode scalar values, so encoding never throws. A malformed `%` escape in a URL is modelled as the `None` result of the lookup.
- PathFill.ReplaceAll: requires a value shorter than `[name]` or free of `[`. This is enough for the `while`/`replace` loop to stop. Some other values also stop in the source and are excluded here. With `[name]` inside the value the source loops forever (`ReplaceNeverClears`).
- PathFill.FillPathParams: requires string values without `$`, because `String.prototype.replace` interprets `$` patterns in its replacement, which are not modelled.
- DarkElves.CrimsonRanger.ArrowPath: requires a known id and replaceable values. For an unknown id the source throws a `TypeError`.
- DarkElves.CrimsonRanger.FullPath: answers `None` when the active id is not a route. The source throws a `TypeError` there.
- DarkElves.CrimsonRanger.PulledArrow: the `null` check on the active id (src/dark-elves.ts:320) is omitted, because the id is always a string here.
- DarkElves.CrimsonRanger.constructor: requires that no two keys share a route object and that every loaded route carries a model. Both always hold for routes built by `missElf` or `missNorishre`.
- DarkElves.CrimsonRanger.PullFromQuiver: requires replaceable parameter values, as `ArrowPath` does.
- DarkElves.CrimsonRanger.LinksList: requires that every requested id is a route. For an unknown id the source throws a `TypeError` in `arrow_path`, after the link's model load was attempted. The call without arguments uses the default `list_arrow_ids()` (src/dark-elves.ts:297), which is `LinksList(ListArrowIds(keys))`; every id `ListArrowIds` returns is a key of the quiver, so that call meets the requirement.
