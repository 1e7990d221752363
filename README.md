# Hexagon map core, modelled in Dafny

This project models the core of an Angular app. The app draws GeoJSON
features on a Google map as hexagonal H3 cells. The model covers five parts:

- **Worker pool** (`worker_pool.dfy`, module `WorkerPool`). A class `Pool`
  with the pool's own fields: the worker list, the `queues` array, the set of
  busy workers, and a promise counter. Each method models one method or event
  handler of `WorkerPool`, with its quirks kept as written:
  - `run` appends every task to `queues`, even one it dispatches at once.
  - `handleResult` resolves the *last* queued task, then re-posts the *first*.
  - `handleErrorResult` followed by `cleanup` moves the next head to the tail.

  Effects on the outside world go into a ghost log, in order: postMessage,
  resolve, reject and terminate.
- **Web worker** (`hex_worker.dfy`, module `HexWorker`). The `message`
  handler is a method with a loop over the rings, proved against the function
  `Response`. `traverseCoordinates` is the recursive function pair
  `Traverse`/`TraverseFrom`, which returns the callback arguments in call
  order and whether the walk threw.
- **Map service** (`map_service.dfy`, module `MapService`).
  `updatedCoords`/`convertCoordsNested` are mutually recursive functions over
  JavaScript values (`js_values.dfy`). The feature mapping of
  `loadPolygonData` is `LoadFeatures`. They are compared with a reference
  definition, `MapPairs`.
- **Map component** (`map_component.dfy`, module `HexMap`). It covers:
  - the zoom-to-resolution table;
  - the cache key;
  - the per-feature cache-or-compute pass, specified by the function `Render`;
  - a class `MapComponent` with `hexPolygons`, `currentZoom`,
    `currentResolution` and the cache as fields, and with `clearHexPolygons`,
    `drawHexes`, `updateHexagons` and the `zoom_changed` listener as methods.
- **Throttle** (`throttle.dfy`, module `Throttle`). A class `Throttled` with
  the `inThrottle` flag as a field. `Call` is one call of the wrapper, and
  `Expire` is the timer callback firing.

Supporting modules:
- `wrappers.dfy`: `Option` and `NoDuplicates`.
- `text.dfy`: the decimal text a template literal gives a number, shown to be
  injective.

Foreign calls become parameters of the members that use them:
- `polyfill`: h3 `polygonToCellsExperimental`, returning the cells or the
  exception thrown.
- `boundary`: h3 `cellToBoundary` followed by the `[lat, lng]` mapping.
- `proj4`: the reprojection library.
- `compute`: one awaited `pool.run`.
- `fn`: the throttled function, which returns a value or throws.

A JavaScript `undefined` resolution (a zoom outside the table) is `None`. It
prints as `undefined` in a cache key.

## Model

| member | source | states |
|---|---|---|
| WorkerPool.PoolSize | src/app/shared/worker/worker-pool.ts:24-27 | The pool size is between 2 and 4. It is 2 when `hardwareConcurrency` is absent, zero or at most 3, 3 when it is 4, and 4 when it is 5 or more. |
| WorkerPool.FirstIdle | src/app/shared/worker/worker-pool.ts:90 | `find` returns None exactly when every worker is busy. Otherwise it returns an idle worker all of whose predecessors are busy. |
| WorkerPool.Pool.constructor | src/app/shared/worker/worker-pool.ts:18-40 | initWorkers creates PoolSize workers, numbered in order, all idle, with nothing queued and nothing logged. |
| WorkerPool.Pool.BusyBounded | src/app/shared/worker/worker-pool.ts:16-39 | In any valid state, at most as many workers are busy as were created, so never more than 4. |
| WorkerPool.Pool.RunTask | src/app/shared/worker/worker-pool.ts:77-85 | The worker becomes busy. The task is appended to `queues` exactly when it was not taken from there. One post of the task's data to that worker is logged. |
| WorkerPool.Pool.Run | src/app/shared/worker/worker-pool.ts:87-97 | A fresh promise is returned. `queues` always grows by exactly the new task at its end. The first idle worker in pool order becomes busy and receives the data. With no idle worker, nothing is posted and the busy set is unchanged. |
| WorkerPool.Pool.Cleanup | src/app/shared/worker/worker-pool.ts:64-69 | The worker leaves the busy set. If anything is queued, the head is rotated to the tail, the worker becomes busy again, and the head's data is posted to it. |
| WorkerPool.Pool.HandleResult | src/app/shared/worker/worker-pool.ts:42-53 | With a non-empty queue, the last task's promise is resolved with the message. That task stays queued unless it is also the head. The head is removed and its data is re-posted to the same worker, which stays busy. With an empty queue, the worker becomes idle. |
| WorkerPool.Pool.HandleErrorResult | src/app/shared/worker/worker-pool.ts:55-62 | The head's promise is rejected and the head is dropped. If another task remains, it moves to the tail and is posted to the same worker. The queue shrinks by one when it was non-empty. |
| WorkerPool.Pool.CleanupAllWorkers | src/app/shared/worker/worker-pool.ts:71-75 | Every queued promise is resolved with null, in queue order. Afterwards `queues` and `busyWorkers` are both empty. |
| WorkerPool.Pool.DestroyWorkers | src/app/shared/worker/worker-pool.ts:99-106 | Every worker is terminated, in order, and the list is emptied. `queues` and `busyWorkers` are untouched. A second call does nothing. |
| WorkerPool.CompletionScenario | src/app/shared/worker/worker-pool.ts:42-53 | With two workers and five runs, the first result resolves the fifth promise and re-posts the first task's data to worker 0. The third task is not dispatched by this first result. |
| WorkerPool.ErrorScenario | src/app/shared/worker/worker-pool.ts:55-69 | An error rejects the failing promise and frees the worker. The next run goes to that worker. |
| WorkerPool.MisresolveScenario | src/app/shared/worker/worker-pool.ts:42-53 | Two runs awaited one after the other: the second promise is resolved with worker 0's second reply, which was computed from the first task's data. |
| WorkerPool.DestroyedScenario | src/app/shared/worker/worker-pool.ts:87-106 | After destroyWorkers, run only appends to `queues` and posts nothing. Destroying twice terminates each worker once. |
| HexWorker.ErrorText | src/h3.worker.ts:29 | `e.message \|\| e.toString()`: the message unless it is empty, then the text. |
| HexWorker.Unique | src/h3.worker.ts:21 | The result has no duplicates. It holds exactly the elements of the input that are not already seen. |
| HexWorker.Distinct | src/h3.worker.ts:21 | `Array.from(new Set(ids))` has no duplicates and holds exactly the input's elements. |
| HexWorker.UniqueKeepsFirstOccurrenceOrder | src/h3.worker.ts:21 | The de-duplicated ids appear in the order of their first occurrence in the input. |
| HexWorker.HandleMessage | src/h3.worker.ts:10-31 | The loop that pushes each ring's cells and stops at the first throw computes `Response`. A computed reply has no duplicate ids, `fromCache` false and the request's colour. |
| HexWorker.AllCells | src/h3.worker.ts:14-19 | The rings are covered in order and their cell lists concatenated. A throw stops the walk, and the exception is that of one of the rings. |
| HexWorker.Response | src/h3.worker.ts:10-31 | A non-array `ringSet` gives `{error}` with the `forEach` TypeError text. A computed reply has no duplicate ids, `fromCache` false and the request's colour. |
| HexWorker.AllCellsSucceeds | src/h3.worker.ts:16-19 | The ring set is covered without an exception exactly when every ring's cover succeeds. |
| HexWorker.AllCellsIsUnion | src/h3.worker.ts:14-19 | On success, the collected ids are exactly the union of the rings' cell lists. |
| HexWorker.AllCellsFirstError | src/h3.worker.ts:16-30 | A failure carries the exception of the first ring that threw, and every earlier ring succeeded. |
| HexWorker.ComputedReply | src/h3.worker.ts:14-27 | A successful reply has no duplicates, `fromCache` false and the input colour. Its ids are exactly the union of the per-ring cells. |
| HexWorker.FailedReply | src/h3.worker.ts:16-30 | The reply is `{error}` exactly when `ringSet` is not an array or some ring's cover throws. The error text is that of the first exception. |
| HexWorker.ReplyInFirstOccurrenceOrder | src/h3.worker.ts:14-21 | The reply's ids follow first occurrence, with rings in `ringSet` order and cells in per-ring order. |
| HexWorker.EmptyRingSet | src/h3.worker.ts:14-27 | An empty ring set yields an empty `cellIds`. |
| HexWorker.Traverse | src/h3.worker.ts:33-45 | Every callback argument is an array whose first element is an array starting with a number. That every ring is called back, in order, is proved for Polygon and MultiPolygon coordinates by the lemmas below. |
| HexWorker.TraverseFrom | src/h3.worker.ts:43 | The `forEach` over the children makes only ring callbacks. |
| HexWorker.TraverseLeaves | src/h3.worker.ts:34-38 | A non-array, or an array starting with a number, gives no callback and no exception. |
| HexWorker.TraverseEmptyThrows | src/h3.worker.ts:40 | An empty array throws before any callback, because `coords[0][0]` is read. |
| HexWorker.TraversePolygon | src/h3.worker.ts:40-44 | A polygon of well-formed rings calls the callback once per ring, in order, without throwing. |
| HexWorker.TraverseRings | src/h3.worker.ts:43 | The depth-first walk over well-formed rings visits them in order from any starting index. |
| HexWorker.TraversePolygons | src/h3.worker.ts:43 | The walk over well-formed polygons from any index calls back each polygon's rings in turn, without throwing. |
| HexWorker.TraverseMultiPolygon | src/h3.worker.ts:33-45 | A MultiPolygon of well-formed polygons gives one callback per ring, polygon after polygon, in order, without throwing. |
| MapService.SourceCrs | src/app/core/services/map/map.service.ts:66 | `fromType \|\| epsg3857`: an absent or empty name means EPSG:3857. |
| MapService.UpdatedCoords | src/app/core/services/map/map.service.ts:70-80 | A pair goes to the leaf function once. Any other array maps element-wise, keeping its length, and each element is converted without a source name. A non-array is returned unchanged. |
| MapService.ConvertCoordsNested | src/app/core/services/map/map.service.ts:64-68 | A pair is reprojected once from the given source (or EPSG:3857) to EPSG:4326. Any other array keeps its length. A non-array is returned unchanged. |
| MapService.ConvertUsesDefaultBelowTop | src/app/core/services/map/map.service.ts:64-77 | Only a top-level pair uses the given source name. For any other input, every pair inside is reprojected from EPSG:3857, as the reference `MapPairs` does. |
| MapService.SourceIgnoredUnlessPair | src/app/core/services/map/map.service.ts:64-77 | For input that is not a pair, the result does not depend on the source name. |
| MapService.NoPairUnchanged | src/app/core/services/map/map.service.ts:70-79 | A tree with no pair anywhere comes back unchanged. |
| MapService.NumbersUnchanged | src/app/core/services/map/map.service.ts:70-79 | A numeric array of length other than two, such as `[x, y, z]`, comes back unchanged. |
| MapService.MapPairsKeepsShape | src/app/core/services/map/map.service.ts:70-79 | When the leaf maps pairs to pairs, the pair-wise map keeps the nesting of its input. |
| MapService.ConvertKeepsShape | src/app/core/services/map/map.service.ts:64-79 | When proj4 maps pairs to pairs, the conversion keeps the nesting of its input. |
| MapService.LoadFeatures | src/app/core/services/map/map.service.ts:43-55 | The features keep their number and order. Each gets the id `feature-<index>` and its coordinates converted with its CRS name. Type, properties, geometry kind and CRS are unchanged. |
| MapService.FeatureId | src/app/core/services/map/map.service.ts:49 | The id is `feature-` followed by the decimal digits of the index. |
| MapService.Loaded | src/app/core/services/map/map.service.ts:44-54 | One feature gets the id `feature-<index>` and its coordinates converted with its CRS name. Its type, properties, geometry kind and CRS are unchanged. |
| MapService.FeatureIdInjective | src/app/core/services/map/map.service.ts:49 | Different indices give different ids. |
| MapService.LoadedIdsDistinct | src/app/core/services/map/map.service.ts:44-49 | Every loaded feature has an id, and no two share one. |
| Text.NatToString | src/app/core/services/map/map.service.ts:49 | A number's template-literal text is a non-empty string of decimal digits. |
| Text.NatToStringInjective | src/app/core/services/map/map.service.ts:49 | Different numbers print differently. |
| HexMap.GetResolutionForZoom | src/app/shared/modules/map/map.component.ts:74-76 | The lookup is defined exactly for zooms 0 to 20. Its values never exceed 14 or the zoom. |
| HexMap.ResolutionStep | src/app/shared/modules/map/map.component.ts:23-45 | One zoom step never lowers the resolution. |
| HexMap.ResolutionTable | src/app/shared/modules/map/map.component.ts:23-45 | getResolutionForZoom is defined exactly for zooms 0 to 20. Its values lie in 0 to 14, never exceed the zoom, and do not decrease as the zoom grows. |
| HexMap.ResolutionText | src/app/shared/modules/map/map.component.ts:98 | The printed resolution contains no `-`. |
| HexMap.ResolutionTextInjective | src/app/shared/modules/map/map.component.ts:98 | Different resolutions, including `undefined`, print differently. |
| HexMap.CacheKey | src/app/shared/modules/map/map.component.ts:98 | The key is `feature-`, the printed id, `-`, then the printed resolution, with matching length. |
| HexMap.CacheKeyInjective | src/app/shared/modules/map/map.component.ts:98 | A key `feature-<id>-<resolution>` determines the printed id and the resolution. |
| HexMap.StrokeColor | src/app/shared/modules/map/map.component.ts:122 | The stroke is `#<colour>` for a non-empty colour, else `#FF0000`. |
| HexMap.FillColor | src/app/shared/modules/map/map.component.ts:124 | The fill is `#<colour>` for a non-empty colour, else `#FFAAAA`. |
| HexMap.HexPolygons | src/app/shared/modules/map/map.component.ts:116-144 | There is one polygon per cell id, in order, with that cell's boundary and the record's colours. There are none for an `{error}` record. |
| HexMap.RenderOne | src/app/shared/modules/map/map.component.ts:98-112 | On a hit, the cached record is drawn, nothing is requested and the cache is unchanged. On a miss, exactly one request is made for the feature, and its reply is stored under the key and drawn. Earlier entries are kept either way. |
| HexMap.Render | src/app/shared/modules/map/map.component.ts:97-113 | The pass makes at most one pool request per feature and keeps every key it found. |
| HexMap.RenderKeepsEntries | src/app/shared/modules/map/map.component.ts:97-113 | A pass keeps every cache entry it found and leaves an entry under every feature's key. |
| HexMap.RenderReplay | src/app/shared/modules/map/map.component.ts:97-113 | Over a cache holding each feature's record from an earlier pass, a pass draws the same polygons, calls the pool for nothing and stores nothing. |
| HexMap.SecondPassIsCached | src/app/shared/modules/map/map.component.ts:97-113 | A second pass at the same resolution draws the same and calls the pool for nothing. |
| HexMap.AllCachedComputesNothing | src/app/shared/modules/map/map.component.ts:99-103 | When every feature's key is cached, the pool is never called and the cache is unchanged. |
| HexMap.RenderComputesEachMissOnce | src/app/shared/modules/map/map.component.ts:97-113 | When keys are distinct, the pool is called exactly once per feature missing from the cache, in feature order. |
| HexMap.LoadedFeaturesHaveDistinctKeys | src/app/shared/modules/map/map.component.ts:98 | Features as loadPolygonData delivers them never share a cache key at a given resolution. |
| HexMap.ReportedZoom | src/app/shared/modules/map/map.component.ts:171 | `getZoom() \|\| DEFAULT_ZOOM`: no zoom, or zoom 0, reads as 7. |
| HexMap.MapComponent.constructor | src/app/shared/modules/map/map.component.ts:61-65 | No polygons, zoom 7, resolution 4, and the given cache contents. |
| HexMap.MapComponent.ClearHexPolygons | src/app/shared/modules/map/map.component.ts:211-214 | Every drawn polygon is taken off the map, in order, and the list is emptied. |
| HexMap.MapComponent.DrawHexes | src/app/shared/modules/map/map.component.ts:116-144 | Exactly `HexPolygons(data)` is appended to `hexPolygons`. Nothing is appended for an absent or empty `cellIds`. |
| HexMap.MapComponent.UpdateFeature | src/app/shared/modules/map/map.component.ts:98-112 | On a cache hit, the cached record is drawn and the pool is not called. On a miss, the pool is called once, and the result is drawn and then stored under the same key. |
| HexMap.MapComponent.UpdateHexagons | src/app/shared/modules/map/map.component.ts:78-114 | Without a map, nothing changes. Otherwise the old polygons are removed first. Then the drawn polygons, the cache and the pool calls are those of `Render` over the features in order. |
| HexMap.MapComponent.OnZoomChanged | src/app/shared/modules/map/map.component.ts:170-179 | The fields are updated, and a refresh is requested, exactly when both the zoom and its resolution differ. Given the class invariant, that is exactly when the resolution changes. |
| Throttle.InvokeKeepsSeparated | src/app/shared/optimization/throttle/throttle.ts:4-8 | An invocation with none since the last reset keeps every two invocations separated by a reset. |
| Throttle.QuietKeepsSeparated | src/app/shared/optimization/throttle/throttle.ts:7 | Scheduling or firing a timer keeps invocations separated. |
| Throttle.Throttled.constructor | src/app/shared/optimization/throttle/throttle.ts:1-2 | The wrapper starts unthrottled, with nothing invoked. |
| Throttle.Throttled.Call | src/app/shared/optimization/throttle/throttle.ts:3-10 | When unthrottled, it sets the flag and invokes `fn` with the same `this` and arguments. If `fn` returns, one reset is scheduled after `limit` and the result is returned. If `fn` throws, the exception propagates, no reset is scheduled and the flag stays set. When throttled, it returns `undefined` and changes nothing. `fn` never runs twice without a reset in between. |
| Throttle.Throttled.Expire | src/app/shared/optimization/throttle/throttle.ts:7 | The scheduled timer clears the flag. |
| Throttle.BurstScenario | src/app/shared/optimization/throttle/throttle.ts:3-10 | For call, call, timer, call, where the first call returns, `fn` runs for the first and third calls only. |
| Throttle.ThrowScenario | src/app/shared/optimization/throttle/throttle.ts:5-7 | When the first call of `fn` throws, no timer is pending. The flag stays set, and the next call returns `undefined` without running `fn`. |

## Left out

- The IndexedDB store (`index-db.ts`) is not part of this model. The cache is
  the field `MapComponent.cache`, a map from key to stored record. As written,
  that store's constructor never opens the database, so in the running app
  every lookup misses. The model keeps the cache general, so it covers both
  hits and misses.
- Asynchrony is not modelled. `updateHexagons` is one atomic pass: its
  `await`s are not interleaved with other events, so two passes started by
  quick zoom changes cannot overlap in the model. `OnZoomChanged` returns
  whether to refresh and the resolution, instead of starting the async pass
  itself.
- `compute` stands for an ideal pool that answers each request with its own
  reply. The real pool does not always do that. `handleResult` resolves the
  last queued promise and posts the head task again, so when features are
  awaited one after another, a feature's promise can be resolved with the
  reply to another task. `WorkerPool.MisresolveScenario` shows such a trace.
  The component model does not capture this: it draws and caches every
  feature with the reply to its own request.
- `compute` is total. In the app, a worker `{error}` record resolves the
  promise like any other result, and updateHexagons draws and stores it.
  `HexPolygons` draws nothing for it, and `Render` caches it. A worker error
  event, which rejects the promise and makes `updateHexagons` throw, is not
  modelled on the component side.
- `initMap` is left out: Google Maps construction, the turf centroid, and
  script loading. So is the HTTP fetch of `loadPolygonData`; `LoadFeatures`
  is the mapping applied to the fetched features.
- The h3 internals (`polygonToCellsExperimental`, `cellToBoundary`) and proj4
  are parameters. Floating-point reprojection is not modelled, and numbers
  are `real`.
- `Worker` objects are numbered 0, 1, … . postMessage, resolve, reject and
  terminate are entries of a ghost log. The worker's own `error` listener
  only logs, and is left out.
- HandleResult, HandleErrorResult and Cleanup require a worker of the pool.
  Only live workers have handlers attached, and destroyWorkers detaches them.
  A second `initWorkers` call is left out, because only the constructor makes
  one.
- HexWorker.Response: `NotAnArray` (`ringSet.forEach is not a function`) is
  the TypeError text for a non-array that is not null or undefined. For a
  null or undefined `ringSet`, the engine's message is a different one, for
  example "Cannot read properties of undefined (reading 'forEach')". The model
  gives the same text for both.
- HexWorker.HandleMessage: `allCellIds.push(...cellIds)` throws a RangeError
  when one ring has more cells than the engine accepts as call arguments. The
  worker would then post `{error}`. The model's concatenation never fails.
- HexWorker.Traverse: a value that is neither an array, a number nor
  null/undefined (`Other`) is assumed to give no number when indexed. A JSON
  object such as `{"0": 1}` does give one. For `[{"0": 1}]`,
  `traverseCoordinates` calls back on the outer array, which contains the
  object, but the model makes no callback. Callbacks on every ring are proved
  only for Polygon and MultiPolygon coordinates made of well-formed rings.
- HexWorker.Traverse: nothing in the worker calls `traverseCoordinates`. It is
  defined and calls only itself, so the model states what it would do if
  called.
- HexWorker.HandleMessage: a `resolution` of `undefined` is passed on to
  `polyfill`, which decides what happens.
- The `zoom_changed` listener assumes integer zooms. A fractional `getZoom()`
  reads as absent from the table (`None`).
- The throttled function `fn` is a function from `this` and the arguments to
  a returned value or a thrown exception. Its other side effects, and its
  `this` binding beyond being passed through, are not modelled. The timer
  delay is recorded, not waited for.
