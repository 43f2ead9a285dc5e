# Generic CRUD controller and author lookup cache of rust-admin, in Dafny

This project models two pieces of the rust-admin backend.

The first is the generic `Controller` trait that every resource controller
(admins, videos, menus, ...) implements. Its actions are:

- `index`: the listing page, with the breadcrumb default.
- `edit`: the edit form, falling back to the default record.
- `save`: dispatches on the id to `save_for_create` or `save_for_update`.
  Each path validates, whitelists, runs the `save_before` hook, copies the
  fields into a `DataSet`, writes once and classifies the result.
- `delete`: parses a comma-separated id list and deletes the listed rows.

The second is the `VIDEO_AUTHORS` cache. It maps author ids to names. It is
built from the `(id, name)` rows on first access and replaced wholesale by
`refresh`.

Layout:

- `wrappers.dfy` (module `Wrappers`): the `Option` datatype.
- `id_list.dfy` (module `IdList`): `str::split(",")`, the comma-joined
  rebuild, and Rust's `usize::from_str`, with their round-trip lemmas.
- `controller.dfy` (module `Controllers`): the actions of the generic controller.
- `video_authors.dfy` (module `VideoAuthors`): the lookup cache and the
  specification of the map it holds.

The resource's `ModelBackend` and the persistence layer are one `Backend`
value. Its function fields give what `validate`, `Db::check_fields`,
`save_before`, `create`, `update`, `delete`, `fetch_row` and `get_record`
answer, and the database state is folded into those answers. Every action
except `index` also returns the backend calls it made, in order, as a
`seq<Call>`. `index` receives the result of `get_records` as a parameter
instead. This is
how the model states which calls happen, which are skipped, and with which
arguments.

## Model

| member | source | states |
|---|---|---|
| `Controllers.Save` | src/controllers/mod.rs:66-69 | Id 0 yields exactly the create-path outcome. Any other id yields the update-path outcome for that same id. |
| `Controllers.SaveForCreate` | src/controllers/mod.rs:72-91 | A rejected form answers `Error(message)` with the validator's message, and `validate` is the only call. An accepted form makes exactly these calls, in order: `validate`, `check_fields` in insert mode, `save_before` on the whitelisted fields, then one `create` with exactly the hooked fields. The answer is `Ok` iff `create` returns an id > 0, else `Error("增加記錄失敗")`. |
| `Controllers.SaveForUpdate` | src/controllers/mod.rs:94-114 | Same pipeline in update mode. The one `update` carries the condition `id = <path id>`. The answer is `Ok` iff the affected count is > 0, else `Error("修改記錄失敗")`. A rejected form answers with the validator's message and writes nothing. |
| `Controllers.SaveTrace` | src/controllers/mod.rs:66-114 | On both paths, `validate` is the first call. A rejected form gets the validator's message and nothing else is called. A write happens only after an accepted validation, as the last call, and carries exactly the whitelisted fields after `save_before`. The write is a `create` iff the id is 0. Otherwise it is an `update` with condition `id = <that id>`. An `Ok` answer requires that write. |
| `Controllers.FillDataSet` | src/controllers/mod.rs:81-84 | The data set built by the copy loop holds exactly the key/value pairs of the checked fields, and has the requested kind (create or update). The update path repeats this loop at lines 103-106. |
| `Controllers.Delete` | src/controllers/mod.rs:117-132 | If any comma-separated segment fails to parse as `usize`, the answer is `Error("错误的参数")` and no backend call is made. Otherwise exactly one `delete` runs, over `id IN (<the input string itself>)`. The answer is `Error("未删除任何记录")` iff zero rows were affected, else `Ok`. |
| `Controllers.Edit` | src/controllers/mod.rs:40-63 | Id 0 makes no fetch and shows the default record. A positive id makes one `fetch_row` by `id = <id>`. That shows the fetched record if a row was found, and the default record otherwise. The button reads "保存记录" iff id > 0 and "添加记录" iff id == 0. The view file is `<table>/edit.html`. |
| `Controllers.Index` | src/controllers/mod.rs:20-34 | The breadcrumb is the entry for `"/" + controller name` when present, else the empty string. The fetched records and pager are passed through unchanged. The view file is `<table>/index.html`. |
| `IdList.Split` | src/controllers/mod.rs:119 | Splitting yields at least one segment, and no segment contains a comma. |
| `IdList.ParseUsize` | src/controllers/mod.rs:120 | A parse succeeds only on a non-empty string other than "+". Such a string is all decimal digits except for one optional leading '+'. So an empty segment and a non-digit are rejected. |
| `IdList.ParseUsizeExact` | src/controllers/mod.rs:120 | On an optional '+' followed by at least one digit, a parse returns the digits' value when it is at most the `usize` maximum, and fails otherwise. Leading zeros are accepted ("007" and "+0" parse). |
| `IdList.ParseOverflow` | src/controllers/mod.rs:120 | A digit string whose value exceeds the `usize` maximum is rejected, with or without a leading '+'. |
| `IdList.ParseDecimal` | src/controllers/mod.rs:120 | Every `usize` written in decimal parses back to itself, with or without a leading '+'. |
| `IdList.JoinSnoc` | src/controllers/mod.rs:121-124 | After the first segment, each segment is added to the rebuilt string after one ','. |
| `IdList.JoinSplit` | src/controllers/mod.rs:118-125 | Rebuilding the string from its segments gives back the original string. |
| `IdList.SplitJoin` | src/controllers/mod.rs:119-124 | Splitting a rebuilt list of comma-free segments gives back exactly those segments. |
| `VideoAuthors.GetCacheItems` | src/caches/video_authors.rs:22-34 | The insert loop returns the map specified by `CacheItems`. Its keys are exactly the ids of the rows. |
| `VideoAuthors.CacheItemsKeys` | src/caches/video_authors.rs:27-32 | The map starts empty, so its keys are exactly the ids that occur in the rows: none is lost and none is added. |
| `VideoAuthors.CacheItemsLastWins` | src/caches/video_authors.rs:29-31 | For an id that occurs more than once, the stored name is the name of its last row. |
| `VideoAuthors.CacheItemsSize` | src/caches/video_authors.rs:27-33 | The map has at most as many entries as there are rows. |
| `VideoAuthors.VideoAuthorsCache.constructor` | src/caches/video_authors.rs:6-10 | On first access, the cache holds the map built from the rows present at that time. |
| `VideoAuthors.VideoAuthorsCache.Refresh` | src/caches/video_authors.rs:15-19 | After a refresh, the cache is the map built from the new rows. Its keys are exactly their ids, so no entry of the previous map survives unless the new rows contain it. |

Notes on the model:

- Rust's `usize::from_str` accepts one leading '+' ("+7" parses to 7) and
  leading zeros. It rejects "", "+", any '-' and any other non-digit. The
  model does the same. Because `delete` pushes the original segment and not
  the parsed number, "+7" reaches the `id IN (...)` condition verbatim.
- The `delete` loop builds a new string from the segments. `Controllers.Delete`
  proves, through `IdList.JoinSplit`, that this rebuilt string equals the
  input, because line 124 pushes each segment verbatim. So the condition is
  over the input string.

## Left out

- HTTP types (`Path`, `Form`, `HttpResponse`) and the `response::ok` /
  `response::error` helpers: an action answers with `Response = Ok | Error(message)`.
- Template rendering (`Tpl`, `render!`, `tmpl_data!`, `tera::Context`) and
  the `edit_after` hook: `Index` and `Edit` return the values the template
  would be given, and the hook's additions are not modelled.
- SQL and connections (`db::get_conn`, the `query!`, `cond!` and `from_row!`
  macros, and the SQL behind `fetch_row`, `fetch_rows`, `get_records`,
  `create`, `update` and `delete`): these are opaque answers of the
  `Backend` value, or parameters (the listing's records and pager, the
  cache's rows).
- The dropping rule of `Db::check_fields` and the `TABLE_FIELDS` field cache
  it reads: they belong to the fluffy crate and to the `caches` module, which
  are not part of this model. Only the position of `check_fields` in the
  pipeline and its insert/update mode are modelled.
- The breadcrumb table `BREADS` of the `caches::menus` module is not part of this
  model. `Index` receives it as a map.
- `DataSet::set` is in the fluffy crate. It is modelled as inserting a key/value
  pair into a map, and the iteration order over the `HashMap` is irrelevant.
- The `Mutex` and `lazy_static` guards on `VIDEO_AUTHORS`, `TABLE_FIELDS` and
  `BREADS` are concurrency. The lookup cache is a single-owner object, and
  "first access" is its constructor.
- A `from_row!` conversion that panics on a malformed row is not modelled:
  the rows arrive as `(id, name)` pairs.
- The per-resource controller modules declared at src/controllers/mod.rs:135-146
  are not part of this model.
- The model assumes `usize` is 64 bits wide (maximum 2^64 - 1).
- Integer widths of the write results: the id from `create` and the count
  from `update` are unbounded integers, compared with `> 0` as in the source.
  The count from `delete` is a natural number, compared with `== 0`.
