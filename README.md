# Category filter of the product processor

This project models the core of a small TypeScript product processor. The
processor loads a product catalog and takes the distinct categories of the
products. It asks a remote authority, once per category, whether that
category is allowed, and joins the answers into a `Map<string, boolean>`.
It then writes the `{id, name}` summaries of the products whose category
maps to `true`.

The model is pure, as the program's logic is: datatypes, functions and
lemmas, with no classes and no loops.

- `catalog.dfy` (module `Catalog`) holds the `Product` record and its
  `ProductSummary` projection.
- `category_filter.dfy` (module `CategoryFilter`) holds the pipeline:
  - `UniqueCategories` / `Dedup` model `[...new Set(products.map(p => p.category))]`.
    A `Set` keeps the insertion order, so the model appends each category
    that is not yet present.
  - `IsCategoryAllowed` models the per-category lookup. The HTTP request
    becomes a `LookupResult`: either `LookupFailed`, which stands for any
    exception, or `LookupOk` carrying the response's `allowed` field. That
    field is `Missing` or holds any JSON value. The permission is `true` only
    when `allowed === true`.
  - `ResolveAll` models `Promise.all` over the categories as a sequential
    map in category order. `MapFromEntries` models `new Map(entries)`: the
    entries are set in order and a later one overwrites an earlier one.
  - `FilterAllowedProducts` models `filterAllowedProducts`. A product is kept
    when `Map.get` of its category is truthy. That means the key is present
    and maps to `true`. An absent key gives `undefined` and the product is
    dropped.
  - `ProcessProducts` runs these steps between loading and writing. Its
    result records the categories looked up, the permission map and the
    summaries handed to the writer.

The authority is a parameter of type `string -> LookupResult`.

The specification and the code disagree on one point. The specification says
that a product whose category has no entry in the permission map should fail
fast. The code silently drops such a product, because `Map.get` returns
`undefined`. The model follows the code. `FilterAllowedProductsDropsUnpermitted`
states the dropping behaviour. `ProcessProductsPermissionsCoverCatalog` proves
that inside the pipeline this case never arises.

## Model

| member | source | states |
|---|---|---|
| `CategoryFilter.Dedup` | src/index.ts:37 | spreading a `Set` built from a list yields a list without duplicates that holds exactly the values of the input, no longer than the input |
| `CategoryFilter.DedupKeepsFirstSeenOrder` | src/index.ts:37 | the `Set` lists its values in the order of their first occurrence in the input |
| `CategoryFilter.UniqueCategories` | src/index.ts:36-38 | `getUniqueCategories` has no duplicates; a string is in it iff some product has that category; its length is at most the number of products; it is empty iff the catalog is empty |
| `CategoryFilter.UniqueCategoriesInFirstSeenOrder` | src/index.ts:37 | the unique categories appear in the order of the first product carrying each one |
| `CategoryFilter.IsCategoryAllowed` | src/index.ts:9-17 | the pair's key is the category asked about; its flag is true iff the lookup succeeded and `allowed` is exactly the boolean `true`; a failed lookup gives false |
| `CategoryFilter.ResolveAll` | src/index.ts:63 | one result per category in category order; each result's key is its category and its flag is true iff the authority answered `true` for it |
| `CategoryFilter.MapFromEntries` | src/index.ts:64 | the keys of `new Map(entries)` are exactly the keys occurring in the entries |
| `CategoryFilter.MapFromEntriesLastWriteWins` | src/index.ts:64 | an entry that no later entry with the same key overwrites keeps its value in the map |
| `CategoryFilter.MapFromDistinctEntries` | src/index.ts:63-64 | with pairwise distinct keys the map has exactly one entry per element and every element's value survives |
| `CategoryFilter.FilterAllowedProducts` | src/index.ts:41-48 | the output is no longer than the catalog, and every summary in it is the `{id, name}` of a product whose category is permitted in the map |
| `CategoryFilter.PermittedPositions` | src/index.ts:43 | the ascending positions of the catalog whose category `Map.get` finds truthy: a position is listed iff its category is present and maps to `true` |
| `CategoryFilter.FilterAllowedProductsIsPermittedSubsequence` | src/index.ts:42-47 | the output is exactly the order-preserving subsequence of the catalog at the permitted positions, each product projected to `{id, name}` |
| `CategoryFilter.FilterAllowedProductsAppend` | src/index.ts:42-47 | filtering a concatenation of two catalogs is the concatenation of the filtered parts |
| `CategoryFilter.FilterAllowedProductsDropsUnpermitted` | src/index.ts:43 | a product whose category is absent from the map or maps to `false` is silently dropped, with no error |
| `CategoryFilter.FilterAllowedProductsKeepsPermitted` | src/index.ts:43-47 | a product whose category maps to `true` contributes its summary in its own place between its neighbours' outputs |
| `CategoryFilter.ProcessProducts` | src/index.ts:60-65 | each distinct category is looked up exactly once and only categories of the catalog are looked up; an empty catalog makes no lookup and writes nothing; no more summaries are written than products were read |
| `CategoryFilter.ProcessProductsPermissionsCoverCatalog` | src/index.ts:61-64 | the permission map has one entry per looked-up category and its key set is the set of the catalog's categories, so every product's category is resolved |
| `CategoryFilter.ProcessProductsPermissionValues` | src/index.ts:63-64 | a category's entry is `true` iff the authority answered its lookup with the boolean `true` |
| `CategoryFilter.ProcessProductsWritesOnlyAllowed` | src/index.ts:60-65 | fail-closed end to end: every summary written comes from a product whose category lookup succeeded with `allowed === true` |
| `CategoryFilter.ProcessProductsWritesExactlyAllowed` | src/index.ts:60-65 | a product's category is permitted in the map iff the authority allowed it, and the summaries written are exactly those of the products at the permitted positions, in catalog order |
| `CategoryFilter.AllowedThenRefusedScenario` | src/index.ts:60-65 | for [P, Q] where P's category is allowed and Q's is refused with an explicit `false`, only P's summary is written |
| `CategoryFilter.WidgetGadgetScenario` | src/index.ts:60-65 | with "tools" allowed and "toys" refused, the catalog [Widget/tools, Gadget/toys] yields only Widget's summary |
| `CategoryFilter.OrderPreservedScenario` | src/index.ts:60-65 | for [A, B, C] where A and C share an allowed category and B's lookup fails, the output is [A, C] in that order |

## Left out

- Reading `products.json`, the path resolution and `JSON.parse` (src/index.ts:20-33) are file I/O and untyped parsing. The model takes the product list as input and assumes every record has its fields.
- Writing `processed.json` with `JSON.stringify` (src/index.ts:51-55) is file output. The model's result is the list of summaries handed to the writer.
- The HTTP request, its URL and `encodeURIComponent` (src/index.ts:11) are network and library calls. They are replaced by the authority parameter.
- The console logging (src/index.ts:14, 54, 69) has no effect on the results.
- The concurrency of `Promise.all` (src/index.ts:63) is not modelled. Each task owns a distinct key and the results come back in input order, so a sequential map gives the same result.
- The top-level `try/catch` and the `processProducts()` call (src/index.ts:58-73) only report errors from the I/O, which is not modelled.
- `Product.price` is a floating-point number in the program. It is modelled as an exact `real`, and no logic reads it.
- Running the pipeline twice on the same catalog and the same authority answers gives the same output. This needs no lemma, because `ProcessProducts` is a function.
