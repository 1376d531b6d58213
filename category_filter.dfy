/**
 * The category-filtering pipeline of the product processor: the distinct
 * categories of a catalog are extracted in first-seen order, each one is
 * resolved once against an external authority (failing closed), the answers
 * are joined into a category-to-permission map, and the catalog is reduced to
 * the `{id, name}` summaries of the products whose category maps to `true`.
 *
 * Reading and writing the JSON documents, the HTTP request itself and the
 * logging are not modelled; the authority is a function parameter.
 */
module CategoryFilter {
  import opened Catalog

  /* ---------------------------------------------------------------------- */
  /* Sequence helpers                                                        */
  /* ---------------------------------------------------------------------- */

  /** No value occurs twice in `s`. */
  predicate NoDuplicates<T(==)>(s: seq<T>)
  {
    forall i, j :: 0 <= i < j < |s| ==> s[i] != s[j]
  }

  /** The position of the first occurrence of `x` in `xs`. */
  function FirstIndex<T(==)>(xs: seq<T>, x: T): (i: nat)
    requires x in xs
    ensures i < |xs| && xs[i] == x
    ensures x !in xs[..i]
  {
    if xs[0] == x then 0
    else
      var j := FirstIndex(xs[1..], x);
      assert xs[..j + 1] == [xs[0]] + xs[1..][..j];
      j + 1
  }

  /** A position holding `x` with no earlier `x` is the first occurrence. */
  lemma FirstIndexUnique<T>(xs: seq<T>, x: T, i: nat)
    requires i < |xs| && xs[i] == x && x !in xs[..i]
    ensures FirstIndex(xs, x) == i
  {
  }

  /** Appending an element does not move the first occurrence of a value
      that is already present. */
  lemma FirstIndexOfExtension<T>(xs: seq<T>, y: T, x: T)
    requires x in xs
    ensures FirstIndex(xs + [y], x) == FirstIndex(xs, x)
  {
    var f := FirstIndex(xs, x);
    assert (xs + [y])[..f] == xs[..f];
    FirstIndexUnique(xs + [y], x, f);
  }

  /* ---------------------------------------------------------------------- */
  /* getUniqueCategories                                                     */
  /* ---------------------------------------------------------------------- */

  /** `products.map(p => p.category)`. */
  function CategoriesOf(products: seq<Product>): (cs: seq<string>)
    ensures |cs| == |products|
    ensures forall i :: 0 <= i < |products| ==> cs[i] == products[i].category
  {
    seq(|products|, i requires 0 <= i < |products| => products[i].category)
  }

  /** Some product of the catalog carries category `c`. */
  predicate HasCategory(products: seq<Product>, c: string)
  {
    exists i :: 0 <= i < |products| && products[i].category == c
  }

  /** `[...new Set(xs)]`: a JavaScript `Set` is filled by inserting the
      elements in order, an insertion of a value already present changes
      nothing, and spreading it lists the values in insertion order. */
  function Dedup<T(==, !new)>(xs: seq<T>): (r: seq<T>)
    ensures NoDuplicates(r)
    ensures forall x :: x in r <==> x in xs
    ensures |r| <= |xs|
    decreases |xs|
  {
    if xs == [] then []
    else
      var prefix := Dedup(xs[..|xs| - 1]);
      var last := xs[|xs| - 1];
      assert xs == xs[..|xs| - 1] + [last];
      if last in prefix then prefix else prefix + [last]
  }

  /** Values come out of the `Set` in the order of their first occurrence. */
  lemma {:induction false} DedupKeepsFirstSeenOrder<T(!new)>(xs: seq<T>)
    ensures forall i, j :: 0 <= i < j < |Dedup(xs)| ==>
      FirstIndex(xs, Dedup(xs)[i]) < FirstIndex(xs, Dedup(xs)[j])
    decreases |xs|
  {
    if xs != [] {
      var prefix := xs[..|xs| - 1];
      var last := xs[|xs| - 1];
      assert xs == prefix + [last];
      var d := Dedup(prefix);
      DedupKeepsFirstSeenOrder(prefix);
      forall x | x in d
        ensures FirstIndex(xs, x) == FirstIndex(prefix, x) < |prefix|
      {
        FirstIndexOfExtension(prefix, last, x);
      }
      if last !in d {
        FirstIndexUnique(xs, last, |prefix|);
        assert Dedup(xs) == d + [last];
      }
    }
  }

  /** `getUniqueCategories`: every category of the catalog exactly once. */
  function UniqueCategories(products: seq<Product>): (r: seq<string>)
    ensures NoDuplicates(r)
    ensures forall c :: c in r <==> HasCategory(products, c)
    ensures |r| <= |products|
    ensures r == [] <==> products == []
  {
    var cs := CategoriesOf(products);
    assert forall c :: c in cs <==> HasCategory(products, c) by {
      forall c | HasCategory(products, c) ensures c in cs {
        var i :| 0 <= i < |products| && products[i].category == c;
        assert cs[i] == c;
      }
    }
    assert products != [] ==> cs[0] in cs;
    Dedup(cs)
  }

  /** The categories are listed in the order in which the first product of
      each category appears in the catalog. */
  lemma UniqueCategoriesInFirstSeenOrder(products: seq<Product>)
    ensures var r := UniqueCategories(products);
      forall i, j :: 0 <= i < j < |r| ==>
        FirstIndex(CategoriesOf(products), r[i]) < FirstIndex(CategoriesOf(products), r[j])
  {
    DedupKeepsFirstSeenOrder(CategoriesOf(products));
  }

  /* ---------------------------------------------------------------------- */
  /* isCategoryAllowed                                                       */
  /* ---------------------------------------------------------------------- */

  /** The JSON values the `allowed` field of a response body can hold. */
  datatype JsonValue =
    | JsonBool(b: bool)
    | JsonNumber(n: real)
    | JsonString(s: string)
    | JsonNull
    | JsonArray(items: seq<JsonValue>)
    | JsonObject(members: seq<(string, JsonValue)>)

  /** The `allowed` field of a successful response: absent (`undefined`,
      also when the body is not an object) or present with some value. */
  datatype AllowedField = Missing | Present(value: JsonValue)

  /** The outcome of one request to the category authority. `LookupFailed`
      stands for every exception the request can raise: a network error, a
      non-success status, or a `null` body whose `allowed` cannot be read. */
  datatype LookupResult = LookupFailed | LookupOk(allowed: AllowedField)

  /** The category authority, as the outcome of the request for a category. */
  type Authority = string -> LookupResult

  /** The authority answered for `c` with the boolean `true` itself. */
  predicate AuthorityAllows(authority: Authority, c: string)
  {
    authority(c) == LookupOk(Present(JsonBool(true)))
  }

  /** `isCategoryAllowed`: pairs the category with its permission, which is
      `true` only for a successful lookup whose `allowed` is exactly `true`;
      a failure, a `false`, a missing field or any other value gives `false`. */
  function IsCategoryAllowed(category: string, lookup: LookupResult): (entry: (string, bool))
    ensures entry.0 == category
    ensures entry.1 <==> lookup == LookupOk(Present(JsonBool(true)))
    ensures lookup.LookupFailed? ==> !entry.1
  {
    match lookup
    case LookupFailed => (category, false)
    case LookupOk(field) => (category, field == Present(JsonBool(true)))
  }

  /* ---------------------------------------------------------------------- */
  /* The join: Promise.all over the categories, then new Map(entries)        */
  /* ---------------------------------------------------------------------- */

  /** `categories.map(isCategoryAllowed)` awaited with `Promise.all`, which
      yields the results in the order of the categories. */
  function ResolveAll(categories: seq<string>, authority: Authority): (entries: seq<(string, bool)>)
    ensures |entries| == |categories|
    ensures forall i :: 0 <= i < |categories| ==>
      entries[i].0 == categories[i] && (entries[i].1 <==> AuthorityAllows(authority, categories[i]))
  {
    seq(|categories|, i requires 0 <= i < |categories| =>
      IsCategoryAllowed(categories[i], authority(categories[i])))
  }

  /** The keys of a list of entries, in order. */
  function KeysOf<K, V>(entries: seq<(K, V)>): (ks: seq<K>)
    ensures |ks| == |entries|
    ensures forall i :: 0 <= i < |entries| ==> ks[i] == entries[i].0
  {
    seq(|entries|, i requires 0 <= i < |entries| => entries[i].0)
  }

  /** `new Map(entries)`: the entries are set one after the other, so a later
      entry overwrites an earlier one with the same key. */
  function MapFromEntries<K(==, !new), V>(entries: seq<(K, V)>): (m: map<K, V>)
    ensures forall k :: k in m <==> exists i :: 0 <= i < |entries| && entries[i].0 == k
    decreases |entries|
  {
    if entries == [] then map[]
    else
      var prefix := entries[..|entries| - 1];
      var last := entries[|entries| - 1];
      assert forall i :: 0 <= i < |prefix| ==> prefix[i] == entries[i];
      MapFromEntries(prefix)[last.0 := last.1]
  }

  /** An entry that no later entry overwrites keeps its value in the map. */
  lemma {:induction false} MapFromEntriesLastWriteWins<K(!new), V>(entries: seq<(K, V)>, i: nat)
    requires i < |entries|
    requires forall j :: i < j < |entries| ==> entries[j].0 != entries[i].0
    ensures entries[i].0 in MapFromEntries(entries)
    ensures MapFromEntries(entries)[entries[i].0] == entries[i].1
    decreases |entries|
  {
    if i < |entries| - 1 {
      var prefix := entries[..|entries| - 1];
      MapFromEntriesLastWriteWins(prefix, i);
    }
  }

  /** With pairwise distinct keys nothing is overwritten: the map has one
      entry per element and every element's value survives. */
  lemma {:induction false} MapFromDistinctEntries<K(!new), V>(entries: seq<(K, V)>)
    requires NoDuplicates(KeysOf(entries))
    ensures |MapFromEntries(entries)| == |entries|
    ensures forall i :: 0 <= i < |entries| ==>
      entries[i].0 in MapFromEntries(entries) && MapFromEntries(entries)[entries[i].0] == entries[i].1
    decreases |entries|
  {
    var ks := KeysOf(entries);
    forall i | 0 <= i < |entries|
      ensures entries[i].0 in MapFromEntries(entries)
      ensures MapFromEntries(entries)[entries[i].0] == entries[i].1
    {
      forall j | i < j < |entries| ensures entries[j].0 != entries[i].0 {
        assert ks[i] != ks[j];
      }
      MapFromEntriesLastWriteWins(entries, i);
    }
    if entries != [] {
      var prefix := entries[..|entries| - 1];
      var last := entries[|entries| - 1];
      assert KeysOf(prefix) == ks[..|entries| - 1];
      MapFromDistinctEntries(prefix);
      var pm := MapFromEntries(prefix);
      assert last.0 !in pm;
      assert MapFromEntries(entries).Keys == pm.Keys + {last.0};
    }
  }

  /* ---------------------------------------------------------------------- */
  /* filterAllowedProducts                                                   */
  /* ---------------------------------------------------------------------- */

  /** `allowedCategories.get(category)` is truthy: the key is present and
      maps to `true`. An absent key gives `undefined`, which is falsy. */
  predicate Permitted(allowed: map<string, bool>, category: string)
  {
    category in allowed && allowed[category]
  }

  /** `filterAllowedProducts`: keeps the products whose category is permitted
      and projects each to its `{id, name}` summary. */
  function FilterAllowedProducts(products: seq<Product>, allowed: map<string, bool>): (r: seq<ProductSummary>)
    ensures |r| <= |products|
    ensures forall s :: s in r ==>
      exists i :: 0 <= i < |products| && Permitted(allowed, products[i].category) && s == Summary(products[i])
    decreases |products|
  {
    if products == [] then []
    else
      var n := |products| - 1;
      var prefix := products[..n];
      assert forall i :: 0 <= i < n ==> prefix[i] == products[i];
      FilterAllowedProducts(prefix, allowed)
        + if Permitted(allowed, products[n].category) then [Summary(products[n])] else []
  }

  /** The positions of the catalog whose category is permitted, ascending. */
  function PermittedPositions(products: seq<Product>, allowed: map<string, bool>): (idx: seq<nat>)
    ensures forall k :: 0 <= k < |idx| ==> idx[k] < |products|
    ensures forall k, l :: 0 <= k < l < |idx| ==> idx[k] < idx[l]
    ensures forall i :: 0 <= i < |products| ==>
      (i in idx <==> Permitted(allowed, products[i].category))
    decreases |products|
  {
    if products == [] then []
    else
      var n := |products| - 1;
      var prefix := products[..n];
      assert forall i :: 0 <= i < n ==> prefix[i] == products[i];
      PermittedPositions(prefix, allowed) + if Permitted(allowed, products[n].category) then [n] else []
  }

  /** The output is exactly the order-preserving subsequence of the catalog
      at the permitted positions, each product projected to its summary. */
  lemma {:induction false} FilterAllowedProductsIsPermittedSubsequence(products: seq<Product>, allowed: map<string, bool>)
    ensures |FilterAllowedProducts(products, allowed)| == |PermittedPositions(products, allowed)|
    ensures forall k :: 0 <= k < |PermittedPositions(products, allowed)| ==>
      FilterAllowedProducts(products, allowed)[k] == Summary(products[PermittedPositions(products, allowed)[k]])
    decreases |products|
  {
    if products != [] {
      var n := |products| - 1;
      var prefix := products[..n];
      FilterAllowedProductsIsPermittedSubsequence(prefix, allowed);
      var idx := PermittedPositions(prefix, allowed);
      var kept := FilterAllowedProducts(prefix, allowed);
      assert forall k :: 0 <= k < |idx| ==> products[idx[k]] == prefix[idx[k]];
      if Permitted(allowed, products[n].category) {
        assert FilterAllowedProducts(products, allowed) == kept + [Summary(products[n])];
        assert PermittedPositions(products, allowed) == idx + [n];
      } else {
        assert FilterAllowedProducts(products, allowed) == kept;
        assert PermittedPositions(products, allowed) == idx;
      }
    }
  }

  /** Filtering a concatenation filters each part. */
  lemma {:induction false} FilterAllowedProductsAppend(ps: seq<Product>, qs: seq<Product>, allowed: map<string, bool>)
    ensures FilterAllowedProducts(ps + qs, allowed)
      == FilterAllowedProducts(ps, allowed) + FilterAllowedProducts(qs, allowed)
    decreases |qs|
  {
    if qs != [] {
      var q := qs[..|qs| - 1];
      assert (ps + qs)[..|ps + qs| - 1] == ps + q;
      FilterAllowedProductsAppend(ps, q, allowed);
    } else {
      assert ps + qs == ps;
    }
  }

  /** A product whose category is absent from the map, or maps to `false`,
      is silently dropped: it contributes nothing to the output. */
  lemma FilterAllowedProductsDropsUnpermitted(ps: seq<Product>, p: Product, qs: seq<Product>, allowed: map<string, bool>)
    requires !Permitted(allowed, p.category)
    ensures FilterAllowedProducts(ps + [p] + qs, allowed)
      == FilterAllowedProducts(ps, allowed) + FilterAllowedProducts(qs, allowed)
  {
    FilterAllowedProductsAppend(ps + [p], qs, allowed);
    FilterAllowedProductsAppend(ps, [p], allowed);
  }

  /** A product whose category maps to `true` contributes its summary, in
      its own place between the products before and after it. */
  lemma FilterAllowedProductsKeepsPermitted(ps: seq<Product>, p: Product, qs: seq<Product>, allowed: map<string, bool>)
    requires Permitted(allowed, p.category)
    ensures FilterAllowedProducts(ps + [p] + qs, allowed)
      == FilterAllowedProducts(ps, allowed) + [Summary(p)] + FilterAllowedProducts(qs, allowed)
  {
    FilterAllowedProductsAppend(ps + [p], qs, allowed);
    FilterAllowedProductsAppend(ps, [p], allowed);
  }

  /* ---------------------------------------------------------------------- */
  /* processProducts, between reading and writing the documents              */
  /* ---------------------------------------------------------------------- */

  /** One run of the pipeline: the categories looked up (one request each,
      in this order), the permission map built from the answers, and the
      summaries handed to the writer. */
  datatype Run = Run(queried: seq<string>, permissions: map<string, bool>, written: seq<ProductSummary>)

  /** `processProducts` from the loaded catalog to the summaries written. */
  function ProcessProducts(products: seq<Product>, authority: Authority): (run: Run)
    ensures NoDuplicates(run.queried)
    ensures forall c :: c in run.queried <==> HasCategory(products, c)
    ensures run.queried == [] <==> products == []
    ensures products == [] ==> run.written == []
    ensures |run.written| <= |products|
  {
    var categories := UniqueCategories(products);
    var permissions := MapFromEntries(ResolveAll(categories, authority));
    Run(categories, permissions, FilterAllowedProducts(products, permissions))
  }

  /** The permission map has exactly one entry per distinct category of the
      catalog: its keys are the catalog's categories, so no product meets an
      unresolved category. */
  lemma ProcessProductsPermissionsCoverCatalog(products: seq<Product>, authority: Authority)
    ensures var run := ProcessProducts(products, authority);
      && |run.permissions| == |run.queried|
      && (forall c :: c in run.permissions <==> HasCategory(products, c))
  {
    var entries := ResolveAll(UniqueCategories(products), authority);
    MapFromDistinctEntries(entries);
    assert KeysOf(entries) == UniqueCategories(products);
  }

  /** A category's permission is `true` exactly when the authority answered
      its lookup with the boolean `true`; every other outcome is `false`. */
  lemma ProcessProductsPermissionValues(products: seq<Product>, authority: Authority)
    ensures var run := ProcessProducts(products, authority);
      forall c :: c in run.permissions ==> (run.permissions[c] <==> AuthorityAllows(authority, c))
  {
    var entries := ResolveAll(UniqueCategories(products), authority);
    MapFromDistinctEntries(entries);
    assert KeysOf(entries) == UniqueCategories(products);
    var m := MapFromEntries(entries);
    forall c | c in m ensures m[c] <==> AuthorityAllows(authority, c) {
      var i :| 0 <= i < |entries| && entries[i].0 == c;
    }
  }

  /** Fail-closed end to end: every summary written is that of a catalog
      product whose category lookup succeeded with `allowed` exactly `true`. */
  lemma ProcessProductsWritesOnlyAllowed(products: seq<Product>, authority: Authority)
    ensures forall s :: s in ProcessProducts(products, authority).written ==>
      exists i :: 0 <= i < |products| && AuthorityAllows(authority, products[i].category)
        && s == Summary(products[i])
  {
    ProcessProductsPermissionValues(products, authority);
  }

  /** End to end, the summaries written are exactly those of the products
      whose category the authority allowed with the boolean `true`, in
      catalog order. */
  lemma ProcessProductsWritesExactlyAllowed(products: seq<Product>, authority: Authority)
    ensures var run := ProcessProducts(products, authority);
      && (forall i :: 0 <= i < |products| ==>
            (Permitted(run.permissions, products[i].category) <==> AuthorityAllows(authority, products[i].category)))
      && var idx := PermittedPositions(products, run.permissions);
      && |run.written| == |idx|
      && (forall k :: 0 <= k < |idx| ==> run.written[k] == Summary(products[idx[k]]))
  {
    var run := ProcessProducts(products, authority);
    ProcessProductsPermissionsCoverCatalog(products, authority);
    ProcessProductsPermissionValues(products, authority);
    FilterAllowedProductsIsPermittedSubsequence(products, run.permissions);
  }

  /* ---------------------------------------------------------------------- */
  /* Worked scenarios                                                        */
  /* ---------------------------------------------------------------------- */

  function Item(id: string, name: string, category: string): Product
  {
    Product(id, name, "", 0.0, category, "")
  }

  /** Allows "tools" and refuses "toys" with an explicit `false`. */
  function ToolsOnlyAuthority(c: string): LookupResult
  {
    if c == "tools" then LookupOk(Present(JsonBool(true))) else LookupOk(Present(JsonBool(false)))
  }

  /** For any two products where the authority allows the first one's
      category and refuses the second one's with an explicit `false`, only
      the first one's summary is written. */
  lemma AllowedThenRefusedScenario(p: Product, q: Product, authority: Authority)
    requires AuthorityAllows(authority, p.category)
    requires authority(q.category) == LookupOk(Present(JsonBool(false)))
    ensures ProcessProducts([p, q], authority).written == [Summary(p)]
  {
    var products := [p, q];
    ProcessProductsPermissionValues(products, authority);
    ProcessProductsPermissionsCoverCatalog(products, authority);
    var m := ProcessProducts(products, authority).permissions;
    assert products[0] == p && products[1] == q;
    assert Permitted(m, p.category) && !Permitted(m, q.category);
    assert products == [p] + [q];
    FilterAllowedProductsDropsUnpermitted([p], q, [], m);
    FilterAllowedProductsKeepsPermitted([], p, [], m);
  }

  /** A Widget in "tools" is kept and a Gadget in "toys" is dropped. */
  lemma WidgetGadgetScenario()
    ensures ProcessProducts([Item("1", "Widget", "tools"), Item("2", "Gadget", "toys")], ToolsOnlyAuthority).written
      == [ProductSummary("1", "Widget")]
  {
    AllowedThenRefusedScenario(Item("1", "Widget", "tools"), Item("2", "Gadget", "toys"), ToolsOnlyAuthority);
  }

  /** For any catalog [A, B, C] where A and C share a category the authority
      allows and the lookup for B's category fails, the output is A's
      summary followed by C's, never the other way round. */
  lemma OrderPreservedScenario(a: Product, b: Product, c: Product, authority: Authority)
    requires a.category == c.category && AuthorityAllows(authority, a.category)
    requires authority(b.category) == LookupFailed
    ensures ProcessProducts([a, b, c], authority).written == [Summary(a), Summary(c)]
  {
    var products := [a, b, c];
    ProcessProductsPermissionValues(products, authority);
    ProcessProductsPermissionsCoverCatalog(products, authority);
    var m := ProcessProducts(products, authority).permissions;
    assert products[0] == a && products[1] == b;
    assert Permitted(m, a.category) && !Permitted(m, b.category);
    assert products == [a, b] + [c];
    FilterAllowedProductsKeepsPermitted([a, b], c, [], m);
    FilterAllowedProductsDropsUnpermitted([a], b, [], m);
    FilterAllowedProductsKeepsPermitted([], a, [], m);
  }
}
