# Product checklist: verified model of the client-side product list

The page keeps a list of products in memory. Each product has an id, a name, a brand and a ticked/unticked box. The page mirrors a remote REST collection. This project models in Dafny the state `script.js` keeps (`products`, `currentProductId`, `selectedBrand`), the handlers that change it, and the pure views the page derives from it. It then proves the properties those handlers and views promise.

Layout:

- `array_ops.dfy`, module `ArrayOps`: the JavaScript array built-ins the page uses. These are `filter`, `map`, `join`, and `[...new Set(xs)]`.
- `string_sort.dfy`, module `StringSort`: `sort()` with no comparator, applied to strings.
- `products.dfy`, module `Products`: the product record, server replies and requests. It also holds the brand-filtered view, the brand list, the unticked subset and its copy text, and the list edits made by update, delete and clear-all.
- `product_manager.dfy`, module `ProductState`: class `ProductManager`. Its three fields are the page's three module-level variables, and its methods are the page's network handlers and event handlers.

Each network call is replaced by its outcome, passed in as a parameter:

- `Reply<T>`: either `Ok(body)` or `Failed`, where `Failed` means a rejected promise.
- For a delete, a flag saying whether `fetch` resolved.

Handlers return the `Request`s they would send. So "no request is made" and "routes to update" are part of their contracts.

## Model

| member | source | states |
|---|---|---|
| `ProductState.Truthy` | script.js:230 | `if (currentProductId)`: null and "" are falsy, and every other id is truthy. |
| `ProductState.ProductManager.View` | script.js:63-66 | `getFilteredProducts()` on the current state: with filter "" it is the whole list. Otherwise a product is shown exactly when it is listed and has the chosen brand. |
| `ProductState.ProductManager.constructor` | script.js:15-17 | The list starts empty, no product is being edited, and the brand filter is "" (all products). |
| `ProductState.ProductManager.FetchProducts` | script.js:69-82 | Sends the list request. A successful load replaces the whole list with the server's list. A failed one leaves the list as it was. The edit target and the filter do not change. |
| `ProductState.ProductManager.CreateProduct` | script.js:84-102 | A successful create makes the list the old list plus the created record at the end. Earlier entries are unchanged. A failure changes nothing. |
| `ProductState.ProductManager.UpdateProduct` | script.js:104-125 | A successful update puts the returned record in place of the first record with that id. If no record has the id, the list stays the same. A failure changes nothing. |
| `ProductState.ProductManager.DeleteProduct` | script.js:127-139 | Once `fetch` resolves, every record with the id is removed and the rest are kept. A rejected request changes nothing. |
| `ProductState.ProductManager.HandleCheckboxChange` | script.js:185-193 | Sends `{checked}` for the product. `shown` is the value of the clicked element. On success it keeps the new value and the list takes the reply, so a re-rendered box shows the reply's `checked`. On failure the box goes back to the negation of the attempted value and the list is unchanged. |
| `ProductState.ProductManager.HandleEdit` | script.js:195-204 | For a listed id: returns the first record with it, to fill the form, and sets the edit target to that id. For an unlisted id: changes nothing. |
| `ProductState.ProductManager.HandleAddProduct` | script.js:298-303 | Clears the edit target, so that the next save creates a product. |
| `ProductState.ProductManager.HandleDelete` | script.js:206-214 | No request and no change unless the user confirms. Once the `fetch` of a confirmed delete resolves, the id is removed. |
| `ProductState.ProductManager.HandleSaveProduct` | script.js:216-241 | An empty name or brand sends nothing and changes nothing. Otherwise a truthy edit target sends an update and any other target sends a create. The list changes accordingly. The edit target becomes null only when the save succeeds. |
| `ProductState.ProductManager.HandleBrandFilter` | script.js:259-262 | Sets the filter. The view becomes the list filtered by the chosen brand. The list and the edit target do not change. |
| `ProductState.ProductManager.HandleClearAll` | script.js:264-277 | Nothing happens without confirmation. After confirmation it sends one `checked: false` update per record of the whole list, in list order, whatever the filter. The list becomes the fold of their replies. It reports failure exactly when some request failed. |
| `ProductState.ProductManager.HandleCopyList` | script.js:248-257 | The clipboard text is the copy text of the filtered view. It is empty exactly when every product shown is ticked. |
| `ProductState.ProductManager.HandleSaveChanges` | script.js:243-246 | The unticked modal shows the empty-state message exactly when every product shown is ticked. Otherwise it shows one line per unticked product shown, in order: line k is the `"name (brand)"` label of the k-th one. Joining the lines with `", "` gives the copy text. |
| `Products.FilteredProducts` | script.js:63-66 | With "" the view is the whole list unchanged. Otherwise the view holds exactly the products of that brand. |
| `Products.FilteredCount` | script.js:63-66 | Each product of the chosen brand occurs in the view as often as in the list. Products of other brands do not occur. |
| `Products.FilteredAppend` | script.js:63-66 | Filtering keeps relative order: the view of `a + b` is the view of `a` followed by the view of `b`. |
| `Products.FilteredIdempotent` | script.js:63-66 | Filtering the view again with the same brand changes nothing. |
| `Products.BrandsOfProducts` | script.js:44 | A brand occurs in `products.map(p => p.brand)` exactly when some product has it. |
| `Products.Brands` | script.js:44 | The brand list is strictly ascending, so it is sorted with no duplicates. It holds the brand of every product and nothing else. |
| `Products.Unticked` | script.js:170 | The unticked subset holds exactly the products whose box is not ticked. |
| `Products.UntickedIdempotent` | script.js:249 | Taking the unticked subset of the unticked subset changes nothing. |
| `Products.Label` | script.js:179 | The template `${name} (${brand})`: the name, then " (", then the brand, then ")", with nothing else. |
| `Products.CopyText` | script.js:249-250 | The `"name (brand)"` labels of the unticked products are joined with `", "`. The text is empty exactly when no product is unticked. |
| `Products.CopyTextAppend` | script.js:249-250 | The copy text keeps list order. When each of `a` and `b` holds an unticked product, the text for `a + b` is the text for `a`, then `", "`, then the text for `b`. |
| `Products.AllTickedNoneUnticked` | script.js:249 | A list whose boxes are all ticked has an empty unticked subset. |
| `Products.CopyTextTickedPrefix` | script.js:249-250 | A leading part whose boxes are all ticked adds nothing: the text for `a + b` is the text for `b`. |
| `Products.CopyTextTickedSuffix` | script.js:249-250 | A trailing part whose boxes are all ticked adds nothing: the text for `a + b` is the text for `a`. |
| `Products.UntickedPanel` | script.js:168-182 | Shows the empty-state message exactly when every product is ticked. Otherwise line k is the `"name (brand)"` label of the k-th unticked product, and joining the lines gives the copy text. |
| `Products.IndexOfId` | script.js:114 | Returns the first position holding the id, or -1 exactly when no record has it. |
| `Products.Find` | script.js:196 | Returns None exactly when no record has the id. Otherwise it returns the first listed record with that id: no earlier record has it. |
| `Products.ReplaceFirst` | script.js:114-119 | Length is kept. The first record with the id becomes the reply and every other position is unchanged. With no match the list is unchanged. |
| `Products.WithoutId` | script.js:132 | Exactly the records with another id remain. Looking up the deleted id finds nothing. |
| `Products.WithoutIdAppend` | script.js:132 | Delete keeps the remaining records in their relative order. |
| `Products.WithoutIdCount` | script.js:132 | Delete removes every copy of records with the id. Every other record keeps its number of occurrences. |
| `Products.ReplaceThenFind` | script.js:114-119 | Take a list with one record per id and an update reply that carries the requested id. The list keeps one record per id. If the id was listed, it now finds the reply; otherwise it still finds nothing. Other ids find what they found before. |
| `Products.AppendThenFind` | script.js:94 | Take a created record with a new id. The list keeps one record per id, the new id finds the record, and other ids are unaffected. |
| `Products.RemoveKeepsUniqueIds` | script.js:132 | Delete keeps a list with one record per id that way. |
| `Products.RemoveThenFind` | script.js:132 | After a delete, every other id finds the same record as before. |
| `Products.ApplyReply` | script.js:113-119 | The list after one update request settles. Its length is kept, and a failed request leaves the list unchanged. |
| `Products.ApplyAll` | script.js:268-271 | The list after a sequence of update requests settles, one after another. Its length is kept. |
| `Products.ClearRequests` | script.js:268-270 | Clear-all sends one update per record, in list order, each with the record's id and `checked: false`. |
| `Products.ClearAllPerItem` | script.js:268-271 | Take a list with one record per id, where each successful reply carries the id it was sent for. After clear-all, every record whose request succeeded is its reply, and every record whose request failed keeps its previous state. |
| `Products.TwoBrandsList` | script.js:44 | Two products of brands X and Y give the brand list `["X", "Y"]`. |
| `Products.TwoBrandsFilter` | script.js:63-66 | Filtering those two on Y shows only the Y product. |
| `Products.TwoBrandsCopy` | script.js:249-250 | With the Y product ticked, the unfiltered copy text is `"name1 (X)"`. |
| `ArrayOps.Filter` | script.js:65 | `filter` keeps exactly the elements that pass the test and is no longer than its input. |
| `ArrayOps.FilterCount` | script.js:65 | An element that passes occurs as often as in the input. An element that fails does not occur. |
| `ArrayOps.FilterAppend` | script.js:65 | `filter` distributes over concatenation, so it never reorders. |
| `ArrayOps.FilterIdempotent` | script.js:249 | Filtering twice with the same test equals filtering once. |
| `ArrayOps.Map` | script.js:250 | `map` has the input's length, and position i holds the function applied to element i. |
| `ArrayOps.Join` | script.js:250 | `join` of no parts is "", and of one part is that part. If every part is non-empty, the result is empty only for no parts. |
| `ArrayOps.JoinAppend` | script.js:250 | For two non-empty lists, joining `a + b` is joining `a`, then the separator, then joining `b`. |
| `ArrayOps.Unique` | script.js:44 | `[...new Set(xs)]` has no repeats and holds exactly the values of `xs`. |
| `StringSort.Insert` | script.js:44 | Insertion adds exactly one copy of the value. |
| `StringSort.InsertSorted` | script.js:44 | Inserting into an ascending list keeps it ascending. |
| `StringSort.Sort` | script.js:44 | `sort()` returns a permutation of its input. |
| `StringSort.SortSorted` | script.js:44 | `sort()` returns an ascending list. |
| `StringSort.SortDistinct` | script.js:44 | Sorting a list without repeats gives a list without repeats. |
| `StringSort.SortKeepsMembers` | script.js:44 | Sorting neither adds nor drops a value. |
| `StringSort.SortedDistinctAscending` | script.js:44 | An ascending list without repeats is strictly ascending. |
| `StringSort.Less` | script.js:44 | The string comparison `sort()` uses. A proper prefix comes before the longer string. A string never comes before itself or before one of its own prefixes. |
| `StringSort.LessFirstDifference` | script.js:44 | `Less` is the lexicographic order. `a` comes first exactly when it is a proper prefix of `b`, or when it has the smaller character at the first position where they differ. |
| `StringSort.LessTotal` | script.js:44 | The string order used by `sort()` orders any two different strings one way or the other. |
| `StringSort.LessTransitive` | script.js:44 | That order is transitive. |

Three behaviours of the code that are easy to misread:

- **Clear-all covers the whole list.** `handleClearAll` maps over `products` (script.js:268), not over the filtered view.
- **Clear-all keeps each request's result.** Each `updateProduct` edits the list as soon as its own request succeeds (script.js:113-119). So the successful updates stay in the list even when `Promise.all` rejects. The list is not left all-or-nothing (`ClearAllPerItem`).
- **The copy text can be empty.** For an empty unticked subset, the copy button copies the empty string. Only the modal shows an empty-state message (script.js:172-175, 249-250).

## Left out

- **Network I/O.** `fetch`, HTTP methods and headers, JSON encoding and decoding, and `API_URL` are not modelled. Each call's outcome is a parameter. A delete succeeds once `fetch` resolves, whatever its HTTP status.
- **Bodies that are not products.** `Ok` carries a product record, or a list of them for the load. A response that resolves with any other JSON body is outside the model: an error body on a 4xx/5xx status, or a non-array for the list. The source stores such a body without checking it (script.js:73, 94, 116). For the load, a non-array body also makes `updateBrandLists` throw, so the page shows the error after the list has already been overwritten. `FetchProducts` cannot express that case.
- **Rendering.** DOM rendering and HTML templating are not modelled: `renderProducts`, the `innerHTML` writes in `updateBrandLists`, and `attachProductEventListeners`. These produce presentation only; the model keeps the data they display (`Brands`, `View`, `UntickedPanel`).
- **The "all products" option.** The dropdown's leading "all products" option (script.js:49) is presentation and is not modelled. Its value "" is the filter value that `FilteredProducts` handles.
- **Modal and loading UI.** Modal show/hide with `setTimeout` animation, the loading spinner, and the form reset are UI timing and state.
- **Browser dialogs.** `alert` is not modelled. `confirm` is the `confirmed` parameter. Writing the copied text to `navigator.clipboard` is a foreign call, so the model stops at the text.
- **Concurrent requests.** In-flight requests are not interleaved. Each completion is one sequential step. `HandleClearAll`'s requests settle in the order they were sent, so other completion orders, and handlers running between them, are not covered.
- `StringSort.Less`: compares Unicode code points, whereas JavaScript's `sort()` compares UTF-16 code units. The two orders differ only for characters outside the Basic Multilingual Plane.
- **Product records.** A product is modelled with exactly four fields. Other fields of the server's JSON are dropped. Ids are strings, as `data-id` always yields, so a server with numeric ids is not modelled.
- **Duplicate ids.** The source does not enforce one record per id. The model proves that update, create with a fresh id, and delete keep that property (`ReplaceThenFind`, `AppendThenFind`, `RemoveKeepsUniqueIds`), but does not assume it.
