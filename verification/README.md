# Product–tag association model

A Dafny model of the product–tag bookkeeping of a small e-commerce REST back end
(Express + Sequelize). Products and tags are linked many-to-many through the
`product_tag` join table, whose rows `{ id, product_id, tag_id }` are written
only by the product handlers:

- `POST /api/products` creates the product and then, when `tagIds` is a
  non-empty list, inserts one join row per listed tag id;
- `PUT /api/products/:id` updates the product row, aborts unless exactly one row
  was affected, reads the product's current join rows, and reconciles them with
  the requested `tagIds`: it deletes the rows whose tag is no longer requested
  and inserts rows for requested tags the product does not yet have.

The join table is modelled as an immutable value: a sequence of rows plus the
auto-increment counter the store numbers inserted rows with. The store's
`findAll`, `destroy` and `bulkCreate` become pure functions over it, and each
handler becomes a function from a table and its request to a reply and the
table it leaves behind.

Modules:

- `ProductTag` (`product_tag.dfy`): the join row, the product filter `findAll`
  applies, tag ids, tag sets and per-tag row counts.
- `JoinTable` (`join_table.dfy`): the table with its id counter, `Destroy`,
  `BulkCreate`, and the update's combined write `Apply`.
- `Reconcile` (`reconcile.dfy`): the update's diff, `ToAdd` and `ToRemove`.
- `ProductRoutes` (`product_routes.dfy`): the create and update handlers and
  the end-to-end properties of the update: final tag set, row-id stability,
  per-tag multiplicity and idempotence.
- `Wrappers` (`wrappers.dfy`): `Option`, for a request body with or without
  `tagIds`.

Ids are unbounded integers. The number of product rows `Product.update`
reports, and the id `Product.create` gives the new product, come from the
store and are parameters of `Update` and `Create`.

## Model

| member | source | states |
|---|---|---|
| ProductTag.RowsOf | Develop/routes/api/product-routes.js:75 | the product's current join rows are exactly the table rows whose `product_id` is the route id |
| ProductTag.RowsOfConcat | Develop/routes/api/product-routes.js:75 | the model's filter on the product distributes over concatenation, so it lists rows in table order (an order the store itself does not promise) |
| ProductTag.TagIdsOfRowsOf | Develop/routes/api/product-routes.js:77 | the projected `productTagIds` contain a tag exactly when some row links the product to it |
| JoinTable.Destroy | Develop/routes/api/product-routes.js:93 | destroying by id keeps exactly the rows whose id is not listed, leaves the id counter alone and preserves unique, below-counter ids |
| JoinTable.BulkCreate | Develop/routes/api/product-routes.js:94 | bulk insertion keeps the existing rows as a prefix and appends one row per new row, in order, numbered from the counter, so every other row is old and ids stay unique |
| JoinTable.Apply | Develop/routes/api/product-routes.js:92-95 | the update's write advances the counter by the number of additions and keeps ids unique and below the counter |
| JoinTable.ApplyKeeps | Develop/routes/api/product-routes.js:93 | the update's write keeps every row whose id is not listed and drops every listed existing row |
| JoinTable.ApplyOrigin | Develop/routes/api/product-routes.js:92-95 | every row after the update's write is an unlisted old row or a fresh-id row for one of the additions |
| JoinTable.ApplyInserts | Develop/routes/api/product-routes.js:94 | every addition is inserted, numbered from the counter in request order |
| JoinTable.ApplyEitherOrder | Develop/routes/api/product-routes.js:92-95 | when every listed id belongs to an existing row, inserting first and destroying afterwards gives the same table as destroying first, so the sequential model stands for the concurrent pair |
| JoinTable.ApplyNothing | Develop/routes/api/product-routes.js:92-95 | destroying no ids and inserting no rows leaves the table unchanged |
| JoinTable.SurvivingKeepsTag | Develop/routes/api/product-routes.js:93 | a destroy that lists none of the ids of a product's rows for a tag keeps all of them |
| JoinTable.SurvivingDropsTag | Develop/routes/api/product-routes.js:93 | a destroy that lists every id of a product's rows for a tag keeps none of them |
| JoinTable.NumberedTagCount | Develop/routes/api/product-routes.js:94 | inserted rows carry a tag for the product once per addition asking for it |
| Reconcile.ToAdd | Develop/routes/api/product-routes.js:79-86 | every addition is for the route id with a requested tag that no current row has, and every such requested tag gets an addition |
| Reconcile.ToAddConcat | Develop/routes/api/product-routes.js:79-86 | additions follow request order: the additions of a concatenated request are the concatenated additions |
| Reconcile.ToAddSingle | Develop/routes/api/product-routes.js:80-85 | a one-element request yields one row exactly when its tag is not already present |
| Reconcile.ToAddMultiplicity | Develop/routes/api/product-routes.js:79-86 | a new tag gets one addition per occurrence in the request (duplicates are kept), a present tag gets none |
| Reconcile.ToRemove | Develop/routes/api/product-routes.js:88-90 | an id is removed exactly when it is the id of a current row whose tag is not requested |
| Reconcile.ToRemoveConcat | Develop/routes/api/product-routes.js:88-90 | removals follow current-row order: the removals of concatenated rows are the concatenated removals |
| Reconcile.ToRemoveSingle | Develop/routes/api/product-routes.js:89-90 | a single current row is removed exactly when its tag is not requested |
| Reconcile.KeptRowsUntouched | Develop/routes/api/product-routes.js:79-90 | a current row whose tag is requested is never removed and its tag is never re-added |
| Reconcile.AddedAndRemovedDisjoint | Develop/routes/api/product-routes.js:79-90 | no tag is both added and removed |
| Reconcile.DiffEmptyIffSameTags | Develop/routes/api/product-routes.js:77-90 | both diffs are empty exactly when the current tags and the requested tags agree as sets |
| ProductRoutes.CreateRows | Develop/routes/api/product-routes.js:47-52 | the create path builds one row per tag id, in order, each for the new product |
| ProductRoutes.Create | Develop/routes/api/product-routes.js:44-54 | a missing `tagIds` fails without join rows, an empty list writes nothing, a list succeeds; other products' rows never change |
| ProductRoutes.CreateTags | Develop/routes/api/product-routes.js:46-53 | after create the product's tags are its old tags followed by the listed ids, in order, one row per element |
| ProductRoutes.CreateAgreesWithUpdate | Develop/routes/api/product-routes.js:47-52 | for a product without join rows the update's additions equal the create path's rows |
| ProductRoutes.Update | Develop/routes/api/product-routes.js:66-95 | unless exactly one product row was affected the update fails and leaves the join table unchanged; a missing `tagIds` fails the same way; otherwise it succeeds and keeps the table well formed |
| ProductRoutes.UpdateTagsRequested | Develop/routes/api/product-routes.js:75-95 | after an update every tag on the product was requested |
| ProductRoutes.RequestedTagsPresent | Develop/routes/api/product-routes.js:75-95 | after an update every requested tag is on the product |
| ProductRoutes.UpdateTagSet | Develop/routes/api/product-routes.js:75-95 | after an update the product's tag set equals the set of requested ids |
| ProductRoutes.UpdateWritesCommute | Develop/routes/api/product-routes.js:88-95 | the update's destroy and insert give the same table in either order, because every id it destroys belongs to an existing row |
| ProductRoutes.UpdateStability | Develop/routes/api/product-routes.js:88-95 | rows whose tag stays requested survive with their ids, rows whose tag is dropped are gone, other products' rows neither vanish nor appear |
| ProductRoutes.UpdateTagMultiplicity | Develop/routes/api/product-routes.js:75-95 | after an update a tag has no rows if unrequested, its old row count if present before, and otherwise one row per occurrence in the request |
| ProductRoutes.UpdateKeepsTagsDistinct | Develop/routes/api/product-routes.js:75-95 | an update keeps the product's tags free of duplicates when they were and the request repeats no id |
| ProductRoutes.UpdateIdempotent | Develop/routes/api/product-routes.js:75-95 | reconciling again after an update finds nothing to add or remove, so repeating the update changes nothing |
| ProductRoutes.UpdateExample | Develop/routes/api/product-routes.js:75-95 | a product tagged {10, 11} updated to [11, 12] loses the tag-10 row, keeps the tag-11 row with its id and gains a tag-12 row |
| ProductRoutes.DuplicateRequestExample | Develop/routes/api/product-routes.js:79-86 | a request [5, 5] for an untagged product inserts two tag-5 rows |

## Left out

- The list, get-by-id and delete handlers (product-routes.js lines 7-38 and 105-123): each is a single store call and a status code, with a not-found check in get-by-id and delete.
- `Develop/models/Category.js`: a schema declaration whose rules the database enforces.
- The product row itself: what `Product.create` and `Product.update` write is not modelled; the new product's id and the affected-row count are inputs.
- HTTP routing, request parsing, status codes, JSON bodies and `console.log`.
- Store failures (connection loss, constraint violations) and the missing transaction around each handler's writes: the model's only failures are the guard and an absent `tagIds`.
- `Promise.all` at line 92: the destroy and the insert are modelled in sequence; `UpdateWritesCommute` shows the other order gives the same table.
- The ids the database hands out: modelled as an auto-increment counter, so inserted ids are fresh and consecutive.
- The types of the ids: request `tagIds` elements are compared with the stored `tag_id` values by strict equality (`includes`, lines 80 and 89), so a string id such as `"11"` never matches a numeric `11`; the code then deletes that row and inserts a new one. All ids are integers here, so `KeptRowsUntouched`, `UpdateStability` and `UpdateIdempotent` hold only for requests whose ids have the stored type.
- The order `findAll` returns rows in (line 75 gives no `order`): modelled as table order. The diff uses only membership, so no property of the update depends on it; the order claims of `RowsOfConcat` and `CreateTags` are about the model's listing.
- A `tagIds` that is present but not a list: the body either has a list or none.

## Behaviour worth noting

A set-based reading of "the product's tags become the requested tags" would
collapse duplicate request ids. The handlers as written do not: `filter`
(line 80) keeps every occurrence of a new tag id, and the create path (line 47)
maps every element. The model follows the code: `DuplicateRequestExample` shows two rows for one tag,
`ToAddMultiplicity` and `UpdateTagMultiplicity` count rows per occurrence, and
`CreateTags` gives a new product one row per list element rather than per
distinct id. The set-level promise holds (`UpdateTagSet`), and rows stay
duplicate-free when the request repeats no id (`UpdateKeepsTagsDistinct`).

An absent `tagIds` throws after the product row has already been written, on
both paths; the model reports `MissingTagIds` and leaves the join table as it
was.
