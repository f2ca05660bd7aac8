# Recipe API core in Dafny

This project models the core of a multi-tenant recipe backend, built on Django and Django REST framework. Each user owns recipes, tags and ingredients. A recipe has scalar fields (title, time in minutes, price, link, description) and two many-to-many relations, one to tags and one to ingredients.

The model covers two paths:

- **Recipe writes.** A payload is validated against the serializer's field list. Each `{name}` descriptor in its tag and ingredient lists is resolved by get-or-create within the requester's own rows. The scalar fields are then written with partial-update semantics, and the owner can never be written.
- **Listings.** A recipe listing is scoped to its owner and can be filtered by comma-separated tag ids and ingredient ids. The result is deduplicated and ordered newest first. Tag and ingredient listings are owner-scoped and ordered by descending name.

Modules:

- `Records` (`records.dfy`): the row types (`Attr` for a Tag or Ingredient row, `Recipe`), `Option`/`Result`, and the set of a user's rows with given names (`OwnedNamed`).
- `Params` (`params.dfy`): `_params_to_ints`. This is Python's `str.split(",")` followed by `int()` on every piece. `int()` strips its own whitespace set: C's ASCII `isspace` characters, plus the non-ASCII characters `str.isspace` accepts. So U+001C to U+001F are not stripped. It also takes an optional sign, single underscores between digits, and at most 4300 digits, CPython's default limit. The module also has `str.strip()`, which removes everything `str.isspace` accepts; the serializers use it.
- `Ordering` (`ordering.dfy`): the name order of `order_by("-name")`, compared by code point.
- `Queries` (`queries.dfy`): both `get_queryset` methods, as functions over the store's maps.
- `Serializers` (`serializers.dfy`): the field lists, validation, and scalar patching. The `Store` class holds the Tag, Ingredient and Recipe tables, the two association tables and the id counters as fields. Its methods are get-or-create reconciliation, `create` and `update`.
- `Views` (`views.dfy`): `perform_create`, which sets the requester as owner, and the owner-scoped update entry point.

Modelling decisions:

- **Invariant.** The store invariant `Valid()` says:
  - every recipe has both association rows;
  - associations point at existing rows;
  - every id is below its table's next id.
- **Name uniqueness.** Uniqueness of (owner, name) within a table (`NamesUnique`) is a precondition of every write. Without it, `get_or_create` would raise `MultipleObjectsReturned`. Every write preserves it.
- **get-or-create.** It is "the unique row with this owner and name, else a new row under the table's next id".
- **Price.** It is a whole number of cents.
- **Free parameters.** The requesting user is a parameter; authentication is not modelled. I/O, the database and HTTP are not modelled: the tables are in-memory maps.

Three points of the code worth knowing:

- **Bad filter ids.** In a filter parameter such as `tags=1,x`, `int("x")` raises `ValueError`. Nothing in `_params_to_ints` or `get_queryset` catches it, so the request fails with a server error. The model returns `Err` carrying the offending piece. It does not model which HTTP status results.
- **`assigned_only`.** No code in `BaseRecipeAttrViewSet.get_queryset` reads an `assigned_only` parameter. The ingredient tests send one to the recipes URL (app/recipe/tests/test_ingredient_api.py:132, 162). The model ignores it.
- **Text fields.** DRF's `CharField`s strip surrounding whitespace (`trim_whitespace`). So the model strips descriptor names, title, link and description with `str.strip()`, and a name sent as " Vegan " finds the row named "Vegan". A title or a name that is blank once stripped is invalid. Link and description may be blank. Text that holds a NUL character is invalid in every text field and every name, because each `CharField` carries DRF's `ProhibitNullCharactersValidator`. app/core/models.py is not part of this model, so this blank rule follows the fields the full-write tests leave out.

## Model

| member | source | states |
|---|---|---|
| Params.StripIsSlice | app/recipe/serializers.py:9-26 | `trim_whitespace` of every `CharField`, which the helpers Names (descriptor names) and Trimmed (title, link, description) apply: the kept text is a slice of the input, everything cut off on either side is whitespace, and the kept text neither starts nor ends with whitespace |
| Params.Split | app/recipe/views.py:50 | `str.split(",")` always yields at least one piece: an empty parameter is one empty piece. Its count and round trips are in the rows below |
| Params.ParseInt | app/recipe/views.py:50 | `int(piece)`: a piece that parses holds nothing but digits, underscores, signs and the whitespace `int()` strips. The round trip is ParseFormat |
| Params.TooManyDigitsRejected | app/recipe/views.py:50 | more than 4300 digits make `int()` fail, however well formed they are |
| Params.SeparatorNotStripped | app/recipe/views.py:50 | `int()` does not strip U+001C, so `"\x1c1"` fails, although `str.strip()` would remove that character |
| Params.ParamsToInts | app/recipe/views.py:48-50 | Ok exactly when every comma-separated piece is an `int()` literal. It then gives one int per piece, in order, and the count is the number of commas plus one. Otherwise it is Err with a piece that does not parse |
| Params.ParseAll | app/recipe/views.py:50 | the comprehension over the pieces: Ok iff every piece parses, the values correspond index by index, and Err names a bad piece |
| Params.SplitCount | app/recipe/views.py:50 | `split(",")` yields one piece more than there are commas |
| Params.SplitPiecesCommaFree | app/recipe/views.py:50 | no piece of a split contains a comma |
| Params.JoinSplit | app/recipe/views.py:50 | joining the pieces with "," gives back the parameter |
| Params.SplitJoin | app/recipe/views.py:50 | splitting comma-free pieces joined with "," gives back the pieces |
| Params.FormatNatDigits | app/recipe/views.py:50 | `str(n)` is a non-empty run of digits that spells n |
| Params.ParseFormat | app/recipe/views.py:50 | `int(str(i)) == i` for every integer of at most 4300 digits, the ones `str` can spell |
| Params.ParamsRoundTrip | app/recipe/views.py:48-50 | a non-empty list of ints joined with "," parses back to the same list, in order, when each int has at most 4300 digits |
| Params.EmptyPieceRejected | app/recipe/views.py:50 | an empty piece, as in "1,,2", makes the whole parameter fail |
| Params.JoinFormattedNonEmpty | app/recipe/views.py:58 | a non-empty id list joined with "," is a non-empty parameter, so `if tags:` applies it |
| Ordering.NameLessLexicographic | app/recipe/views.py:101 | the name order of `order_by("-name")` is the lexicographic one, in both directions: a proper prefix sorts first, and otherwise the first character where the names differ decides |
| Ordering.NameLessIrreflexive | app/recipe/views.py:101 | no name sorts before itself |
| Ordering.NameLessAsymmetric | app/recipe/views.py:101 | two names are never ordered both ways |
| Ordering.NameLessTransitive | app/recipe/views.py:101 | the name order is transitive |
| Ordering.NameLessTotal | app/recipe/views.py:101 | any two distinct names are ordered one way or the other |
| Queries.DescendingCons | app/recipe/views.py:65 | an id above every id of a descending list can be put in front of it |
| Queries.MaxExists | app/recipe/views.py:65 | a non-empty set of ids has a largest one |
| Queries.SortDesc | app/recipe/views.py:65 | `order_by("-id").distinct()`: strictly descending, with exactly the ids of the set, each once |
| Queries.KeyLessAsymmetric | app/recipe/views.py:101 | the row order (name, then id) is asymmetric |
| Queries.KeyLessTransitive | app/recipe/views.py:101 | the row order is transitive |
| Queries.KeyLessTotal | app/recipe/views.py:101 | the row order is total on distinct rows |
| Queries.TopExists | app/recipe/views.py:101 | a non-empty set of rows has a last one in the row order |
| Queries.KeyDescendingCons | app/recipe/views.py:101 | a row after every row of a key-descending list can be put in front of it |
| Queries.SortByNameDesc | app/recipe/views.py:101 | `order_by("-name")`: exactly the given rows, each once, every row after the rows that follow it |
| Queries.ListAttrs | app/recipe/views.py:99-101 | tag or ingredient listing: exactly the requester's rows, no duplicates, names non-increasing |
| Queries.IdFilter | app/recipe/views.py:58-63 | the filter of `if tags:` / `if ingredients:`. An error names a piece `int()` rejects; a filter holds one id per piece of the parameter, in order |
| Queries.Passes | app/recipe/views.py:58-63 | `filter(tags__id__in=ids)` on one recipe: a recipe without associations never passes a filter |
| Queries.ListRecipes | app/recipe/views.py:52-65 | Ok iff both parameters parse. A recipe is listed iff it is the requester's and passes both filters (AND). The listing is strictly descending by id, hence free of duplicates |
| Queries.Detail | app/recipe/views.py:52-65 | looking a recipe up through the owner-scoped queryset finds it iff it exists and is the requester's |
| Queries.NoFilterExactly | app/recipe/views.py:58-63 | exactly an absent or empty parameter applies no filter |
| Queries.IdFilterOfIds | app/recipe/views.py:58-63 | the ids sent as "1,2,3" filter by exactly those ids |
| Queries.ListByTagIds | app/recipe/views.py:58-60 | with `tags=ids`, a recipe is listed iff it is the requester's and has a tag whose id is among them |
| Queries.ListByIngredientIds | app/recipe/views.py:61-63 | with `ingredients=ids`, a recipe is listed iff it is the requester's and has an ingredient whose id is among them |
| Queries.FiltersNarrow | app/recipe/views.py:58-65 | whatever a filtered listing shows, the unfiltered listing shows too |
| Queries.ListingsDisjoint | app/recipe/views.py:65 | two users' recipe listings never share a recipe |
| Serializers.Accepts | app/recipe/serializers.py:37-46 | only the writable fields of the detail field list accept a value; `id` and unlisted keys accept none |
| Serializers.Validate | app/recipe/serializers.py:29-46 | `RecipeDetailSerializer` validation over the field list (`description` added at lines 101-105), through the helpers Writable (the listed, non-read-only entries) and Extract (the validated data built from them). Ok iff every writable value is accepted and, on a full write, the required fields are present. Accepted means: text without a NUL character, a title or name not blank once stripped, a number for time and price, and a name in every descriptor. Keys outside the list or read-only are dropped. Text scalars and descriptor names are stripped, numbers are taken as sent, and a list is present iff its key is |
| Serializers.NullInTextRejected | app/recipe/serializers.py:37-46 | a title, link or description holding a NUL character makes any write invalid |
| Serializers.NullInNameRejected | app/recipe/serializers.py:9-26 | a tag or ingredient name holding a NUL character makes any write invalid |
| Serializers.SetAttr | app/recipe/serializers.py:95 | `setattr` never changes the owner, and a key that is not a scalar field changes nothing |
| Serializers.Patched | app/recipe/serializers.py:94-95 | patching keeps the owner, and a patch without any scalar field leaves the row as it was |
| Serializers.PatchStep | app/recipe/serializers.py:94-95 | setting one more attribute extends the patch by it |
| Serializers.SetAttrs | app/recipe/serializers.py:94-95 | the `setattr` loop leaves the row patched by every validated scalar, whatever the iteration order |
| Serializers.Lookup | app/recipe/serializers.py:54-57 | the `get` of get-or-create: None iff no row has the key; otherwise a row with the key, and, as keys are unique, the only one |
| Serializers.GetOrCreate | app/recipe/serializers.py:54-57 | `get_or_create`: an existing row with the key is returned and the table is unchanged; otherwise a row with the key is added under the next id. Uniqueness and the id bound are kept |
| Serializers.ResolveAll | app/recipe/serializers.py:53-58 | the descriptor loop: no earlier row changes, every new row is the requester's and has a listed name for which no row existed, every listed name has the requester's row, and the ids gathered are exactly the requester's rows with listed names |
| Serializers.ReconcileStep | app/recipe/serializers.py:53-58 | one loop step keeps the rows reconciled and adds exactly the resolved row |
| Serializers.NamedStep | app/recipe/serializers.py:53-58 | one loop step adds exactly the resolved row to the requester's rows named so far |
| Serializers.Store.GetOrCreateTags | app/recipe/serializers.py:48-58 | `_get_or_create_tags`: the tag rows are reconciled, and the recipe gains exactly the requester's tags with the listed names. The store invariant and name uniqueness are kept |
| Serializers.Store.GetOrCreateIngredients | app/recipe/serializers.py:60-69 | `_get_or_create_ingredients`, the same for ingredients |
| Serializers.Store.Insert | app/recipe/serializers.py:75 | `Recipe.objects.create`: a row is stored under a fresh id, with no associations |
| Serializers.Store.ClearTags | app/recipe/serializers.py:87 | `instance.tags.clear()` empties that recipe's tag set and nothing else |
| Serializers.Store.ClearIngredients | app/recipe/serializers.py:91 | `instance.ingredients.clear()` empties that recipe's ingredient set and nothing else |
| Serializers.Store.SaveAttrs | app/recipe/serializers.py:94-97 | the row of the recipe is replaced by the patched row; no other row changes |
| Serializers.Store.Create | app/recipe/serializers.py:71-79 | `create`: a new id; the row is the validated scalars over the defaults, under the given owner. The recipe's tags and ingredients are exactly the requester's rows with the listed names, and no list means none |
| Serializers.AttachedToNew | app/recipe/serializers.py:73-77 | rows attached to a new recipe are exactly the reconciled ones |
| Serializers.Store.ReplaceTags | app/recipe/serializers.py:86-88 | a tag list replaces the recipe's tags by exactly the requester's tags with those names, and an empty list clears them. No list changes neither tags nor links |
| Serializers.Store.ReplaceIngredients | app/recipe/serializers.py:90-92 | the same for ingredients |
| Serializers.Store.Update | app/recipe/serializers.py:81-98 | `update`: associations are replaced as in ReplaceTags and ReplaceIngredients. The row is patched by exactly the validated scalars; every other recipe, and the owner, are unchanged |
| Serializers.ExistingRowReused | app/recipe/serializers.py:54-58 | a row the requester already had under a listed name is the one attached, and no second row with that key appears |
| Serializers.EveryNameAttached | app/recipe/serializers.py:53-58 | for every listed name, the recipe ends up with a row of the requester's with that name |
| Serializers.OtherUsersUntouched | app/recipe/serializers.py:51-56 | another user's rows are never modified and never attached |
| Serializers.ReconciledNothing | app/recipe/serializers.py:73-74 | reconciling an empty list changes no row |
| Serializers.CreatedRow | app/recipe/serializers.py:71-79 | a created row, the validated scalars written over the default row Blank, is owned by the requester. It has the payload's title (stripped, not blank), time and price, plus its link and description when given, stripped (empty otherwise) |
| Serializers.UpdatedRow | app/recipe/serializers.py:94-97 | a partial or full update overwrites exactly the scalar fields present in the payload; all others, including `link` and the owner, keep their values |
| Serializers.IgnoredKey | app/recipe/serializers.py:37-46 | a key outside the field list (such as `user`) or a read-only one (`id`) validates exactly as if it were absent |
| Serializers.PaddedNameStripped | app/recipe/serializers.py:32-33 | a descriptor `{"name": " Vegan "}` asks for "Vegan", the row get-or-create then finds |
| Views.PerformCreate | app/recipe/views.py:76-78 | an invalid payload is rejected and changes nothing. Otherwise the new recipe is owned by the requester, with rows and associations as in Create. A missing `tags` or `ingredients` key gives an empty set and creates no row, which is what the helper Requested (the `pop` with default `[]`, serializers.py:73-74) promises |
| Views.PerformUpdate | app/recipe/views.py:52-65 | another user's or a missing recipe is NotFound, and an invalid payload is Invalid; either way nothing changes. Otherwise the row and associations change as in Update, and the owner stays. A missing key leaves its relation untouched; an empty list clears it |

## Left out

- Image upload (`upload_image`, `RecipeImageSerializer`): file storage and image validation are foreign I/O.
- Authentication, permissions, URL routing, the admin site, user accounts and the `wait_for_db` command: framework plumbing. The requester is a parameter.
- Retrieve and delete of recipes, and update and delete of tags and ingredients through their view sets: these are framework mixins with no code of the repository's own.
- `get_serializer_class`: only the detail serializer's field list is modelled, and it is the one create and update use. The list serializer differs only in what it shows.
- The `tags`/`ingredients` query filters that `get_queryset` also applies to detail requests: Views.PerformUpdate looks a recipe up without query parameters.
- Params.ParseInt: accepts ASCII digits only. Python's `int()` also accepts other Unicode decimal digits.
- Queries.SortByNameDesc: names are ordered by code point. A database collation may order them differently. Rows with equal names, which exist only when uniqueness has been broken, are ordered by id.
- `price` is modelled as a whole number of cents. Decimal parsing and rounding are not modelled. Neither is `max_length`, because app/core/models.py is not part of this model.
- The HTTP status codes and JSON rendering of errors. In particular, the server error caused by an uncaught `ValueError` is modelled only as `Err`.
- Duplicate (owner, name) rows: `NamesUnique` is a precondition, so the `MultipleObjectsReturned` exception of `get_or_create` is not modelled.
- Descriptor keys other than `name` are dropped, as the nested serializers drop them. On a full write (POST, PUT), a descriptor without a name makes the payload invalid, as DRF's `required` check does.
- Serializers.Validate: rejects a descriptor without a name on a partial update (PATCH) too, where DRF does not. There, DRF skips the missing `name` and `get_or_create(user=...)` runs with the owner alone. That attaches the user's only row, creates a row with an empty name, or raises `MultipleObjectsReturned` after earlier rows were attached. Modelling that would need a get-or-create by owner alone, with a failure part-way through the loop.
- Serializers.Validate: takes `time_minutes` and `price` only as JSON numbers, and text fields only as JSON strings. DRF's `IntegerField` also converts strings such as "30" or "30.0", as form-encoded posts send them. Its `DecimalField` parses decimal strings, and its `CharField` turns numbers into text. The column ranges, `max_length` and `max_digits` are not modelled either.
- Params.ParamsToInts: uses CPython's default digit limit of 4300. A limit set through `PYTHONINTMAXSTRDIGITS`, or a Python older than 3.11 without the limit, is not modelled.
- Concurrency and transactions: two requests racing to create the same tag are the database's concern.
