/** The write side of the recipe API: `RecipeSerializer` (its writable field list, nested
    get-or-create of tags and ingredients, `create`, `update`) over an in-memory store of the
    Tag, Ingredient and Recipe tables, and the `RecipeViewSet` entry points that call it
    (`perform_create` and the owner-scoped update). */
module Serializers {
  import opened Records
  import Params

  // ---------------------------------------------------------------------------
  // Payloads and the writable field list
  // ---------------------------------------------------------------------------

  /** A JSON value of a write payload. A tag or ingredient list is a list of `{name}`
      descriptors; None stands for a descriptor without a name. */
  datatype Value =
    | Str(s: string)
    | Int(i: int)
    | Descriptors(items: seq<Option<string>>)

  /** The decoded JSON object of a POST, PUT or PATCH body. */
  type Payload = map<string, Value>

  /** `RecipeSerializer.Meta.fields`. */
  const RecipeFields: seq<string> := ["id", "title", "time_minutes", "price", "link", "tags", "ingredients"]

  /** `RecipeDetailSerializer.Meta.fields`, the serializer of create and update. */
  const DetailFields: seq<string> := RecipeFields + ["description"]

  /** `Meta.read_only_fields`. */
  const ReadOnlyFields: seq<string> := ["id"]

  /** The model fields a full write must supply. */
  const RequiredFields: seq<string> := ["title", "time_minutes", "price"]

  /** The fields that are plain attributes of the Recipe row. */
  const ScalarFields: seq<string> := ["title", "time_minutes", "price", "link", "description"]

  /** A text value a `CharField` that may not be blank accepts: something is left after
      `trim_whitespace` strips it. */
  predicate NonBlank(s: string)
  {
    Params.Strip(s) != ""
  }

  /** Text a `CharField` accepts: no NUL character (every `CharField` carries a validator
      that prohibits it, and stripping never removes it), and, where the field may not be
      blank, something left once stripped. */
  predicate TextAccepted(s: string, blankAllowed: bool)
  {
    '\0' !in s && (blankAllowed || NonBlank(s))
  }

  /** What each writable field accepts: text without a NUL character where the row holds text
      (a title or a name must not be blank once stripped), a number where it holds a number,
      and a list of descriptors that each carry a name for a relation. Fields that are not
      writable accept nothing. */
  predicate Accepts(field: string, v: Value)
    ensures Accepts(field, v) ==> field in DetailFields && field !in ReadOnlyFields
  {
    if field == "title" then v.Str? && TextAccepted(v.s, false)
    else if field == "link" || field == "description" then v.Str? && TextAccepted(v.s, true)
    else if field == "time_minutes" || field == "price" then v.Int?
    else if field == "tags" || field == "ingredients" then
      v.Descriptors? && forall k :: 0 <= k < |v.items| ==> v.items[k].Some? && TextAccepted(v.items[k].value, false)
    else false
  }

  /** A value as `validated_data` holds it: text stripped by `trim_whitespace`, numbers as sent. */
  function Trimmed(v: Value): (t: Value)
    ensures t.Str? <==> v.Str?
    ensures t.Str? ==> t.s == Params.Strip(v.s)
    ensures !v.Str? ==> t == v
  {
    if v.Str? then Str(Params.Strip(v.s)) else v
  }

  /** The names of a list of descriptors that all carry one, each stripped as the nested
      serializer's `name` field strips it. */
  function Names(items: seq<Option<string>>): (r: seq<string>)
    requires forall k :: 0 <= k < |items| ==> items[k].Some?
    ensures |r| == |items|
    ensures forall k :: 0 <= k < |items| ==> r[k] == Params.Strip(items[k].value)
  {
    seq(|items|, k requires 0 <= k < |items| => Params.Strip(items[k].value))
  }

  /** The serializer's `validated_data`: the scalar attributes to write, and the descriptor
      names of the tag and ingredient lists, None where the payload has no such key. */
  datatype Validated = Validated(
    scalars: map<string, Value>,
    tags: Option<seq<string>>,
    ingredients: Option<seq<string>>)

  datatype WriteError =
    | Invalid   // the payload did not validate: nothing was written
    | NotFound  // the recipe is not one of the requester's

  /** The entries of `p` a serializer with field list `fields` may write: listed, not read-only. */
  function Writable(p: Payload, fields: seq<string>): (w: Payload)
    ensures forall k :: k in w <==> k in p && k in fields && k !in ReadOnlyFields
    ensures forall k :: k in w ==> w[k] == p[k]
  {
    map k | k in p && k in fields && k !in ReadOnlyFields :: p[k]
  }

  /** The `validated_data` of the writable entries `w` of a payload whose every entry is of
      the right type: its scalar entries, and the names of its descriptor lists. */
  function Extract(w: Payload): (v: Validated)
    requires forall k :: k in w ==> Accepts(k, w[k])
    ensures forall k :: k in v.scalars <==> k in w && k in ScalarFields
    ensures forall k :: k in v.scalars ==> v.scalars[k] == Trimmed(w[k])
    ensures v.tags.Some? <==> "tags" in w
    ensures v.ingredients.Some? <==> "ingredients" in w
    ensures v.tags.Some? ==>
              w["tags"].Descriptors? && |v.tags.value| == |w["tags"].items|
              && forall k :: 0 <= k < |w["tags"].items| ==>
                   w["tags"].items[k].Some? && v.tags.value[k] == Params.Strip(w["tags"].items[k].value)
    ensures v.ingredients.Some? ==>
              w["ingredients"].Descriptors? && |v.ingredients.value| == |w["ingredients"].items|
              && forall k :: 0 <= k < |w["ingredients"].items| ==>
                   w["ingredients"].items[k].Some? && v.ingredients.value[k] == Params.Strip(w["ingredients"].items[k].value)
  {
    var tags := if "tags" in w then assert Accepts("tags", w["tags"]); Some(Names(w["tags"].items)) else None;
    var ingredients :=
      if "ingredients" in w then assert Accepts("ingredients", w["ingredients"]); Some(Names(w["ingredients"].items))
      else None;
    Validated(map k | k in w && k in ScalarFields :: Trimmed(w[k]), tags, ingredients)
  }

  /** `is_valid()` of a serializer with field list `fields`: every key outside the list, or
      read-only, is dropped (so an owner in the payload never reaches the row); a writable
      key of the wrong type, or a missing required field on a full write, is rejected. */
  function Validate(p: Payload, fields: seq<string>, partial: bool): (r: Result<Validated, WriteError>)
    ensures r.Ok? <==>
              && (forall k :: k in p && k in fields && k !in ReadOnlyFields ==> Accepts(k, p[k]))
              && (partial || forall k :: k in RequiredFields && k in fields ==> k in p)
    ensures r.Ok? ==> forall k :: k in r.value.scalars <==> k in p && k in fields && k in ScalarFields
    ensures r.Ok? ==> forall k :: k in r.value.scalars ==> r.value.scalars[k] == Trimmed(p[k])
    ensures r.Ok? ==> (r.value.tags.Some? <==> "tags" in p && "tags" in fields)
    ensures r.Ok? ==> (r.value.ingredients.Some? <==> "ingredients" in p && "ingredients" in fields)
    ensures r.Ok? && r.value.tags.Some? ==>
              p["tags"].Descriptors? && |r.value.tags.value| == |p["tags"].items|
              && forall k :: 0 <= k < |p["tags"].items| ==>
                   p["tags"].items[k].Some? && r.value.tags.value[k] == Params.Strip(p["tags"].items[k].value)
    ensures r.Ok? && r.value.ingredients.Some? ==>
              p["ingredients"].Descriptors? && |r.value.ingredients.value| == |p["ingredients"].items|
              && forall k :: 0 <= k < |p["ingredients"].items| ==>
                   p["ingredients"].items[k].Some?
                   && r.value.ingredients.value[k] == Params.Strip(p["ingredients"].items[k].value)
  {
    var w := Writable(p, fields);
    if exists k :: k in w && !Accepts(k, w[k]) then Err(Invalid)
    else if !partial && exists k :: k in RequiredFields && k in fields && k !in w then Err(Invalid)
    else Ok(Extract(w))
  }

  // ---------------------------------------------------------------------------
  // Scalar attributes
  // ---------------------------------------------------------------------------

  /** `setattr(instance, attr, value)` for one validated attribute. */
  function SetAttr(r: Recipe, attr: string, v: Value): (r': Recipe)
    ensures r'.owner == r.owner
    ensures attr !in ScalarFields ==> r' == r
  {
    if attr == "title" && v.Str? then r.(title := v.s)
    else if attr == "time_minutes" && v.Int? then r.(timeMinutes := v.i)
    else if attr == "price" && v.Int? then r.(price := v.i)
    else if attr == "link" && v.Str? then r.(link := v.s)
    else if attr == "description" && v.Str? then r.(description := v.s)
    else r
  }

  /** The row after a partial write of `scalars`: each attribute present is overwritten, each
      absent one keeps its value, and the owner is not an attribute that can be written. */
  function Patched(r: Recipe, scalars: map<string, Value>): (r': Recipe)
    ensures r'.owner == r.owner
    ensures (forall k :: k in scalars ==> k !in ScalarFields) ==> r' == r
  {
    Recipe(
      r.owner,
      if "title" in scalars && scalars["title"].Str? then scalars["title"].s else r.title,
      if "time_minutes" in scalars && scalars["time_minutes"].Int? then scalars["time_minutes"].i else r.timeMinutes,
      if "price" in scalars && scalars["price"].Int? then scalars["price"].i else r.price,
      if "link" in scalars && scalars["link"].Str? then scalars["link"].s else r.link,
      if "description" in scalars && scalars["description"].Str? then scalars["description"].s else r.description)
  }

  /** Overwriting one attribute that is not yet in `scalars` extends the patch by it. */
  lemma PatchStep(r: Recipe, scalars: map<string, Value>, attr: string, v: Value)
    requires attr !in scalars
    ensures Patched(r, scalars[attr := v]) == SetAttr(Patched(r, scalars), attr, v)
  {
  }

  /** The loop of `update` over the validated data: each attribute is set on the instance in
      turn, in whatever order the dict yields them, and the row ends up patched by all of
      them. */
  method SetAttrs(r: Recipe, scalars: map<string, Value>) returns (r': Recipe)
    ensures r' == Patched(r, scalars)
  {
    r' := r;
    var todo := scalars.Keys;
    var done: map<string, Value> := map[];
    assert Patched(r, done) == r;
    while todo != {}
      invariant todo !! done.Keys && todo + done.Keys == scalars.Keys
      invariant forall k :: k in done ==> done[k] == scalars[k]
      invariant r' == Patched(r, done)
      decreases todo
    {
      var attr :| attr in todo;
      PatchStep(r, done, attr, scalars[attr]);
      r' := SetAttr(r', attr, scalars[attr]);
      done := done[attr := scalars[attr]];
      todo := todo - {attr};
    }
    assert done == scalars;
  }

  /** The row `Recipe.objects.create` starts from: the optional text fields default to empty,
      the required ones are always overwritten from a validated full payload. */
  function Blank(owner: UserId): (r: Recipe)
    ensures r.owner == owner && r.link == "" && r.description == ""
  {
    Recipe(owner, "", 0, 0, "", "")
  }

  /** The names a descriptor list of the validated data asks for; an absent list asks for none. */
  function Requested(names: Option<seq<string>>): (r: seq<string>)
    ensures names.None? ==> r == []
    ensures names.Some? ==> r == names.value
  {
    if names.Some? then names.value else []
  }

  /** The `get` half of get-or-create: the id of the row of `m` with key `key`, if there is
      one. Since keys are unique, it is the only such row. */
  function Lookup(m: map<Id, Attr>, key: Attr): (r: Option<Id>)
    requires NamesUnique(m)
    ensures r.None? <==> !HasRow(m, key)
    ensures r.Some? ==> r.value in m && m[r.value] == key
    ensures r.Some? ==> forall id :: id in m && m[id] == key ==> id == r.value
  {
    if HasRow(m, key) then Some(var id :| id in m && m[id] == key; id) else None
  }

  // ---------------------------------------------------------------------------
  // The store
  // ---------------------------------------------------------------------------

  /** The Tag, Ingredient and Recipe tables, the two association tables of recipes, and the
      next id each table hands out. */
  class Store {
    var tags: map<Id, Attr>
    var ingredients: map<Id, Attr>
    var recipes: map<Id, Recipe>
    var recipeTags: map<Id, set<Id>>
    var recipeIngredients: map<Id, set<Id>>
    var nextTagId: Id
    var nextIngredientId: Id
    var nextRecipeId: Id

    /** Every recipe has both association rows and they name existing rows; ids are below
        the next id of their table. */
    ghost predicate Valid()
      reads this
    {
      && recipeTags.Keys == recipes.Keys
      && recipeIngredients.Keys == recipes.Keys
      && (forall r :: r in recipeTags ==> recipeTags[r] <= tags.Keys)
      && (forall r :: r in recipeIngredients ==> recipeIngredients[r] <= ingredients.Keys)
      && Below(tags, nextTagId)
      && Below(ingredients, nextIngredientId)
      && (forall id :: id in recipes ==> id < nextRecipeId)
    }

    constructor ()
      ensures Valid() && NamesUnique(tags) && NamesUnique(ingredients)
      ensures tags == map[] && ingredients == map[] && recipes == map[]
    {
      tags, ingredients, recipes := map[], map[], map[];
      recipeTags, recipeIngredients := map[], map[];
      nextTagId, nextIngredientId, nextRecipeId := 0, 0, 0;
    }

    /** `Recipe.objects.create(...)`: the row is stored under the next recipe id, with no
        tags and no ingredients yet. */
    method Insert(row: Recipe) returns (id: Id)
      requires Valid()
      modifies this`recipes, this`recipeTags, this`recipeIngredients, this`nextRecipeId
      ensures Valid()
      ensures id == old(nextRecipeId) && id !in old(recipes)
      ensures nextRecipeId == old(nextRecipeId) + 1
      ensures recipes == old(recipes)[id := row]
      ensures recipeTags == old(recipeTags)[id := {}]
      ensures recipeIngredients == old(recipeIngredients)[id := {}]
    {
      id := nextRecipeId;
      recipes := recipes[id := row];
      recipeTags := recipeTags[id := {}];
      recipeIngredients := recipeIngredients[id := {}];
      nextRecipeId := nextRecipeId + 1;
    }

    /** `setattr` of every validated scalar on the instance, then `instance.save()`: the row of
        recipe `id` is patched and stored, every other row stays. */
    method SaveAttrs(id: Id, scalars: map<string, Value>)
      requires Valid() && id in recipes
      modifies this`recipes
      ensures Valid()
      ensures recipes == old(recipes)[id := Patched(old(recipes)[id], scalars)]
    {
      var row := SetAttrs(recipes[id], scalars);
      recipes := recipes[id := row];
    }

    /** `recipe.tags.clear()`: the tag rows themselves stay. */
    method ClearTags(recipe: Id)
      requires Valid() && recipe in recipes
      modifies this`recipeTags
      ensures Valid()
      ensures recipeTags == old(recipeTags)[recipe := {}]
    {
      recipeTags := recipeTags[recipe := {}];
    }

    /** `recipe.ingredients.clear()`: the ingredient rows themselves stay. */
    method ClearIngredients(recipe: Id)
      requires Valid() && recipe in recipes
      modifies this`recipeIngredients
      ensures Valid()
      ensures recipeIngredients == old(recipeIngredients)[recipe := {}]
    {
      recipeIngredients := recipeIngredients[recipe := {}];
    }

    /** `_get_or_create_tags(tags, recipe)`: every descriptor name is resolved to the
        requester's tag of that name, reused when it exists and made otherwise, and added to
        the recipe's tags. No existing tag row changes, whoever owns it; the tags added are
        exactly the requester's tags named in the list. */
    method GetOrCreateTags(user: UserId, names: seq<string>, recipe: Id)
      requires Valid() && NamesUnique(tags) && recipe in recipes
      modifies this`tags, this`nextTagId, this`recipeTags
      ensures Valid() && NamesUnique(tags)
      ensures Reconciled(old(tags), tags, user, names, |names|)
      ensures recipeTags == old(recipeTags)[recipe := old(recipeTags)[recipe] + OwnedNamed(tags, user, names)]
    {
      var rows, next, ids := ResolveAll(tags, nextTagId, user, names);
      var assoc := recipeTags[recipe := recipeTags[recipe] + ids];
      assert forall r :: r in assoc ==> assoc[r] <= rows.Keys by {
        forall r | r in assoc
          ensures assoc[r] <= rows.Keys
        {
          assert recipeTags[r] <= tags.Keys <= rows.Keys;
        }
      }
      tags, nextTagId, recipeTags := rows, next, assoc;
    }

    /** `_get_or_create_ingredients(ingredients, recipe)`, the same for ingredients. */
    method GetOrCreateIngredients(user: UserId, names: seq<string>, recipe: Id)
      requires Valid() && NamesUnique(ingredients) && recipe in recipes
      modifies this`ingredients, this`nextIngredientId, this`recipeIngredients
      ensures Valid() && NamesUnique(ingredients)
      ensures Reconciled(old(ingredients), ingredients, user, names, |names|)
      ensures recipeIngredients ==
                old(recipeIngredients)[recipe := old(recipeIngredients)[recipe] + OwnedNamed(ingredients, user, names)]
    {
      var rows, next, ids := ResolveAll(ingredients, nextIngredientId, user, names);
      var assoc := recipeIngredients[recipe := recipeIngredients[recipe] + ids];
      assert forall r :: r in assoc ==> assoc[r] <= rows.Keys by {
        forall r | r in assoc
          ensures assoc[r] <= rows.Keys
        {
          assert recipeIngredients[r] <= ingredients.Keys <= rows.Keys;
        }
      }
      ingredients, nextIngredientId, recipeIngredients := rows, next, assoc;
    }

    /** `RecipeSerializer.create`, called by `perform_create` with the requester as owner: the
        row is made from the validated scalars under the next recipe id with empty
        associations, then the listed tags and ingredients (none when the key is absent) are
        got or created for the requester and attached. */
    method Create(user: UserId, v: Validated) returns (id: Id)
      requires Valid() && NamesUnique(tags) && NamesUnique(ingredients)
      modifies this
      ensures Valid() && NamesUnique(tags) && NamesUnique(ingredients)
      ensures id !in old(recipes) && id == old(nextRecipeId)
      ensures recipes == old(recipes)[id := Patched(Blank(user), v.scalars)]
      ensures Replaced(old(tags), tags, old(recipeTags), recipeTags, user, Some(Requested(v.tags)), id)
      ensures Replaced(old(ingredients), ingredients, old(recipeIngredients), recipeIngredients,
                       user, Some(Requested(v.ingredients)), id)
    {
      id := Insert(Patched(Blank(user), v.scalars));
      GetOrCreateTags(user, Requested(v.tags), id);
      AttachedToNew(old(tags), tags, old(recipeTags), recipeTags, user, Requested(v.tags), id);
      GetOrCreateIngredients(user, Requested(v.ingredients), id);
      AttachedToNew(old(ingredients), ingredients, old(recipeIngredients), recipeIngredients,
                    user, Requested(v.ingredients), id);
    }

    /** The tag step of `update`: when the validated data has a tag list, the recipe's tags
        are cleared and the list is reconciled, so the recipe ends with the requester's tags of
        those names (an empty list clears them); no list leaves tags and tag rows alone. */
    method ReplaceTags(user: UserId, id: Id, names: Option<seq<string>>)
      requires Valid() && NamesUnique(tags) && id in recipes
      modifies this`tags, this`nextTagId, this`recipeTags
      ensures Valid() && NamesUnique(tags)
      ensures Replaced(old(tags), tags, old(recipeTags), recipeTags, user, names, id)
    {
      if names.Some? {
        ClearTags(id);
        ghost var assoc0 := recipeTags;
        GetOrCreateTags(user, names.value, id);
        ghost var tagged := OwnedNamed(tags, user, names.value);
        assert recipeTags == assoc0[id := {} + tagged];
        assert {} + tagged == tagged;
      }
    }

    /** The same for `ingredients`. */
    method ReplaceIngredients(user: UserId, id: Id, names: Option<seq<string>>)
      requires Valid() && NamesUnique(ingredients) && id in recipes
      modifies this`ingredients, this`nextIngredientId, this`recipeIngredients
      ensures Valid() && NamesUnique(ingredients)
      ensures Replaced(old(ingredients), ingredients, old(recipeIngredients), recipeIngredients, user, names, id)
    {
      if names.Some? {
        ClearIngredients(id);
        ghost var assoc0 := recipeIngredients;
        GetOrCreateIngredients(user, names.value, id);
        ghost var got := OwnedNamed(ingredients, user, names.value);
        assert recipeIngredients == assoc0[id := {} + got];
        assert {} + got == got;
      }
    }

    /** `RecipeSerializer.update` on the requester's recipe `id`: the tag and ingredient lists
        of the validated data replace the recipe's associations (an absent one leaves them
        alone), then each validated scalar is set on the row and the row is saved. The owner
        and every other recipe stay as they were. */
    method Update(user: UserId, id: Id, v: Validated)
      requires Valid() && NamesUnique(tags) && NamesUnique(ingredients) && id in recipes
      modifies this`tags, this`nextTagId, this`recipeTags
      modifies this`ingredients, this`nextIngredientId, this`recipeIngredients, this`recipes
      ensures Valid() && NamesUnique(tags) && NamesUnique(ingredients)
      ensures recipes == old(recipes)[id := Patched(old(recipes)[id], v.scalars)]
      ensures Replaced(old(tags), tags, old(recipeTags), recipeTags, user, v.tags, id)
      ensures Replaced(old(ingredients), ingredients, old(recipeIngredients), recipeIngredients, user, v.ingredients, id)
    {
      ReplaceTags(user, id, v.tags);
      ReplaceIngredients(user, id, v.ingredients);
      SaveAttrs(id, v.scalars);
    }
  }

  /** The loop both `_get_or_create_*` helpers run over the descriptor names, on a table
      `rows` whose next id is `next`: each name is got or created in turn. The rows named
      are the requester's rows with those names, and no earlier row changes. */
  method ResolveAll(rows: map<Id, Attr>, next: Id, user: UserId, names: seq<string>)
    returns (rows': map<Id, Attr>, next': Id, ids: set<Id>)
    requires NamesUnique(rows) && Below(rows, next)
    ensures NamesUnique(rows') && Below(rows', next')
    ensures Reconciled(rows, rows', user, names, |names|)
    ensures ids == OwnedNamed(rows', user, names)
  {
    rows', next', ids := rows, next, {};
    var i := 0;
    assert OwnedNamed(rows', user, names[..0]) == {};
    while i < |names|
      invariant 0 <= i <= |names|
      invariant NamesUnique(rows') && Below(rows', next')
      invariant Reconciled(rows, rows', user, names, i)
      invariant ids == OwnedNamed(rows', user, names[..i])
    {
      var got := GetOrCreate(rows', next', Attr(user, names[i]));
      ReconcileStep(rows, rows', got, user, names, i);
      rows', next', ids := got.rows, got.next, ids + {got.id};
      i := i + 1;
    }
    assert names[..i] == names;
  }

  /** The association rows `a` and attr table `t` after `names` replaced recipe `id`'s
      associations in `a0` and `t0`: with a list, the rows were got or created for the
      requester and the recipe is associated with exactly the requester's rows of those
      names; with none, nothing changed. */
  ghost predicate Replaced(t0: map<Id, Attr>, t: map<Id, Attr>, a0: map<Id, set<Id>>, a: map<Id, set<Id>>,
                           user: UserId, names: Option<seq<string>>, id: Id)
  {
    && Reconciled(t0, t, user, Requested(names), |Requested(names)|)
    && (names.Some? ==> a == a0[id := OwnedNamed(t, user, names.value)])
    && (names.None? ==> a == a0 && t == t0)
  }

  /** Attaching the rows reconciled for `names` to a recipe that was just made with no
      associations leaves it associated with exactly those rows. */
  lemma AttachedToNew(t0: map<Id, Attr>, t: map<Id, Attr>, a0: map<Id, set<Id>>, a: map<Id, set<Id>>,
                      user: UserId, names: seq<string>, id: Id)
    requires Reconciled(t0, t, user, names, |names|)
    requires a == a0[id := {}][id := {} + OwnedNamed(t, user, names)]
    ensures Replaced(t0, t, a0, a, user, Some(names), id)
  {
    assert {} + OwnedNamed(t, user, names) == OwnedNamed(t, user, names);
  }

  /** Every id of `rows` is below `next`, the id the table hands out next. */
  predicate Below(rows: map<Id, Attr>, next: Id)
  {
    forall id :: id in rows ==> id < next
  }

  /** A table after a get-or-create, the id it hands out next, and the row it resolved to. */
  datatype Got = Got(rows: map<Id, Attr>, next: Id, id: Id)

  /** `get_or_create` by owner and name on a table `rows` whose next id is `next`:
      the row with that key when one exists, the table unchanged; otherwise a new row with
      the next id. */
  function GetOrCreate(rows: map<Id, Attr>, next: Id, key: Attr): (g: Got)
    requires NamesUnique(rows) && Below(rows, next)
    ensures NamesUnique(g.rows) && Below(g.rows, g.next)
    ensures g.id in g.rows && g.rows[g.id] == key
    ensures HasRow(rows, key) ==> g.rows == rows && g.next == next
    ensures !HasRow(rows, key) ==> g.id == next && g.id !in rows && g.rows == rows[next := key]
  {
    match Lookup(rows, key)
    case Some(id) => Got(rows, next, id)
    case None => Got(rows[next := key], next + 1, next)
  }

  /** The rows `t` after get-or-create of the first `i` names, starting from rows `t0`: no row
      of `t0` changed, whoever owns it; every new row is the requester's, named in the list,
      and was made only because no such row existed; each of the first `i` names has the
      requester's row. */
  ghost predicate Reconciled(t0: map<Id, Attr>, t: map<Id, Attr>, user: UserId, names: seq<string>, i: nat)
    requires i <= |names|
  {
    && (forall id :: id in t0 ==> id in t && t[id] == t0[id])
    && (forall id :: id in t && id !in t0 ==>
          t[id].owner == user && t[id].name in names && !HasRow(t0, Attr(user, t[id].name)))
    && (forall k :: 0 <= k < i ==> HasRow(t, Attr(user, names[k])))
  }

  /** One get-or-create step keeps the rows reconciled and adds the resolved row to the
      rows named so far. */
  lemma ReconcileStep(t0: map<Id, Attr>, before: map<Id, Attr>, got: Got,
                      user: UserId, names: seq<string>, i: nat)
    requires i < |names|
    requires Reconciled(t0, before, user, names, i)
    requires NamesUnique(got.rows)
    requires got.id in got.rows && got.rows[got.id] == Attr(user, names[i])
    requires HasRow(before, Attr(user, names[i])) ==> got.rows == before
    requires !HasRow(before, Attr(user, names[i])) ==> got.id !in before && got.rows == before[got.id := Attr(user, names[i])]
    ensures Reconciled(t0, got.rows, user, names, i + 1)
    ensures OwnedNamed(got.rows, user, names[..i + 1]) == OwnedNamed(before, user, names[..i]) + {got.id}
  {
    var after, id := got.rows, got.id;
    NamedStep(before, after, user, names, i, id);
    forall x | x in after && x !in t0
      ensures !HasRow(t0, Attr(user, after[x].name))
    {
      if x !in before {
        forall y | y in t0
          ensures t0[y] != Attr(user, names[i])
        {
          assert before[y] == t0[y];
        }
      }
    }
    forall k | 0 <= k < i + 1
      ensures HasRow(after, Attr(user, names[k]))
    {
      if k < i {
        assert HasRow(before, Attr(user, names[k]));
        var y :| y in before && before[y] == Attr(user, names[k]);
        assert after[y] == before[y];
      }
    }
  }

  /** One get-or-create step adds exactly the resolved row to the rows named so far. */
  lemma NamedStep(before: map<Id, Attr>, after: map<Id, Attr>, user: UserId, names: seq<string>, i: nat, id: Id)
    requires i < |names|
    requires NamesUnique(after)
    requires id in after && after[id] == Attr(user, names[i])
    requires forall x :: x in before ==> x in after && after[x] == before[x]
    requires forall x :: x in after && x !in before ==> x == id
    requires id !in before ==> !HasRow(before, Attr(user, names[i]))
    requires forall k :: 0 <= k < i ==> HasRow(before, Attr(user, names[k]))
    ensures OwnedNamed(after, user, names[..i + 1]) == OwnedNamed(before, user, names[..i]) + {id}
  {
    assert names[..i + 1] == names[..i] + [names[i]];
    forall x | x in OwnedNamed(after, user, names[..i + 1])
      ensures x in OwnedNamed(before, user, names[..i]) + {id}
    {
      if after[x].name == names[i] {
        assert after[x] == after[id];
      } else if x !in before {
        assert x == id;
      }
    }
    forall x | x in OwnedNamed(before, user, names[..i])
      ensures x in OwnedNamed(after, user, names[..i + 1])
    {
      assert before[x] == after[x];
    }
  }

  // ---------------------------------------------------------------------------
  // What reconciliation and the writes promise
  // ---------------------------------------------------------------------------

  /** A row the requester already had under a listed name is the one attached, and no second
      row with that key is made. */
  lemma ExistingRowReused(t0: map<Id, Attr>, t: map<Id, Attr>, user: UserId, names: seq<string>, x: Id)
    requires Reconciled(t0, t, user, names, |names|)
    requires x in t0 && t0[x].owner == user && t0[x].name in names
    ensures x in OwnedNamed(t, user, names) && t[x] == t0[x]
    ensures forall y :: y in t && t[y] == t0[x] ==> y in t0
  {
    assert HasRow(t0, Attr(user, t0[x].name));
  }

  /** Every listed name ends up attached: the recipe gets a row of the requester's with it. */
  lemma EveryNameAttached(t0: map<Id, Attr>, t: map<Id, Attr>, user: UserId, names: seq<string>, k: nat)
    requires Reconciled(t0, t, user, names, |names|) && k < |names|
    ensures exists x :: x in OwnedNamed(t, user, names) && t[x] == Attr(user, names[k])
  {
    assert HasRow(t, Attr(user, names[k]));
    var x :| x in t && t[x] == Attr(user, names[k]);
    assert x in OwnedNamed(t, user, names);
  }

  /** Another user's rows are never modified, and never attached: every row attached is the
      requester's, and every row of another user is one that was there before, unchanged. */
  lemma OtherUsersUntouched(t0: map<Id, Attr>, t: map<Id, Attr>, user: UserId, names: seq<string>, x: Id)
    requires Reconciled(t0, t, user, names, |names|)
    requires x in t && t[x].owner != user
    ensures x in t0 && t[x] == t0[x]
    ensures x !in OwnedNamed(t, user, names)
  {
  }

  /** Reconciling no names changes no row. */
  lemma ReconciledNothing(t0: map<Id, Attr>, t: map<Id, Attr>, user: UserId)
    requires Reconciled(t0, t, user, [], 0)
    ensures t == t0
  {
    assert t.Keys == t0.Keys;
  }

  /** The row `create` makes from a validated full payload: owned by the requester, with the
      payload's title (stripped, and not blank), time and price, and its link and description
      when given, stripped (empty otherwise). */
  lemma CreatedRow(p: Payload, user: UserId)
    requires Validate(p, DetailFields, false).Ok?
    ensures var row := Patched(Blank(user), Validate(p, DetailFields, false).value.scalars);
            && row.owner == user
            && "title" in p && p["title"].Str? && row.title == Params.Strip(p["title"].s) && row.title != ""
            && "time_minutes" in p && p["time_minutes"].Int? && row.timeMinutes == p["time_minutes"].i
            && "price" in p && p["price"].Int? && row.price == p["price"].i
            && row.link == (if "link" in p && p["link"].Str? then Params.Strip(p["link"].s) else "")
            && row.description == (if "description" in p && p["description"].Str? then Params.Strip(p["description"].s) else "")
  {
    UpdatedRow(p, Blank(user), false);
    assert "title" in RequiredFields && "time_minutes" in RequiredFields && "price" in RequiredFields;
    assert "title" in DetailFields && "time_minutes" in DetailFields && "price" in DetailFields;
    AcceptsRequired(p["title"], p["time_minutes"], p["price"]);
  }

  /** What the required fields accept, each field on its own. */
  lemma AcceptsRequired(title: Value, time: Value, price: Value)
    ensures Accepts("title", title) <==> title.Str? && TextAccepted(title.s, false)
    ensures Accepts("time_minutes", time) <==> time.Int?
    ensures Accepts("price", price) <==> price.Int?
  {
  }

  /** A (partial) update overwrites exactly the scalar attributes present in the payload (text
      stripped); every other attribute, and the owner, keeps its value. */
  lemma UpdatedRow(p: Payload, r: Recipe, partial: bool)
    requires Validate(p, DetailFields, partial).Ok?
    ensures var row := Patched(r, Validate(p, DetailFields, partial).value.scalars);
            && row.owner == r.owner
            && row.title == (if "title" in p && p["title"].Str? then Params.Strip(p["title"].s) else r.title)
            && row.timeMinutes == (if "time_minutes" in p && p["time_minutes"].Int? then p["time_minutes"].i else r.timeMinutes)
            && row.price == (if "price" in p && p["price"].Int? then p["price"].i else r.price)
            && row.link == (if "link" in p && p["link"].Str? then Params.Strip(p["link"].s) else r.link)
            && row.description == (if "description" in p && p["description"].Str? then Params.Strip(p["description"].s) else r.description)
    ensures forall f :: f in ScalarFields && f in p ==> Accepts(f, p[f])
  {
    assert "title" in DetailFields && "time_minutes" in DetailFields && "price" in DetailFields;
    assert "link" in DetailFields && "description" in DetailFields;
    assert "title" in ScalarFields && "time_minutes" in ScalarFields && "price" in ScalarFields;
    assert "link" in ScalarFields && "description" in ScalarFields;
  }

  /** A key outside the field list, such as `user`, or a read-only one, such as `id`, makes
      no difference to what is validated: the payload acts as if it were not there. */
  lemma IgnoredKey(p: Payload, k: string, x: Value, partial: bool)
    requires k !in DetailFields || k in ReadOnlyFields
    ensures Validate(p[k := x], DetailFields, partial) == Validate(p - {k}, DetailFields, partial)
  {
    assert Writable(p[k := x], DetailFields) == Writable(p - {k}, DetailFields);
  }

  /** A name sent with whitespace around it, as in `{"name": " Vegan "}`, asks for the
      stripped name, so get-or-create finds a row already named "Vegan". */
  lemma PaddedNameStripped()
    ensures Validate(map["tags" := Descriptors([Some(" Vegan ")])], DetailFields, true)
              == Ok(Validated(map[], Some(["Vegan"]), None))
  {
    assert TrimStartVegan: Params.TrimStart(" Vegan ", Params.IsSpace) == "Vegan " by {
      assert " Vegan "[1..] == "Vegan ";
    }
    assert Params.TrimEnd("Vegan ", Params.IsSpace) == "Vegan" by {
      assert "Vegan "[..5] == "Vegan";
    }
    assert Params.Strip(" Vegan ") == "Vegan";
    assert TextAccepted(" Vegan ", false);
    var p := map["tags" := Descriptors([Some(" Vegan ")])];
    assert Writable(p, DetailFields) == p;
    assert Accepts("tags", p["tags"]);
    assert (map k | k in p && k in ScalarFields :: Trimmed(p[k])) == map[];
    assert Names([Some(" Vegan ")]) == ["Vegan"];
    assert Extract(p) == Validated(map[], Some(["Vegan"]), None);
  }

  /** Text holding a NUL character makes the payload invalid, in any text field. */
  lemma NullInTextRejected(p: Payload, field: string, partial: bool)
    requires field == "title" || field == "link" || field == "description"
    requires field in p && p[field].Str? && '\0' in p[field].s
    ensures Validate(p, DetailFields, partial).Err?
  {
    assert field in DetailFields && field !in ReadOnlyFields;
  }

  /** A tag or ingredient name holding a NUL character makes the payload invalid. */
  lemma NullInNameRejected(p: Payload, field: string, k: nat, partial: bool)
    requires field == "tags" || field == "ingredients"
    requires field in p && p[field].Descriptors? && k < |p[field].items|
    requires p[field].items[k].Some? && '\0' in p[field].items[k].value
    ensures Validate(p, DetailFields, partial).Err?
  {
    assert field in DetailFields && field !in ReadOnlyFields;
    assert !Accepts(field, p[field]);
  }
}
