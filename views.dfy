/** The write entry points of `RecipeViewSet`: `perform_create` saves a validated payload with
    the requester as owner, and an update first looks the recipe up through the owner-scoped
    queryset, so another user's recipe is not found. Both go through the detail serializer,
    whose field list includes `description`. */
module Views {
  import opened Records
  import opened Serializers
  import Queries

  /** `create` then `perform_create`: a payload that does not validate as a full write is
      rejected and nothing changes; otherwise a new recipe owned by the requester is made from
      it, with exactly the requester's tags and ingredients named in it. */
  method PerformCreate(store: Store, user: UserId, payload: Payload) returns (r: Result<Id, WriteError>)
    requires store.Valid() && NamesUnique(store.tags) && NamesUnique(store.ingredients)
    modifies store
    ensures store.Valid() && NamesUnique(store.tags) && NamesUnique(store.ingredients)
    ensures r.Ok? <==> Validate(payload, DetailFields, false).Ok?
    ensures r.Err? ==> r.error == Invalid && unchanged(store)
    ensures r.Ok? ==>
              var v := Validate(payload, DetailFields, false).value;
              && r.value !in old(store.recipes)
              && store.recipes == old(store.recipes)[r.value := Patched(Blank(user), v.scalars)]
              && store.recipes[r.value].owner == user
              && Replaced(old(store.tags), store.tags, old(store.recipeTags), store.recipeTags,
                          user, Some(Requested(v.tags)), r.value)
              && Replaced(old(store.ingredients), store.ingredients, old(store.recipeIngredients),
                          store.recipeIngredients, user, Some(Requested(v.ingredients)), r.value)
    ensures r.Ok? && "tags" !in payload ==> store.recipeTags[r.value] == {} && store.tags == old(store.tags)
    ensures r.Ok? && "ingredients" !in payload ==>
              store.recipeIngredients[r.value] == {} && store.ingredients == old(store.ingredients)
  {
    var validated := Validate(payload, DetailFields, false);
    if validated.Err? {
      return Err(Invalid);
    }
    var id := store.Create(user, validated.value);
    assert "tags" in DetailFields && "ingredients" in DetailFields;
    if "tags" !in payload {
      ReconciledNothing(old(store.tags), store.tags, user);
      assert OwnedNamed(store.tags, user, []) == {};
    }
    if "ingredients" !in payload {
      ReconciledNothing(old(store.ingredients), store.ingredients, user);
      assert OwnedNamed(store.ingredients, user, []) == {};
    }
    return Ok(id);
  }

  /** `update` / `partial_update`: the recipe is looked up among the requester's recipes (not
      found otherwise, even when it exists), then the payload is validated (a full write
      needs every required field) and the serializer's update is applied. On any error
      nothing changes. */
  method PerformUpdate(store: Store, user: UserId, id: Id, payload: Payload, partial: bool)
    returns (r: Result<(), WriteError>)
    requires store.Valid() && NamesUnique(store.tags) && NamesUnique(store.ingredients)
    modifies store
    ensures store.Valid() && NamesUnique(store.tags) && NamesUnique(store.ingredients)
    ensures r == Err(NotFound) <==>
              Queries.Detail(old(store.recipes), old(store.recipeTags), old(store.recipeIngredients), user, id).None?
    ensures r.Ok? <==>
              && id in old(store.recipes) && old(store.recipes)[id].owner == user
              && Validate(payload, DetailFields, partial).Ok?
    ensures r.Err? ==> unchanged(store)
    ensures r.Ok? ==>
              var v := Validate(payload, DetailFields, partial).value;
              && store.recipes == old(store.recipes)[id := Patched(old(store.recipes)[id], v.scalars)]
              && store.recipes[id].owner == user
              && Replaced(old(store.tags), store.tags, old(store.recipeTags), store.recipeTags, user, v.tags, id)
              && Replaced(old(store.ingredients), store.ingredients, old(store.recipeIngredients),
                          store.recipeIngredients, user, v.ingredients, id)
    ensures r.Ok? && "tags" !in payload ==> store.recipeTags == old(store.recipeTags) && store.tags == old(store.tags)
    ensures r.Ok? && "ingredients" !in payload ==>
              store.recipeIngredients == old(store.recipeIngredients) && store.ingredients == old(store.ingredients)
    ensures r.Ok? && "tags" in payload && payload["tags"] == Descriptors([]) ==> store.recipeTags[id] == {}
    ensures r.Ok? && "ingredients" in payload && payload["ingredients"] == Descriptors([]) ==>
              store.recipeIngredients[id] == {}
  {
    var found := Queries.Detail(store.recipes, store.recipeTags, store.recipeIngredients, user, id);
    if found.None? {
      return Err(NotFound);
    }
    var validated := Validate(payload, DetailFields, partial);
    if validated.Err? {
      return Err(Invalid);
    }
    store.Update(user, id, validated.value);
    assert "tags" in DetailFields && "ingredients" in DetailFields;
    if "tags" in payload && payload["tags"] == Descriptors([]) {
      assert validated.value.tags == Some([]);
      assert OwnedNamed(store.tags, user, []) == {};
    }
    if "ingredients" in payload && payload["ingredients"] == Descriptors([]) {
      assert validated.value.ingredients == Some([]);
      assert OwnedNamed(store.ingredients, user, []) == {};
    }
    return Ok(());
  }
}
