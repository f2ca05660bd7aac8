/** The list queries of the recipe API: `RecipeViewSet.get_queryset` (owner scope, tag and
    ingredient id filters, newest first, no duplicates) and `BaseRecipeAttrViewSet.get_queryset`
    (owner scope, descending name) over the store's tables. */
module Queries {
  import opened Records
  import opened Ordering
  import Params

  // ---------------------------------------------------------------------------
  // order_by("-id").distinct()
  // ---------------------------------------------------------------------------

  predicate StrictlyDescending(s: seq<Id>)
  {
    forall i, j :: 0 <= i < j < |s| ==> s[i] > s[j]
  }

  /** A non-empty set of ids has a largest one. */
  lemma {:induction false} MaxExists(s: set<Id>)
    requires s != {}
    ensures exists m :: m in s && forall x :: x in s ==> x <= m
  {
    var y :| y in s;
    var rest := s - {y};
    forall x | x in s
      ensures x == y || x in rest
    {
    }
    if rest == {} {
      assert forall x :: x in s ==> x <= y;
    } else {
      MaxExists(rest);
      var m :| m in rest && forall x :: x in rest ==> x <= m;
      var top := if m < y then y else m;
      assert top in s && forall x :: x in s ==> x <= top;
    }
  }

  /** An id above every id of a descending list can head it. */
  lemma DescendingCons(m: Id, rest: seq<Id>)
    requires StrictlyDescending(rest) && forall x :: x in rest ==> x < m
    ensures StrictlyDescending([m] + rest)
  {
    forall i, j | 0 <= i < j < |[m] + rest|
      ensures ([m] + rest)[i] > ([m] + rest)[j]
    {
      if i > 0 {
        assert ([m] + rest)[i] == rest[i - 1];
      }
      assert ([m] + rest)[j] == rest[j - 1] && rest[j - 1] in rest;
    }
  }

  /** The ids of `s`, each once, largest first. */
  function SortDesc(s: set<Id>): (r: seq<Id>)
    ensures StrictlyDescending(r)
    ensures forall x :: x in r <==> x in s
    ensures |r| == |s|
    decreases s
  {
    if s == {} then []
    else
      MaxExists(s);
      var m :| m in s && forall x :: x in s ==> x <= m;
      var rest := SortDesc(s - {m});
      DescendingCons(m, rest);
      [m] + rest
  }

  // ---------------------------------------------------------------------------
  // order_by("-name")
  // ---------------------------------------------------------------------------

  /** Row `a` sorts before row `b`: by name, and by id between rows of equal name. */
  predicate KeyLess(m: map<Id, Attr>, a: Id, b: Id)
    requires a in m && b in m
  {
    NameLess(m[a].name, m[b].name) || (m[a].name == m[b].name && a < b)
  }

  lemma KeyLessAsymmetric(m: map<Id, Attr>)
    ensures forall a, b :: a in m && b in m && KeyLess(m, a, b) ==> !KeyLess(m, b, a)
  {
    forall a, b | a in m && b in m && KeyLess(m, a, b)
      ensures !KeyLess(m, b, a)
    {
      NameLessAsymmetric(m[a].name, m[b].name);
      NameLessIrreflexive(m[a].name);
    }
  }

  lemma KeyLessTransitive(m: map<Id, Attr>, a: Id, b: Id, c: Id)
    requires a in m && b in m && c in m
    requires KeyLess(m, a, b) && KeyLess(m, b, c)
    ensures KeyLess(m, a, c)
  {
    if NameLess(m[a].name, m[b].name) && NameLess(m[b].name, m[c].name) {
      NameLessTransitive(m[a].name, m[b].name, m[c].name);
    }
  }

  lemma KeyLessTotal(m: map<Id, Attr>, a: Id, b: Id)
    requires a in m && b in m
    ensures a == b || KeyLess(m, a, b) || KeyLess(m, b, a)
  {
    NameLessTotal(m[a].name, m[b].name);
  }

  /** A non-empty set of rows has a last one in the key order. */
  lemma {:induction false} TopExists(s: set<Id>, m: map<Id, Attr>)
    requires s != {} && s <= m.Keys
    ensures exists t :: t in s && forall x :: x in s && x != t ==> KeyLess(m, x, t)
  {
    var y :| y in s;
    var rest := s - {y};
    if rest == {} {
      assert s == {y};
      assert forall x :: x in s && x != y ==> KeyLess(m, x, y);
    } else {
      TopExists(rest, m);
      var t :| t in rest && forall x :: x in rest && x != t ==> KeyLess(m, x, t);
      assert forall x :: x in s ==> x in rest || x == y;
      KeyLessTotal(m, y, t);
      if KeyLess(m, t, y) {
        forall x | x in rest && x != t
          ensures KeyLess(m, x, y)
        {
          KeyLessTransitive(m, x, t, y);
        }
        assert forall x :: x in s && x != y ==> KeyLess(m, x, y);
      } else {
        assert forall x :: x in s && x != t ==> KeyLess(m, x, t);
      }
    }
  }

  /** Every row of `r` sorts after the rows that follow it. */
  predicate KeyDescending(m: map<Id, Attr>, r: seq<Id>)
  {
    forall i, j :: 0 <= i < j < |r| ==> r[i] in m && r[j] in m && KeyLess(m, r[j], r[i])
  }

  /** A row after every row of a key-descending list can head it. */
  lemma KeyDescendingCons(m: map<Id, Attr>, t: Id, rest: seq<Id>)
    requires t in m && KeyDescending(m, rest)
    requires forall x :: x in rest ==> x in m && KeyLess(m, x, t)
    ensures KeyDescending(m, [t] + rest)
  {
    forall i, j | 0 <= i < j < |[t] + rest|
      ensures ([t] + rest)[i] in m && ([t] + rest)[j] in m && KeyLess(m, ([t] + rest)[j], ([t] + rest)[i])
    {
      if i > 0 {
        assert ([t] + rest)[i] == rest[i - 1];
      }
      assert ([t] + rest)[j] == rest[j - 1] && rest[j - 1] in rest;
    }
  }

  /** The rows `s` of `m`, each once, last in the key order first. */
  function SortByNameDesc(s: set<Id>, m: map<Id, Attr>): (r: seq<Id>)
    requires s <= m.Keys
    ensures forall x :: x in r <==> x in s
    ensures |r| == |s|
    ensures KeyDescending(m, r)
    decreases s
  {
    if s == {} then []
    else
      TopExists(s, m);
      KeyLessAsymmetric(m);
      var t :| t in s && forall x :: x in s && x != t ==> KeyLess(m, x, t);
      var rest := SortByNameDesc(s - {t}, m);
      KeyDescendingCons(m, t, rest);
      [t] + rest
  }

  /** `BaseRecipeAttrViewSet.get_queryset`: the requester's tags (or ingredients), each once,
      with names in descending order. */
  function ListAttrs(m: map<Id, Attr>, user: UserId): (r: seq<Id>)
    ensures forall id :: id in r <==> id in m && m[id].owner == user
    ensures forall i, j :: 0 <= i < j < |r| ==> r[i] != r[j]
    ensures forall i, j :: 0 <= i < j < |r| ==>
              r[i] in m && r[j] in m &&
              (m[r[i]].name == m[r[j]].name || NameLess(m[r[j]].name, m[r[i]].name))
  {
    var r := SortByNameDesc((set id | id in m && m[id].owner == user), m);
    assert forall i, j :: 0 <= i < j < |r| ==> r[i] != r[j] by {
      forall i, j | 0 <= i < j < |r|
        ensures r[i] != r[j]
      {
        NameLessIrreflexive(m[r[i]].name);
      }
    }
    r
  }

  // ---------------------------------------------------------------------------
  // RecipeViewSet.get_queryset
  // ---------------------------------------------------------------------------

  /** The id filter a query parameter asks for: none when it is absent or empty
      (`if tags:`), else the ids `_params_to_ints` makes of it. */
  function IdFilter(param: Option<string>): (r: Result<Option<seq<int>>, string>)
    ensures r.Err? ==> param.Some? && r.error in Params.Split(param.value) && Params.ParseInt(r.error).None?
    ensures r.Ok? && r.value.Some? ==>
              && param.Some? && |r.value.value| == |Params.Split(param.value)|
              && forall k :: 0 <= k < |r.value.value| ==>
                   Params.ParseInt(Params.Split(param.value)[k]) == Some(r.value.value[k])
  {
    match param
    case None => Ok(None)
    case Some(s) =>
      if s == "" then Ok(None)
      else
        match Params.ParamsToInts(s)
        case Ok(ids) => Ok(Some(ids))
        case Err(e) => Err(e)
  }

  /** `filter(tags__id__in=ids)` on one recipe: some associated id is among `ids`. */
  predicate Passes(filter: Option<seq<int>>, assoc: set<Id>)
    ensures filter.Some? && Passes(filter, assoc) ==> assoc != {} && filter.value != []
  {
    filter.None? || exists t :: t in assoc && (t as int) in filter.value
  }

  /** `RecipeViewSet.get_queryset` for a list request: a parameter that does not parse fails
      the request; otherwise the requester's recipes that pass both filters, each once,
      newest (largest id) first. */
  function ListRecipes(
    recipes: map<Id, Recipe>,
    recipeTags: map<Id, set<Id>>,
    recipeIngredients: map<Id, set<Id>>,
    user: UserId,
    tagsParam: Option<string>,
    ingredientsParam: Option<string>): (r: Result<seq<Id>, string>)
    ensures r.Ok? <==> IdFilter(tagsParam).Ok? && IdFilter(ingredientsParam).Ok?
    ensures r.Ok? ==> StrictlyDescending(r.value)
    ensures r.Ok? ==> forall id :: id in r.value <==>
              && id in recipes && recipes[id].owner == user
              && Passes(IdFilter(tagsParam).value, Assoc(recipeTags, id))
              && Passes(IdFilter(ingredientsParam).value, Assoc(recipeIngredients, id))
  {
    match IdFilter(tagsParam)
    case Err(e) => Err(e)
    case Ok(tagFilter) =>
      match IdFilter(ingredientsParam)
      case Err(e) => Err(e)
      case Ok(ingredientFilter) =>
        Ok(SortDesc(set id | id in recipes && recipes[id].owner == user
                             && Passes(tagFilter, Assoc(recipeTags, id))
                             && Passes(ingredientFilter, Assoc(recipeIngredients, id))))
  }

  /** `get_object` on the recipe queryset of a detail request without filters: the recipe
      when it is the requester's, not found otherwise, even when it exists. */
  function Detail(
    recipes: map<Id, Recipe>,
    recipeTags: map<Id, set<Id>>,
    recipeIngredients: map<Id, set<Id>>,
    user: UserId,
    id: Id): (r: Option<Recipe>)
    ensures r.Some? <==> id in recipes && recipes[id].owner == user
    ensures r.Some? ==> r.value == recipes[id]
  {
    match ListRecipes(recipes, recipeTags, recipeIngredients, user, None, None)
    case Ok(ids) => if id in ids then Some(recipes[id]) else None
    case Err(_) => None
  }

  // ---------------------------------------------------------------------------
  // What the listing promises
  // ---------------------------------------------------------------------------

  /** Exactly an absent or empty parameter applies no filter. */
  lemma NoFilterExactly(param: Option<string>)
    ensures IdFilter(param) == Ok(None) <==> param.None? || param == Some("")
  {
  }

  /** The ids `ids` sent as "1,2,3" filter by exactly those ids (each short enough for `str`). */
  lemma IdFilterOfIds(ids: seq<int>)
    requires |ids| >= 1
    requires forall k :: 0 <= k < |ids| ==> Params.WithinDigitLimit(ids[k])
    ensures IdFilter(Some(Params.Join(Params.Formatted(ids)))) == Ok(Some(ids))
  {
    Params.JoinFormattedNonEmpty(ids);
    Params.ParamsRoundTrip(ids);
  }

  /** `?tags=1,2,3`: a recipe is listed iff it is the requester's and one of its tags has an
      id among those sent. */
  lemma ListByTagIds(
    recipes: map<Id, Recipe>, recipeTags: map<Id, set<Id>>, recipeIngredients: map<Id, set<Id>>,
    user: UserId, ids: seq<nat>)
    requires |ids| >= 1
    requires forall k :: 0 <= k < |ids| ==> Params.WithinDigitLimit(ids[k])
    ensures var r := ListRecipes(recipes, recipeTags, recipeIngredients, user, Some(Params.Join(Params.Formatted(ids))), None);
            && r.Ok?
            && forall id :: id in r.value <==>
                 id in recipes && recipes[id].owner == user && exists t :: t in Assoc(recipeTags, id) && t in ids
  {
    IdFilterOfIds(ids);
  }

  /** `?ingredients=1,2,3`, the same for ingredients. */
  lemma ListByIngredientIds(
    recipes: map<Id, Recipe>, recipeTags: map<Id, set<Id>>, recipeIngredients: map<Id, set<Id>>,
    user: UserId, ids: seq<nat>)
    requires |ids| >= 1
    requires forall k :: 0 <= k < |ids| ==> Params.WithinDigitLimit(ids[k])
    ensures var r := ListRecipes(recipes, recipeTags, recipeIngredients, user, None, Some(Params.Join(Params.Formatted(ids))));
            && r.Ok?
            && forall id :: id in r.value <==>
                 id in recipes && recipes[id].owner == user && exists t :: t in Assoc(recipeIngredients, id) && t in ids
  {
    IdFilterOfIds(ids);
  }

  /** Filters only narrow the listing: what a filtered listing shows, the unfiltered one shows. */
  lemma FiltersNarrow(
    recipes: map<Id, Recipe>, recipeTags: map<Id, set<Id>>, recipeIngredients: map<Id, set<Id>>,
    user: UserId, tagsParam: Option<string>, ingredientsParam: Option<string>)
    requires ListRecipes(recipes, recipeTags, recipeIngredients, user, tagsParam, ingredientsParam).Ok?
    ensures ListRecipes(recipes, recipeTags, recipeIngredients, user, None, None).Ok?
    ensures forall id :: id in ListRecipes(recipes, recipeTags, recipeIngredients, user, tagsParam, ingredientsParam).value ==>
              id in ListRecipes(recipes, recipeTags, recipeIngredients, user, None, None).value
  {
  }

  /** Two users' recipe listings never share a recipe. */
  lemma ListingsDisjoint(
    recipes: map<Id, Recipe>, recipeTags: map<Id, set<Id>>, recipeIngredients: map<Id, set<Id>>,
    a: UserId, b: UserId, aTags: Option<string>, aIngredients: Option<string>,
    bTags: Option<string>, bIngredients: Option<string>)
    requires a != b
    requires ListRecipes(recipes, recipeTags, recipeIngredients, a, aTags, aIngredients).Ok?
    requires ListRecipes(recipes, recipeTags, recipeIngredients, b, bTags, bIngredients).Ok?
    ensures forall id :: id in ListRecipes(recipes, recipeTags, recipeIngredients, a, aTags, aIngredients).value ==>
              id !in ListRecipes(recipes, recipeTags, recipeIngredients, b, bTags, bIngredients).value
  {
  }
}
