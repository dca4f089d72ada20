/** The factory record and its catalog-backed operations: `createFactory`,
    `getRecipe` and `FactoryUtils.add`. Fresh identifiers, which the source
    draws from `uuid7()`, are parameters. */
module Factories {
  import opened Wrappers
  import opened Text
  import opened Numbers
  import opened ItemRates

  datatype Building = Building(id: string, count: real, recipe: string)

  datatype Connection = Connection(origin: string, target: string)

  datatype Recipe = Recipe(
    id: string,
    name: string,
    required: seq<ItemRate>,   // the source field `requires`, a Dafny keyword
    produces: seq<ItemRate>,
    producedIn: string)

  datatype Factory = Factory(
    id: string,
    name: string,
    buildings: seq<Building>,
    connections: seq<Connection>,
    recipes: seq<Recipe>)

  /** The fields of one entry of the catalog's recipe table that `getRecipe`
      reads. */
  datatype RecipeDoc = RecipeDoc(
    displayName: string,
    ingredients: string,
    product: string,
    manufacturingDuration: string)

  /** The recipe table, keyed by recipe class name. */
  type Catalog = map<string, RecipeDoc>

  const DefaultFactoryName: string := "Untitled factory"
  const DefaultProducer: string := "Machine"

  /** Building `i` was added together with recipe `i`, and refers to it. */
  predicate Consistent(f: Factory) {
    && |f.buildings| == |f.recipes|
    && forall i :: 0 <= i < |f.buildings| ==> f.buildings[i].recipe == f.recipes[i].id
  }

  predicate UniqueBuildingIds(f: Factory) {
    forall i, j :: 0 <= i < j < |f.buildings| ==> f.buildings[i].id != f.buildings[j].id
  }

  /** Every building's recipe is a key of the catalog. */
  predicate RecipesInCatalog(catalog: Catalog, f: Factory) {
    forall i :: 0 <= i < |f.buildings| ==> f.buildings[i].recipe in catalog
  }

  predicate AllItemsAlnum(rates: seq<ItemRate>) {
    forall i :: 0 <= i < |rates| ==> AllAlnum(rates[i].item)
  }

  /** `createFactory(id?)`: an empty factory named "Untitled factory"; a given
      id is kept as it is (the empty string included, since `??` replaces
      only a missing id), otherwise the fresh id is used. */
  function CreateFactory(id: Option<string>, freshId: string): (f: Factory)
    ensures f.name == DefaultFactoryName
    ensures f.buildings == [] && f.connections == [] && f.recipes == []
    ensures f.id == (if id.Some? then id.value else freshId)
    ensures Consistent(f) && UniqueBuildingIds(f)
  {
    Factory(
      match id case Some(given) => given case None => freshId,
      DefaultFactoryName, [], [], [])
  }

  /** `getRecipe(recipeName)`: nothing for a name that is not in the table;
      otherwise the recipe assembled from its entry, whose ingredient and
      product rates are both computed with the entry's own cycle time.
      A malformed ingredient list fails first, then a malformed product list. */
  function GetRecipe(catalog: Catalog, recipeName: string): (r: Result<Option<Recipe>, ParseError>)
    ensures recipeName !in catalog ==> r == Success(None)
    ensures recipeName in catalog ==>
              var doc := catalog[recipeName];
              var seconds := ParseFloat(doc.manufacturingDuration);
              && (r.Success? <==> ParseItemRates(doc.ingredients, seconds).Success?
                                  && ParseItemRates(doc.product, seconds).Success?)
              && (ParseItemRates(doc.ingredients, seconds).Failure? ==>
                    r == Failure(ParseItemRates(doc.ingredients, seconds).error))
              && (r.Success? ==>
                    r.value == Some(Recipe(recipeName, doc.displayName,
                                           ParseItemRates(doc.ingredients, seconds).value,
                                           ParseItemRates(doc.product, seconds).value,
                                           DefaultProducer)))
  {
    if recipeName !in catalog then Success(None)
    else
      var doc := catalog[recipeName];
      var seconds := ParseFloat(doc.manufacturingDuration);
      var required :- ParseItemRates(doc.ingredients, seconds);
      var produces :- ParseItemRates(doc.product, seconds);
      Success(Some(Recipe(recipeName, doc.displayName, required, produces, DefaultProducer)))
  }

  /** A recipe found in the catalog carries its key as id, and only
      alphanumeric item ids on both sides. */
  lemma FoundRecipeWellFormed(catalog: Catalog, recipeName: string)
    requires GetRecipe(catalog, recipeName).Success? && GetRecipe(catalog, recipeName).value.Some?
    ensures var recipe := GetRecipe(catalog, recipeName).value.value;
            && recipe.id == recipeName
            && AllItemsAlnum(recipe.required)
            && AllItemsAlnum(recipe.produces)
  {
    var doc := catalog[recipeName];
    var seconds := ParseFloat(doc.manufacturingDuration);
    ParsedItemsAlnum(doc.ingredients, seconds);
    ParsedItemsAlnum(doc.product, seconds);
  }

  /** `FactoryUtils.add(factory, recipeName)`: an unknown recipe leaves the
      factory as it is; a known one appends one building running it and the
      recipe itself; a malformed catalog entry makes the call fail. */
  function Add(catalog: Catalog, factory: Factory, recipeName: string, freshId: string): (r: Result<Factory, ParseError>)
    ensures r.Failure? <==> GetRecipe(catalog, recipeName).Failure?
    ensures recipeName !in catalog ==> r == Success(factory)
    ensures r.Success? ==>
              && r.value.id == factory.id
              && r.value.name == factory.name
              && r.value.connections == factory.connections
    ensures r.Success? && recipeName in catalog ==>
              && r.value.buildings == factory.buildings + [Building(freshId, 1.0, recipeName)]
              && |r.value.recipes| == |factory.recipes| + 1
              && r.value.recipes[..|factory.recipes|] == factory.recipes
              && Success(Some(r.value.recipes[|factory.recipes|])) == GetRecipe(catalog, recipeName)
  {
    var found :- GetRecipe(catalog, recipeName);
    match found
    case None => Success(factory)
    case Some(recipe) =>
      Success(factory.(
        recipes := factory.recipes + [recipe],
        buildings := factory.buildings + [Building(freshId, 1.0, recipe.id)]))
  }

  /** Adding keeps every building paired with the recipe it was added with. */
  lemma AddPreservesConsistent(catalog: Catalog, factory: Factory, recipeName: string, freshId: string)
    requires Consistent(factory)
    requires Add(catalog, factory, recipeName, freshId).Success?
    ensures Consistent(Add(catalog, factory, recipeName, freshId).value)
  {
    var f' := Add(catalog, factory, recipeName, freshId).value;
    if recipeName in catalog {
      var n := |factory.buildings|;
      forall i | 0 <= i < |f'.buildings|
        ensures f'.buildings[i].recipe == f'.recipes[i].id
      {
        if i < n {
          assert f'.buildings[i] == factory.buildings[i];
          assert f'.recipes[i] == f'.recipes[..n][i];
        }
      }
    }
  }

  /** Adding with an id no building has yet keeps building ids unique. */
  lemma AddPreservesUniqueIds(catalog: Catalog, factory: Factory, recipeName: string, freshId: string)
    requires UniqueBuildingIds(factory)
    requires forall i :: 0 <= i < |factory.buildings| ==> factory.buildings[i].id != freshId
    requires Add(catalog, factory, recipeName, freshId).Success?
    ensures UniqueBuildingIds(Add(catalog, factory, recipeName, freshId).value)
  {
    var f' := Add(catalog, factory, recipeName, freshId).value;
    if recipeName in catalog {
      forall i, j | 0 <= i < j < |f'.buildings|
        ensures f'.buildings[i].id != f'.buildings[j].id
      {
        assert f'.buildings[i] == factory.buildings[i];
      }
    }
  }

  /** Adding only ever introduces buildings whose recipe is in the catalog. */
  lemma AddPreservesRecipesInCatalog(catalog: Catalog, factory: Factory, recipeName: string, freshId: string)
    requires RecipesInCatalog(catalog, factory)
    requires Add(catalog, factory, recipeName, freshId).Success?
    ensures RecipesInCatalog(catalog, Add(catalog, factory, recipeName, freshId).value)
  {
    var f' := Add(catalog, factory, recipeName, freshId).value;
    if recipeName in catalog {
      forall i | 0 <= i < |f'.buildings|
        ensures f'.buildings[i].recipe in catalog
      {
        if i < |factory.buildings| {
          assert f'.buildings[i] == factory.buildings[i];
        }
      }
    }
  }
}
