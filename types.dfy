/**
 * The records the search core works on: a recipe with its ingredients, and
 * the catalog, an insertion-ordered map from a unique key to a recipe.
 */
module Types {

  datatype Option<T> = None | Some(value: T) {
    /** The value, or `default` when absent (JavaScript's `x ?? default`). */
    function GetOr(default: T): T {
      match this
      case Some(v) => v
      case None => default
    }
  }

  /** One line of a recipe's ingredient list; only `name` is searched. */
  datatype Ingredient = Ingredient(name: string, quantity: string)

  /** One recipe. `file` and `calories` are carried for display only. */
  datatype RecipeInfo = RecipeInfo(
    name: string,
    headline: string,
    ingredients: seq<Ingredient>,
    rating: Option<real>,
    file: string,
    calories: real)

  predicate Distinct<T(==)>(s: seq<T>) {
    forall i, j :: 0 <= i < j < |s| ==> s[i] != s[j]
  }

  /**
   * A JavaScript `Map<string, RecipeInfo>`: `keys` lists the keys in
   * insertion order (the order `Map.keys()` yields them), `records` holds
   * the value of each key.
   */
  datatype RecipeMap = RecipeMap(keys: seq<string>, records: map<string, RecipeInfo>) {
    /** Every key occurs once, and exactly the listed keys have a record. */
    predicate Valid() {
      Distinct(keys) && records.Keys == set k | k in keys
    }
  }

  /** The catalog handed to the search core; a `Map` always satisfies `Valid`. */
  type Catalog = m: RecipeMap | m.Valid() witness RecipeMap([], map[])
}
