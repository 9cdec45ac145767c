/** The choice of how a recipe page's content is obtained: from its embedded
    metadata, by traversing the DOM, or by showing the raw page. */
module ExtractionMode {
  import opened JsonLd

  datatype RecipeState = JsonLdState | Traverse | WebView

  /** `parseUrl` on an already-fetched document: locate the Recipe metadata
      (falling back to DOM traversal with an empty object when the locator
      fails), then settle the state from what the field extractors found: a
      page with neither ingredients nor instructions falls back to the web view. */
  method ParseUrl(doc: seq<Element>, ingredientsEmpty: bool, instructionsEmpty: bool)
    returns (state: RecipeState, jsonLd: JsonObject)
    ensures state == WebView <==> ingredientsEmpty && instructionsEmpty
    ensures state == JsonLdState <==> HasRecipeScript(doc) && !(ingredientsEmpty && instructionsEmpty)
    ensures state == Traverse <==> !HasRecipeScript(doc) && !(ingredientsEmpty && instructionsEmpty)
    ensures HasRecipeScript(doc) ==> IsLastRecipe(doc, jsonLd)
    ensures !HasRecipeScript(doc) ==> jsonLd == map[]
  {
    var located := JsonLdState;
    var locatorResult := ExtractJsonLdParts(doc);
    if locatorResult.Err? {
      located := Traverse;
      jsonLd := map[];
    } else {
      jsonLd := locatorResult.value;
    }
    if ingredientsEmpty && instructionsEmpty {
      state := WebView;
    } else {
      state := located;
    }
  }
}
