# MinaRecept recipe-page parser core, in Dafny

MinaRecept turns a recipe web page into a `Recipe`. `Parser.kt` does this in
two main steps:

- **Locating the metadata.** It looks for the page's embedded JSON-LD metadata
  (`extractJsonLdParts`). Every
  `<script type="application/ld+json">` or `<script type="application/javascript">`
  element is parsed. The last one whose `@type` mentions `Recipe` supplies the
  object; for an array, the object at its end is used. A failed `@type`
  lookup is caught and classified as "Error", so that script is skipped. Text
  that Gson's parser rejects aborts the scan, and so does the absence of any
  Recipe script. `parseUrl`
  catches either failure and switches from the `JSONLD` state to `TRAVERSE`
  with an empty object.
- **Choosing the state.** Once the field extractors have run, `getRecipe`
  switches to `WEBVIEW` exactly when both the ingredients and the
  instructions are empty.

For DOM traversal, the file supplies the tree geometry:

- `isAncestor` and `lowestCommonAncestor`: the walk up from the first node to
  the first ancestor of the second.
- `checkNotListElement`: widens a node past `li`, `tr`, `td`, `p` and `span`
  ancestors.
- `findTwoMaxNumbers`: the single-pass scan for the two largest scores, both
  starting at 0.0.
- `findTwoUniqueEntries`: picks the first two text-unique entries scoring at
  least the second maximum.

How things are modelled:

- **Document tree.** The DOM is a sequence of nodes (`DomTree.Node`). Each node
  has a tag, a rendered text and a parent index smaller than its own, so
  parent walks terminate. A node reference is `Option<nat>`, where `None` is
  Kotlin's `null`.
- **Maps.** Kotlin's insertion-ordered `MutableMap<Node, Double>` is a sequence
  of `(node, score)` entries.
- **Parsed scripts.** Each element carries the outcome of parsing its data:
  `None` when Gson's parser rejects the text, otherwise a `JsonLd.Json` value.
  Object members are kept as their JSON renderings, which is what the `@type`
  test looks at.
- **Exceptions.** Each exception that escapes a function of the source becomes
  an error value:
  `NoCommonAncestor`, `NoEnclosingContainer`, `FewerThanTwoCandidates`,
  `ScriptNotJson` and `NoRecipeScript`.

Each loop of the source is a method whose contract ties it to a reference
definition, and lemmas prove properties of those definitions:

- `Lca` is a lowest common ancestor, and it is unique.
- `Max0`/`SecondMax0` form the unique top-two pair.
- Selection succeeds exactly when two text-unique entries have a non-negative
  score.
- The located payload is the unique last Recipe object.

## Model

All source paths are under `app/src/main/java/com/example/minarecept/data/remote/parsing/`, written out in full below.

| member | source | states |
|---|---|---|
| DomTree.AncestorIsNotAfter | app/src/main/java/com/example/minarecept/data/remote/parsing/Parser.kt:172-179 | A node reached by walking parent links from `b` never comes after `b` in the arena, so every parent walk terminates. |
| DomTree.AncestorAntisymmetric | app/src/main/java/com/example/minarecept/data/remote/parsing/Parser.kt:172-179 | Two nodes that are each other's ancestor-or-self are the same node. |
| DomTree.AncestorTransitive | app/src/main/java/com/example/minarecept/data/remote/parsing/Parser.kt:172-179 | The ancestor-or-self relation walked by `isAncestor` is transitive. |
| Ancestry.IsAncestor | app/src/main/java/com/example/minarecept/data/remote/parsing/Parser.kt:165-182 | True exactly when the two references are identical (both null included) or `node1` lies on `node2`'s parent chain; a null `node1` with a non-null `node2` gives false. |
| Ancestry.Lca | app/src/main/java/com/example/minarecept/data/remote/parsing/Parser.kt:151-163 | The first node on `n1`'s chain that is an ancestor of `n2` is a common ancestor lying below every other common ancestor. |
| Ancestry.LowestCommonAncestorUnique | app/src/main/java/com/example/minarecept/data/remote/parsing/Parser.kt:151-163 | There is only one lowest common ancestor, so the walk's answer does not depend on which chain is walked. |
| Ancestry.LowestIsNearestOnChain | app/src/main/java/com/example/minarecept/data/remote/parsing/Parser.kt:155-161 | No node the walk passes before reaching the lowest common ancestor is an ancestor of `node2`. |
| Ancestry.LcaOfSelf | app/src/main/java/com/example/minarecept/data/remote/parsing/Parser.kt:151-163 | A node and itself always have a common ancestor, and it is the node itself. |
| Ancestry.CheckNotListElement | app/src/main/java/com/example/minarecept/data/remote/parsing/Parser.kt:137-149 | A node without a list-context tag is returned unchanged. Otherwise the result is the nearest ancestor without one, and every node skipped on the way has a list-context tag. The result is None exactly when every ancestor-or-self has a list-context tag (the walk runs past the root). |
| Ancestry.LowestCommonAncestor | app/src/main/java/com/example/minarecept/data/remote/parsing/Parser.kt:151-163 | Fails with NoCommonAncestor exactly when a node is null or the two nodes share no ancestor. Otherwise the result is the lowest common ancestor widened past list-context tags. An Ok result is a common ancestor of both nodes without a list-context tag. |
| TwoMax.Max0 | app/src/main/java/com/example/minarecept/data/remote/parsing/Parser.kt:124-133 | The 0.0-floored maximum is non-negative, bounds every element, and is an element when positive. |
| TwoMax.TopTwoUnique | app/src/main/java/com/example/minarecept/data/remote/parsing/Parser.kt:120-135 | The top-two property (bounds, the 0.0 floor, the second value taken at a different position) determines the pair. |
| TwoMax.OthersBelowSecond | app/src/main/java/com/example/minarecept/data/remote/parsing/Parser.kt:120-135 | Every element except one largest one is at most the second maximum. |
| TwoMax.SecondMaxPosition | app/src/main/java/com/example/minarecept/data/remote/parsing/Parser.kt:120-135 | A positive second maximum occurs at a position other than that of the largest element. |
| TwoMax.ReferenceIsTopTwo | app/src/main/java/com/example/minarecept/data/remote/parsing/Parser.kt:120-135 | The reference maximum and second maximum satisfy the top-two property. |
| TwoMax.FindTwoMaxNumbers | app/src/main/java/com/example/minarecept/data/remote/parsing/Parser.kt:120-135 | The scan returns the pair with the top-two property, namely the 0.0-floored maximum and second maximum (a repeated maximum counts twice). |
| TwoMax.TwoMaxExamples | app/src/main/java/com/example/minarecept/data/remote/parsing/Parser.kt:120-135 | [3, 7, 2] gives (7, 3); [-5] gives (0, 0). |
| TwoMax.MaxOfNonPositive | app/src/main/java/com/example/minarecept/data/remote/parsing/Parser.kt:124-133 | With no positive element the floored maximum stays at its start value 0.0. |
| TwoMax.AllNonPositiveGivesZeros | app/src/main/java/com/example/minarecept/data/remote/parsing/Parser.kt:124-135 | Every list with no positive element, in particular every all-negative list, gives (0, 0). |
| Filtering.Filter | app/src/main/java/com/example/minarecept/data/remote/parsing/Parser.kt:112-115 | `filterKeys`/`filterValues` keep only satisfying entries, keep every satisfying entry, and do not grow the map. |
| Filtering.FilterSubset | app/src/main/java/com/example/minarecept/data/remote/parsing/Parser.kt:112-115 | Every kept entry comes from the input. |
| Filtering.FilterAppend | app/src/main/java/com/example/minarecept/data/remote/parsing/Parser.kt:112-115 | Filtering distributes over concatenation, so kept entries keep their iteration order. |
| Filtering.FilterAllOrNone | app/src/main/java/com/example/minarecept/data/remote/parsing/Parser.kt:112-115 | A map whose entries all satisfy the predicate is kept whole, and one none of whose entries do is emptied. |
| Filtering.FilterFirst | app/src/main/java/com/example/minarecept/data/remote/parsing/Parser.kt:115 | The first kept entry is the first satisfying one in iteration order. |
| Filtering.FilterFirstTwo | app/src/main/java/com/example/minarecept/data/remote/parsing/Parser.kt:115-117 | `take(2)` of a filtered map yields the first two satisfying entries in iteration order. |
| Filtering.FilterFewerThanTwo | app/src/main/java/com/example/minarecept/data/remote/parsing/Parser.kt:115-117 | When fewer than two entries are kept, no two entries satisfy the predicate. |
| Filtering.FilterKeepsTwo | app/src/main/java/com/example/minarecept/data/remote/parsing/Parser.kt:114-115 | Two satisfying entries leave at least two kept. |
| Filtering.FilterTwice | app/src/main/java/com/example/minarecept/data/remote/parsing/Parser.kt:112-115 | `filterKeys` followed by `filterValues` equals one filter on the conjunction. |
| UniquePair.DistinctByText | app/src/main/java/com/example/minarecept/data/remote/parsing/Parser.kt:111 | `distinctBy` on rendered text returns keys of the map with pairwise different texts. |
| UniquePair.DistinctByTextKeepsFirst | app/src/main/java/com/example/minarecept/data/remote/parsing/Parser.kt:111 | A key is kept exactly when no earlier key has the same text. |
| UniquePair.QualifyingIsChosen | app/src/main/java/com/example/minarecept/data/remote/parsing/Parser.kt:111-115 | An entry passes both filters exactly when it is first of its text and scores at least the threshold. |
| UniquePair.FilteredAreQualifying | app/src/main/java/com/example/minarecept/data/remote/parsing/Parser.kt:111-115 | Restricting to unique keys and then filtering by the threshold is one filter by Chosen. |
| UniquePair.ChosenPairOfFilter | app/src/main/java/com/example/minarecept/data/remote/parsing/Parser.kt:114-117 | With two qualifying entries, the first two taken are the first two chosen entries. |
| UniquePair.NoChosenPairOfFilter | app/src/main/java/com/example/minarecept/data/remote/parsing/Parser.kt:114-117 | With fewer than two qualifying entries, no two entries are chosen, which is the case where indexing `filteredMap[1]` fails. |
| UniquePair.FindTwoUniqueEntries | app/src/main/java/com/example/minarecept/data/remote/parsing/Parser.kt:107-118 | Returns the first two entries in map order that are first of their text and score at least the second-highest deduplicated score. The two nodes have different texts. It fails exactly when no such pair exists. |
| UniquePair.PositiveThresholdHasPair | app/src/main/java/com/example/minarecept/data/remote/parsing/Parser.kt:113-117 | A positive second maximum always leaves at least two qualifying entries. |
| UniquePair.SelectionNeedsTwoNonNegative | app/src/main/java/com/example/minarecept/data/remote/parsing/Parser.kt:107-118 | Because of the 0.0 floor, the selection succeeds exactly when two text-unique entries have a non-negative score. |
| JsonLd.NoRecipeWithoutCapitalR | app/src/main/java/com/example/minarecept/data/remote/parsing/Parser.kt:57 | A string without the letter R does not contain "Recipe", so the "Error" and "Something weird" renderings never qualify. |
| JsonLd.Contains | app/src/main/java/com/example/minarecept/data/remote/parsing/Parser.kt:57 | `String.contains`; its meaning as "some position starts an occurrence" is `ContainsIffOccurs`. |
| JsonLd.ContainsIffOccurs | app/src/main/java/com/example/minarecept/data/remote/parsing/Parser.kt:57 | The recursive substring test holds exactly when the substring occurs at some position of the string. |
| JsonLd.TypeOf | app/src/main/java/com/example/minarecept/data/remote/parsing/Parser.kt:46-54 | The classified type string, with "Error" for a caught lookup failure and "Something weird" for a scalar; its partner `TypeOfIsRecipe` states when it passes the Recipe test. |
| JsonLd.RecipeObject | app/src/main/java/com/example/minarecept/data/remote/parsing/Parser.kt:58-62 | The object a Recipe-typed script contributes; `IsLastRecipe` and `ExtractJsonLdParts` state which script supplies it. |
| JsonLd.TypeOfIsRecipe | app/src/main/java/com/example/minarecept/data/remote/parsing/Parser.kt:46-57 | The classified type string contains "Recipe" exactly when the script is an object, or an array ending in an object, whose `@type` mentions Recipe. |
| JsonLd.ExtractJsonLdParts | app/src/main/java/com/example/minarecept/data/remote/parsing/Parser.kt:38-67 | Fails with ScriptNotJson exactly when Gson rejects a selected script. Fails with NoRecipeScript exactly when all scripts parse and none is Recipe-typed. Otherwise it returns the object of the last Recipe-typed script. |
| JsonLd.LastRecipeUnique | app/src/main/java/com/example/minarecept/data/remote/parsing/Parser.kt:42-64 | The object chosen as the last Recipe payload is unique. |
| JsonLd.SelectScripts | app/src/main/java/com/example/minarecept/data/remote/parsing/Parser.kt:39 | The selector keeps only ld+json and javascript scripts and keeps every one of them (document order is `Filtering.FilterAppend`; partner example `SelectTwoScripts`). |
| JsonLd.SelectTwoScripts | app/src/main/java/com/example/minarecept/data/remote/parsing/Parser.kt:39 | The selector keeps ld+json and javascript scripts in document order and skips other elements. |
| JsonLd.LastRecipeExample | app/src/main/java/com/example/minarecept/data/remote/parsing/Parser.kt:38-67 | With a Recipe object followed later by an array ending in another Recipe object, the later object is located and not the earlier one. |
| ExtractionMode.ParseUrl | app/src/main/java/com/example/minarecept/data/remote/parsing/Parser.kt:25-34 | Together with `getRecipe`'s state rule (lines 83-87): WEBVIEW exactly when both lists are empty. Otherwise JSONLD exactly when a Recipe script is located, and TRAVERSE when it is not. The object passed on is the last Recipe object, or empty when location fails. |

## Left out

- The network fetch of the page (`Jsoup.connect(url).get()`) and HTML parsing are left out: the model starts from the parsed document, given as a node arena and as the sequence of its elements with their parsed script content.
- Image extraction and the thumbnail choice (`ParseImage`, `images[0]`) are left out; they are outside this file's logic.
- The field extractors (`ParseTitle`, `ParseDescription`, `ParseIngredients`, `ParseInstructions`, `ParseTime`, `ParseYield`) are defined elsewhere and are not part of this model. `ParseUrl` receives only whether the ingredients and instructions came out empty, since that is all the state decision uses.
- Building the `Recipe` record, with its URL, title and the `OffsetDateTime.now()` timestamps, is left out. Only its `recipeState` and the JSON-LD object handed to the extractors are modelled.
- JSON parsing itself (Gson's `JsonParser` and org.json's `JSONTokener`) is modelled as the parsed shape of each script. Both parsers are taken to agree on the shape; a text Gson's lenient parser accepts and org.json rejects is not modelled separately. An empty script, which Gson parses as JSON null, and other leniently accepted scalars are modelled as `Scalar`; the source classifies them as "Error" or "Something weird", neither of which passes the Recipe test, so the outcome is the same.
- JsonLd.ExtractJsonLdParts: the Jsoup selector's attribute matching is modelled as exact string equality on the `type` attribute.
- A missing `@type` member ends in a caught exception in the source. That is modelled as the "Error" rendering, which never contains "Recipe", so the outcome is the same.
- Node text is the rendered text of each node (`Jsoup.parse(outerHtml).body().text()`), given as data; Jsoup's rendering and whitespace normalisation are not modelled.
- TwoMax.FindTwoMaxNumbers: scores are real numbers, so IEEE `Double` rounding, NaN and infinities are not modelled.
- Ancestry.CheckNotListElement: in the source, a walk past the root dereferences a null parent. The model returns None (and LowestCommonAncestor returns `NoEnclosingContainer`) instead of throwing.
- Every exception that escapes a function is modelled as a distinct error value rather than a thrown exception. The exceptions caught inside the `@type` classification become the "Error" rendering (`TypeOf`); `parseUrl`'s catch treats all extraction failures alike, as `ParseUrl` does.
