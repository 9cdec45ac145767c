/** The locator of the embedded Recipe metadata: a scan over the document's
    `<script>` elements, as embedded per section 7 of W3C JSON-LD 1.1
    ("Embedding JSON-LD in HTML Documents"). Only `@type` is read; there is no
    JSON-LD processing. */
module JsonLd {
  import opened Wrappers
  import opened Filtering

  /** A JSON object: each member's name mapped to the JSON rendering of its value. */
  type JsonObject = map<string, string>

  /** A parsed JSON value, as far as the locator distinguishes it. */
  datatype Json =
    | Object(fields: JsonObject)
    | Array(items: seq<Json>)
    | Scalar        // a string, number, boolean or null (an empty script parses to null)

  /** An element of the document in document order, with the outcome of
      parsing its data as JSON: None when the parser rejects the text. */
  datatype Element = Element(tag: string, typeAttr: Option<string>, data: Option<Json>)

  const LdJsonType := "application/ld+json"
  const JavascriptType := "application/javascript"

  predicate IsMetadataScript(e: Element)
  {
    e.tag == "script" && (e.typeAttr == Some(LdJsonType) || e.typeAttr == Some(JavascriptType))
  }

  /** The selector query: metadata scripts in document order. */
  function SelectScripts(doc: seq<Element>): (r: seq<Element>)
    ensures forall k | 0 <= k < |r| :: IsMetadataScript(r[k])
    ensures forall k | 0 <= k < |doc| && IsMetadataScript(doc[k]) :: doc[k] in r
  {
    Filter(doc, IsMetadataScript)
  }

  /** `sub` occurs in `s` as a contiguous substring. */
  predicate Contains(s: string, sub: string)
    decreases |s|
  {
    |sub| <= |s| && (s[..|sub|] == sub || Contains(s[1..], sub))
  }

  /** `sub` occurs in `s` starting at position `i`. */
  predicate OccursAt(s: string, sub: string, i: nat)
  {
    i + |sub| <= |s| && s[i..i + |sub|] == sub
  }

  /** `Contains` is `String.contains`: some position of `s` starts an occurrence of `sub`. */
  lemma {:induction false} ContainsIffOccurs(s: string, sub: string)
    ensures Contains(s, sub) <==> exists i: nat :: OccursAt(s, sub, i)
    decreases |s|
  {
    var n := |sub|;
    if n <= |s| {
      assert s[..n] == s[0..0 + n];
      if s[..n] == sub {
        assert OccursAt(s, sub, 0);
      }
      if 0 < |s| {
        ContainsIffOccurs(s[1..], sub);
        forall i: nat | OccursAt(s, sub, i) && i > 0
          ensures OccursAt(s[1..], sub, i - 1)
        {
          assert s[1..][i - 1..i - 1 + n] == s[i..i + n];
        }
        if s[..n] != sub && Contains(s[1..], sub) {
          var i: nat :| OccursAt(s[1..], sub, i);
          assert s[1..][i..i + n] == s[i + 1..i + 1 + n];
          assert OccursAt(s, sub, i + 1);
        }
      }
    }
  }

  /** A string without a capital R has no "Recipe" in it. */
  lemma {:induction false} NoRecipeWithoutCapitalR(s: string)
    requires forall i | 0 <= i < |s| :: s[i] != 'R'
    ensures !Contains(s, "Recipe")
    decreases |s|
  {
    if 6 <= |s| {
      assert s[..6][0] == s[0];
      NoRecipeWithoutCapitalR(s[1..]);
    }
  }

  /** The rendering of an object's `@type`; a missing member fails the lookup. */
  function TypeMember(fields: JsonObject): string
  {
    if "@type" in fields then fields["@type"] else "Error"
  }

  /** The type string a parsed script is classified by: the object's `@type`,
      or the `@type` of the last element of an array; "Error" when the lookup
      throws and the exception is caught. */
  function TypeOf(j: Json): string
  {
    match j
    case Object(fields) => TypeMember(fields)
    case Array(items) =>
      if |items| == 0 then "Error"
      else (match items[|items| - 1]
            case Object(fields) => TypeMember(fields)
            case _ => "Error")
    case Scalar => "Something weird"
  }

  /** The object's `@type` member renders with "Recipe" in it (so "Recipe",
      ["Recipe","NewsArticle"] and "RecipeCollection" all qualify). */
  predicate HasRecipeType(fields: JsonObject)
  {
    "@type" in fields && Contains(fields["@type"], "Recipe")
  }

  /** The script is Recipe-typed: its object, or the object that ends its array,
      has a Recipe `@type`. */
  predicate IsRecipe(j: Json)
  {
    match j
    case Object(fields) => HasRecipeType(fields)
    case Array(items) => |items| > 0 && items[|items| - 1].Object? && HasRecipeType(items[|items| - 1].fields)
    case _ => false
  }

  /** Testing the classified type string for "Recipe" is exactly IsRecipe: the
      failure renderings never qualify. */
  lemma TypeOfIsRecipe(j: Json)
    ensures Contains(TypeOf(j), "Recipe") <==> IsRecipe(j)
  {
    match j
    case Object(fields) =>
      if "@type" !in fields { NoRecipeWithoutCapitalR("Error"); }
    case Array(items) =>
      if |items| == 0 {
        NoRecipeWithoutCapitalR("Error");
      } else {
        match items[|items| - 1]
        case Object(fields) =>
          if "@type" !in fields { NoRecipeWithoutCapitalR("Error"); }
        case _ =>
          NoRecipeWithoutCapitalR("Error");
      }
    case Scalar =>
      NoRecipeWithoutCapitalR("Something weird");
  }

  /** The object a Recipe-typed script contributes: the object itself, or the
      last element of the array. Other shapes are never Recipe-typed, so the
      empty map in those branches is never chosen. */
  function RecipeObject(j: Json): JsonObject
  {
    match j
    case Object(fields) => fields
    case Array(items) =>
      if |items| > 0 && items[|items| - 1].Object? then items[|items| - 1].fields else map[]
    case _ => map[]
  }

  datatype LocatorError =
    | ScriptNotJson   // the JSON parser rejected a selected script's text; the scan is abandoned
    | NoRecipeScript  // no selected script is Recipe-typed

  /** The element's data parsed and is Recipe-typed. */
  predicate IsRecipeScript(e: Element)
  {
    e.data.Some? && IsRecipe(e.data.value)
  }

  /** Every selected script parses, and one of them is Recipe-typed. */
  predicate HasRecipeScript(doc: seq<Element>)
  {
    var scripts := SelectScripts(doc);
    && (forall i | 0 <= i < |scripts| :: scripts[i].data.Some?)
    && (exists i | 0 <= i < |scripts| :: IsRecipeScript(scripts[i]))
  }

  /** `payload` comes from the last Recipe-typed selected script. */
  predicate IsLastRecipe(doc: seq<Element>, payload: JsonObject)
  {
    var scripts := SelectScripts(doc);
    exists i | 0 <= i < |scripts| ::
      && IsRecipeScript(scripts[i])
      && payload == RecipeObject(scripts[i].data.value)
      && forall k | i < k < |scripts| :: !IsRecipeScript(scripts[k])
  }

  /** `extractJsonLdParts`: scan the selected scripts in document order; each
      Recipe-typed one overwrites the chosen object, so the last one wins. */
  method ExtractJsonLdParts(doc: seq<Element>) returns (r: Result<JsonObject, LocatorError>)
    ensures var scripts := SelectScripts(doc);
      r == Err(ScriptNotJson) <==> exists i | 0 <= i < |scripts| :: scripts[i].data.None?
    ensures r == Err(NoRecipeScript) <==> !HasRecipeScript(doc) && r != Err(ScriptNotJson)
    ensures r.Ok? <==> HasRecipeScript(doc)
    ensures r.Ok? ==> IsLastRecipe(doc, r.value)
  {
    var elements := SelectScripts(doc);
    var obj: Option<JsonObject> := None;
    ghost var at := 0;
    for i := 0 to |elements|
      invariant forall k | 0 <= k < i :: elements[k].data.Some?
      invariant obj.None? <==> forall k | 0 <= k < i :: !IsRecipeScript(elements[k])
      invariant obj.Some? ==>
        && at < i && IsRecipeScript(elements[at]) && obj.value == RecipeObject(elements[at].data.value)
        && forall k | at < k < i :: !IsRecipeScript(elements[k])
    {
      if elements[i].data.None? {
        assert !HasRecipeScript(doc);
        return Err(ScriptNotJson);
      }
      var jsonElem := elements[i].data.value;
      var scriptType := TypeOf(jsonElem);
      TypeOfIsRecipe(jsonElem);
      if Contains(scriptType, "Recipe") {
        obj, at := Some(RecipeObject(jsonElem)), i;
      }
    }
    if obj.None? {
      assert !HasRecipeScript(doc);
      return Err(NoRecipeScript);
    }
    assert HasRecipeScript(doc) && IsLastRecipe(doc, obj.value) by {
      assert IsRecipeScript(elements[at]);
    }
    r := Ok(obj.value);
  }

  /** The last Recipe-typed script is one script, so the payload it names is unique. */
  lemma LastRecipeUnique(doc: seq<Element>, p1: JsonObject, p2: JsonObject)
    requires IsLastRecipe(doc, p1) && IsLastRecipe(doc, p2)
    ensures p1 == p2
  {
  }

  /** The rendering of the JSON string "Recipe" contains "Recipe". */
  lemma QuotedRecipeContainsRecipe()
    ensures Contains("\"Recipe\"", "Recipe")
  {
  }

  /** Selecting from a page with an ld+json script, an unrelated element and a
      javascript-typed script keeps the two scripts. */
  lemma SelectTwoScripts(a: Option<Json>, b: Option<Json>, c: Option<Json>)
    ensures var doc := [Element("script", Some(LdJsonType), a), Element("div", None, b),
                        Element("script", Some(JavascriptType), c)];
      SelectScripts(doc) == [doc[0], doc[2]]
  {
    var doc := [Element("script", Some(LdJsonType), a), Element("div", None, b),
                Element("script", Some(JavascriptType), c)];
    assert IsMetadataScript(doc[0]) && !IsMetadataScript(doc[1]) && IsMetadataScript(doc[2]);
    assert doc[1..][1..] == [doc[2]] && doc[1..][1..][1..] == [];
    assert Filter(doc[1..][1..], IsMetadataScript) == [doc[2]];
    assert Filter(doc[1..], IsMetadataScript) == [doc[2]];
  }

  /** A page with a Recipe object in an ld+json script, an unrelated element,
      and a javascript-typed script whose array ends in a second Recipe object:
      the second object is located, not the first. */
  lemma LastRecipeExample()
    ensures var first := map["@type" := "\"Recipe\"", "name" := "Soup"];
      var second := map["@type" := "\"Recipe\"", "name" := "Stew"];
      var doc := [
        Element("script", Some(LdJsonType), Some(Object(first))),
        Element("div", None, None),
        Element("script", Some(JavascriptType), Some(Array([Scalar, Object(second)])))];
      HasRecipeScript(doc) && IsLastRecipe(doc, second) && !IsLastRecipe(doc, first)
  {
    var first := map["@type" := "\"Recipe\"", "name" := "Soup"];
    var second := map["@type" := "\"Recipe\"", "name" := "Stew"];
    var doc := [
      Element("script", Some(LdJsonType), Some(Object(first))),
      Element("div", None, None),
      Element("script", Some(JavascriptType), Some(Array([Scalar, Object(second)])))];
    SelectTwoScripts(Some(Object(first)), None, Some(Array([Scalar, Object(second)])));
    QuotedRecipeContainsRecipe();
    var scripts := SelectScripts(doc);
    assert IsRecipeScript(scripts[1]);
    assert IsLastRecipe(doc, second);
    assert first != second by { assert first["name"] != second["name"]; }
    if IsLastRecipe(doc, first) {
      LastRecipeUnique(doc, first, second);
    }
  }
}
