/** `extractCategories` and `extractTags`: the `category` elements of an item
    split by their `domain` attribute into categories and tags. */
module Taxonomy {
  import opened JsStrings
  import opened Records
  import opened Slug
  import opened Filtering

  predicate IsCategory(c: CategoryElement) {
    c.domain == Some("category")
  }

  predicate IsTag(c: CategoryElement) {
    c.domain == Some("post_tag")
  }

  /** `nicename || sanitizeCategoryName(text)`: an absent attribute (`null`)
      and an empty one both fall back to the sanitised name. */
  function SlugOf(nicename: Option<string>, name: string): (r: string)
    ensures nicename.Some? && nicename.value != "" ==> r == nicename.value
    ensures nicename.None? || nicename.value == "" ==> r == SanitizeCategoryName(name) && IsSlug(r)
  {
    SanitizeIsSlug(name);
    if nicename.Some? then Or(nicename.value, SanitizeCategoryName(name))
    else SanitizeCategoryName(name)
  }

  /** The category record built from one `category`-domain element. */
  function MakeCategory(c: CategoryElement): (r: Category)
    ensures r.name == Trim(c.text) && r.slug != []
  {
    Category(Trim(c.text), SlugOf(c.nicename, Trim(c.text)))
  }

  /** The categories of a list of `category` elements, in document order. */
  function CategoriesOf(t: seq<CategoryElement>): seq<Category>
  {
    FilterMap(t, IsCategory, (c: CategoryElement, _: nat) => MakeCategory(c))
  }

  /** The tags of a list of `category` elements, in document order. */
  function TagsOf(t: seq<CategoryElement>): seq<string>
  {
    FilterMap(t, IsTag, (c: CategoryElement, _: nat) => Trim(c.text))
  }

  /** `extractCategories(item)`. */
  method ExtractCategories(item: Item) returns (categories: seq<Category>)
    ensures categories == CategoriesOf(item.taxonomy)
  {
    var t := item.taxonomy;
    categories := [];
    for i := 0 to |t|
      invariant categories == CategoriesOf(t[..i])
    {
      assert t[..i + 1][..i] == t[..i];
      var cat := t[i];
      if cat.domain == Some("category") {
        var text := Trim(cat.text);
        var slug := if cat.nicename.Some? && cat.nicename.value != "" then cat.nicename.value
                    else SanitizeCategoryName(text);
        categories := categories + [Category(text, slug)];
      }
    }
    assert t[..|t|] == t;
  }

  /** `extractTags(item)`. */
  method ExtractTags(item: Item) returns (tags: seq<string>)
    ensures tags == TagsOf(item.taxonomy)
  {
    var t := item.taxonomy;
    tags := [];
    for i := 0 to |t|
      invariant tags == TagsOf(t[..i])
    {
      assert t[..i + 1][..i] == t[..i];
      if t[i].domain == Some("post_tag") {
        tags := tags + [Trim(t[i].text)];
      }
    }
    assert t[..|t|] == t;
  }

  /** The categories are exactly the `category`-domain elements, in document
      order, one record each. */
  lemma CategoriesInDocumentOrder(t: seq<CategoryElement>)
    ensures var p, cs := Positions(Mask(t, IsCategory)), CategoriesOf(t);
            && |cs| == |p|
            && forall k :: 0 <= k < |p| ==> cs[k] == MakeCategory(t[p[k]])
  {
    FilterMapInOrder(t, IsCategory, (c: CategoryElement, _: nat) => MakeCategory(c));
  }

  /** The tags are exactly the trimmed texts of the `post_tag`-domain
      elements, in document order. */
  lemma TagsInDocumentOrder(t: seq<CategoryElement>)
    ensures var p, ts := Positions(Mask(t, IsTag)), TagsOf(t);
            && |ts| == |p|
            && forall k :: 0 <= k < |p| ==> ts[k] == Trim(t[p[k]].text)
  {
    FilterMapInOrder(t, IsTag, (c: CategoryElement, _: nat) => Trim(c.text));
  }

  /** Every category slug is non-empty, so it can name a folder. */
  lemma CategorySlugsNonEmpty(t: seq<CategoryElement>)
    ensures forall c :: c in CategoriesOf(t) ==> c.slug != []
  {
    CategoriesInDocumentOrder(t);
  }
}
