/** The filter loop of `parseWordPressXml`: every `item` of the export is
    either turned into a post or skipped, and each skip is counted and tallied
    under a message naming its reason. */
module Parse {
  import opened JsStrings
  import opened Records
  import opened ElementText
  import opened Taxonomy
  import opened Filtering

  /** Why an item was skipped, with the offending value. */
  datatype SkipReason = PostTypeNotPost(postType: string) | StatusNotPublish(status: string)

  /** The key under which a skip is tallied in `skippedReasons`. */
  function ReasonMessage(reason: SkipReason): string {
    match reason
    case PostTypeNotPost(t) => PostTypePrefix + t + ")"
    case StatusNotPublish(s) => StatusPrefix + s + ")"
  }

  const PostTypePrefix := "post_type が post ではない ("
  const StatusPrefix := "ステータスが publish ではない ("

  /** Reads a tally key back as the reason it names. */
  function ReasonOfMessage(m: string): Option<SkipReason> {
    if |m| > |PostTypePrefix| && m[..|PostTypePrefix|] == PostTypePrefix && m[|m| - 1] == ')' then
      Some(PostTypeNotPost(m[|PostTypePrefix|..|m| - 1]))
    else if |m| > |StatusPrefix| && m[..|StatusPrefix|] == StatusPrefix && m[|m| - 1] == ')' then
      Some(StatusNotPublish(m[|StatusPrefix|..|m| - 1]))
    else None
  }

  /** The message names its reason and the offending value unambiguously. */
  lemma ReasonMessageRoundTrip(reason: SkipReason)
    ensures ReasonOfMessage(ReasonMessage(reason)) == Some(reason)
  {
    var m := ReasonMessage(reason);
    match reason
    case PostTypeNotPost(t) =>
      assert m == PostTypePrefix + t + ")";
      assert m[..|PostTypePrefix|] == PostTypePrefix;
      assert m[|PostTypePrefix|..|m| - 1] == t;
    case StatusNotPublish(s) =>
      assert m == StatusPrefix + s + ")";
      assert m[..|StatusPrefix|] == StatusPrefix;
      assert m[|StatusPrefix|..|m| - 1] == s;
      assert m[0] != PostTypePrefix[0];
  }

  /** Distinct reasons are tallied under distinct keys. */
  lemma ReasonMessageInjective(a: SkipReason, b: SkipReason)
    requires ReasonMessage(a) == ReasonMessage(b)
    ensures a == b
  {
    ReasonMessageRoundTrip(a);
    ReasonMessageRoundTrip(b);
  }

  function PostTypeOf(item: Item): string {
    Or(GetElementText(item, "wp:post_type"), GetElementText(item, "post_type"))
  }

  function StatusOf(item: Item): string {
    Or(GetElementText(item, "wp:status"), GetElementText(item, "status"))
  }

  /** None when the item is kept; otherwise the first failed test, the post
      type being tested before the status. */
  function Verdict(item: Item, includeDrafts: bool): (r: Option<SkipReason>)
    ensures r.None? <==> PostTypeOf(item) == "post" && (StatusOf(item) == "publish" || includeDrafts)
    ensures PostTypeOf(item) != "post" ==> r == Some(PostTypeNotPost(PostTypeOf(item)))
    ensures PostTypeOf(item) == "post" && r.Some? ==> r == Some(StatusNotPublish(StatusOf(item)))
  {
    var postType := PostTypeOf(item);
    if postType != "post" then Some(PostTypeNotPost(postType))
    else
      var status := StatusOf(item);
      if status != "publish" && !includeDrafts then Some(StatusNotPublish(status))
      else None
  }

  /** The post record of a kept item; `index` is the item's position among
      all items of the export. */
  function MakePost(item: Item, index: nat): (p: Post)
    ensures p.title != [] && p.slug != [] && p.postId != []
    ensures var title := GetElementText(item, "title");
            p.title == if title == "" then "Untitled" else title
    ensures var name := Or(GetElementText(item, "wp:post_name"), GetElementText(item, "post_name"));
            p.slug == if name == "" then "post-" + NatToString(index) else name
    ensures var id := Or(GetElementText(item, "wp:post_id"), GetElementText(item, "post_id"));
            p.postId == if id == "" then NatToString(index) else id
    ensures GetElementText(item, "content:encoded") != "" ==> p.content == GetElementText(item, "content:encoded")
    ensures GetElementText(item, "content:encoded") == "" ==> p.content == GetElementText(item, "encoded")
    ensures GetElementText(item, "wp:post_date") != "" ==> p.date == GetElementText(item, "wp:post_date")
    ensures GetElementText(item, "wp:post_date") == "" ==> p.date == GetElementText(item, "post_date")
    ensures p.status == StatusOf(item)
    ensures p.categories == CategoriesOf(item.taxonomy) && p.tags == TagsOf(item.taxonomy)
  {
    Post(
      Or(GetElementText(item, "title"), "Untitled"),
      Or(GetElementText(item, "content:encoded"), GetElementText(item, "encoded")),
      Or(GetElementText(item, "wp:post_date"), GetElementText(item, "post_date")),
      Or(Or(GetElementText(item, "wp:post_name"), GetElementText(item, "post_name")), "post-" + NatToString(index)),
      Or(Or(GetElementText(item, "wp:post_id"), GetElementText(item, "post_id")), NatToString(index)),
      StatusOf(item),
      CategoriesOf(item.taxonomy),
      TagsOf(item.taxonomy))
  }

  function Keeps(includeDrafts: bool): Item -> bool {
    item => Verdict(item, includeDrafts).None?
  }

  /** The key an item is tallied under, if it is skipped. */
  function SkipKey(includeDrafts: bool): Item -> Option<string> {
    item => match Verdict(item, includeDrafts)
            case None => None
            case Some(reason) => Some(ReasonMessage(reason))
  }

  /** The posts kept from `items`, in document order. */
  function PostsOf(items: seq<Item>, includeDrafts: bool): seq<Post> {
    FilterMap(items, Keeps(includeDrafts), MakePost)
  }

  function SkipCount(items: seq<Item>, includeDrafts: bool): nat {
    CountTrue(Mask(items, Not(Keeps(includeDrafts))))
  }

  function SkipTally(items: seq<Item>, includeDrafts: bool): map<string, nat> {
    Tally(items, SkipKey(includeDrafts))
  }

  /** What one skipped item adds: nothing to the posts, one to the count and
      one to the tally of its reason. */
  lemma SkipStep(items: seq<Item>, i: nat, includeDrafts: bool, reason: SkipReason)
    requires i < |items| && Verdict(items[i], includeDrafts) == Some(reason)
    ensures PostsOf(items[..i + 1], includeDrafts) == PostsOf(items[..i], includeDrafts)
    ensures SkipCount(items[..i + 1], includeDrafts) == SkipCount(items[..i], includeDrafts) + 1
    ensures SkipTally(items[..i + 1], includeDrafts) == Bump(SkipTally(items[..i], includeDrafts), ReasonMessage(reason))
  {
    FilterMapStep(items, i, Keeps(includeDrafts), MakePost);
    CountStep(items, i, Not(Keeps(includeDrafts)));
    TallyStep(items, i, SkipKey(includeDrafts));
  }

  /** What one kept item adds: its post, and nothing to the count or tally. */
  lemma KeepStep(items: seq<Item>, i: nat, includeDrafts: bool)
    requires i < |items| && Verdict(items[i], includeDrafts).None?
    ensures PostsOf(items[..i + 1], includeDrafts) == PostsOf(items[..i], includeDrafts) + [MakePost(items[i], i)]
    ensures SkipCount(items[..i + 1], includeDrafts) == SkipCount(items[..i], includeDrafts)
    ensures SkipTally(items[..i + 1], includeDrafts) == SkipTally(items[..i], includeDrafts)
  {
    FilterMapStep(items, i, Keeps(includeDrafts), MakePost);
    CountStep(items, i, Not(Keeps(includeDrafts)));
    TallyStep(items, i, SkipKey(includeDrafts));
  }

  /** `parseWordPressXml` after the DOM parse: the kept posts, the number of
      skipped items and the skip tally. */
  method ParseWordPressXml(items: seq<Item>, includeDrafts: bool)
    returns (posts: seq<Post>, skippedCount: nat, skippedReasons: map<string, nat>)
    ensures posts == PostsOf(items, includeDrafts)
    ensures skippedCount == SkipCount(items, includeDrafts)
    ensures skippedReasons == SkipTally(items, includeDrafts)
  {
    posts, skippedCount, skippedReasons := [], 0, map[];
    for index := 0 to |items|
      invariant posts == PostsOf(items[..index], includeDrafts)
      invariant skippedCount == SkipCount(items[..index], includeDrafts)
      invariant skippedReasons == SkipTally(items[..index], includeDrafts)
    {
      var item := items[index];
      var postType := Or(GetElementText(item, "wp:post_type"), GetElementText(item, "post_type"));
      if postType != "post" {
        SkipStep(items, index, includeDrafts, PostTypeNotPost(postType));
        skippedCount := skippedCount + 1;
        skippedReasons := Bump(skippedReasons, PostTypePrefix + postType + ")");
        continue;
      }
      var status := Or(GetElementText(item, "wp:status"), GetElementText(item, "status"));
      if status != "publish" && !includeDrafts {
        SkipStep(items, index, includeDrafts, StatusNotPublish(status));
        skippedCount := skippedCount + 1;
        skippedReasons := Bump(skippedReasons, StatusPrefix + status + ")");
        continue;
      }
      KeepStep(items, index, includeDrafts);
      var categories := ExtractCategories(item);
      var tags := ExtractTags(item);
      var post := Post(
        Or(GetElementText(item, "title"), "Untitled"),
        Or(GetElementText(item, "content:encoded"), GetElementText(item, "encoded")),
        Or(GetElementText(item, "wp:post_date"), GetElementText(item, "post_date")),
        Or(Or(GetElementText(item, "wp:post_name"), GetElementText(item, "post_name")), "post-" + NatToString(index)),
        Or(Or(GetElementText(item, "wp:post_id"), GetElementText(item, "post_id")), NatToString(index)),
        status,
        categories,
        tags);
      posts := posts + [post];
    }
    assert items[..|items|] == items;
  }

  /** The kept posts are the items passing both tests, in document order,
      each built from its own item and position. */
  lemma PostsInDocumentOrder(items: seq<Item>, includeDrafts: bool)
    ensures var p, ps := Positions(Mask(items, Keeps(includeDrafts))), PostsOf(items, includeDrafts);
            && |ps| == |p|
            && forall k :: 0 <= k < |p| ==> ps[k] == MakePost(items[p[k]], p[k])
  {
    FilterMapInOrder(items, Keeps(includeDrafts), MakePost);
  }

  /** Every item is either kept or skipped, never both. */
  lemma KeptPlusSkipped(items: seq<Item>, includeDrafts: bool)
    ensures |PostsOf(items, includeDrafts)| + SkipCount(items, includeDrafts) == |items|
  {
    FilterMapInOrder(items, Keeps(includeDrafts), MakePost);
    CountComplement(items, Keeps(includeDrafts));
  }

  /** Without drafts every kept post is published; with drafts only the
      post type decides. */
  lemma KeptPostsStatus(items: seq<Item>, includeDrafts: bool)
    ensures forall p :: p in PostsOf(items, includeDrafts) ==> includeDrafts || p.status == "publish"
  {
    PostsInDocumentOrder(items, includeDrafts);
  }

  /** Each skipped item is tallied once, under the message of its own reason:
      the tally of a key is the number of items skipped with that message,
      and keys no item was skipped with are absent. */
  lemma TallyCountsReasons(items: seq<Item>, includeDrafts: bool, key: string)
    ensures var t, c := SkipTally(items, includeDrafts), CountTrue(Mask(items, HasKey(SkipKey(includeDrafts), key)));
            (key in t ==> t[key] == c) && (key !in t <==> c == 0)
  {
    TallyCounts(items, SkipKey(includeDrafts), key);
  }
}
