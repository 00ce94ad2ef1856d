/** `formatDate` and `generateFilename`: the date normalisation shared by the
    front matter and the file names, and the filename rules. */
module Naming {
  import opened JsStrings
  import opened Records

  predicate IsAsciiDigit(c: char) {
    '0' <= c <= '9'
  }

  /** `/(\d{4})-(\d{2})-(\d{2})/` matches at index `i` of `s` (`\d` is
      `[0-9]`). */
  predicate DateAt(s: string, i: nat) {
    && i + 10 <= |s|
    && IsAsciiDigit(s[i]) && IsAsciiDigit(s[i + 1]) && IsAsciiDigit(s[i + 2]) && IsAsciiDigit(s[i + 3])
    && s[i + 4] == '-'
    && IsAsciiDigit(s[i + 5]) && IsAsciiDigit(s[i + 6])
    && s[i + 7] == '-'
    && IsAsciiDigit(s[i + 8]) && IsAsciiDigit(s[i + 9])
  }

  /** Leftmost match at or after `from`, the way `String.prototype.match`
      scans. */
  function FindDate(s: string, from: nat): (r: Option<nat>)
    ensures r.Some? ==> from <= r.value && DateAt(s, r.value)
                        && forall j :: from <= j < r.value ==> !DateAt(s, j)
    ensures r.None? ==> forall j :: from <= j ==> !DateAt(s, j)
    decreases |s| - from
  {
    if from + 10 > |s| then None
    else if DateAt(s, from) then Some(from)
    else FindDate(s, from + 1)
  }

  /** `formatDate(dateStr)`: the three captured groups of the first match
      joined again by `-`, which is the matched text itself. */
  function FormatDate(dateStr: string): string
  {
    if dateStr == "" then ""
    else match FindDate(dateStr, 0)
      case Some(k) => dateStr[k..k + 10]
      case None => dateStr
  }

  /** The date is the leftmost `DDDD-DD-DD` substring of the input, or the
      input itself when there is none; an empty input stays empty. */
  lemma FormatDateLeftmost(dateStr: string)
    ensures dateStr == "" ==> FormatDate(dateStr) == ""
    ensures forall k: nat :: DateAt(dateStr, k) && (forall j :: 0 <= j < k ==> !DateAt(dateStr, j)) ==>
              FormatDate(dateStr) == dateStr[k..k + 10]
    ensures (forall k: nat :: !DateAt(dateStr, k)) ==> FormatDate(dateStr) == dateStr
  {
    if dateStr != "" {
      var m := FindDate(dateStr, 0);
      if m.Some? {
        assert forall k': nat :: DateAt(dateStr, k') && (forall j :: 0 <= j < k' ==> !DateAt(dateStr, j)) ==> k' == m.value;
      }
    }
  }

  /** The result is the input or a ten-character date taken from it. */
  lemma FormatDateIsInfix(dateStr: string)
    ensures var r := FormatDate(dateStr);
            r == dateStr || (|r| == 10 && DateAt(r, 0) && exists k: nat :: DateAt(dateStr, k) && dateStr[k..k + 10] == r)
  {
    if dateStr != "" {
      var m := FindDate(dateStr, 0);
      if m.Some? {
        var k := m.value;
        assert DateAt(dateStr[k..k + 10], 0);
      }
    }
  }

  /** Normalising a normalised date changes nothing. */
  lemma FormatDateIdempotent(dateStr: string)
    ensures FormatDate(FormatDate(dateStr)) == FormatDate(dateStr)
  {
    var r := FormatDate(dateStr);
    FormatDateIsInfix(dateStr);
    if r != dateStr {
      assert DateAt(r, 0);
      assert r[0..10] == r;
    }
  }

  /** `generateFilename(post, rule)`. */
  function GenerateFilename(post: Post, rule: string): string
  {
    var slug := Or(post.slug, "untitled");
    var date := FormatDate(post.date);
    var id := post.postId;
    match rule
    case "date-slug" => date + "-" + slug + ".md"
    case "id-slug" => id + "-" + slug + ".md"
    case _ => slug + ".md"
  }

  /** Every file name ends in `.md` after a stem that ends in the slug (or
      `untitled` for a post without one); the rule decides what comes before
      the slug, and an unknown rule falls back to the slug alone. */
  lemma FilenameShape(post: Post, rule: string)
    ensures var r := GenerateFilename(post, rule);
            && |r| >= 4 && r[|r| - 3..] == ".md"
            && var slug, stem := Or(post.slug, "untitled"), r[..|r| - 3];
               && slug != [] && |slug| <= |stem| && stem[|stem| - |slug|..] == slug
               && (rule == "date-slug" ==> stem == FormatDate(post.date) + "-" + slug)
               && (rule == "id-slug" ==> stem == post.postId + "-" + slug)
               && (rule != "date-slug" && rule != "id-slug" ==> stem == slug)
  {
    var slug := Or(post.slug, "untitled");
    var stem := if rule == "date-slug" then FormatDate(post.date) + "-" + slug
                else if rule == "id-slug" then post.postId + "-" + slug
                else slug;
    assert GenerateFilename(post, rule) == stem + ".md";
    assert (stem + ".md")[..|stem|] == stem;
  }
}
