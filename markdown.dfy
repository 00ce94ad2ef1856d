/** `convertItemToMarkdown`: the Markdown file of one post, made of an optional
    YAML front matter followed by the converted body, with its file name and
    the folder it is filed under. */
module Markdown {
  import opened JsStrings
  import opened Records
  import opened Yaml
  import opened Naming

  /** A list entry of the `categories` or `tags` block. */
  function ListLine(value: string): string {
    "  - \"" + EscapeYaml(value) + "\"\n"
  }

  /** The entries of a list block, one line per value, in order. */
  function ListBlock(values: seq<string>): string {
    if values == [] then "" else ListLine(values[0]) + ListBlock(values[1..])
  }

  /** `values.forEach(v => { markdown += ... })` starting from `markdown`. */
  function AppendLines(markdown: string, values: seq<string>): string
    decreases |values|
  {
    if values == [] then markdown else AppendLines(markdown + ListLine(values[0]), values[1..])
  }

  function CategoryNames(categories: seq<Category>): seq<string> {
    seq(|categories|, i requires 0 <= i < |categories| => categories[i].name)
  }

  function TitleLine(post: Post): string {
    "title: \"" + EscapeYaml(post.title) + "\"\n"
  }

  function DateLine(post: Post): string {
    "date: \"" + FormatDate(post.date) + "\"\n"
  }

  function SlugLine(post: Post): string {
    "slug: \"" + post.slug + "\"\n"
  }

  function PostIdLine(post: Post): string {
    "post_id: " + post.postId + "\n"
  }

  function StatusLine(post: Post): string {
    "status: \"" + post.status + "\"\n"
  }

  /** A status other than `publish` is recorded; an empty one is not. */
  predicate ShowsStatus(post: Post) {
    post.status != "" && post.status != "publish"
  }

  /** The front matter as `convertItemToMarkdown` accumulates it. */
  function FrontMatter(post: Post): string {
    var opening := "---\n" + TitleLine(post) + DateLine(post) + SlugLine(post) + PostIdLine(post);
    var withStatus := if ShowsStatus(post) then opening + StatusLine(post) else opening;
    var withCategories := if |post.categories| > 0
                          then AppendLines(withStatus + "categories:\n", CategoryNames(post.categories))
                          else withStatus;
    var withTags := if |post.tags| > 0 then AppendLines(withCategories + "tags:\n", post.tags) else withCategories;
    withTags + "---\n\n"
  }

  /** The body: Turndown's Markdown for the post's HTML, or, when Turndown
      throws (`None`), the output of the regular-expression fallback. */
  function Body(html: string, turndown: string -> Option<string>, fallback: string -> string): string {
    match turndown(html)
    case Some(markdown) => markdown
    case None => fallback(html)
  }

  /** `convertItemToMarkdown(post, options)`; Turndown and its fallback are
      parameters. */
  method ConvertItemToMarkdown(post: Post, options: Options,
                               turndown: string -> Option<string>, fallback: string -> string)
    returns (m: MarkdownPost)
    ensures options.includeFrontmatter ==>
              m.content == FrontMatter(post) + Body(post.content, turndown, fallback)
    ensures !options.includeFrontmatter ==> m.content == Body(post.content, turndown, fallback)
    ensures m.filename == GenerateFilename(post, options.filenameRule)
    ensures |post.categories| > 0 ==> m.categoryFolder == post.categories[0].slug
    ensures |post.categories| == 0 ==> m.categoryFolder == "uncategorized"
    ensures m.post == post
  {
    var content := post.content;
    match turndown(content) {
      case Some(converted) => content := converted;
      case None => content := fallback(content);
    }

    var markdown := "";
    if options.includeFrontmatter {
      markdown := markdown + "---\n";
      assert markdown == "---\n";
      markdown := markdown + ("title: \"" + EscapeYaml(post.title) + "\"\n");
      markdown := markdown + ("date: \"" + FormatDate(post.date) + "\"\n");
      markdown := markdown + ("slug: \"" + post.slug + "\"\n");
      markdown := markdown + ("post_id: " + post.postId + "\n");

      if post.status != "" && post.status != "publish" {
        markdown := markdown + ("status: \"" + post.status + "\"\n");
      }

      if |post.categories| > 0 {
        markdown := markdown + "categories:\n";
        var names := CategoryNames(post.categories);
        ghost var start := markdown;
        for i := 0 to |post.categories|
          invariant AppendLines(markdown, names[i..]) == AppendLines(start, names)
        {
          assert names[i..][1..] == names[i + 1..];
          markdown := markdown + ("  - \"" + EscapeYaml(post.categories[i].name) + "\"\n");
        }
      }

      if |post.tags| > 0 {
        markdown := markdown + "tags:\n";
        ghost var start := markdown;
        for i := 0 to |post.tags|
          invariant AppendLines(markdown, post.tags[i..]) == AppendLines(start, post.tags)
        {
          assert post.tags[i..][1..] == post.tags[i + 1..];
          markdown := markdown + ("  - \"" + EscapeYaml(post.tags[i]) + "\"\n");
        }
      }

      markdown := markdown + "---\n\n";
    }

    markdown := markdown + content;

    var filename := GenerateFilename(post, options.filenameRule);
    var categoryFolder := if |post.categories| > 0 then post.categories[0].slug else "uncategorized";
    m := MarkdownPost(filename, categoryFolder, markdown, post);
  }

  /** Accumulating the list lines one by one appends the whole block. */
  lemma {:induction false} AppendLinesAppendsBlock(markdown: string, values: seq<string>)
    ensures AppendLines(markdown, values) == markdown + ListBlock(values)
    decreases |values|
  {
    if values == [] {
      assert markdown + "" == markdown;
    } else {
      var line := ListLine(values[0]);
      AppendLinesAppendsBlock(markdown + line, values[1..]);
      ConcatAssoc(markdown, line, ListBlock(values[1..]));
    }
  }

  function StatusText(post: Post): string {
    if ShowsStatus(post) then StatusLine(post) else ""
  }

  function CategoriesText(post: Post): string {
    if |post.categories| > 0 then "categories:\n" + ListBlock(CategoryNames(post.categories)) else ""
  }

  function TagsText(post: Post): string {
    if |post.tags| > 0 then "tags:\n" + ListBlock(post.tags) else ""
  }

  /** A header line followed by its accumulated list lines. */
  lemma BlockAppended(markdown: string, header: string, values: seq<string>)
    ensures AppendLines(markdown + header, values) == markdown + (header + ListBlock(values))
  {
    AppendLinesAppendsBlock(markdown + header, values);
    ConcatAssoc(markdown, header, ListBlock(values));
  }

  /** The front matter is the opening delimiter, title, date, slug and id
      lines, then the status line only for a non-empty status other than
      `publish`, then the categories block only when there are categories
      and the tags block only when there are tags, each with one line per
      entry in order, then the closing delimiter and a blank line. */
  lemma FrontMatterLayout(post: Post)
    ensures FrontMatter(post)
         == "---\n" + TitleLine(post) + DateLine(post) + SlugLine(post) + PostIdLine(post)
            + StatusText(post) + CategoriesText(post) + TagsText(post) + "---\n\n"
  {
    var opening := "---\n" + TitleLine(post) + DateLine(post) + SlugLine(post) + PostIdLine(post);
    var withStatus := opening + StatusText(post);
    if !ShowsStatus(post) {
      assert withStatus == opening;
    }
    var withCategories := withStatus + CategoriesText(post);
    if |post.categories| > 0 {
      BlockAppended(withStatus, "categories:\n", CategoryNames(post.categories));
    } else {
      assert withCategories == withStatus;
    }
    if |post.tags| > 0 {
      BlockAppended(withCategories, "tags:\n", post.tags);
    } else {
      assert withCategories + TagsText(post) == withCategories;
    }
  }

  /** The file opens with the delimiter and the title line and ends its
      front matter with the closing delimiter and a blank line. */
  lemma FrontMatterDelimited(post: Post)
    ensures var f := FrontMatter(post);
            && |f| >= 4 + |TitleLine(post)| + 5
            && f[..4 + |TitleLine(post)|] == "---\n" + TitleLine(post)
            && f[|f| - 5..] == "---\n\n"
  {
    FrontMatterLayout(post);
    var head := "---\n" + TitleLine(post);
    var middle := head + DateLine(post) + SlugLine(post) + PostIdLine(post)
                  + StatusText(post) + CategoriesText(post) + TagsText(post);
    assert middle[..|head|] == head;
    assert FrontMatter(post) == middle + "---\n\n";
  }

  /** The title can be read back from its line: dropping the backslashes the
      escaping inserted between the quotes gives the title. */
  lemma TitleLineRecoversTitle(post: Post)
    ensures var line, n := TitleLine(post), |"title: \""|;
            && |line| >= n + 2 && line[..n] == "title: \"" && line[|line| - 2..] == "\"\n"
            && Unescape(line[n..|line| - 2]) == post.title
  {
    var line, n := TitleLine(post), |"title: \""|;
    assert line[n..|line| - 2] == EscapeYaml(post.title);
    UnescapeEscapeYaml(post.title);
  }

  /** Every category name and tag can be read back from its list line. */
  lemma ListLineRecoversValue(value: string)
    ensures var line, n := ListLine(value), |"  - \""|;
            && |line| >= n + 2 && line[..n] == "  - \"" && line[|line| - 2..] == "\"\n"
            && Unescape(line[n..|line| - 2]) == value
  {
    var line, n := ListLine(value), |"  - \""|;
    assert line[n..|line| - 2] == EscapeYaml(value);
    UnescapeEscapeYaml(value);
  }
}
