/** The records the converter passes from stage to stage. An `item` of the
    export arrives already parsed: its descendant elements in document order,
    each as a qualified name and its text content, and its `category`
    elements with their `domain` and `nicename` attributes. */
module Records {
  import opened JsStrings

  /** A descendant element of an `item`: qualified tag name and `textContent`. */
  datatype Element = Element(name: string, text: string)

  /** A `category` element: `getAttribute('domain')`, `getAttribute('nicename')`
      (None when the attribute is absent) and `textContent`. */
  datatype CategoryElement = CategoryElement(domain: Option<string>, nicename: Option<string>, text: string)

  datatype Item = Item(elements: seq<Element>, taxonomy: seq<CategoryElement>)

  datatype Category = Category(name: string, slug: string)

  /** The post record built for every item that survives filtering. The
      identifier is kept as the text it renders to in templates. */
  datatype Post = Post(
    title: string,
    content: string,
    date: string,
    slug: string,
    postId: string,
    status: string,
    categories: seq<Category>,
    tags: seq<string>)

  /** What the options panel hands to the conversion. */
  datatype Options = Options(filenameRule: string, includeFrontmatter: bool)

  /** One converted post, ready for the archive. */
  datatype MarkdownPost = MarkdownPost(filename: string, categoryFolder: string, content: string, post: Post)
}
