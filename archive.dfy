/** The file-adding loop of `buildZipFromPosts`: every converted post is
    written into the archive under `<categoryFolder>/<filename>`. */
module Archive {
  import opened Records

  /** The file entries of a JSZip archive: path to file content. Adding a
      file under a path that is already present replaces it. The folder
      entries JSZip adds for parent folders are not kept here. */
  class Zip {
    var files: map<string, string>

    constructor ()
      ensures files == map[]
    {
      files := map[];
    }

    /** `zip.file(path, content)`. */
    method File(path: string, content: string)
      modifies this
      ensures files == old(files)[path := content]
    {
      files := files[path := content];
    }
  }

  /** `${categoryFolder}/${filename}`. */
  function FilePath(m: MarkdownPost): string {
    m.categoryFolder + "/" + m.filename
  }

  /** The archive contents after adding the posts in order. */
  function ArchiveOf(posts: seq<MarkdownPost>): map<string, string>
  {
    if posts == [] then map[]
    else
      var n := |posts| - 1;
      ArchiveOf(posts[..n])[FilePath(posts[n]) := posts[n].content]
  }

  /** `buildZipFromPosts(markdownPosts, options)` up to the archive
      generation. */
  method BuildZipFromPosts(markdownPosts: seq<MarkdownPost>) returns (zip: Zip)
    ensures fresh(zip)
    ensures zip.files == ArchiveOf(markdownPosts)
  {
    zip := new Zip();
    for i := 0 to |markdownPosts|
      invariant zip.files == ArchiveOf(markdownPosts[..i])
    {
      assert markdownPosts[..i + 1][..i] == markdownPosts[..i];
      var m := markdownPosts[i];
      var filePath := m.categoryFolder + "/" + m.filename;
      zip.File(filePath, m.content);
    }
    assert markdownPosts[..|markdownPosts|] == markdownPosts;
  }

  /** The archive has exactly one path per post path: nothing is added
      besides the posts, and no post is missing. */
  lemma {:induction false} ArchivePaths(posts: seq<MarkdownPost>)
    ensures forall path :: path in ArchiveOf(posts) <==> exists i :: 0 <= i < |posts| && FilePath(posts[i]) == path
  {
    if posts != [] {
      var n := |posts| - 1;
      ArchivePaths(posts[..n]);
      forall path | path in ArchiveOf(posts)
        ensures exists i :: 0 <= i < |posts| && FilePath(posts[i]) == path
      {
        if path != FilePath(posts[n]) {
          assert path in ArchiveOf(posts[..n]);
          var i :| 0 <= i < n && FilePath(posts[..n][i]) == path;
          assert FilePath(posts[i]) == path;
        }
      }
      forall i | 0 <= i < |posts|
        ensures FilePath(posts[i]) in ArchiveOf(posts)
      {
        if i < n {
          assert FilePath(posts[..n][i]) == FilePath(posts[i]);
        }
      }
    }
  }

  /** The last write wins: a post's content is what its path holds unless a
      later post has the same path. */
  lemma {:induction false} LastWriteWins(posts: seq<MarkdownPost>, i: nat)
    requires i < |posts|
    requires forall j :: i < j < |posts| ==> FilePath(posts[j]) != FilePath(posts[i])
    ensures FilePath(posts[i]) in ArchiveOf(posts)
    ensures ArchiveOf(posts)[FilePath(posts[i])] == posts[i].content
  {
    var n := |posts| - 1;
    if i < n {
      assert forall j :: i < j < n ==> posts[..n][j] == posts[j];
      LastWriteWins(posts[..n], i);
    }
  }

  /** Two posts filed under folders without a slash share a path only when
      they have the same folder and the same file name. */
  lemma SamePathSameFolderAndName(a: MarkdownPost, b: MarkdownPost)
    requires '/' !in a.categoryFolder && '/' !in b.categoryFolder
    requires FilePath(a) == FilePath(b)
    ensures a.categoryFolder == b.categoryFolder && a.filename == b.filename
  {
    var p := FilePath(a);
    var fa, fb := |a.categoryFolder|, |b.categoryFolder|;
    assert p[fa] == '/' && p[fb] == '/';
    assert p[..fa] == a.categoryFolder && p[..fb] == b.categoryFolder;
    assert p[fa + 1..] == a.filename && p[fb + 1..] == b.filename;
  }
}
