/** The ids under which `generateIndex` adds documents to the search index: a human-readable
    title and the path of the page, separated by `|`, so that a search hit can be displayed
    from its id alone. */
module Search {
  import opened Text
  import Diagnostics
  import Paths

  /** `${doc.title}|docs/modules/${doc.title}`: the id of a module's page. */
  function ModuleSearchId(title: string): string
  {
    title + "|docs/modules/" + title
  }

  /** `${title}|${relativePath}`: the id of a Markdown page. */
  function PageSearchId(title: string, relativePath: string): string
  {
    title + "|" + relativePath
  }

  /** `data.data.title || name`: the front-matter title, or the file's base name when it has none. */
  function PageTitle(frontMatterTitle: string, name: string): string
  {
    if frontMatterTitle != "" then frontMatterTitle else name
  }

  /** `filename.replace(/(.md)$/, '')`: the unescaped `.` lets any character other than a line
      terminator stand before the final `md`. */
  function StripMdSuffix(filename: string): (r: string)
    ensures |filename| >= 3 && filename[|filename| - 3..] == ".md" ==> r + ".md" == filename
    ensures !(|filename| >= 2 && filename[|filename| - 2..] == "md") ==> r == filename
  {
    var n := |filename|;
    if n >= 3 && !Diagnostics.IsLineTerminator(filename[n - 3]) && filename[n - 2..] == "md" then
      assert filename == filename[..n - 3] + filename[n - 3..];
      filename[..n - 3]
    else filename
  }

  /** The file a page id points at: the name without `.md`, or the directory for an `index` page. */
  function PageTarget(filename: string, name: string): string
  {
    if name != "index" then StripMdSuffix(filename) else Paths.DirName(filename)
  }

  /** Reading an id back the way a search hit is displayed: the title is the text before the
      first `|`, the path the text after it. */
  function ParseSearchId(id: string): (string, string)
  {
    match IndexOf(id, "|")
    case None => (id, "")
    case Some(i) => (id[..i], id[i + 1..])
  }

  /** In `title + "|" + rest`, the first `|` is the one after the title, when the title has none. */
  lemma {:induction false} FirstBar(title: string, rest: string)
    requires '|' !in title
    ensures IndexOf(title + "|" + rest, "|") == Some(|title|)
  {
    var id := title + "|" + rest;
    assert id[|title|..|title| + 1] == "|";
    assert OccursAt(id, "|", |title|);
    forall j | 0 <= j < |title| ensures !OccursAt(id, "|", j) {
      assert id[j..j + 1] == [title[j]];
    }
  }

  /** A page id gives back its title and path, provided the title holds no `|`. */
  lemma {:induction false} PageSearchIdRoundTrip(title: string, relativePath: string)
    requires '|' !in title
    ensures ParseSearchId(PageSearchId(title, relativePath)) == (title, relativePath)
  {
    var id := PageSearchId(title, relativePath);
    FirstBar(title, relativePath);
    assert id[..|title|] == title;
    assert id[|title| + 1..] == relativePath;
  }

  /** A module id gives back the module's title and the path of its page. */
  lemma {:induction false} ModuleSearchIdRoundTrip(title: string)
    requires '|' !in title
    ensures ParseSearchId(ModuleSearchId(title)) == (title, "docs/modules/" + title)
  {
    assert ModuleSearchId(title) == PageSearchId(title, "docs/modules/" + title);
    PageSearchIdRoundTrip(title, "docs/modules/" + title);
  }
}
