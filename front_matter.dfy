/** `prependTableOfContents`: a page's table of contents goes after its front matter block and
    before its body. Building the table (`parseTableOfContents`, which runs `markdown-toc`) is a
    parameter here. */
module FrontMatter {
  import opened Text

  /** The page text cut where the front matter ends. */
  datatype Page = Page(frontMatter: string, body: string)

  predicate StartsWithFence(contents: string)
  {
    |contents| >= 3 && contents[..3] == "---"
  }

  /** `contents.indexOf('---', 4) + 3`: the end of the closing fence, or 2 when there is none
      (`indexOf` gives -1). */
  function FrontMatterEnd(contents: string): (e: nat)
    requires StartsWithFence(contents)
    ensures e <= |contents|
  {
    match IndexOfFrom(contents, "---", 4)
    case None => 2
    case Some(i) => i + 3
  }

  /** The two `substring` calls: nothing of the page is lost or repeated, and a page without an
      opening fence has no front matter. */
  function SplitFrontMatter(contents: string): (p: Page)
    ensures p.frontMatter + p.body == contents
    ensures !StartsWithFence(contents) ==> p.frontMatter == ""
    ensures StartsWithFence(contents) ==> |p.frontMatter| == FrontMatterEnd(contents)
  {
    if StartsWithFence(contents) then
      var e := FrontMatterEnd(contents);
      assert contents[..e] + contents[e..] == contents;
      Page(contents[..e], contents[e..])
    else
      Page("", contents)
  }

  /** A closed front matter block runs from the opening fence to the end of the first `---` that
      starts at index 4 or later. */
  lemma {:induction false} ClosedFrontMatter(contents: string, i: nat)
    requires StartsWithFence(contents) && IndexOfFrom(contents, "---", 4) == Some(i)
    ensures var fm := SplitFrontMatter(contents).frontMatter;
      && |fm| == i + 3 && 4 <= i
      && fm[..3] == "---" && fm[i..] == "---"
      && forall j :: 4 <= j < i ==> !OccursAt(contents, "---", j)
  {
    var fm := SplitFrontMatter(contents).frontMatter;
    assert fm == contents[..i + 3];
    assert fm[i..] == contents[i..i + 3];
  }

  /** Without a closing fence, the front matter is the first two dashes. */
  lemma {:induction false} UnclosedFrontMatter(contents: string)
    requires StartsWithFence(contents) && IndexOfFrom(contents, "---", 4).None?
    ensures SplitFrontMatter(contents) == Page("--", contents[2..])
  {
    assert contents[..2] == contents[..3][..2];
  }

  /** `${frontMatter}${table}\n${body}`; the table is built only for a page with front matter. */
  function PrependTableOfContents(contents: string, tableOf: (string, string) -> string): string
  {
    var p := SplitFrontMatter(contents);
    var table := if StartsWithFence(contents) then tableOf(p.frontMatter, p.body) else "";
    p.frontMatter + table + "\n" + p.body
  }

  /** A page without front matter gains only a leading newline; otherwise the table and a newline
      are inserted where the front matter ends, and the page is otherwise unchanged. */
  lemma {:induction false} PrependTableOfContentsSpec(contents: string, tableOf: (string, string) -> string)
    ensures !StartsWithFence(contents) ==> PrependTableOfContents(contents, tableOf) == "\n" + contents
    ensures StartsWithFence(contents) ==>
      var e := FrontMatterEnd(contents);
      PrependTableOfContents(contents, tableOf)
        == contents[..e] + tableOf(contents[..e], contents[e..]) + "\n" + contents[e..]
  {
    var p := SplitFrontMatter(contents);
    if StartsWithFence(contents) {
      var e := FrontMatterEnd(contents);
      assert p.frontMatter == contents[..e];
    } else {
      assert p.frontMatter == "";
    }
  }
}
