/** The shape of the parser's output that the validator reads, and the findings it emits.
    Text fields the parser may leave out are the empty string here. */
module DocTypes {
  import Text

  /** Where a doclet was found: source file and the line its comment starts on. */
  datatype Context = Context(file: string, line: nat)

  /** A block tag of a doc comment (`@extends ui/Button`, `@see ...`). */
  datatype Tag = Tag(title: string, name: string, description: string)

  /** One static member doclet of a module. */
  datatype Member = Member(name: string, memberof: string, tags: seq<Tag>, context: Context)

  /** One step of a doclet's nesting path. */
  datatype PathEntry = PathEntry(name: string, kind: string)

  /** A top-level doclet. `statics` is `members.static`; an absent `members` is the empty sequence,
      which the validator treats the same way. */
  datatype Doc = Doc(name: string, path: seq<PathEntry>, statics: seq<Member>, context: Context)

  /** A `@see` tag: its text and the line it is on. */
  datatype SeeTag = SeeTag(description: string, lineNumber: nat)

  /** A node of the first doclet's tree that carries tags (the doclet itself, a member, a member
      of a member, ...), in the order the descendant operator `**` visits them: its context and
      its tags titled `see`, in order. */
  datatype SeeOwner = SeeOwner(context: Context, sees: seq<SeeTag>)

  /** A deferred `@extends`/`@mixes` citation: `{type, name, context}`. */
  datatype RefInfo = RefInfo(kind: string, name: string, context: Context)

  datatype WarningKind =
    | TooManyDoclets
    | NameMismatch
    | NotAModule
    | DuplicateMember
    | InvalidSee
    | InvalidReference
    | ReferenceCitation
    | InvalidLink
    | LinkCitation

  /** One line passed to `warn`, as the finding it reports; `Messages.Render` gives its exact text. */
  datatype Warning =
    | TooManyDocletsWarning(docs: seq<Doc>)
    | NameMismatchWarning(head: PathEntry, componentDirectory: string, docName: string, docContext: Context)
    | NotAModuleWarning(head: PathEntry, docName: string, docContext: Context)
    | DuplicateWarning(member: Member, original: Member)
    | SeeWarning(see: SeeTag, file: string)
    | RefHeader(key: string)
    | CitationWarning(info: RefInfo)
    | LinkHeader(link: string)
    | UsedInWarning(citingModule: string)
  {
    /** The rule that produced the line. */
    function Kind(): WarningKind
    {
      match this
      case TooManyDocletsWarning(_) => TooManyDoclets
      case NameMismatchWarning(_, _, _, _) => NameMismatch
      case NotAModuleWarning(_, _, _) => NotAModule
      case DuplicateWarning(_, _) => DuplicateMember
      case SeeWarning(_, _) => InvalidSee
      case RefHeader(_) => InvalidReference
      case CitationWarning(_) => ReferenceCitation
      case LinkHeader(_) => InvalidLink
      case UsedInWarning(_) => LinkCitation
    }
  }

  /** Number of warnings of kind `k`. */
  function CountKind(ws: seq<Warning>, k: WarningKind): nat
  {
    if ws == [] then 0 else CountKind(ws[..|ws| - 1], k) + (if ws[|ws| - 1].Kind() == k then 1 else 0)
  }

  lemma {:induction false} CountKindAppend(a: seq<Warning>, b: seq<Warning>, k: WarningKind)
    ensures CountKind(a + b, k) == CountKind(a, k) + CountKind(b, k)
    decreases |b|
  {
    if b == [] {
      assert a + b == a;
    } else {
      assert (a + b)[..|a + b| - 1] == a + b[..|b| - 1];
      CountKindAppend(a, b[..|b| - 1], k);
    }
  }

  lemma {:induction false} CountKindSnoc(ws: seq<Warning>, w: Warning, k: WarningKind)
    ensures CountKind(ws + [w], k) == CountKind(ws, k) + (if w.Kind() == k then 1 else 0)
  {
    assert (ws + [w])[..|ws|] == ws;
  }

  lemma {:induction false} CountKindOne(w: Warning, k: WarningKind)
    ensures CountKind([w], k) == if w.Kind() == k then 1 else 0
  {
    assert [w][..0] == [];
  }

  lemma {:induction false} CountKindCons(w: Warning, ws: seq<Warning>, k: WarningKind)
    ensures CountKind([w] + ws, k) == (if w.Kind() == k then 1 else 0) + CountKind(ws, k)
  {
    CountKindAppend([w], ws, k);
    assert [w][..0] == [];
  }

  /** A sequence whose warnings are all of kind `k` counts all of them for `k` and none for any other kind. */
  lemma {:induction false} CountKindUniform(ws: seq<Warning>, k: WarningKind, other: WarningKind)
    requires forall i :: 0 <= i < |ws| ==> ws[i].Kind() == k
    ensures CountKind(ws, k) == |ws|
    ensures other != k ==> CountKind(ws, other) == 0
  {
    if ws != [] {
      CountKindUniform(ws[..|ws| - 1], k, other);
    }
  }

  /** The library of a qualified name: `name.split('/')[0]`. */
  function LibraryOf(name: string): (r: string)
    ensures |r| <= |name| && r == name[..|r|]
    ensures forall k :: 0 <= k < |r| ==> r[k] != '/'
    ensures |r| == |name| || name[|r|] == '/'
  {
    Text.Before(name, '/')
  }

  /** A doc set the validator can be called on: the caller passes only non-empty parser output,
      and the module checks dereference `path[0]` of the first doclet. */
  predicate Validatable(docs: seq<Doc>)
  {
    |docs| > 0 && |docs[0].path| > 0
  }
}
