/** The text of each warning line, as `validate` and `postValidate` pass it to `warn` (without
    the terminal colouring). */
module Messages {
  import opened Text
  import opened DocTypes
  import opened Diagnostics

  /** The fixed text each kind of line starts with. */
  function Lead(k: WarningKind): string
  {
    match k
    case TooManyDoclets => "Too many doclets ("
    case NameMismatch => "Module name ("
    case NotAModule => "First item not a module: "
    case DuplicateMember => "Duplicate module member "
    case InvalidSee => "Potentially invalid @see '"
    case InvalidReference => "Invalid reference: "
    case ReferenceCitation => "    type: "
    case InvalidLink => "Invalid link: "
    case LinkCitation => "    Used in: "
  }

  /** What follows the lead. */
  function Details(w: Warning): string
  {
    match w
    case TooManyDocletsWarning(docs) =>
      var positions := seq(|docs|, i requires 0 <= i < |docs| => DocNameAndPosition(docs[i].name, docs[i].context));
      NatToString(|docs|) + "):\n" + Join(positions, "\n")
    case NameMismatchWarning(head, dir, name, ctx) =>
      head.name + ") does not match path: " + dir + " in " + DocNameAndPosition(name, ctx)
    case NotAModuleWarning(head, name, ctx) =>
      head.name + " (" + head.kind + ") in " + DocNameAndPosition(name, ctx)
    case DuplicateWarning(m, original) =>
      DocNameAndPosition(m.name, m.context) + ", original: " + DocNameAndPosition(original.name, original.context)
    case SeeWarning(see, file) =>
      see.description + "' at " + StripRawPrefix(file) + ":" + NatToString(see.lineNumber)
    case RefHeader(key) => key + ":"
    case CitationWarning(info) => info.kind + " - " + DocNameAndPosition(info.name, info.context)
    case LinkHeader(link) => link + ":"
    case UsedInWarning(mod) => mod
  }

  /** The line `warn` prints for `w`: the lead of its kind, then its details. */
  function Render(w: Warning): (r: string)
    ensures |Lead(w.Kind())| <= |r| && r[..|Lead(w.Kind())|] == Lead(w.Kind())
  {
    Lead(w.Kind()) + Details(w)
  }

  /** Two different kinds have leads that disagree at some position both cover, so no line of
      one kind reads like a line of another. */
  lemma {:induction false} LeadsDiffer(k1: WarningKind, k2: WarningKind)
    requires k1 != k2
    ensures exists i :: 0 <= i < |Lead(k1)| && i < |Lead(k2)| && Lead(k1)[i] != Lead(k2)[i]
  {
    var a, b := Lead(k1), Lead(k2);
    if a[0] != b[0] {
      assert 0 < |a| && 0 < |b| && a[0] != b[0];
    } else if a[4] != b[4] {
      // "    type: " and "    Used in: "
      assert 4 < |a| && 4 < |b| && a[4] != b[4];
    } else {
      // "Invalid reference: " and "Invalid link: "
      assert 8 < |a| && 8 < |b| && a[8] != b[8];
    }
  }

  /** The text of a line determines its kind. */
  lemma {:induction false} RenderKind(w1: Warning, w2: Warning)
    requires Render(w1) == Render(w2)
    ensures w1.Kind() == w2.Kind()
  {
    if w1.Kind() != w2.Kind() {
      LeadsDiffer(w1.Kind(), w2.Kind());
    }
  }
}
