/** What `postValidate` reports about a completed registry, stated as functions of it: the
    warnings for unresolved references and for invalid links, in the order `Object.keys` visits
    the keys. The imperative `Registry.PostValidate` is proved to follow these. */
module Resolve {
  import opened Text
  import opened DocTypes
  import opened Dict
  import opened Diagnostics
  import opened LinkPattern

  /** Module pairs whose links are never checked. */
  const Exceptions: seq<string> := ["spotlight/Spotlight"]

  /** `ignoreExternal && !allLibraries[key.split('/')[0]]`: the key belongs to a library that was
      never scanned. */
  predicate Ignored(key: string, libraries: set<string>, ignoreExternal: bool)
  {
    ignoreExternal && LibraryOf(key) !in libraries
  }

  // ---------------------------------------------------------------------------------------
  // References

  /** A reference is reported when it is not ignored and names no registered static member. */
  predicate UnresolvedRef(key: string, statics: seq<string>, libraries: set<string>, ignoreExternal: bool)
  {
    !Ignored(key, libraries, ignoreExternal) && key !in statics
  }

  /** One line per citing entry, in order. */
  function CitationWarnings(infos: seq<RefInfo>): seq<Warning>
  {
    if infos == [] then [] else CitationWarnings(infos[..|infos| - 1]) + [CitationWarning(infos[|infos| - 1])]
  }

  /** The keys of `allRefs` that `postValidate` reports. */
  function UnresolvedRefs(refs: Dict<RefInfo>, statics: seq<string>, libraries: set<string>,
                          ignoreExternal: bool): set<string>
  {
    set key | key in refs.entries && UnresolvedRef(key, statics, libraries, ignoreExternal)
  }

  /** The block reported for one key of `allRefs`, when it is among the unresolved ones. */
  function RefFindings(key: string, refs: Dict<RefInfo>, unresolved: set<string>): seq<Warning>
  {
    if key in unresolved then [RefHeader(key)] + CitationWarnings(Get(refs, key)) else []
  }

  /** The blocks reported for the keys `keys`, in order. */
  function RefsFindings(keys: seq<string>, refs: Dict<RefInfo>, unresolved: set<string>): seq<Warning>
  {
    if keys == [] then []
    else RefsFindings(keys[..|keys| - 1], refs, unresolved) + RefFindings(keys[|keys| - 1], refs, unresolved)
  }

  // ---------------------------------------------------------------------------------------
  // Links

  /** How `postValidate` treats one link. */
  datatype LinkVerdict =
    | External     // its library was never scanned and `ignoreExternal` is set
    | Unmatched    // the pattern does not match
    | Excepted     // `match[2]` is on the exception list
    | Resolved     // the module or member it names is registered
    | Unresolved   // reported as invalid

  function ClassifyLink(link: string, statics: seq<string>, modules: seq<string>, libraries: set<string>,
                        ignoreExternal: bool): LinkVerdict
  {
    if Ignored(link, libraries, ignoreExternal) then External
    else match MatchModuleRegex(link)
      case None => Unmatched
      case Some(m) =>
        if m.pair in Exceptions then Excepted
        else if m.member != "" then (if m.whole in statics then Resolved else Unresolved)
        else if m.whole in modules then Resolved
        else Unresolved
  }

  /** One line per citing module, in order. */
  function UsedInWarnings(mods: seq<string>): seq<Warning>
  {
    if mods == [] then [] else UsedInWarnings(mods[..|mods| - 1]) + [UsedInWarning(mods[|mods| - 1])]
  }

  /** The keys of `allLinks` that `postValidate` reports. */
  function InvalidLinks(links: Dict<string>, statics: seq<string>, modules: seq<string>, libraries: set<string>,
                        ignoreExternal: bool): set<string>
  {
    set link | link in links.entries && ClassifyLink(link, statics, modules, libraries, ignoreExternal) == Unresolved
  }

  /** The block reported for one key of `allLinks`, when it is among the invalid ones. */
  function LinkFindings(link: string, links: Dict<string>, invalid: set<string>): seq<Warning>
  {
    if link in invalid then [LinkHeader(link)] + UsedInWarnings(Get(links, link)) else []
  }

  /** The block of one key of `allLinks`, by its verdict. */
  lemma {:induction false} LinkFindingsOf(link: string, links: Dict<string>, statics: seq<string>, modules: seq<string>,
                       libraries: set<string>, ignoreExternal: bool)
    requires link in links.entries
    ensures var f := LinkFindings(link, links, InvalidLinks(links, statics, modules, libraries, ignoreExternal));
      if ClassifyLink(link, statics, modules, libraries, ignoreExternal) == Unresolved
      then f == [LinkHeader(link)] + UsedInWarnings(Get(links, link))
      else f == []
  {
    var verdict := ClassifyLink(link, statics, modules, libraries, ignoreExternal);
    assert link in InvalidLinks(links, statics, modules, libraries, ignoreExternal) <==> verdict == Unresolved;
  }

  function LinksFindings(keys: seq<string>, links: Dict<string>, invalid: set<string>): seq<Warning>
  {
    if keys == [] then []
    else LinksFindings(keys[..|keys| - 1], links, invalid) + LinkFindings(keys[|keys| - 1], links, invalid)
  }

  /** Every warning `postValidate` emits, in order: references first, then links. */
  function ResolutionWarnings(statics: seq<string>, modules: seq<string>, libraries: set<string>,
                              refs: Dict<RefInfo>, links: Dict<string>, ignoreExternal: bool): seq<Warning>
  {
    RefsFindings(refs.keys, refs, UnresolvedRefs(refs, statics, libraries, ignoreExternal))
    + LinksFindings(links.keys, links, InvalidLinks(links, statics, modules, libraries, ignoreExternal))
  }

  // ---------------------------------------------------------------------------------------
  // Kinds and counts

  lemma {:induction false} CitationWarningsShape(infos: seq<RefInfo>, k: WarningKind)
    ensures |CitationWarnings(infos)| == |infos|
    ensures CountKind(CitationWarnings(infos), k) == if k == ReferenceCitation then |infos| else 0
    decreases |infos|
  {
    if infos != [] {
      var init, last := infos[..|infos| - 1], infos[|infos| - 1];
      CitationWarningsShape(init, k);
      CountKindSnoc(CitationWarnings(init), CitationWarning(last), k);
      assert CitationWarning(last).Kind() == ReferenceCitation;
    }
  }

  lemma {:induction false} CitationWarningsAt(infos: seq<RefInfo>, i: nat)
    requires i < |infos|
    ensures |CitationWarnings(infos)| == |infos|
    ensures CitationWarnings(infos)[i] == CitationWarning(infos[i])
    decreases |infos|
  {
    CitationWarningsShape(infos, ReferenceCitation);
    if i < |infos| - 1 {
      CitationWarningsAt(infos[..|infos| - 1], i);
    }
  }

  lemma {:induction false} UsedInWarningsShape(mods: seq<string>, k: WarningKind)
    ensures |UsedInWarnings(mods)| == |mods|
    ensures CountKind(UsedInWarnings(mods), k) == if k == LinkCitation then |mods| else 0
    decreases |mods|
  {
    if mods != [] {
      var init, last := mods[..|mods| - 1], mods[|mods| - 1];
      UsedInWarningsShape(init, k);
      CountKindSnoc(UsedInWarnings(init), UsedInWarning(last), k);
      assert UsedInWarning(last).Kind() == LinkCitation;
    }
  }

  lemma {:induction false} UsedInWarningsAt(mods: seq<string>, i: nat)
    requires i < |mods|
    ensures |UsedInWarnings(mods)| == |mods|
    ensures UsedInWarnings(mods)[i] == UsedInWarning(mods[i])
    decreases |mods|
  {
    UsedInWarningsShape(mods, LinkCitation);
    if i < |mods| - 1 {
      UsedInWarningsAt(mods[..|mods| - 1], i);
    }
  }

  /** A sequence with no warning of some kind holds no warning of that kind. */
  lemma {:induction false} CountKindZero(ws: seq<Warning>, w: Warning)
    requires CountKind(ws, w.Kind()) == 0
    ensures w !in ws
    decreases |ws|
  {
    if ws != [] {
      CountKindZero(ws[..|ws| - 1], w);
      assert ws == ws[..|ws| - 1] + [ws[|ws| - 1]];
    }
  }

  /** The reference pass emits no link findings and the link pass no reference findings. */
  lemma {:induction false} RefFindingsKinds(key: string, refs: Dict<RefInfo>, unresolved: set<string>, k: WarningKind)
    requires k != InvalidReference && k != ReferenceCitation
    ensures CountKind(RefFindings(key, refs, unresolved), k) == 0
  {
    var block := RefFindings(key, refs, unresolved);
    if key in unresolved {
      var cites := CitationWarnings(Get(refs, key));
      assert block == [RefHeader(key)] + cites;
      CitationWarningsShape(Get(refs, key), k);
      CountKindCons(RefHeader(key), cites, k);
      assert RefHeader(key).Kind() == InvalidReference;
    } else {
      assert block == [];
    }
  }

  lemma {:induction false} RefsFindingsKinds(keys: seq<string>, refs: Dict<RefInfo>, unresolved: set<string>,
                                             k: WarningKind)
    requires k != InvalidReference && k != ReferenceCitation
    ensures CountKind(RefsFindings(keys, refs, unresolved), k) == 0
    decreases |keys|
  {
    if keys != [] {
      var init, key := keys[..|keys| - 1], keys[|keys| - 1];
      var before, block := RefsFindings(init, refs, unresolved), RefFindings(key, refs, unresolved);
      assert RefsFindings(keys, refs, unresolved) == before + block;
      RefsFindingsKinds(init, refs, unresolved, k);
      RefFindingsKinds(key, refs, unresolved, k);
      CountKindAppend(before, block, k);
    }
  }

  lemma {:induction false} LinkFindingsKinds(key: string, links: Dict<string>, invalid: set<string>, k: WarningKind)
    requires k != InvalidLink && k != LinkCitation
    ensures CountKind(LinkFindings(key, links, invalid), k) == 0
  {
    var block := LinkFindings(key, links, invalid);
    if key in invalid {
      var cites := UsedInWarnings(Get(links, key));
      assert block == [LinkHeader(key)] + cites;
      UsedInWarningsShape(Get(links, key), k);
      CountKindCons(LinkHeader(key), cites, k);
      assert LinkHeader(key).Kind() == InvalidLink;
    } else {
      assert block == [];
    }
  }

  lemma {:induction false} LinksFindingsKinds(keys: seq<string>, links: Dict<string>, invalid: set<string>,
                                              k: WarningKind)
    requires k != InvalidLink && k != LinkCitation
    ensures CountKind(LinksFindings(keys, links, invalid), k) == 0
    decreases |keys|
  {
    if keys != [] {
      var init, key := keys[..|keys| - 1], keys[|keys| - 1];
      var before, block := LinksFindings(init, links, invalid), LinkFindings(key, links, invalid);
      assert LinksFindings(keys, links, invalid) == before + block;
      LinksFindingsKinds(init, links, invalid, k);
      LinkFindingsKinds(key, links, invalid, k);
      CountKindAppend(before, block, k);
    }
  }

  // ---------------------------------------------------------------------------------------
  // Warning iff unresolved

  /** The block of `last` holds the header of `key` iff it is the block of `key` and reports it. */
  lemma {:induction false} RefHeaderInBlock(last: string, refs: Dict<RefInfo>, unresolved: set<string>, key: string)
    ensures RefHeader(key) in RefFindings(last, refs, unresolved) <==> key == last && last in unresolved
  {
    var block := RefFindings(last, refs, unresolved);
    if last in unresolved {
      var cites := CitationWarnings(Get(refs, last));
      assert block == [RefHeader(last)] + cites;
      CitationWarningsShape(Get(refs, last), InvalidReference);
      CountKindZero(cites, RefHeader(key));
    } else {
      assert block == [];
    }
  }

  /** The header of `key` occurs among the reference findings for `keys` iff `key` is one of
      them and is unresolved. */
  lemma {:induction false} RefHeaderIn(keys: seq<string>, refs: Dict<RefInfo>, unresolved: set<string>, key: string)
    ensures RefHeader(key) in RefsFindings(keys, refs, unresolved) <==> key in keys && key in unresolved
    decreases |keys|
  {
    if keys != [] {
      var init, last := keys[..|keys| - 1], keys[|keys| - 1];
      RefHeaderIn(init, refs, unresolved, key);
      var before, block := RefsFindings(init, refs, unresolved), RefFindings(last, refs, unresolved);
      assert RefsFindings(keys, refs, unresolved) == before + block;
      assert keys == init + [last];
      RefHeaderInBlock(last, refs, unresolved, key);
    }
  }

  /** `postValidate` reports a reference iff `allRefs` holds it, it is not ignored as external
      and `allStatics` does not list it. */
  lemma {:induction false} ReferenceWarnedIff(statics: seq<string>, modules: seq<string>, libraries: set<string>,
                           refs: Dict<RefInfo>, links: Dict<string>, ignoreExternal: bool, key: string)
    requires refs.Valid()
    ensures RefHeader(key) in ResolutionWarnings(statics, modules, libraries, refs, links, ignoreExternal) <==>
      key in refs.entries && !Ignored(key, libraries, ignoreExternal) && key !in statics
  {
    var unresolved := UnresolvedRefs(refs, statics, libraries, ignoreExternal);
    var invalid := InvalidLinks(links, statics, modules, libraries, ignoreExternal);
    RefHeaderIn(refs.keys, refs, unresolved, key);
    LinksFindingsKinds(links.keys, links, invalid, InvalidReference);
    CountKindZero(LinksFindings(links.keys, links, invalid), RefHeader(key));
  }

  /** The block of `last` holds the header of `link` iff it is the block of `link` and reports it. */
  lemma {:induction false} LinkHeaderInBlock(last: string, links: Dict<string>, invalid: set<string>, link: string)
    ensures LinkHeader(link) in LinkFindings(last, links, invalid) <==> link == last && last in invalid
  {
    var block := LinkFindings(last, links, invalid);
    if last in invalid {
      var cites := UsedInWarnings(Get(links, last));
      assert block == [LinkHeader(last)] + cites;
      UsedInWarningsShape(Get(links, last), InvalidLink);
      CountKindZero(cites, LinkHeader(link));
    } else {
      assert block == [];
    }
  }

  lemma {:induction false} LinkHeaderIn(keys: seq<string>, links: Dict<string>, invalid: set<string>, link: string)
    ensures LinkHeader(link) in LinksFindings(keys, links, invalid) <==> link in keys && link in invalid
    decreases |keys|
  {
    if keys != [] {
      var init, last := keys[..|keys| - 1], keys[|keys| - 1];
      LinkHeaderIn(init, links, invalid, link);
      var before, block := LinksFindings(init, links, invalid), LinkFindings(last, links, invalid);
      assert LinksFindings(keys, links, invalid) == before + block;
      assert keys == init + [last];
      LinkHeaderInBlock(last, links, invalid, link);
    }
  }

  /** `postValidate` reports a link iff `allLinks` holds it and it classifies as unresolved. */
  lemma {:induction false} LinkWarnedIff(statics: seq<string>, modules: seq<string>, libraries: set<string>,
                      refs: Dict<RefInfo>, links: Dict<string>, ignoreExternal: bool, link: string)
    requires links.Valid()
    ensures LinkHeader(link) in ResolutionWarnings(statics, modules, libraries, refs, links, ignoreExternal) <==>
      link in links.entries && ClassifyLink(link, statics, modules, libraries, ignoreExternal) == Unresolved
  {
    var unresolved := UnresolvedRefs(refs, statics, libraries, ignoreExternal);
    var invalid := InvalidLinks(links, statics, modules, libraries, ignoreExternal);
    LinkHeaderIn(links.keys, links, invalid, link);
    RefsFindingsKinds(refs.keys, refs, unresolved, InvalidLink);
    CountKindZero(RefsFindings(refs.keys, refs, unresolved), LinkHeader(link));
  }

  // ---------------------------------------------------------------------------------------
  // Blocks: a header is followed by one line per citing entry

  lemma {:induction false} RefsFindingsAppend(a: seq<string>, b: seq<string>, refs: Dict<RefInfo>,
                                              unresolved: set<string>)
    ensures RefsFindings(a + b, refs, unresolved) == RefsFindings(a, refs, unresolved) + RefsFindings(b, refs, unresolved)
    decreases |b|
  {
    if b == [] {
      assert a + b == a;
    } else {
      var init, last := b[..|b| - 1], b[|b| - 1];
      assert (a + b)[..|a + b| - 1] == a + init;
      assert (a + b)[|a + b| - 1] == last;
      RefsFindingsAppend(a, init, refs, unresolved);
      assert RefsFindings(a + b, refs, unresolved) == RefsFindings(a + init, refs, unresolved) + RefFindings(last, refs, unresolved);
      assert RefsFindings(b, refs, unresolved) == RefsFindings(init, refs, unresolved) + RefFindings(last, refs, unresolved);
      AppendAssoc(RefsFindings(a, refs, unresolved), RefsFindings(init, refs, unresolved), RefFindings(last, refs, unresolved));
    }
  }

  lemma {:induction false} LinksFindingsAppend(a: seq<string>, b: seq<string>, links: Dict<string>,
                                               invalid: set<string>)
    ensures LinksFindings(a + b, links, invalid) == LinksFindings(a, links, invalid) + LinksFindings(b, links, invalid)
    decreases |b|
  {
    if b == [] {
      assert a + b == a;
    } else {
      var init, last := b[..|b| - 1], b[|b| - 1];
      assert (a + b)[..|a + b| - 1] == a + init;
      assert (a + b)[|a + b| - 1] == last;
      LinksFindingsAppend(a, init, links, invalid);
      assert LinksFindings(a + b, links, invalid) == LinksFindings(a + init, links, invalid) + LinkFindings(last, links, invalid);
      assert LinksFindings(b, links, invalid) == LinksFindings(init, links, invalid) + LinkFindings(last, links, invalid);
      AppendAssoc(LinksFindings(a, links, invalid), LinksFindings(init, links, invalid), LinkFindings(last, links, invalid));
    }
  }


  lemma {:induction false} RefsFindingsSplit(keys: seq<string>, i: nat, refs: Dict<RefInfo>, unresolved: set<string>)
    requires i < |keys|
    ensures RefsFindings(keys, refs, unresolved) ==
      RefsFindings(keys[..i], refs, unresolved) + RefFindings(keys[i], refs, unresolved)
      + RefsFindings(keys[i + 1..], refs, unresolved)
  {
    assert keys == keys[..i + 1] + keys[i + 1..];
    assert keys[..i + 1][..i] == keys[..i];
    RefsFindingsAppend(keys[..i + 1], keys[i + 1..], refs, unresolved);
  }

  lemma {:induction false} LinksFindingsSplit(keys: seq<string>, i: nat, links: Dict<string>, invalid: set<string>)
    requires i < |keys|
    ensures LinksFindings(keys, links, invalid) ==
      LinksFindings(keys[..i], links, invalid) + LinkFindings(keys[i], links, invalid)
      + LinksFindings(keys[i + 1..], links, invalid)
  {
    assert keys == keys[..i + 1] + keys[i + 1..];
    assert keys[..i + 1][..i] == keys[..i];
    LinksFindingsAppend(keys[..i + 1], keys[i + 1..], links, invalid);
  }


  lemma {:induction false} PrefixAt(a: seq<Warning>, b: seq<Warning>, n: nat)
    requires n < |a|
    ensures n < |a + b| && (a + b)[n] == a[n]
  {
  }

  lemma {:induction false} SuffixAt(a: seq<Warning>, b: seq<Warning>, n: nat)
    requires n < |b|
    ensures |a| + n < |a + b| && (a + b)[|a| + n] == b[n]
  {
  }

  /** In `b + ([h] + c) + d`, the header `h` sits right after `b`, and the `j`-th line of `c`
      right after it. */
  lemma {:induction false} BlockIn(b: seq<Warning>, h: Warning, c: seq<Warning>, d: seq<Warning>, j: nat)
    requires j < |c|
    ensures var ws := b + ([h] + c) + d;
      && |b| + 1 + j < |ws|
      && ws[|b|] == h
      && ws[|b| + 1 + j] == c[j]
  {
    var ws := b + ([h] + c) + d;
    assert ws[|b|] == ([h] + c)[0];
    assert ws[|b| + 1 + j] == ([h] + c)[1 + j];
  }

  /** In the reference findings for `keys`, the block of a reported `keys[i]` is its header
      followed by its citation lines. */
  lemma {:induction false} RefsFindingsBlock(keys: seq<string>, refs: Dict<RefInfo>, unresolved: set<string>, i: nat, j: nat)
    requires i < |keys| && keys[i] in unresolved && j < |Get(refs, keys[i])|
    ensures var rf := RefsFindings(keys, refs, unresolved);
      var p := |RefsFindings(keys[..i], refs, unresolved)|;
      && p + 1 + j < |rf|
      && rf[p] == RefHeader(keys[i])
      && rf[p + 1 + j] == CitationWarning(Get(refs, keys[i])[j])
  {
    var key := keys[i];
    var cites := CitationWarnings(Get(refs, key));
    RefsFindingsSplit(keys, i, refs, unresolved);
    assert RefFindings(key, refs, unresolved) == [RefHeader(key)] + cites;
    CitationWarningsAt(Get(refs, key), j);
    BlockIn(RefsFindings(keys[..i], refs, unresolved), RefHeader(key), cites, RefsFindings(keys[i + 1..], refs, unresolved), j);
  }

  /** In the link findings for `keys`, the block of a reported `keys[i]` is its header followed
      by its "Used in" lines. */
  lemma {:induction false} LinksFindingsBlock(keys: seq<string>, links: Dict<string>, invalid: set<string>, i: nat, j: nat)
    requires i < |keys| && keys[i] in invalid && j < |Get(links, keys[i])|
    ensures var lf := LinksFindings(keys, links, invalid);
      var p := |LinksFindings(keys[..i], links, invalid)|;
      && p + 1 + j < |lf|
      && lf[p] == LinkHeader(keys[i])
      && lf[p + 1 + j] == UsedInWarning(Get(links, keys[i])[j])
  {
    var key := keys[i];
    var cites := UsedInWarnings(Get(links, key));
    LinksFindingsSplit(keys, i, links, invalid);
    assert LinkFindings(key, links, invalid) == [LinkHeader(key)] + cites;
    UsedInWarningsAt(Get(links, key), j);
    BlockIn(LinksFindings(keys[..i], links, invalid), LinkHeader(key), cites, LinksFindings(keys[i + 1..], links, invalid), j);
  }

  /** For the `i`-th key of `allRefs`, when unresolved, its header is immediately followed by one
      "type" line per entry of `allRefs[key]`, in order, in the output of `postValidate` (which
      `ResolutionWarnings` defines as the reference findings followed by the link findings). */
  lemma {:induction false} ReferenceBlock(statics: seq<string>, modules: seq<string>, libraries: set<string>,
                       refs: Dict<RefInfo>, links: Dict<string>, ignoreExternal: bool, i: nat, j: nat)
    requires i < |refs.keys| && refs.keys[i] in refs.entries
    requires UnresolvedRef(refs.keys[i], statics, libraries, ignoreExternal)
    requires j < |Get(refs, refs.keys[i])|
    ensures var ws := RefsFindings(refs.keys, refs, UnresolvedRefs(refs, statics, libraries, ignoreExternal))
                      + LinksFindings(links.keys, links, InvalidLinks(links, statics, modules, libraries, ignoreExternal));
      var p := |RefsFindings(refs.keys[..i], refs, UnresolvedRefs(refs, statics, libraries, ignoreExternal))|;
      && p + 1 + j < |ws|
      && ws[p] == RefHeader(refs.keys[i])
      && ws[p + 1 + j] == CitationWarning(Get(refs, refs.keys[i])[j])
  {
    UnresolvedRefsIn(refs, statics, libraries, ignoreExternal, refs.keys[i]);
    ReferenceBlockBefore(refs.keys, refs, UnresolvedRefs(refs, statics, libraries, ignoreExternal),
                         LinksFindings(links.keys, links, InvalidLinks(links, statics, modules, libraries, ignoreExternal)), i, j);
  }

  /** A reference `postValidate` reports is one of the unresolved ones. */
  lemma {:induction false} UnresolvedRefsIn(refs: Dict<RefInfo>, statics: seq<string>, libraries: set<string>,
                         ignoreExternal: bool, key: string)
    requires key in refs.entries && UnresolvedRef(key, statics, libraries, ignoreExternal)
    ensures key in UnresolvedRefs(refs, statics, libraries, ignoreExternal)
  {
  }

  /** The reference block of `keys[i]` placed before the link findings `lf`. */
  lemma {:induction false} ReferenceBlockBefore(keys: seq<string>, refs: Dict<RefInfo>, unresolved: set<string>,
                             lf: seq<Warning>, i: nat, j: nat)
    requires i < |keys| && keys[i] in unresolved && j < |Get(refs, keys[i])|
    ensures var ws := RefsFindings(keys, refs, unresolved) + lf;
      var p := |RefsFindings(keys[..i], refs, unresolved)|;
      && p + 1 + j < |ws|
      && ws[p] == RefHeader(keys[i])
      && ws[p + 1 + j] == CitationWarning(Get(refs, keys[i])[j])
  {
    var rf := RefsFindings(keys, refs, unresolved);
    RefsFindingsBlock(keys, refs, unresolved, i, j);
    PrefixAt(rf, lf, |RefsFindings(keys[..i], refs, unresolved)|);
    PrefixAt(rf, lf, |RefsFindings(keys[..i], refs, unresolved)| + 1 + j);
  }

  /** A link `postValidate` reports is one of the invalid ones. */
  lemma {:induction false} InvalidLinksIn(links: Dict<string>, statics: seq<string>, modules: seq<string>, libraries: set<string>,
                       ignoreExternal: bool, link: string)
    requires link in links.entries && ClassifyLink(link, statics, modules, libraries, ignoreExternal) == Unresolved
    ensures link in InvalidLinks(links, statics, modules, libraries, ignoreExternal)
  {
  }

  /** The link block of `keys[i]` placed after the reference findings `rf`. */
  lemma {:induction false} LinkBlockAfter(rf: seq<Warning>, keys: seq<string>, links: Dict<string>, invalid: set<string>, i: nat, j: nat)
    requires i < |keys| && keys[i] in invalid && j < |Get(links, keys[i])|
    ensures var ws := rf + LinksFindings(keys, links, invalid);
      var p := |rf| + |LinksFindings(keys[..i], links, invalid)|;
      && p + 1 + j < |ws|
      && ws[p] == LinkHeader(keys[i])
      && ws[p + 1 + j] == UsedInWarning(Get(links, keys[i])[j])
  {
    var lf := LinksFindings(keys, links, invalid);
    LinksFindingsBlock(keys, links, invalid, i, j);
    SuffixAt(rf, lf, |LinksFindings(keys[..i], links, invalid)|);
    SuffixAt(rf, lf, |LinksFindings(keys[..i], links, invalid)| + 1 + j);
  }

  /** For the `i`-th key of `allLinks`, when unresolved, its header is immediately followed by one
      "Used in" line per citing module, in order, in the output of `postValidate` (which
      `ResolutionWarnings` defines as the reference findings followed by the link findings). */
  lemma {:induction false} LinkBlock(statics: seq<string>, modules: seq<string>, libraries: set<string>,
                  refs: Dict<RefInfo>, links: Dict<string>, ignoreExternal: bool, i: nat, j: nat)
    requires i < |links.keys| && links.keys[i] in links.entries
    requires ClassifyLink(links.keys[i], statics, modules, libraries, ignoreExternal) == Unresolved
    requires j < |Get(links, links.keys[i])|
    ensures var ws := RefsFindings(refs.keys, refs, UnresolvedRefs(refs, statics, libraries, ignoreExternal))
                      + LinksFindings(links.keys, links, InvalidLinks(links, statics, modules, libraries, ignoreExternal));
      var p := |RefsFindings(refs.keys, refs, UnresolvedRefs(refs, statics, libraries, ignoreExternal))|
               + |LinksFindings(links.keys[..i], links, InvalidLinks(links, statics, modules, libraries, ignoreExternal))|;
      && p + 1 + j < |ws|
      && ws[p] == LinkHeader(links.keys[i])
      && ws[p + 1 + j] == UsedInWarning(Get(links, links.keys[i])[j])
  {
    InvalidLinksIn(links, statics, modules, libraries, ignoreExternal, links.keys[i]);
    LinkBlockAfter(RefsFindings(refs.keys, refs, UnresolvedRefs(refs, statics, libraries, ignoreExternal)),
                   links.keys, links, InvalidLinks(links, statics, modules, libraries, ignoreExternal), i, j);
  }

  // ---------------------------------------------------------------------------------------
  // The pattern on qualified names

  predicate WordString(w: string)
  {
    |w| > 0 && forall k :: 0 <= k < |w| ==> IsWordChar(w[k])
  }

  /** The library of a name that starts with the word `lib` and a slash is `lib`. */
  lemma {:induction false} LibraryOfQualified(lib: string, s: string)
    requires WordString(lib) && |lib| < |s| && s[..|lib|] == lib && s[|lib|] == '/'
    ensures LibraryOf(s) == lib
  {
  }

  /** With a word run of length `a`, a slash, and a word run ending at `e`, the pattern takes the
      pair `s[..e]`; a following `.` and word run up to `m` are its member part. */
  lemma {:induction false} MatchRuns(s: string, a: nat, e: nat, m: nat)
    requires 0 < a && a + 1 < e <= m <= |s| && s[a] == '/'
    requires WordSpan(s, 0, a) && WordSpan(s, a + 1, e)
    requires e == |s| || !IsWordChar(s[e])
    requires m == e || (e + 1 < m && s[e] == '.' && WordSpan(s, e + 1, m) && (m == |s| || !IsWordChar(s[m])))
    requires m == e ==> !(e + 1 < |s| && s[e] == '.' && IsWordChar(s[e + 1]))
    ensures MatchModuleRegex(s) == Some(LinkMatch(s[..m], s[..e], s[e..m]))
  {
    WordRunIs(s, 0, a);
    WordRunIs(s, a + 1, e - a - 1);
    assert HasPair(s) && PairEnd(s) == e;
    if m != e {
      WordRunIs(s, e + 1, m - e - 1);
      assert HasMember(s);
    } else {
      assert !HasMember(s);
    }
    assert WholeEnd(s) == m;
  }

  /** A word string placed at `i` spans word characters. */
  lemma {:induction false} WordAt(s: string, i: nat, w: string)
    requires i + |w| <= |s| && s[i..i + |w|] == w && WordString(w)
    ensures WordSpan(s, i, i + |w|)
  {
    assert forall k :: i <= k < i + |w| ==> s[k] == w[k - i];
  }

  /** `lib/mod.mem` followed by anything that does not continue the last word is matched as the
      member `lib/mod.mem` of module pair `lib/mod`. */
  lemma {:induction false} MatchMemberLink(lib: string, mod: string, mem: string, rest: string)
    requires WordString(lib) && WordString(mod) && WordString(mem)
    requires rest == [] || !IsWordChar(rest[0])
    ensures MatchModuleRegex(lib + "/" + mod + "." + mem + rest) ==
      Some(LinkMatch(lib + "/" + mod + "." + mem, lib + "/" + mod, "." + mem))
    ensures LibraryOf(lib + "/" + mod + "." + mem + rest) == lib
  {
    var pair := lib + "/" + mod;
    var whole := pair + "." + mem;
    var s := whole + rest;
    var a, e, m := |lib|, |pair|, |whole|;
    assert s == lib + "/" + mod + "." + mem + rest;
    assert s[..m] == whole;
    assert whole[..e] == pair;
    assert s[..e] == pair;
    assert pair[..a] == lib;
    assert s[0..a] == lib;
    assert s[a] == '/';
    assert s[a + 1..e] == pair[a + 1..e] == mod;
    assert s[e] == '.';
    assert s[e + 1..m] == whole[e + 1..m] == mem;
    assert s[e..m] == "." + mem;
    if rest != [] {
      assert s[m] == rest[0];
    }
    WordAt(s, 0, lib);
    WordAt(s, a + 1, mod);
    WordAt(s, e + 1, mem);
    MatchRuns(s, a, e, m);
    assert s[..a] == lib;
    LibraryOfQualified(lib, s);
  }

  /** `lib/mod` followed by anything that neither continues the word nor starts a `.member` is
      matched as the module `lib/mod`. */
  lemma {:induction false} MatchModuleLink(lib: string, mod: string, rest: string)
    requires WordString(lib) && WordString(mod)
    requires rest == [] || !IsWordChar(rest[0])
    requires !(|rest| > 1 && rest[0] == '.' && IsWordChar(rest[1]))
    ensures MatchModuleRegex(lib + "/" + mod + rest) == Some(LinkMatch(lib + "/" + mod, lib + "/" + mod, ""))
    ensures LibraryOf(lib + "/" + mod + rest) == lib
  {
    var pair := lib + "/" + mod;
    var s := pair + rest;
    var a, e := |lib|, |pair|;
    assert s == lib + "/" + mod + rest;
    assert s[..e] == pair;
    assert pair[..a] == lib;
    assert s[0..a] == lib;
    assert s[a] == '/';
    assert s[a + 1..e] == pair[a + 1..e] == mod;
    if rest != [] {
      assert s[e] == rest[0];
      if |rest| > 1 {
        assert s[e + 1] == rest[1];
      }
    }
    WordAt(s, 0, lib);
    WordAt(s, a + 1, mod);
    MatchRuns(s, a, e, e);
    assert s[e..e] == "";
    assert s[..a] == lib;
    LibraryOfQualified(lib, s);
  }

  /** A member link `lib/mod.mem...` is reported iff its library was scanned (or external links
      are checked), the pair is not an exception, and `lib/mod.mem` is not a registered static. */
  lemma {:induction false} MemberLinkVerdict(lib: string, mod: string, mem: string, rest: string, statics: seq<string>,
                          modules: seq<string>, libraries: set<string>, ignoreExternal: bool)
    requires WordString(lib) && WordString(mod) && WordString(mem)
    requires rest == [] || !IsWordChar(rest[0])
    ensures ClassifyLink(lib + "/" + mod + "." + mem + rest, statics, modules, libraries, ignoreExternal) == Unresolved
      <==> && (!ignoreExternal || lib in libraries)
           && lib + "/" + mod != "spotlight/Spotlight"
           && lib + "/" + mod + "." + mem !in statics
  {
    MatchMemberLink(lib, mod, mem, rest);
  }

  /** A module link `lib/mod...` is reported iff its library was scanned (or external links are
      checked), the pair is not an exception, and `lib/mod` is not a registered module. */
  lemma {:induction false} ModuleLinkVerdict(lib: string, mod: string, rest: string, statics: seq<string>,
                          modules: seq<string>, libraries: set<string>, ignoreExternal: bool)
    requires WordString(lib) && WordString(mod)
    requires rest == [] || !IsWordChar(rest[0])
    requires !(|rest| > 1 && rest[0] == '.' && IsWordChar(rest[1]))
    ensures ClassifyLink(lib + "/" + mod + rest, statics, modules, libraries, ignoreExternal) == Unresolved
      <==> && (!ignoreExternal || lib in libraries)
           && lib + "/" + mod != "spotlight/Spotlight"
           && lib + "/" + mod !in modules
  {
    MatchModuleLink(lib, mod, rest);
  }

  /** A link that does not start with a word, a slash and a word is never reported. */
  lemma {:induction false} UnmatchedLinkSkipped(link: string, statics: seq<string>, modules: seq<string>,
                             libraries: set<string>, ignoreExternal: bool)
    requires !exists i: nat, j: nat :: PairAt(link, i, j)
    ensures ClassifyLink(link, statics, modules, libraries, ignoreExternal) != Unresolved
  {
    MatchModuleRegexMatches(link);
  }
}
