/** The module-level registry that `validate` fills and `postValidate` reads, with the process
    exit code that `warn` sets. Each method is proved to leave the registry as the functions of
    `Ingest` and `Resolve` describe. */
module Engine {
  import opened Text
  import opened DocTypes
  import opened Dict
  import opened Diagnostics
  import opened LinkPattern
  import opened Ingest
  import opened Resolve

  /** The fields of the registry as one value. */
  datatype RegistryState = RegistryState(
    allStatics: seq<string>, allModules: seq<string>, allLibraries: set<string>,
    allRefs: Dict<RefInfo>, allLinks: Dict<string>, warnings: seq<Warning>, exitCode: nat)

  /** The registry after `validate` on one directory: the findings and registrations of `Ingest`;
      when the `@see` loop throws, the links, the module and its library are not recorded. */
  function Validated(s: RegistryState, docs: seq<Doc>, componentDirectory: string, owners: seq<SeeOwner>,
                     links: seq<string>, strict: bool): RegistryState
    requires Validatable(docs)
  {
    var ws := ValidationWarnings(docs, componentDirectory, owners);
    var completed := !SeeScanOf(owners).aborted;
    RegistryState(
      s.allStatics + NewStatics(docs[0].statics),
      s.allModules + (if completed then [docs[0].name] else []),
      s.allLibraries + (if completed then {LibraryOf(docs[0].name)} else {}),
      HarvestRefs(s.allRefs, docs[0].statics),
      if completed then AddLinks(s.allLinks, links, docs[0].name) else s.allLinks,
      s.warnings + ws,
      ExitCodeAfter(s.exitCode, strict, |ws|))
  }

  /** The registry after `postValidate`: the resolution findings are reported, nothing else changes. */
  function Resolved(s: RegistryState, strict: bool, ignoreExternal: bool): RegistryState
  {
    var ws := ResolutionWarnings(s.allStatics, s.allModules, s.allLibraries, s.allRefs, s.allLinks, ignoreExternal);
    s.(warnings := s.warnings + ws, exitCode := ExitCodeAfter(s.exitCode, strict, |ws|))
  }

  class Registry {
    /** `memberof.name` of every registered static member. */
    var allStatics: seq<string>
    /** The name of every validated module. */
    var allModules: seq<string>
    /** The library prefixes of the validated modules (`allLibraries[lib] = true`). */
    var allLibraries: set<string>
    /** `@extends`/`@mixes` target -> its citations. */
    var allRefs: Dict<RefInfo>
    /** Link URL -> the modules citing it. */
    var allLinks: Dict<string>
    /** Every line passed to `warn`, in order. */
    var warnings: seq<Warning>
    /** `process.exitCode`; 0 stands for unset. */
    var exitCode: nat

    function State(): RegistryState
      reads this
    {
      RegistryState(allStatics, allModules, allLibraries, allRefs, allLinks, warnings, exitCode)
    }

    ghost predicate Valid()
      reads this
    {
      allRefs.Valid() && allLinks.Valid() && ListsDistinct(allLinks)
    }

    constructor ()
      ensures Valid()
      ensures allStatics == [] && allModules == [] && allLibraries == {}
      ensures allRefs == Empty() && allLinks == Empty()
      ensures warnings == [] && exitCode == 0
    {
      allStatics := [];
      allModules := [];
      allLibraries := {};
      allRefs := Empty();
      allLinks := Empty();
      warnings := [];
      exitCode := 0;
    }

    /** `warn`: report the line; in strict mode set exit code 1 unless a code is already set. */
    method Warn(w: Warning, strict: bool)
      modifies this`warnings, this`exitCode
      ensures warnings == old(warnings) + [w]
      ensures exitCode == ExitCodeAfter(old(exitCode), strict, 1)
    {
      warnings := warnings + [w];
      if strict && exitCode == 0 {
        exitCode := 1;
      }
    }

    /** The rejection handler of a directory whose parse failed sets exit code 2. */
    method FailParse()
      modifies this`exitCode
      ensures exitCode == 2
    {
      exitCode := 2;
    }

    /** `pushRef`. */
    method PushRef(ref: string, kind: string, name: string, context: Context)
      modifies this`allRefs
      ensures allRefs == Push(old(allRefs), ref, RefInfo(kind, name, context))
    {
      allRefs := Push(allRefs, ref, RefInfo(kind, name, context));
    }

    /** The tag loop of one static member: every `extends` or `mixes` tag is pushed as a reference. */
    method PushTagRefs(tags: seq<Tag>, name: string, context: Context)
      modifies this`allRefs
      ensures allRefs == TagRefs(old(allRefs), tags, name, context)
    {
      var j := 0;
      while j < |tags|
        invariant 0 <= j <= |tags|
        invariant allRefs == TagRefs(old(allRefs), tags[..j], name, context)
      {
        var tag := tags[j];
        assert tags[..j + 1][..j] == tags[..j];
        if tag.title == "extends" || tag.title == "mixes" {
          PushRef(tag.name, tag.title, name, context);
        }
        j := j + 1;
      }
      assert tags[..|tags|] == tags;
    }

    /** The static-member loop: warn on a repeated name, register the first occurrence, and
        harvest the references of every member. `uniques` maps each name seen so far to its
        first member. */
    method CheckStatics(ms: seq<Member>, strict: bool)
      modifies this`warnings, this`exitCode, this`allStatics, this`allRefs
      ensures warnings == old(warnings) + MemberWarnings(ms)
      ensures exitCode == ExitCodeAfter(old(exitCode), strict, |MemberWarnings(ms)|)
      ensures allStatics == old(allStatics) + NewStatics(ms)
      ensures allRefs == HarvestRefs(old(allRefs), ms)
    {
      var uniques: map<string, Member> := map[];
      var i := 0;
      while i < |ms|
        invariant 0 <= i <= |ms|
        invariant FirstMembers(uniques, ms[..i])
        invariant warnings == old(warnings) + MemberWarnings(ms[..i])
        invariant exitCode == ExitCodeAfter(old(exitCode), strict, |MemberWarnings(ms[..i])|)
        invariant allStatics == old(allStatics) + NewStatics(ms[..i])
        invariant allRefs == HarvestRefs(old(allRefs), ms[..i])
      {
        uniques := CheckMember(ms, i, uniques, strict);
        MemberStep(ms, i, old(warnings), old(allStatics), old(allRefs), old(exitCode), strict);
        i := i + 1;
      }
      assert ms[..|ms|] == ms;
    }

    /** The body of the static-member loop for `ms[i]`. */
    method CheckMember(ms: seq<Member>, i: nat, uniques: map<string, Member>, strict: bool)
      returns (next: map<string, Member>)
      requires i < |ms| && FirstMembers(uniques, ms[..i])
      modifies this`warnings, this`exitCode, this`allStatics, this`allRefs
      ensures FirstMembers(next, ms[..i + 1])
      ensures warnings == old(warnings) + DuplicateOf(ms[..i], ms[i])
      ensures allStatics == old(allStatics) + RegisteredOf(ms[..i], ms[i])
      ensures allRefs == TagRefs(old(allRefs), ms[i].tags, ms[i].name, ms[i].context)
      ensures exitCode == ExitCodeAfter(old(exitCode), strict, |DuplicateOf(ms[..i], ms[i])|)
    {
      FirstMembersSnoc(uniques, ms, i);
      var member := ms[i];
      var name := member.name;
      if name in uniques {
        Warn(DuplicateWarning(member, uniques[name]), strict);
        next := uniques;
      } else {
        next := uniques[name := member];
        allStatics := allStatics + [StaticId(member)];
      }
      PushTagRefs(member.tags, name, member.context);
    }

    /** The `@see` loop over the query result: warn on each description matching neither
        `{@link` nor `http`, naming the file of the context at the tag's index. `completed` is
        false when that context is missing, where reading its file throws. */
    method CheckSees(tags: seq<SeeTag>, contexts: seq<Context>, strict: bool) returns (completed: bool)
      modifies this`warnings, this`exitCode
      ensures completed == !ScanSees(tags, contexts).aborted
      ensures warnings == old(warnings) + ScanSees(tags, contexts).warnings
      ensures exitCode == ExitCodeAfter(old(exitCode), strict, |ScanSees(tags, contexts).warnings|)
    {
      var k := 0;
      while k < |tags|
        invariant 0 <= k <= |tags|
        invariant !ScanSees(tags[..k], contexts).aborted
        invariant warnings == old(warnings) + ScanSees(tags[..k], contexts).warnings
        invariant exitCode == ExitCodeAfter(old(exitCode), strict, |ScanSees(tags[..k], contexts).warnings|)
      {
        assert tags[..k + 1][..k] == tags[..k];
        if !ValidSee(tags[k].description) {
          if k >= |contexts| {
            ScanSeesAbortStays(tags, contexts, k + 1);
            return false;
          }
          Warn(SeeWarning(tags[k], contexts[k].file), strict);
        }
        k := k + 1;
      }
      assert tags[..|tags|] == tags;
      return true;
    }

    /** The link loop: each URL's list of citing modules gains `name` unless it already has it. */
    method RecordLinks(links: seq<string>, name: string)
      modifies this`allLinks
      ensures allLinks == AddLinks(old(allLinks), links, name)
    {
      var l := 0;
      while l < |links|
        invariant 0 <= l <= |links|
        invariant allLinks == AddLinks(old(allLinks), links[..l], name)
      {
        assert links[..l + 1][..l] == links[..l];
        allLinks := PushUnique(allLinks, links[l], name);
        l := l + 1;
      }
      assert links[..|links|] == links;
    }

    /** The doclet-count and module-identity checks of `validate`. */
    method CheckHeader(docs: seq<Doc>, componentDirectory: string, strict: bool)
      requires Validatable(docs)
      modifies this`warnings, this`exitCode
      ensures warnings == old(warnings) + HeaderWarnings(docs, componentDirectory)
      ensures exitCode == ExitCodeAfter(old(exitCode), strict, |HeaderWarnings(docs, componentDirectory)|)
    {
      if |docs| > 1 {
        Warn(TooManyDocletsWarning(docs), strict);
      }
      var head := docs[0].path[0];
      if head.kind == "module" {
        if head.name != componentDirectory {
          Warn(NameMismatchWarning(head, componentDirectory, docs[0].name, docs[0].context), strict);
        }
      } else {
        Warn(NotAModuleWarning(head, docs[0].name, docs[0].context), strict);
      }
    }

    /** `validate`: check one parsed directory and add it to the registry. `owners` are the nodes
        the `@see` query visits and `links` the result of the link query on `docs[0]`.
        `completed` is false when the `@see` loop throws: the links, the module and its library
        are then not recorded. */
    method Validate(docs: seq<Doc>, componentDirectory: string, owners: seq<SeeOwner>, links: seq<string>, strict: bool)
      returns (completed: bool)
      requires Validatable(docs) && Valid()
      modifies this
      ensures Valid()
      ensures completed == !SeeScanOf(owners).aborted
      ensures warnings == old(warnings) + ValidationWarnings(docs, componentDirectory, owners)
      ensures exitCode == ExitCodeAfter(old(exitCode), strict, |ValidationWarnings(docs, componentDirectory, owners)|)
      ensures allStatics == old(allStatics) + NewStatics(docs[0].statics)
      ensures allRefs == HarvestRefs(old(allRefs), docs[0].statics)
      ensures allLinks == if completed then AddLinks(old(allLinks), links, docs[0].name) else old(allLinks)
      ensures allModules == old(allModules) + (if completed then [docs[0].name] else [])
      ensures allLibraries == old(allLibraries) + (if completed then {LibraryOf(docs[0].name)} else {})
    {
      ghost var header := HeaderWarnings(docs, componentDirectory);
      ghost var members := MemberWarnings(docs[0].statics);
      ghost var seeWarnings := SeeScanOf(owners).warnings;
      CheckHeader(docs, componentDirectory, strict);
      CheckStatics(docs[0].statics, strict);
      ExitCodeAfterAdds(old(exitCode), strict, |header|, |members|);
      HarvestRefsKeys(old(allRefs), docs[0].statics);
      completed := CheckSees(SeeTagsOf(owners), SeeContextsOf(owners), strict);
      ExitCodeAfterAdds(old(exitCode), strict, |header| + |members|, |seeWarnings|);
      AppendAssoc4(old(warnings), header, members, seeWarnings);
      if !completed {
        assert allModules + [] == allModules;
        assert allLibraries + {} == allLibraries;
        return;
      }
      RecordLinks(links, docs[0].name);
      allModules := allModules + [docs[0].name];
      allLibraries := allLibraries + {LibraryOf(docs[0].name)};
      AddLinksValid(old(allLinks), links, docs[0].name);
    }

    /** Report an unresolved key: its header line, then one line per entry. */
    method ReportRef(ref: string, infos: seq<RefInfo>, strict: bool)
      modifies this`warnings, this`exitCode
      ensures warnings == old(warnings) + [RefHeader(ref)] + CitationWarnings(infos)
      ensures exitCode == ExitCodeAfter(old(exitCode), strict, 1 + |CitationWarnings(infos)|)
    {
      Warn(RefHeader(ref), strict);
      var j := 0;
      while j < |infos|
        invariant 0 <= j <= |infos|
        invariant warnings == old(warnings) + [RefHeader(ref)] + CitationWarnings(infos[..j])
        invariant exitCode == ExitCodeAfter(old(exitCode), strict, 1 + |CitationWarnings(infos[..j])|)
      {
        assert infos[..j + 1][..j] == infos[..j];
        Warn(CitationWarning(infos[j]), strict);
        j := j + 1;
      }
      assert infos[..|infos|] == infos;
    }

    method ReportLink(link: string, mods: seq<string>, strict: bool)
      modifies this`warnings, this`exitCode
      ensures warnings == old(warnings) + [LinkHeader(link)] + UsedInWarnings(mods)
      ensures exitCode == ExitCodeAfter(old(exitCode), strict, 1 + |UsedInWarnings(mods)|)
    {
      Warn(LinkHeader(link), strict);
      var j := 0;
      while j < |mods|
        invariant 0 <= j <= |mods|
        invariant warnings == old(warnings) + [LinkHeader(link)] + UsedInWarnings(mods[..j])
        invariant exitCode == ExitCodeAfter(old(exitCode), strict, 1 + |UsedInWarnings(mods[..j])|)
      {
        assert mods[..j + 1][..j] == mods[..j];
        Warn(UsedInWarning(mods[j]), strict);
        j := j + 1;
      }
      assert mods[..|mods|] == mods;
    }

    /** The reference callback of `postValidate` for one key of `allRefs`; `unresolved` is the set
        of keys it reports. */
    method CheckRef(ref: string, ghost unresolved: set<string>, strict: bool, ignoreExternal: bool)
      requires ref in allRefs.entries
      requires unresolved == UnresolvedRefs(allRefs, allStatics, allLibraries, ignoreExternal)
      modifies this`warnings, this`exitCode
      ensures warnings == old(warnings) + RefFindings(ref, allRefs, unresolved)
      ensures exitCode == ExitCodeAfter(old(exitCode), strict, |RefFindings(ref, allRefs, unresolved)|)
    {
      var library := LibraryOf(ref);
      var ignore := ignoreExternal && library !in allLibraries;
      assert ref in unresolved <==> UnresolvedRef(ref, allStatics, allLibraries, ignoreExternal);
      if !ignore && ref !in allStatics {
        assert RefFindings(ref, allRefs, unresolved) == [RefHeader(ref)] + CitationWarnings(Get(allRefs, ref));
        ReportRef(ref, Get(allRefs, ref), strict);
        AppendAssoc(old(warnings), [RefHeader(ref)], CitationWarnings(Get(allRefs, ref)));
      } else {
        assert RefFindings(ref, allRefs, unresolved) == [];
        assert warnings + [] == warnings;
      }
    }

    /** The reference pass of `postValidate`. */
    method CheckRefs(strict: bool, ignoreExternal: bool)
      requires allRefs.Valid()
      modifies this`warnings, this`exitCode
      ensures warnings == old(warnings)
        + RefsFindings(allRefs.keys, allRefs, UnresolvedRefs(allRefs, allStatics, allLibraries, ignoreExternal))
      ensures exitCode == ExitCodeAfter(old(exitCode), strict,
        |RefsFindings(allRefs.keys, allRefs, UnresolvedRefs(allRefs, allStatics, allLibraries, ignoreExternal))|)
    {
      ghost var unresolved := UnresolvedRefs(allRefs, allStatics, allLibraries, ignoreExternal);
      var keys := allRefs.keys;
      var i := 0;
      while i < |keys|
        invariant 0 <= i <= |keys|
        invariant warnings == old(warnings) + RefsFindings(keys[..i], allRefs, unresolved)
        invariant exitCode == ExitCodeAfter(old(exitCode), strict, |RefsFindings(keys[..i], allRefs, unresolved)|)
      {
        CheckRef(keys[i], unresolved, strict, ignoreExternal);
        RefsStep(keys, i, allRefs, unresolved, old(warnings), old(exitCode), strict);
        i := i + 1;
      }
      assert keys[..|keys|] == keys;
    }

    /** The link callback of `postValidate` for one key of `allLinks`; `invalid` is the set of keys
        it reports. */
    method CheckLink(link: string, ghost invalid: set<string>, strict: bool, ignoreExternal: bool)
      requires link in allLinks.entries
      requires invalid == InvalidLinks(allLinks, allStatics, allModules, allLibraries, ignoreExternal)
      modifies this`warnings, this`exitCode
      ensures warnings == old(warnings) + LinkFindings(link, allLinks, invalid)
      ensures exitCode == ExitCodeAfter(old(exitCode), strict, |LinkFindings(link, allLinks, invalid)|)
    {
      var verdict := ClassifyLink(link, allStatics, allModules, allLibraries, ignoreExternal);
      LinkFindingsOf(link, allLinks, allStatics, allModules, allLibraries, ignoreExternal);
      if verdict == Unresolved {
        ReportLink(link, Get(allLinks, link), strict);
        AppendAssoc(old(warnings), [LinkHeader(link)], UsedInWarnings(Get(allLinks, link)));
      } else {
        assert warnings + [] == warnings;
      }
    }

    /** The link pass of `postValidate`. */
    method CheckLinks(strict: bool, ignoreExternal: bool)
      requires allLinks.Valid()
      modifies this`warnings, this`exitCode
      ensures warnings == old(warnings)
        + LinksFindings(allLinks.keys, allLinks, InvalidLinks(allLinks, allStatics, allModules, allLibraries, ignoreExternal))
      ensures exitCode == ExitCodeAfter(old(exitCode), strict,
        |LinksFindings(allLinks.keys, allLinks, InvalidLinks(allLinks, allStatics, allModules, allLibraries, ignoreExternal))|)
    {
      ghost var invalid := InvalidLinks(allLinks, allStatics, allModules, allLibraries, ignoreExternal);
      var keys := allLinks.keys;
      var i := 0;
      while i < |keys|
        invariant 0 <= i <= |keys|
        invariant warnings == old(warnings) + LinksFindings(keys[..i], allLinks, invalid)
        invariant exitCode == ExitCodeAfter(old(exitCode), strict, |LinksFindings(keys[..i], allLinks, invalid)|)
      {
        CheckLink(keys[i], invalid, strict, ignoreExternal);
        LinksStep(keys, i, allLinks, invalid, old(warnings), old(exitCode), strict);
        i := i + 1;
      }
      assert keys[..|keys|] == keys;
    }

    /** `postValidate`: report unresolved references and invalid links. Only the warnings and
        the exit code change. */
    method PostValidate(strict: bool, ignoreExternal: bool)
      requires Valid()
      modifies this`warnings, this`exitCode
      ensures warnings == old(warnings)
        + ResolutionWarnings(allStatics, allModules, allLibraries, allRefs, allLinks, ignoreExternal)
      ensures exitCode == ExitCodeAfter(old(exitCode), strict,
        |ResolutionWarnings(allStatics, allModules, allLibraries, allRefs, allLinks, ignoreExternal)|)
    {
      ghost var refFindings :=
        RefsFindings(allRefs.keys, allRefs, UnresolvedRefs(allRefs, allStatics, allLibraries, ignoreExternal));
      ghost var linkFindings :=
        LinksFindings(allLinks.keys, allLinks, InvalidLinks(allLinks, allStatics, allModules, allLibraries, ignoreExternal));
      CheckRefs(strict, ignoreExternal);
      CheckLinks(strict, ignoreExternal);
      ExitCodeAfterAdds(old(exitCode), strict, |refFindings|, |linkFindings|);
      AppendAssoc(old(warnings), refFindings, linkFindings);
    }
  }

  /** `uniques` maps each name of `ms` to the first member of that name, and holds nothing else. */
  ghost predicate FirstMembers(uniques: map<string, Member>, ms: seq<Member>)
  {
    forall n :: (n in uniques <==> FirstNamed(ms, n).Some?)
                && (n in uniques ==> uniques[n] == ms[FirstNamed(ms, n).value])
  }

  /** The map after one more member: unchanged on a repeated name, extended by the member otherwise. */
  lemma {:induction false} FirstMembersSnoc(uniques: map<string, Member>, all: seq<Member>, i: nat)
    requires i < |all| && FirstMembers(uniques, all[..i])
    ensures all[i].name in uniques <==> FirstNamed(all[..i], all[i].name).Some?
    ensures all[i].name in uniques ==> uniques[all[i].name] == all[..i][FirstNamed(all[..i], all[i].name).value]
    ensures FirstMembers(if all[i].name in uniques then uniques else uniques[all[i].name := all[i]], all[..i + 1])
  {
    var ms, m := all[..i], all[i];
    assert ms + [m] == all[..i + 1];
    var next := if m.name in uniques then uniques else uniques[m.name := m];
    forall n ensures (n in next <==> FirstNamed(ms + [m], n).Some?)
                     && (n in next ==> next[n] == (ms + [m])[FirstNamed(ms + [m], n).value])
    {
      FirstNamedSnoc(ms, m, n);
      if FirstNamed(ms, n).Some? {
        assert (ms + [m])[FirstNamed(ms, n).value] == ms[FirstNamed(ms, n).value];
      }
    }
  }

  /** One more member extends the loop's three results by what that member contributes. */
  lemma {:induction false} MemberStep(ms: seq<Member>, i: nat, w0: seq<Warning>, st0: seq<string>, r0: Dict<RefInfo>,
                   code0: nat, strict: bool)
    requires i < |ms|
    ensures ExitCodeAfter(ExitCodeAfter(code0, strict, |MemberWarnings(ms[..i])|), strict, |DuplicateOf(ms[..i], ms[i])|)
      == ExitCodeAfter(code0, strict, |MemberWarnings(ms[..i + 1])|)
    ensures w0 + MemberWarnings(ms[..i]) + DuplicateOf(ms[..i], ms[i]) == w0 + MemberWarnings(ms[..i + 1])
    ensures st0 + NewStatics(ms[..i]) + RegisteredOf(ms[..i], ms[i]) == st0 + NewStatics(ms[..i + 1])
    ensures TagRefs(HarvestRefs(r0, ms[..i]), ms[i].tags, ms[i].name, ms[i].context) == HarvestRefs(r0, ms[..i + 1])
  {
    var next := ms[..i + 1];
    assert next[..i] == ms[..i];
    assert next[i] == ms[i];
    assert MemberWarnings(next) == MemberWarnings(ms[..i]) + DuplicateOf(ms[..i], ms[i]);
    assert NewStatics(next) == NewStatics(ms[..i]) + RegisteredOf(ms[..i], ms[i]);
    AppendAssoc(w0, MemberWarnings(ms[..i]), DuplicateOf(ms[..i], ms[i]));
    AppendAssoc(st0, NewStatics(ms[..i]), RegisteredOf(ms[..i], ms[i]));
    ExitCodeAfterAdds(code0, strict, |MemberWarnings(ms[..i])|, |DuplicateOf(ms[..i], ms[i])|);
  }

  /** One more key of `allRefs` extends the reference pass by that key's block. */
  lemma {:induction false} RefsStep(keys: seq<string>, i: nat, refs: Dict<RefInfo>, unresolved: set<string>,
                 w0: seq<Warning>, code0: nat, strict: bool)
    requires i < |keys|
    ensures var done, block := RefsFindings(keys[..i], refs, unresolved), RefFindings(keys[i], refs, unresolved);
      && w0 + done + block == w0 + RefsFindings(keys[..i + 1], refs, unresolved)
      && ExitCodeAfter(ExitCodeAfter(code0, strict, |done|), strict, |block|)
         == ExitCodeAfter(code0, strict, |RefsFindings(keys[..i + 1], refs, unresolved)|)
  {
    var done, block := RefsFindings(keys[..i], refs, unresolved), RefFindings(keys[i], refs, unresolved);
    assert keys[..i + 1][..i] == keys[..i];
    assert RefsFindings(keys[..i + 1], refs, unresolved) == done + block;
    ExitCodeAfterAdds(code0, strict, |done|, |block|);
    AppendAssoc(w0, done, block);
  }

  /** One more key of `allLinks` extends the link pass by that key's block. */
  lemma {:induction false} LinksStep(keys: seq<string>, i: nat, links: Dict<string>, invalid: set<string>,
                  w0: seq<Warning>, code0: nat, strict: bool)
    requires i < |keys|
    ensures var done, block := LinksFindings(keys[..i], links, invalid), LinkFindings(keys[i], links, invalid);
      && w0 + done + block == w0 + LinksFindings(keys[..i + 1], links, invalid)
      && ExitCodeAfter(ExitCodeAfter(code0, strict, |done|), strict, |block|)
         == ExitCodeAfter(code0, strict, |LinksFindings(keys[..i + 1], links, invalid)|)
  {
    var done, block := LinksFindings(keys[..i], links, invalid), LinkFindings(keys[i], links, invalid);
    assert keys[..i + 1][..i] == keys[..i];
    assert LinksFindings(keys[..i + 1], links, invalid) == done + block;
    ExitCodeAfterAdds(code0, strict, |done|, |block|);
    AppendAssoc(w0, done, block);
  }
}
