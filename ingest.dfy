/** What `validate` does to one parsed directory, stated as functions of its input: the warnings
    it emits in order, the static identifiers it registers, the references and links it records.
    The imperative `Registry.Validate` is proved to follow these, and the lemmas here state what
    they promise. */
module Ingest {
  import opened Text
  import opened DocTypes
  import opened Dict
  import opened Diagnostics

  // ---------------------------------------------------------------------------------------
  // Module checks on the first doclet

  /** The doclet-count check: one warning listing every doclet when there is more than one. */
  function DocletCountWarnings(docs: seq<Doc>): seq<Warning>
  {
    if |docs| > 1 then [TooManyDocletsWarning(docs)] else []
  }

  /** The module-identity check on the first step of the first doclet's path. */
  function IdentityWarnings(docs: seq<Doc>, componentDirectory: string): seq<Warning>
    requires Validatable(docs)
  {
    var head := docs[0].path[0];
    if head.kind != "module" then [NotAModuleWarning(head, docs[0].name, docs[0].context)]
    else if head.name != componentDirectory then [NameMismatchWarning(head, componentDirectory, docs[0].name, docs[0].context)]
    else []
  }

  /** The warnings of the doclet-count and module-identity checks, in order. */
  function HeaderWarnings(docs: seq<Doc>, componentDirectory: string): seq<Warning>
    requires Validatable(docs)
  {
    DocletCountWarnings(docs) + IdentityWarnings(docs, componentDirectory)
  }

  // ---------------------------------------------------------------------------------------
  // Static members: duplicates and registration

  /** Index of the first member called `name`: the entry `uniques[name]` holds. */
  function FirstNamed(ms: seq<Member>, name: string): (r: Option<nat>)
    ensures r.Some? ==> r.value < |ms| && ms[r.value].name == name
  {
    if ms == [] then None
    else if ms[0].name == name then Some(0)
    else match FirstNamed(ms[1..], name)
      case None => None
      case Some(k) => Some(k + 1)
  }

  /** No member before the one found has the name, and none at all when nothing is found. */
  lemma {:induction false} FirstNamedFirst(ms: seq<Member>, name: string)
    ensures FirstNamed(ms, name).Some? ==> forall j :: 0 <= j < FirstNamed(ms, name).value ==> ms[j].name != name
    ensures FirstNamed(ms, name).None? ==> forall j :: 0 <= j < |ms| ==> ms[j].name != name
  {
    if ms != [] && ms[0].name != name {
      FirstNamedFirst(ms[1..], name);
      assert forall j :: 1 <= j < |ms| ==> ms[j] == ms[1..][j - 1];
    }
  }

  /** Looking one member further changes the first index of a name only if the name was absent. */
  lemma {:induction false} FirstNamedSnoc(ms: seq<Member>, m: Member, name: string)
    ensures FirstNamed(ms + [m], name) ==
      if FirstNamed(ms, name).Some? then FirstNamed(ms, name)
      else if m.name == name then Some(|ms|)
      else None
  {
    var s := ms + [m];
    if ms == [] {
      assert s == [m];
      assert s[1..] == [];
    } else {
      assert s[0] == ms[0];
      if ms[0].name != name {
        assert s[1..] == ms[1..] + [m];
        FirstNamedSnoc(ms[1..], m, name);
      }
    }
  }

  /** The identifier `validate` registers for a static member: `memberof.name`. */
  function StaticId(m: Member): string
  {
    m.memberof + "." + m.name
  }

  /** The duplicate warnings of the static-member loop over `ms`, in order; each cites the first
      member of the same name. */
  function MemberWarnings(ms: seq<Member>): seq<Warning>
    decreases |ms|
  {
    if ms == [] then []
    else
      MemberWarnings(ms[..|ms| - 1]) + DuplicateOf(ms[..|ms| - 1], ms[|ms| - 1])
  }

  /** The warning the loop emits for `m` after the members `init`: one citing the first member
      of the same name, if there is one. */
  function DuplicateOf(init: seq<Member>, m: Member): seq<Warning>
  {
    match FirstNamed(init, m.name)
    case Some(j) => [DuplicateWarning(m, init[j])]
    case None => []
  }

  /** The identifier the loop registers for `m` after the members `init`: its own, if its name is new. */
  function RegisteredOf(init: seq<Member>, m: Member): seq<string>
  {
    if FirstNamed(init, m.name).None? then [StaticId(m)] else []
  }

  /** The identifiers the static-member loop appends to `allStatics`, in order. */
  function NewStatics(ms: seq<Member>): seq<string>
    decreases |ms|
  {
    if ms == [] then []
    else
      NewStatics(ms[..|ms| - 1]) + RegisteredOf(ms[..|ms| - 1], ms[|ms| - 1])
  }

  /** The distinct member names of `ms`. */
  function Names(ms: seq<Member>): set<string>
  {
    set i | 0 <= i < |ms| :: ms[i].name
  }

  lemma {:induction false} NamesSnoc(ms: seq<Member>)
    requires ms != []
    ensures Names(ms) == Names(ms[..|ms| - 1]) + {ms[|ms| - 1].name}
    ensures ms[|ms| - 1].name in Names(ms[..|ms| - 1]) ==> |Names(ms)| == |Names(ms[..|ms| - 1])|
    ensures ms[|ms| - 1].name !in Names(ms[..|ms| - 1]) ==> |Names(ms)| == |Names(ms[..|ms| - 1])| + 1
  {
    var init := ms[..|ms| - 1];
    forall n | n in Names(ms) ensures n in Names(init) + {ms[|ms| - 1].name} {
      var i :| 0 <= i < |ms| && ms[i].name == n;
      if i < |ms| - 1 {
        assert init[i].name == n;
      }
    }
    forall n | n in Names(init) ensures n in Names(ms) {
      var i :| 0 <= i < |init| && init[i].name == n;
      assert ms[i].name == n;
    }
    if ms[|ms| - 1].name in Names(init) {
      assert Names(init) + {ms[|ms| - 1].name} == Names(init);
    }
  }

  lemma {:induction false} FirstNamedNames(ms: seq<Member>, name: string)
    ensures FirstNamed(ms, name).None? <==> name !in Names(ms)
  {
    FirstNamedFirst(ms, name);
    if FirstNamed(ms, name).Some? {
      assert ms[FirstNamed(ms, name).value].name == name;
    }
  }

  /** One identifier is registered per distinct member name. */
  lemma {:induction false} NewStaticsCount(ms: seq<Member>)
    ensures |NewStatics(ms)| == |Names(ms)|
    decreases |ms|
  {
    if ms != [] {
      var init, m := ms[..|ms| - 1], ms[|ms| - 1];
      NewStaticsCount(init);
      NamesSnoc(ms);
      FirstNamedNames(init, m.name);
    }
  }

  /** One duplicate warning is emitted per repeated occurrence of a name. */
  lemma {:induction false} MemberWarningsCount(ms: seq<Member>)
    ensures |MemberWarnings(ms)| == |ms| - |Names(ms)|
    decreases |ms|
  {
    if ms != [] {
      var init, m := ms[..|ms| - 1], ms[|ms| - 1];
      MemberWarningsCount(init);
      NamesSnoc(ms);
      FirstNamedNames(init, m.name);
    }
  }

  /** The static-member loop emits duplicate warnings only. */
  lemma {:induction false} MemberWarningsKind(ms: seq<Member>, k: WarningKind)
    ensures CountKind(MemberWarnings(ms), k) == if k == DuplicateMember then |MemberWarnings(ms)| else 0
    decreases |ms|
  {
    if ms != [] {
      var init, m := ms[..|ms| - 1], ms[|ms| - 1];
      MemberWarningsKind(init, k);
      assert MemberWarnings(ms) == MemberWarnings(init) + DuplicateOf(init, m);
      CountKindAppend(MemberWarnings(init), DuplicateOf(init, m), k);
      DuplicateOfKind(init, m, k);
    }
  }

  lemma {:induction false} DuplicateOfKind(init: seq<Member>, m: Member, k: WarningKind)
    ensures CountKind(DuplicateOf(init, m), k) == if k == DuplicateMember then |DuplicateOf(init, m)| else 0
  {
    match FirstNamed(init, m.name)
    case None =>
    case Some(j) => CountKindOne(DuplicateWarning(m, init[j]), k);
  }

  /** The first occurrence of every name is registered. */
  lemma {:induction false} FirstOccurrencesRegistered(ms: seq<Member>, i: nat)
    requires i < |ms| && FirstNamed(ms, ms[i].name) == Some(i)
    ensures StaticId(ms[i]) in NewStatics(ms)
    decreases |ms|
  {
    var init, m := ms[..|ms| - 1], ms[|ms| - 1];
    assert ms == init + [m];
    FirstNamedSnoc(init, m, ms[i].name);
    if i < |init| {
      assert init[i] == ms[i];
      FirstOccurrencesRegistered(init, i);
    }
  }

  /** An identifier is registered iff it is that of the first member of some name. */
  lemma {:induction false} RegisteredIffFirst(ms: seq<Member>, id: string)
    ensures id in NewStatics(ms) <==>
      exists i :: 0 <= i < |ms| && FirstNamed(ms, ms[i].name) == Some(i) && id == StaticId(ms[i])
  {
    if id in NewStatics(ms) {
      var i := RegisteredWitness(ms, id);
    }
    if exists i :: 0 <= i < |ms| && FirstNamed(ms, ms[i].name) == Some(i) && id == StaticId(ms[i]) {
      var i :| 0 <= i < |ms| && FirstNamed(ms, ms[i].name) == Some(i) && id == StaticId(ms[i]);
      FirstOccurrencesRegistered(ms, i);
    }
  }

  /** The member a registered identifier comes from: the first of its name. */
  lemma {:induction false} RegisteredWitness(ms: seq<Member>, id: string) returns (i: nat)
    requires id in NewStatics(ms)
    ensures i < |ms| && FirstNamed(ms, ms[i].name) == Some(i) && id == StaticId(ms[i])
    decreases |ms|
  {
    var init, m := ms[..|ms| - 1], ms[|ms| - 1];
    assert ms == init + [m];
    if id in NewStatics(init) {
      i := RegisteredWitness(init, id);
      FirstNamedSnoc(init, m, init[i].name);
      assert ms[i] == init[i];
    } else {
      assert id in RegisteredOf(init, m);
      FirstNamedSnoc(init, m, m.name);
      i := |init|;
    }
  }

  /** A record whose static member names are all distinct yields no duplicate warning and
      registers every member, in order. */
  lemma {:induction false} DistinctNamesRegisterAll(ms: seq<Member>)
    requires forall i, j :: 0 <= i < j < |ms| ==> ms[i].name != ms[j].name
    ensures MemberWarnings(ms) == []
    ensures NewStatics(ms) == seq(|ms|, i requires 0 <= i < |ms| => StaticId(ms[i]))
    decreases |ms|
  {
    if ms != [] {
      var init, m := ms[..|ms| - 1], ms[|ms| - 1];
      DistinctInit(ms);
      DistinctNamesRegisterAll(init);
      assert FirstNamed(init, m.name).None?;
      assert NewStatics(ms) == NewStatics(init) + [StaticId(m)];
      StaticIdsSnoc(ms);
    }
  }

  lemma {:induction false} StaticIdsSnoc(ms: seq<Member>)
    requires ms != []
    ensures var init := ms[..|ms| - 1];
      seq(|ms|, i requires 0 <= i < |ms| => StaticId(ms[i]))
        == seq(|init|, i requires 0 <= i < |init| => StaticId(init[i])) + [StaticId(ms[|ms| - 1])]
  {
  }

  /** Dropping the last member keeps the names distinct, and the last name occurs nowhere before. */
  lemma {:induction false} DistinctInit(ms: seq<Member>)
    requires ms != [] && forall i, j :: 0 <= i < j < |ms| ==> ms[i].name != ms[j].name
    ensures var init := ms[..|ms| - 1];
      && (forall i, j :: 0 <= i < j < |init| ==> init[i].name != init[j].name)
      && (forall i :: 0 <= i < |init| ==> init[i].name != ms[|ms| - 1].name)
  {
  }

  // ---------------------------------------------------------------------------------------
  // References harvested from @extends and @mixes

  predicate IsRefTag(t: Tag)
  {
    t.title == "extends" || t.title == "mixes"
  }

  /** `allRefs` after the tag loop of one member. */
  function TagRefs(d: Dict<RefInfo>, tags: seq<Tag>, name: string, ctx: Context): Dict<RefInfo>
    decreases |tags|
  {
    if tags == [] then d
    else
      var before := TagRefs(d, tags[..|tags| - 1], name, ctx);
      var t := tags[|tags| - 1];
      if IsRefTag(t) then Push(before, t.name, RefInfo(t.title, name, ctx)) else before
  }

  /** `allRefs` after the static-member loop over `ms`. */
  function HarvestRefs(d: Dict<RefInfo>, ms: seq<Member>): Dict<RefInfo>
    decreases |ms|
  {
    if ms == [] then d
    else
      var m := ms[|ms| - 1];
      TagRefs(HarvestRefs(d, ms[..|ms| - 1]), m.tags, m.name, m.context)
  }

  /** The citations of `key` among `tags`, read from the front: one per reference tag naming it. */
  function TagCitations(tags: seq<Tag>, name: string, ctx: Context, key: string): seq<RefInfo>
  {
    if tags == [] then []
    else
      (if IsRefTag(tags[0]) && tags[0].name == key then [RefInfo(tags[0].title, name, ctx)] else [])
      + TagCitations(tags[1..], name, ctx, key)
  }

  /** The citations of `key` among all static members, duplicates included, in order. */
  function Citations(ms: seq<Member>, key: string): seq<RefInfo>
  {
    if ms == [] then [] else TagCitations(ms[0].tags, ms[0].name, ms[0].context, key) + Citations(ms[1..], key)
  }

  /** The keys a member loop over `ms` adds when absent. */
  function RefTargets(ms: seq<Member>): set<string>
  {
    set i, j | 0 <= i < |ms| && 0 <= j < |ms[i].tags| && IsRefTag(ms[i].tags[j]) :: ms[i].tags[j].name
  }

  lemma {:induction false} TagCitationsSnoc(tags: seq<Tag>, name: string, ctx: Context, key: string)
    requires tags != []
    ensures TagCitations(tags, name, ctx, key) ==
      TagCitations(tags[..|tags| - 1], name, ctx, key)
      + (var t := tags[|tags| - 1]; if IsRefTag(t) && t.name == key then [RefInfo(t.title, name, ctx)] else [])
    decreases |tags|
  {
    if |tags| > 1 {
      var init, tail, t := tags[..|tags| - 1], tags[1..], tags[|tags| - 1];
      var head := if IsRefTag(tags[0]) && tags[0].name == key then [RefInfo(tags[0].title, name, ctx)] else [];
      var lastCite := if IsRefTag(t) && t.name == key then [RefInfo(t.title, name, ctx)] else [];
      assert tail[..|tail| - 1] == init[1..];
      assert tail[|tail| - 1] == t;
      TagCitationsSnoc(tail, name, ctx, key);
      assert TagCitations(tail, name, ctx, key) == TagCitations(init[1..], name, ctx, key) + lastCite;
      assert init[0] == tags[0];
      assert TagCitations(init, name, ctx, key) == head + TagCitations(init[1..], name, ctx, key);
      assert TagCitations(tags, name, ctx, key) == head + TagCitations(tail, name, ctx, key);
      AppendAssoc(head, TagCitations(init[1..], name, ctx, key), lastCite);
    }
  }

  lemma {:induction false} CitationsSnoc(ms: seq<Member>, key: string)
    requires ms != []
    ensures Citations(ms, key) ==
      Citations(ms[..|ms| - 1], key)
      + TagCitations(ms[|ms| - 1].tags, ms[|ms| - 1].name, ms[|ms| - 1].context, key)
    decreases |ms|
  {
    if |ms| > 1 {
      var init, tail, last := ms[..|ms| - 1], ms[1..], ms[|ms| - 1];
      var head := TagCitations(ms[0].tags, ms[0].name, ms[0].context, key);
      var lastCites := TagCitations(last.tags, last.name, last.context, key);
      assert tail[..|tail| - 1] == init[1..];
      assert tail[|tail| - 1] == last;
      CitationsSnoc(tail, key);
      assert Citations(tail, key) == Citations(init[1..], key) + lastCites;
      assert init[0] == ms[0];
      assert Citations(init, key) == head + Citations(init[1..], key);
      assert Citations(ms, key) == head + Citations(tail, key);
      AppendAssoc(head, Citations(init[1..], key), lastCites);
    }
  }

  /** The tag loop appends to `key` exactly the citations of `key` among the tags. */
  lemma {:induction false} TagRefsGet(d: Dict<RefInfo>, tags: seq<Tag>, name: string, ctx: Context, key: string)
    ensures Get(TagRefs(d, tags, name, ctx), key) == Get(d, key) + TagCitations(tags, name, ctx, key)
    decreases |tags|
  {
    if tags != [] {
      TagRefsGet(d, tags[..|tags| - 1], name, ctx, key);
      TagCitationsSnoc(tags, name, ctx, key);
    }
  }

  function TagTargets(tags: seq<Tag>): set<string>
  {
    set j | 0 <= j < |tags| && IsRefTag(tags[j]) :: tags[j].name
  }

  lemma {:induction false} TagTargetsSnoc(tags: seq<Tag>)
    requires tags != []
    ensures var t := tags[|tags| - 1];
      TagTargets(tags) == TagTargets(tags[..|tags| - 1]) + (if IsRefTag(t) then {t.name} else {})
  {
    var init, t := tags[..|tags| - 1], tags[|tags| - 1];
    forall n | n in TagTargets(tags) ensures n in TagTargets(init) + (if IsRefTag(t) then {t.name} else {}) {
      var j :| 0 <= j < |tags| && IsRefTag(tags[j]) && tags[j].name == n;
      if j < |init| {
        assert init[j] == tags[j];
      }
    }
    forall n | n in TagTargets(init) ensures n in TagTargets(tags) {
      var j :| 0 <= j < |init| && IsRefTag(init[j]) && init[j].name == n;
      assert tags[j] == init[j];
    }
  }

  /** The tag loop creates a list exactly for the keys its reference tags name, keeps the key
      order valid and only appends to it. */
  lemma {:induction false} TagRefsKeys(d: Dict<RefInfo>, tags: seq<Tag>, name: string, ctx: Context)
    requires d.Valid()
    ensures var r := TagRefs(d, tags, name, ctx);
      && r.Valid()
      && r.entries.Keys == d.entries.Keys + TagTargets(tags)
      && |d.keys| <= |r.keys| && r.keys[..|d.keys|] == d.keys
    decreases |tags|
  {
    if tags != [] {
      TagRefsKeys(d, tags[..|tags| - 1], name, ctx);
      TagTargetsSnoc(tags);
    }
  }

  /** For every key, `allRefs[key]` gains exactly the citations of `key` found on the static
      members, duplicates included, in order; other keys are unchanged. */
  lemma {:induction false} HarvestRefsGet(d: Dict<RefInfo>, ms: seq<Member>, key: string)
    ensures Get(HarvestRefs(d, ms), key) == Get(d, key) + Citations(ms, key)
    decreases |ms|
  {
    if ms != [] {
      var init, m := ms[..|ms| - 1], ms[|ms| - 1];
      HarvestRefsGet(d, init, key);
      TagRefsGet(HarvestRefs(d, init), m.tags, m.name, m.context, key);
      CitationsSnoc(ms, key);
    }
  }

  lemma {:induction false} RefTargetsSnoc(ms: seq<Member>)
    requires ms != []
    ensures RefTargets(ms) == RefTargets(ms[..|ms| - 1]) + TagTargets(ms[|ms| - 1].tags)
  {
    var init, m := ms[..|ms| - 1], ms[|ms| - 1];
    forall n | n in RefTargets(ms) ensures n in RefTargets(init) + TagTargets(m.tags) {
      var i, j :| 0 <= i < |ms| && 0 <= j < |ms[i].tags| && IsRefTag(ms[i].tags[j]) && ms[i].tags[j].name == n;
      if i < |init| {
        assert init[i] == ms[i];
      }
    }
    forall n | n in RefTargets(init) ensures n in RefTargets(ms) {
      var i, j :| 0 <= i < |init| && 0 <= j < |init[i].tags| && IsRefTag(init[i].tags[j]) && init[i].tags[j].name == n;
      assert ms[i] == init[i];
    }
    forall n | n in TagTargets(m.tags) ensures n in RefTargets(ms) {
      var j :| 0 <= j < |m.tags| && IsRefTag(m.tags[j]) && m.tags[j].name == n;
      assert ms[|ms| - 1].tags[j] == m.tags[j];
    }
  }

  /** The member loop creates a list exactly for the targets of reference tags, keeps the key
      order valid and only appends to it. */
  lemma {:induction false} HarvestRefsKeys(d: Dict<RefInfo>, ms: seq<Member>)
    requires d.Valid()
    ensures var r := HarvestRefs(d, ms);
      && r.Valid()
      && r.entries.Keys == d.entries.Keys + RefTargets(ms)
      && |d.keys| <= |r.keys| && r.keys[..|d.keys|] == d.keys
    decreases |ms|
  {
    if ms != [] {
      var init, m := ms[..|ms| - 1], ms[|ms| - 1];
      HarvestRefsKeys(d, init);
      TagRefsKeys(HarvestRefs(d, init), m.tags, m.name, m.context);
      RefTargetsSnoc(ms);
    }
  }

  // ---------------------------------------------------------------------------------------
  // @see descriptions

  /** `/({@link|http)/.test(description)`. */
  predicate ValidSee(description: string)
  {
    Contains(description, "{@link") || Contains(description, "http")
  }

  /** The `tags` of the `@see` query: the `see` tags of every owner, flattened in order. */
  function SeeTagsOf(owners: seq<SeeOwner>): seq<SeeTag>
  {
    if owners == [] then [] else SeeTagsOf(owners[..|owners| - 1]) + owners[|owners| - 1].sees
  }

  /** The `context` of the `@see` query: one context per owner that has a `see` tag. */
  function SeeContextsOf(owners: seq<SeeOwner>): seq<Context>
  {
    if owners == [] then []
    else
      var last := owners[|owners| - 1];
      SeeContextsOf(owners[..|owners| - 1]) + (if |last.sees| > 0 then [last.context] else [])
  }

  /** Where the `@see` loop stands: the warnings so far, and whether it has thrown. */
  datatype SeeScan = SeeScan(warnings: seq<Warning>, aborted: bool)

  /** The `@see` loop over `tags`, naming tag `idx` with the file of `contexts[idx]`; reading the
      file of a context past the end throws, which ends the loop and `validate`. */
  function ScanSees(tags: seq<SeeTag>, contexts: seq<Context>): SeeScan
  {
    if tags == [] then SeeScan([], false)
    else
      var prev := ScanSees(tags[..|tags| - 1], contexts);
      var idx, see := |tags| - 1, tags[|tags| - 1];
      if prev.aborted || ValidSee(see.description) then prev
      else if idx < |contexts| then SeeScan(prev.warnings + [SeeWarning(see, contexts[idx].file)], false)
      else SeeScan(prev.warnings, true)
  }

  /** The warnings of the `@see` loop over tags that each have a context at their index. */
  function PairedSeeWarnings(tags: seq<SeeTag>, contexts: seq<Context>): seq<Warning>
    requires |tags| <= |contexts|
  {
    if tags == [] then []
    else
      var idx, see := |tags| - 1, tags[|tags| - 1];
      PairedSeeWarnings(tags[..idx], contexts) + SeeFinding(see, contexts[idx].file)
  }

  /** The warning for one tag named with `file`, if its description is suspicious. */
  function SeeFinding(see: SeeTag, file: string): seq<Warning>
  {
    if ValidSee(see.description) then [] else [SeeWarning(see, file)]
  }

  /** Once the loop has thrown, later tags change nothing. */
  lemma {:induction false} ScanSeesAbortStays(tags: seq<SeeTag>, contexts: seq<Context>, k: nat)
    requires 0 < k <= |tags| && |contexts| < k && !ValidSee(tags[k - 1].description)
    requires !ScanSees(tags[..k - 1], contexts).aborted
    ensures ScanSees(tags, contexts) == SeeScan(ScanSees(tags[..k - 1], contexts).warnings, true)
    decreases |tags| - k
  {
    if k == |tags| {
      assert tags[..k - 1] == tags[..|tags| - 1];
    } else {
      var init := tags[..|tags| - 1];
      assert init[..k - 1] == tags[..k - 1];
      assert init[k - 1] == tags[k - 1];
      ScanSeesAbortStays(init, contexts, k);
    }
  }

  function Min(a: nat, b: nat): nat
  {
    if a <= b then a else b
  }

  /** A suspicious `@see` tag with no context at its index. */
  predicate SeeOverrun(tags: seq<SeeTag>, contexts: seq<Context>)
  {
    exists i :: |contexts| <= i < |tags| && !ValidSee(tags[i].description)
  }

  /** The `@see` loop throws iff some suspicious tag has no context at its index; until then it
      warns about every suspicious tag that has one, naming that context's file. */
  lemma {:induction false} ScanSeesSpec(tags: seq<SeeTag>, contexts: seq<Context>)
    ensures ScanSees(tags, contexts).aborted <==> SeeOverrun(tags, contexts)
    ensures ScanSees(tags, contexts).warnings == PairedSeeWarnings(tags[..Min(|tags|, |contexts|)], contexts)
    decreases |tags|
  {
    if tags == [] {
      assert tags[..0] == [];
    } else {
      var n := |tags|;
      var init := tags[..n - 1];
      ScanSeesSpec(init, contexts);
      SeeOverrunSnoc(tags, contexts);
      ScanSeesStep(tags, contexts);
    }
  }

  /** One more tag overruns iff the earlier ones did, or it is suspicious and has no context. */
  lemma {:induction false} SeeOverrunSnoc(tags: seq<SeeTag>, contexts: seq<Context>)
    requires tags != []
    ensures var n := |tags| - 1;
      SeeOverrun(tags, contexts) <==>
        SeeOverrun(tags[..n], contexts) || (|contexts| <= n && !ValidSee(tags[n].description))
  {
    var n := |tags| - 1;
    var init := tags[..n];
    if SeeOverrun(init, contexts) {
      var i :| |contexts| <= i < n && !ValidSee(init[i].description);
      assert tags[i] == init[i];
    }
    if SeeOverrun(tags, contexts) {
      var i :| |contexts| <= i < |tags| && !ValidSee(tags[i].description);
      if i < n {
        assert init[i] == tags[i];
      }
    }
  }

  /** One step of the loop against the paired warnings. */
  lemma {:induction false} ScanSeesStep(tags: seq<SeeTag>, contexts: seq<Context>)
    requires tags != []
    requires var init := tags[..|tags| - 1];
      ScanSees(init, contexts).warnings == PairedSeeWarnings(init[..Min(|init|, |contexts|)], contexts)
    requires var init := tags[..|tags| - 1];
      ScanSees(init, contexts).aborted ==> |contexts| < |init|
    ensures ScanSees(tags, contexts).warnings == PairedSeeWarnings(tags[..Min(|tags|, |contexts|)], contexts)
  {
    var n := |tags|;
    var init := tags[..n - 1];
    var m, m' := Min(n, |contexts|), Min(n - 1, |contexts|);
    assert init[..m'] == tags[..m'];
    if m == n {
      assert tags[..m] == tags;
      assert tags[..m][..n - 1] == init;
    }
  }

  /** The positions of the `@see` tags whose description is suspicious. */
  function InvalidSees(sees: seq<SeeTag>): set<nat>
  {
    set i: nat | i < |sees| && !ValidSee(sees[i].description)
  }

  lemma {:induction false} InvalidSeesSnoc(sees: seq<SeeTag>)
    requires sees != []
    ensures var n := |sees| - 1;
      InvalidSees(sees) == InvalidSees(sees[..n]) + (if ValidSee(sees[n].description) then {} else {n})
    ensures var n := |sees| - 1;
      |InvalidSees(sees)| == |InvalidSees(sees[..n])| + (if ValidSee(sees[n].description) then 0 else 1)
  {
    var n := |sees| - 1;
    var init := sees[..n];
    assert forall i: nat :: i < n ==> sees[i] == init[i];
    assert InvalidSees(sees) == InvalidSees(init) + (if ValidSee(sees[n].description) then {} else {n});
    assert n !in InvalidSees(init);
  }

  /** One warning per `@see` tag whose description contains neither `{@link` nor `http`. */
  lemma {:induction false} SeeWarningsCount(tags: seq<SeeTag>, contexts: seq<Context>)
    requires |tags| <= |contexts|
    ensures |PairedSeeWarnings(tags, contexts)| == |InvalidSees(tags)|
    decreases |tags|
  {
    if tags != [] {
      SeeWarningsCount(tags[..|tags| - 1], contexts);
      InvalidSeesSnoc(tags);
    }
  }

  /** The `@see` loop emits invalid-`@see` warnings only. */
  lemma {:induction false} SeeWarningsKind(tags: seq<SeeTag>, contexts: seq<Context>, k: WarningKind)
    requires |tags| <= |contexts|
    ensures CountKind(PairedSeeWarnings(tags, contexts), k) == if k == InvalidSee then |PairedSeeWarnings(tags, contexts)| else 0
    decreases |tags|
  {
    if tags != [] {
      var idx := |tags| - 1;
      var init, last := tags[..idx], tags[idx];
      var prev := PairedSeeWarnings(init, contexts);
      var f := SeeFinding(last, contexts[idx].file);
      SeeWarningsKind(init, contexts, k);
      CountKindAppend(prev, f, k);
      SeeFindingKind(last, contexts[idx].file, k);
    }
  }

  lemma {:induction false} SeeFindingKind(see: SeeTag, file: string, k: WarningKind)
    ensures CountKind(SeeFinding(see, file), k) == if k == InvalidSee then |SeeFinding(see, file)| else 0
  {
    if !ValidSee(see.description) {
      CountKindOne(SeeWarning(see, file), k);
    }
  }

  /** A tag is warned about, with the file of the context at its index, iff its description is
      suspicious; nothing else is in the list. */
  lemma {:induction false} SuspiciousSeeWarned(tags: seq<SeeTag>, contexts: seq<Context>, w: Warning)
    requires |tags| <= |contexts|
    ensures w in PairedSeeWarnings(tags, contexts) <==>
      exists i :: 0 <= i < |tags| && !ValidSee(tags[i].description) && w == SeeWarning(tags[i], contexts[i].file)
    decreases |tags|
  {
    if tags != [] {
      var idx := |tags| - 1;
      var init := tags[..idx];
      var last := SeeFinding(tags[idx], contexts[idx].file);
      SuspiciousSeeWarned(init, contexts, w);
      assert PairedSeeWarnings(tags, contexts) == PairedSeeWarnings(init, contexts) + last;
      if w in PairedSeeWarnings(init, contexts) {
        var i :| 0 <= i < |init| && !ValidSee(init[i].description) && w == SeeWarning(init[i], contexts[i].file);
        assert tags[i] == init[i];
      } else if w in last {
        assert !ValidSee(tags[idx].description) && w == SeeWarning(tags[idx], contexts[idx].file);
      } else {
        assert forall i :: 0 <= i < idx ==> init[i] == tags[i];
      }
    }
  }

  /** The warnings the comment of the query describes: each `see` tag of each owner named with
      that owner's file. */
  function OwnedSeeWarnings(owners: seq<SeeOwner>): seq<Warning>
  {
    if owners == [] then []
    else
      var last := owners[|owners| - 1];
      OwnedSeeWarnings(owners[..|owners| - 1]) + PairedSeeWarnings(last.sees, seq(|last.sees|, _ => last.context))
  }

  /** Only the contexts at the tags' indexes matter. */
  lemma {:induction false} PairedSeeWarningsExtend(tags: seq<SeeTag>, contexts: seq<Context>, more: seq<Context>)
    requires |tags| <= |contexts|
    ensures PairedSeeWarnings(tags, contexts + more) == PairedSeeWarnings(tags, contexts)
    decreases |tags|
  {
    if tags != [] {
      PairedSeeWarningsExtend(tags[..|tags| - 1], contexts, more);
      assert (contexts + more)[|tags| - 1] == contexts[|tags| - 1];
    }
  }

  /** When no owner has more than one `@see` tag, the query pairs every tag with its own owner:
      the loop never throws and names each suspicious tag with its owner's file. */
  lemma {:induction false} SinglySeenAligned(owners: seq<SeeOwner>)
    requires forall i :: 0 <= i < |owners| ==> |owners[i].sees| <= 1
    ensures |SeeTagsOf(owners)| == |SeeContextsOf(owners)|
    ensures ScanSees(SeeTagsOf(owners), SeeContextsOf(owners)) == SeeScan(OwnedSeeWarnings(owners), false)
  {
    SinglySeenPaired(owners);
    var tags, contexts := SeeTagsOf(owners), SeeContextsOf(owners);
    ScanSeesSpec(tags, contexts);
    assert tags[..|tags|] == tags;
    assert !SeeOverrun(tags, contexts);
  }

  lemma {:induction false} SinglySeenPaired(owners: seq<SeeOwner>)
    requires forall i :: 0 <= i < |owners| ==> |owners[i].sees| <= 1
    ensures |SeeTagsOf(owners)| == |SeeContextsOf(owners)|
    ensures PairedSeeWarnings(SeeTagsOf(owners), SeeContextsOf(owners)) == OwnedSeeWarnings(owners)
    decreases |owners|
  {
    if owners != [] {
      var init, last := owners[..|owners| - 1], owners[|owners| - 1];
      SinglySeenPaired(init);
      var tags, contexts := SeeTagsOf(init), SeeContextsOf(init);
      if |last.sees| == 0 {
        assert SeeTagsOf(owners) == tags + [];
        assert tags + [] == tags;
        assert SeeContextsOf(owners) == contexts + [];
        assert contexts + [] == contexts;
        assert PairedSeeWarnings(last.sees, seq(0, _ => last.context)) == [];
        assert OwnedSeeWarnings(owners) == OwnedSeeWarnings(init) + [];
      } else {
        var see := last.sees[0];
        assert last.sees == [see];
        var tags', contexts' := tags + [see], contexts + [last.context];
        assert SeeTagsOf(owners) == tags';
        assert SeeContextsOf(owners) == contexts';
        assert tags'[..|tags|] == tags;
        PairedSeeWarningsExtend(tags, contexts, [last.context]);
        var own := seq(1, _ => last.context);
        assert last.sees[..0] == [];
        assert PairedSeeWarnings(last.sees, own) ==
          (if ValidSee(see.description) then [] else [SeeWarning(see, last.context.file)]);
      }
    }
  }

  /** The query as written pairs tags and owners by index: an owner with two suspicious `@see`
      tags followed by an owner with one has its second tag named with the other owner's file,
      and the third tag then has no context, so the loop throws; each tag has its own owner's
      file in the intended pairing. */
  lemma {:induction false} SeePairingShifts()
    ensures var a := SeeOwner(Context("a.js", 1), [SeeTag("x", 2), SeeTag("y", 3)]);
      var b := SeeOwner(Context("b.js", 5), [SeeTag("z", 6)]);
      && SeeScanOf([a, b])
         == SeeScan([SeeWarning(SeeTag("x", 2), "a.js"), SeeWarning(SeeTag("y", 3), "b.js")], true)
      && OwnedSeeWarnings([a, b])
         == [SeeWarning(SeeTag("x", 2), "a.js"), SeeWarning(SeeTag("y", 3), "a.js"), SeeWarning(SeeTag("z", 6), "b.js")]
  {
    var x, y, z := SeeTag("x", 2), SeeTag("y", 3), SeeTag("z", 6);
    var a := SeeOwner(Context("a.js", 1), [x, y]);
    var b := SeeOwner(Context("b.js", 5), [z]);
    ShortNotValid(x.description);
    ShortNotValid(y.description);
    ShortNotValid(z.description);
    SeeQueryShifts(a, b);
    ScanShifts(x, y, z, [a.context, b.context]);
    OwnedShifts(a, b);
  }

  /** The query on two owners, the first with two `see` tags and the second with one. */
  lemma {:induction false} SeeQueryShifts(a: SeeOwner, b: SeeOwner)
    requires |a.sees| == 2 && |b.sees| == 1
    ensures SeeTagsOf([a, b]) == [a.sees[0], a.sees[1], b.sees[0]]
    ensures SeeContextsOf([a, b]) == [a.context, b.context]
  {
    assert [a, b][..1] == [a];
    assert [a][..0] == [];
    assert SeeTagsOf([a]) == a.sees;
    assert SeeContextsOf([a]) == [a.context];
  }

  lemma {:induction false} ScanShifts(x: SeeTag, y: SeeTag, z: SeeTag, contexts: seq<Context>)
    requires |contexts| == 2 && !ValidSee(x.description) && !ValidSee(y.description) && !ValidSee(z.description)
    ensures ScanSees([x, y, z], contexts)
         == SeeScan([SeeWarning(x, contexts[0].file), SeeWarning(y, contexts[1].file)], true)
  {
    var tags := [x, y, z];
    assert tags[..2] == [x, y] && [x, y][..1] == [x] && [x][..0] == [];
    assert ScanSees([x], contexts) == SeeScan([SeeWarning(x, contexts[0].file)], false);
    assert ScanSees([x, y], contexts) == SeeScan([SeeWarning(x, contexts[0].file), SeeWarning(y, contexts[1].file)], false);
  }

  lemma {:induction false} OwnedShifts(a: SeeOwner, b: SeeOwner)
    requires |a.sees| == 2 && |b.sees| == 1
    requires !ValidSee(a.sees[0].description) && !ValidSee(a.sees[1].description) && !ValidSee(b.sees[0].description)
    ensures OwnedSeeWarnings([a, b]) == [SeeWarning(a.sees[0], a.context.file), SeeWarning(a.sees[1], a.context.file),
                                        SeeWarning(b.sees[0], b.context.file)]
  {
    var ca, cb := seq(2, _ => a.context), seq(1, _ => b.context);
    assert ca[0] == a.context && ca[1] == a.context && cb[0] == b.context;
    assert a.sees[..1] == [a.sees[0]] && [a.sees[0]][..0] == [] && b.sees[..0] == [];
    assert PairedSeeWarnings([a.sees[0]], ca) == [SeeWarning(a.sees[0], a.context.file)];
    assert PairedSeeWarnings(a.sees, ca) == [SeeWarning(a.sees[0], a.context.file), SeeWarning(a.sees[1], a.context.file)];
    assert PairedSeeWarnings(b.sees, cb) == [SeeWarning(b.sees[0], b.context.file)];
    assert [a, b][..1] == [a] && [a][..0] == [];
    assert OwnedSeeWarnings([a]) == [SeeWarning(a.sees[0], a.context.file), SeeWarning(a.sees[1], a.context.file)];
  }

  /** A description shorter than `http` matches neither alternative. */
  lemma {:induction false} ShortNotValid(d: string)
    requires |d| < 4
    ensures !ValidSee(d)
  {
  }

  // ---------------------------------------------------------------------------------------
  // Links

  /** `allLinks` after recording that module `name` cites each of `urls`. */
  function AddLinks(d: Dict<string>, urls: seq<string>, name: string): Dict<string>
  {
    if urls == [] then d else PushUnique(AddLinks(d, urls[..|urls| - 1], name), urls[|urls| - 1], name)
  }

  /** The link loop appends the module to the list of each harvested URL that does not list it
      yet, and changes nothing else. */
  lemma {:induction false} AddLinksGet(d: Dict<string>, urls: seq<string>, name: string, u: string)
    ensures Get(AddLinks(d, urls, name), u) ==
      if u in urls && name !in Get(d, u) then Get(d, u) + [name] else Get(d, u)
    decreases |urls|
  {
    if urls != [] {
      var init := urls[..|urls| - 1];
      AddLinksGet(d, init, name, u);
      assert u in urls <==> u in init || u == urls[|urls| - 1];
    }
  }

  /** The link loop keeps the key order valid, only appends to it, and never puts a module
      twice in one list. */
  lemma {:induction false} AddLinksValid(d: Dict<string>, urls: seq<string>, name: string)
    requires d.Valid() && ListsDistinct(d)
    ensures AddLinks(d, urls, name).Valid() && ListsDistinct(AddLinks(d, urls, name))
    decreases |urls|
  {
    if urls != [] {
      var mid := AddLinks(d, urls[..|urls| - 1], name);
      var u := urls[|urls| - 1];
      AddLinksValid(d, urls[..|urls| - 1], name);
      assert AddLinks(d, urls, name) == PushUnique(mid, u, name);
      PushUniqueDistinct(mid, u, name);
    }
  }

  /** The link loop keeps the keys already present, in their order, and adds new ones after them. */
  lemma {:induction false} AddLinksKeys(d: Dict<string>, urls: seq<string>, name: string)
    ensures var r := AddLinks(d, urls, name);
      |d.keys| <= |r.keys| && r.keys[..|d.keys|] == d.keys
    decreases |urls|
  {
    if urls != [] {
      var mid := AddLinks(d, urls[..|urls| - 1], name);
      var r := PushUnique(mid, urls[|urls| - 1], name);
      AddLinksKeys(d, urls[..|urls| - 1], name);
      assert AddLinks(d, urls, name) == r;
      assert r.keys[..|mid.keys|] == mid.keys;
      assert r.keys[..|d.keys|] == mid.keys[..|d.keys|];
    }
  }

  /** After the link loop every harvested URL lists the citing module exactly once. */
  lemma {:induction false} LinkCitesModuleOnce(d: Dict<string>, urls: seq<string>, name: string, u: string)
    requires ListsDistinct(d) && u in urls
    ensures multiset(Get(AddLinks(d, urls, name), u))[name] == 1
  {
    AddLinksGet(d, urls, name, u);
    if name in Get(d, u) {
      assert Get(d, u) == d.entries[u];
      DistinctCount(Get(d, u), name);
    } else {
      assert multiset(Get(d, u) + [name]) == multiset(Get(d, u)) + multiset{name};
    }
  }

  lemma {:induction false} DistinctCount<V>(s: seq<V>, v: V)
    requires Distinct(s) && v in s
    ensures multiset(s)[v] == 1
  {
    var i :| 0 <= i < |s| && s[i] == v;
    assert s == s[..i] + [v] + s[i + 1..];
    assert v !in s[..i] by {
      forall j | 0 <= j < i ensures s[..i][j] != v { assert s[j] != s[i]; }
    }
    assert v !in s[i + 1..] by {
      forall j | i + 1 <= j < |s| ensures s[j] != v { assert s[j] != s[i]; }
    }
    assert multiset(s) == multiset(s[..i]) + multiset{v} + multiset(s[i + 1..]);
  }

  // ---------------------------------------------------------------------------------------
  // All warnings of one validation

  /** The `@see` loop over the result of the `@see` query on the owners. */
  function SeeScanOf(owners: seq<SeeOwner>): SeeScan
  {
    ScanSees(SeeTagsOf(owners), SeeContextsOf(owners))
  }

  /** Every warning `validate` emits for one directory, in order (up to the throw of the `@see`
      loop, if it throws). */
  function ValidationWarnings(docs: seq<Doc>, componentDirectory: string, owners: seq<SeeOwner>): seq<Warning>
    requires Validatable(docs)
  {
    HeaderWarnings(docs, componentDirectory) + MemberWarnings(docs[0].statics) + SeeScanOf(owners).warnings
  }

  /** The number of findings of each kind one validation emits: exactly one "Too many doclets"
      when there is more than one doclet; a name mismatch iff the first path step is a module
      whose name differs from the directory; "not a module" iff it is not a module; one duplicate
      per repeated member name; one per suspicious `@see` tag among those the query gives a
      context; and nothing else. */
  lemma {:induction false} ValidationFindingCounts(docs: seq<Doc>, componentDirectory: string, owners: seq<SeeOwner>)
    requires Validatable(docs)
    ensures var ws := ValidationWarnings(docs, componentDirectory, owners);
      var head := docs[0].path[0];
      var ms := docs[0].statics;
      var tags, contexts := SeeTagsOf(owners), SeeContextsOf(owners);
      && CountKind(ws, TooManyDoclets) == (if |docs| > 1 then 1 else 0)
      && CountKind(ws, NameMismatch) == (if head.kind == "module" && head.name != componentDirectory then 1 else 0)
      && CountKind(ws, NotAModule) == (if head.kind != "module" then 1 else 0)
      && CountKind(ws, DuplicateMember) == |ms| - |Names(ms)|
      && CountKind(ws, InvalidSee) == |InvalidSees(tags[..Min(|tags|, |contexts|)])|
      && |ws| == CountKind(ws, TooManyDoclets) + CountKind(ws, NameMismatch) + CountKind(ws, NotAModule)
                 + CountKind(ws, DuplicateMember) + CountKind(ws, InvalidSee)
  {
    var ms := docs[0].statics;
    var head := docs[0].path[0];
    var tags, contexts := SeeTagsOf(owners), SeeContextsOf(owners);
    var ws := ValidationWarnings(docs, componentDirectory, owners);
    assert |HeaderWarnings(docs, componentDirectory)| ==
      (if |docs| > 1 then 1 else 0) + (if head.kind != "module" || head.name != componentDirectory then 1 else 0);
    assert |ws| == |HeaderWarnings(docs, componentDirectory)| + |MemberWarnings(ms)| + |SeeScanOf(owners).warnings|;
    MemberWarningsCount(ms);
    ScanSeesSpec(tags, contexts);
    SeeWarningsCount(tags[..Min(|tags|, |contexts|)], contexts);
    ValidationKindCount(docs, componentDirectory, owners, TooManyDoclets);
    ValidationKindCount(docs, componentDirectory, owners, NameMismatch);
    ValidationKindCount(docs, componentDirectory, owners, NotAModule);
    ValidationKindCount(docs, componentDirectory, owners, DuplicateMember);
    ValidationKindCount(docs, componentDirectory, owners, InvalidSee);
  }

  /** The findings of kind `k` among the doclet-count and module-identity checks. */
  lemma {:induction false} HeaderKindCount(docs: seq<Doc>, componentDirectory: string, k: WarningKind)
    requires Validatable(docs)
    ensures var head := docs[0].path[0];
      CountKind(HeaderWarnings(docs, componentDirectory), k) ==
        (if k == TooManyDoclets && |docs| > 1 then 1 else 0)
        + (if k == NameMismatch && head.kind == "module" && head.name != componentDirectory then 1 else 0)
        + (if k == NotAModule && head.kind != "module" then 1 else 0)
  {
    var dw, iw := DocletCountWarnings(docs), IdentityWarnings(docs, componentDirectory);
    CountKindAppend(dw, iw, k);
    DocletCountKind(docs, k);
    IdentityKind(docs, componentDirectory, k);
  }

  lemma {:induction false} DocletCountKind(docs: seq<Doc>, k: WarningKind)
    ensures CountKind(DocletCountWarnings(docs), k) == if k == TooManyDoclets && |docs| > 1 then 1 else 0
  {
    if |docs| > 1 {
      CountKindOne(TooManyDocletsWarning(docs), k);
    }
  }

  lemma {:induction false} IdentityKind(docs: seq<Doc>, componentDirectory: string, k: WarningKind)
    requires Validatable(docs)
    ensures var head := docs[0].path[0];
      CountKind(IdentityWarnings(docs, componentDirectory), k) ==
        (if k == NameMismatch && head.kind == "module" && head.name != componentDirectory then 1 else 0)
        + (if k == NotAModule && head.kind != "module" then 1 else 0)
  {
    var head := docs[0].path[0];
    if head.kind != "module" {
      CountKindOne(NotAModuleWarning(head, docs[0].name, docs[0].context), k);
    } else if head.name != componentDirectory {
      CountKindOne(NameMismatchWarning(head, componentDirectory, docs[0].name, docs[0].context), k);
    }
  }

  /** The findings of kind `k` in one validation, part by part. */
  lemma {:induction false} ValidationKindCount(docs: seq<Doc>, componentDirectory: string, owners: seq<SeeOwner>, k: WarningKind)
    requires Validatable(docs)
    ensures var head := docs[0].path[0];
      CountKind(ValidationWarnings(docs, componentDirectory, owners), k) ==
        (if k == TooManyDoclets && |docs| > 1 then 1 else 0)
        + (if k == NameMismatch && head.kind == "module" && head.name != componentDirectory then 1 else 0)
        + (if k == NotAModule && head.kind != "module" then 1 else 0)
        + (if k == DuplicateMember then |MemberWarnings(docs[0].statics)| else 0)
        + (if k == InvalidSee then |SeeScanOf(owners).warnings| else 0)
  {
    var hw := HeaderWarnings(docs, componentDirectory);
    var mw := MemberWarnings(docs[0].statics);
    var sw := SeeScanOf(owners).warnings;
    var tags, contexts := SeeTagsOf(owners), SeeContextsOf(owners);
    CountKindAppend(hw + mw, sw, k);
    CountKindAppend(hw, mw, k);
    HeaderKindCount(docs, componentDirectory, k);
    MemberWarningsKind(docs[0].statics, k);
    ScanSeesSpec(tags, contexts);
    SeeWarningsKind(tags[..Min(|tags|, |contexts|)], contexts, k);
  }
}
