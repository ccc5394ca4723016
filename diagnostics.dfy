/** How warnings name a doclet, and how warnings drive the process exit code. */
module Diagnostics {
  import opened Text
  import DocTypes

  /** The checkout prefix that `docNameAndPosition` strips from file names. */
  const RawMarker := "/raw/enact/"

  /** The characters a regular expression's `.` does not match. */
  predicate IsLineTerminator(c: char)
  {
    c == '\n' || c == '\r' || c == '\U{2028}' || c == '\U{2029}'
  }

  function FirstTerminator(s: string): (r: Option<nat>)
    ensures r.Some? ==> r.value < |s| && IsLineTerminator(s[r.value])
    ensures r.Some? ==> forall j :: 0 <= j < r.value ==> !IsLineTerminator(s[j])
    ensures r.None? ==> forall j :: 0 <= j < |s| ==> !IsLineTerminator(s[j])
  {
    if s == [] then None
    else if IsLineTerminator(s[0]) then Some(0)
    else match FirstTerminator(s[1..])
      case None => None
      case Some(k) => Some(k + 1)
  }

  /** On a single line, the greedy `.*\/raw\/enact\/` reaches the last occurrence of the marker. */
  function StripLine(line: string): string
  {
    match LastIndexOf(line, RawMarker)
    case None => line
    case Some(p) => line[p + |RawMarker|..]
  }

  /** `file.replace(/.*\/raw\/enact\//, '')`: the first match starts at the beginning of the first
      line that holds the marker and ends after the last marker on that line. */
  function StripRawPrefix(file: string): string
    decreases |file|
  {
    match FirstTerminator(file)
    case None => StripLine(file)
    case Some(i) =>
      if Contains(file[..i], RawMarker) then StripLine(file[..i]) + file[i..]
      else file[..i + 1] + StripRawPrefix(file[i + 1..])
  }

  predicate OneLine(s: string)
  {
    forall j :: 0 <= j < |s| ==> !IsLineTerminator(s[j])
  }

  /** A file name on one line loses everything up to and including its last checkout marker,
      and is left alone when it has none. */
  lemma {:induction false} RawPrefixStripped(file: string)
    requires OneLine(file)
    ensures !Contains(file, RawMarker) ==> StripRawPrefix(file) == file
    ensures Contains(file, RawMarker) ==>
      var r := StripRawPrefix(file);
      && |r| + |RawMarker| <= |file|
      && file[|file| - |r| - |RawMarker|..] == RawMarker + r
      && !Contains(r, RawMarker)
  {
    OneLineStrip(file);
    match LastIndexOf(file, RawMarker)
    case None =>
    case Some(p) =>
      var r := file[p + |RawMarker|..];
      assert file[p..p + |RawMarker|] == RawMarker;
      assert file[p..] == RawMarker + r;
      forall q: nat ensures !OccursAt(r, RawMarker, q) {
        if q + |RawMarker| <= |r| {
          assert r[q..q + |RawMarker|] == file[p + |RawMarker| + q..p + |RawMarker| + q + |RawMarker|];
          assert !OccursAt(file, RawMarker, p + |RawMarker| + q);
        }
      }
  }

  /** On one line, the replacement is the single-line one. */
  lemma {:induction false} OneLineStrip(file: string)
    requires OneLine(file)
    ensures StripRawPrefix(file) == StripLine(file)
  {
    assert FirstTerminator(file).None?;
  }

  /** `docNameAndPosition`: "<name> in <file>:<line>", without the name part when the name is empty. */
  function DocNameAndPosition(name: string, ctx: DocTypes.Context): (r: string)
    ensures name != "" ==> |name| + 4 <= |r| && r[..|name| + 4] == name + " in "
    ensures var pos := ":" + NatToString(ctx.line); |pos| <= |r| && r[|r| - |pos|..] == pos
    ensures OneLine(ctx.file) && !Contains(ctx.file, RawMarker) ==>
      r == NamePart(name) + ctx.file + ":" + NatToString(ctx.line)
    ensures OneLine(ctx.file) && Contains(ctx.file, RawMarker) ==>
      && !Contains(AfterLastMarker(ctx.file), RawMarker)
      && r == NamePart(name) + AfterLastMarker(ctx.file) + ":" + NatToString(ctx.line)
  {
    var r := NamePart(name) + StripRawPrefix(ctx.file) + ":" + NatToString(ctx.line);
    AffixesOf(NamePart(name), StripRawPrefix(ctx.file), ":" + NatToString(ctx.line));
    OneLineText(NamePart(name), ctx.file, ":" + NatToString(ctx.line), r);
    r
  }

  /** The text after the last checkout marker of `file`. */
  function AfterLastMarker(file: string): string
    requires Contains(file, RawMarker)
  {
    file[LastIndexOf(file, RawMarker).value + |RawMarker|..]
  }

  /** The name part of `docNameAndPosition`: `doc.name + ' in '` for a named doclet. */
  function NamePart(name: string): string
  {
    if name != "" then name + " in " else ""
  }

  /** A text with a one-line file name in the middle, after the replacement. */
  lemma {:induction false} OneLineText(prefix: string, file: string, pos: string, r: string)
    requires r == prefix + StripRawPrefix(file) + pos
    ensures OneLine(file) && !Contains(file, RawMarker) ==> r == prefix + file + pos
    ensures OneLine(file) && Contains(file, RawMarker) ==>
      && !Contains(AfterLastMarker(file), RawMarker)
      && r == prefix + AfterLastMarker(file) + pos
  {
    if OneLine(file) {
      StrippedOneLine(file);
    }
  }

  /** On one line, the replacement gives the text after the last checkout marker, or the whole
      name when it has none. */
  lemma {:induction false} StrippedOneLine(file: string)
    requires OneLine(file)
    ensures !Contains(file, RawMarker) ==> StripRawPrefix(file) == file
    ensures Contains(file, RawMarker) ==>
      && StripRawPrefix(file) == AfterLastMarker(file)
      && !Contains(AfterLastMarker(file), RawMarker)
  {
    OneLineStrip(file);
    RawPrefixStripped(file);
  }

  /** A text made of three parts starts with the first and ends with the last. */
  lemma {:induction false} AffixesOf(a: string, b: string, c: string)
    ensures var r := a + b + c;
      && |a| + |c| <= |r| && r[..|a|] == a && r[|r| - |c|..] == c
  {
    var r := a + b + c;
    assert r[..|a|] == a;
    assert r[|r| - |c|..] == c;
  }

  /** The exit code after `n` calls of `warn`: strict mode sets 1 if no code is set yet; a code
      already set (such as 2 after a parse failure) is never overwritten. */
  function ExitCodeAfter(code: nat, strict: bool, n: nat): (r: nat)
    ensures !strict ==> r == code
    ensures code != 0 ==> r == code
    ensures strict && code == 0 ==> (r == 0 <==> n == 0)
    ensures strict && code == 0 && n > 0 ==> r == 1
  {
    if strict && code == 0 && n > 0 then 1 else code
  }

  lemma {:induction false} ExitCodeAfterAdds(code: nat, strict: bool, n: nat, m: nat)
    ensures ExitCodeAfter(ExitCodeAfter(code, strict, n), strict, m) == ExitCodeAfter(code, strict, n + m)
  {
  }
}
