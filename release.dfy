/**
 * The pure parts of the release script: the next version number for each kind
 * of release (Semantic Versioning 2.0.0), the npm dist-tag, the check of the
 * release kind given on the command line, and the splicing of a new entry into
 * the changelog text.
 */
module Release {
  import opened Wrappers
  import opened Text

  /** The characters `split(/[.-]/)` cuts a version at. */
  const VersionSeparators: set<char> := {'.', '-'}

  /** The release kinds `main` accepts, in its order. */
  const ValidTypes: seq<string> := ["alpha", "beta", "stable", "patch", "minor", "major"]

  /** A destructured element of the split: the part, or `undefined` (as a template literal shows it) past the end. */
  function Part(parts: seq<string>, i: nat): string
  {
    if i < |parts| then parts[i] else "undefined"
  }

  /** `parseInt(x) + 1`, with `None` for `NaN` (which stays `NaN`). */
  function Increment(n: Option<int>): Option<int>
  {
    if n.Some? then Some(n.value + 1) else None
  }

  /** A number in a template literal: its decimal text, or `NaN`. */
  function NumberText(n: Option<int>): string
  {
    if n.Some? then IntToText(n.value) else "NaN"
  }

  /**
   * `currentVersion.match(/tag\.(\d+)/)`, scanning from index `from`: the digits
   * after the first `tag.` that is followed by a digit.
   */
  function PrereleaseCapture(s: string, tag: string, from: nat): Option<string>
    decreases |s| - from
  {
    if from >= |s| then None
    else if OccursAt(s, tag + ".", from) && from + |tag| + 1 < |s| && IsDigit(s[from + |tag| + 1]) then
      var rest := s[from + |tag| + 1..];
      Some(rest[..DigitRun(rest)])
    else PrereleaseCapture(s, tag, from + 1)
  }

  /** The prerelease number after the bump: one past the number found, or 1. */
  function PrereleaseNumber(current: string, tag: string): string
  {
    var found := PrereleaseCapture(current, tag, 0);
    if found.Some? then NumberText(Increment(ParseInt(found.value))) else "1"
  }

  /** `calculateVersion(currentVersion, type)`; `Err` is the thrown error. */
  function CalculateVersion(current: string, kind: string): (r: Result<string>)
    ensures r.Err? <==> kind !in ValidTypes
  {
    var parts := Split(current, VersionSeparators);
    var major, minor, patch := Part(parts, 0), Part(parts, 1), Part(parts, 2);
    if kind == "alpha" then Ok(major + "." + minor + "." + patch + "-alpha." + PrereleaseNumber(current, "alpha"))
    else if kind == "beta" then Ok(major + "." + minor + "." + patch + "-beta." + PrereleaseNumber(current, "beta"))
    else if kind == "patch" then Ok(major + "." + minor + "." + NumberText(Increment(ParseInt(patch))))
    else if kind == "minor" then Ok(major + "." + NumberText(Increment(ParseInt(minor))) + ".0")
    else if kind == "major" then Ok(NumberText(Increment(ParseInt(major))) + ".0.0")
    else if kind == "stable" then Ok(major + "." + minor + "." + patch)
    else Err("未知的版本类型: " + kind)
  }

  /** The npm dist-tag a release is published under. */
  function DistTag(kind: string): (tag: string)
    ensures kind == "alpha" ==> tag == "alpha"
    ensures kind == "beta" ==> tag == "beta"
    ensures kind != "alpha" && kind != "beta" ==> tag == "latest"
  {
    if kind == "alpha" then "alpha" else if kind == "beta" then "beta" else "latest"
  }

  /** `main`'s check of its argument, before any other step; `Err` is the message it exits with. */
  function CheckReleaseType(arg: Option<string>): (r: Result<string>)
    ensures r.Ok? <==> arg.Some? && arg.value in ValidTypes
    ensures r.Ok? ==> r.value == arg.value
  {
    if arg.None? || arg.value == "" then Err("请指定版本类型: alpha, beta, stable, patch, minor, major")
    else if arg.value !in ValidTypes then Err("无效的版本类型: " + arg.value)
    else Ok(arg.value)
  }

  /** A kind that passes `main`'s check never makes `calculateVersion` throw. */
  lemma CheckedTypeNeverThrows(arg: Option<string>, current: string)
    requires CheckReleaseType(arg).Ok?
    ensures CalculateVersion(current, CheckReleaseType(arg).value).Ok?
  {
  }

  // ---------------------------------------------------------------------------
  // Versions of the form major.minor.patch

  /** The text `a.b.c`. */
  function VersionText(a: nat, b: nat, c: nat): string
  {
    NatToText(a) + "." + NatToText(b) + "." + NatToText(c)
  }

  lemma NumberFree(n: nat)
    ensures Free(NatToText(n), VersionSeparators)
  {
  }

  /** Three parts without separators, joined by dots, split back into the three. */
  lemma SplitThree(x: string, y: string, z: string)
    requires Free(x, VersionSeparators) && Free(y, VersionSeparators) && Free(z, VersionSeparators)
    ensures Split(x + "." + y + "." + z, VersionSeparators) == [x, y, z]
  {
    SplitFree(z, VersionSeparators);
    SplitAtSeparator(y, '.', z, VersionSeparators);
    SplitAtSeparator(x, '.', y + ['.'] + z, VersionSeparators);
    assert x + "." + y + "." + z == x + ['.'] + (y + ['.'] + z);
  }

  /** Five parts without separators, written `x.y.z-t.w`, split back into the five. */
  lemma SplitFive(x: string, y: string, z: string, t: string, w: string)
    requires Free(x, VersionSeparators) && Free(y, VersionSeparators) && Free(z, VersionSeparators)
    requires Free(t, VersionSeparators) && Free(w, VersionSeparators)
    ensures Split(x + "." + y + "." + z + "-" + t + "." + w, VersionSeparators) == [x, y, z, t, w]
  {
    SplitFree(w, VersionSeparators);
    SplitAtSeparator(t, '.', w, VersionSeparators);
    var t1 := t + ['.'] + w;
    SplitAtSeparator(z, '-', t1, VersionSeparators);
    var t2 := z + ['-'] + t1;
    SplitAtSeparator(y, '.', t2, VersionSeparators);
    var t3 := y + ['.'] + t2;
    SplitAtSeparator(x, '.', t3, VersionSeparators);
    Regroup(x, y, z, t, w);
  }

  /** The five parts of a prerelease version, grouped from the right, and the list of them. */
  lemma Regroup(x: string, y: string, z: string, t: string, w: string)
    ensures x + "." + y + "." + z + "-" + t + "." + w
            == x + ['.'] + (y + ['.'] + (z + ['-'] + (t + ['.'] + w)))
    ensures [x] + ([y] + ([z] + ([t] + [w]))) == [x, y, z, t, w]
  {
  }

  /** A plain version splits into its three numbers. */
  lemma SplitVersion(a: nat, b: nat, c: nat)
    ensures Split(VersionText(a, b, c), VersionSeparators) == [NatToText(a), NatToText(b), NatToText(c)]
  {
    NumberFree(a);
    NumberFree(b);
    NumberFree(c);
    SplitThree(NatToText(a), NatToText(b), NatToText(c));
  }

  /** A prerelease version `a.b.c-tag.n` splits into five parts. */
  lemma SplitPrerelease(a: nat, b: nat, c: nat, tag: string, n: nat)
    requires Free(tag, VersionSeparators)
    ensures Split(VersionText(a, b, c) + "-" + tag + "." + NatToText(n), VersionSeparators)
            == [NatToText(a), NatToText(b), NatToText(c), tag, NatToText(n)]
  {
    NumberFree(a);
    NumberFree(b);
    NumberFree(c);
    NumberFree(n);
    SplitFive(NatToText(a), NatToText(b), NatToText(c), tag, NatToText(n));
  }

  /** The first three parts of `x.y.z-t.w` are `x`, `y` and `z`. */
  lemma FiveParts(x: string, y: string, z: string, t: string, w: string)
    requires Free(x, VersionSeparators) && Free(y, VersionSeparators) && Free(z, VersionSeparators)
    requires Free(t, VersionSeparators) && Free(w, VersionSeparators)
    ensures var parts := Split(x + "." + y + "." + z + "-" + t + "." + w, VersionSeparators);
            |parts| >= 3 && parts[0] == x && parts[1] == y && parts[2] == z
  {
    SplitFive(x, y, z, t, w);
    LeadingThree(Split(x + "." + y + "." + z + "-" + t + "." + w, VersionSeparators), x, y, z, t, w);
  }

  lemma LeadingThree(parts: seq<string>, x: string, y: string, z: string, t: string, w: string)
    requires parts == [x, y, z, t, w]
    ensures |parts| >= 3 && parts[0] == x && parts[1] == y && parts[2] == z
  {
  }

  /** The first three parts of a prerelease version `a.b.c-tag.n` are its numbers. */
  lemma PrereleaseParts(a: nat, b: nat, c: nat, tag: string, n: nat)
    requires Free(tag, VersionSeparators)
    ensures |Split(VersionText(a, b, c) + "-" + tag + "." + NatToText(n), VersionSeparators)| >= 3
    ensures Split(VersionText(a, b, c) + "-" + tag + "." + NatToText(n), VersionSeparators)[0] == NatToText(a)
    ensures Split(VersionText(a, b, c) + "-" + tag + "." + NatToText(n), VersionSeparators)[1] == NatToText(b)
    ensures Split(VersionText(a, b, c) + "-" + tag + "." + NatToText(n), VersionSeparators)[2] == NatToText(c)
  {
    var x, y, z, w := NatToText(a), NatToText(b), NatToText(c), NatToText(n);
    assert VersionText(a, b, c) + "-" + tag + "." + w == x + "." + y + "." + z + "-" + tag + "." + w;
    NumberFree(a);
    NumberFree(b);
    NumberFree(c);
    NumberFree(n);
    FiveParts(NatToText(a), NatToText(b), NatToText(c), tag, NatToText(n));
  }

  /** `parseInt(String(n)) + 1` shows as `String(n + 1)`. */
  lemma IncrementText(n: nat)
    ensures NumberText(Increment(ParseInt(NatToText(n)))) == NatToText(n + 1)
  {
    ParseIntOfNatToText(n);
  }

  /** What each kind makes of a version whose first three parts are `x`, `y` and `z`. */
  lemma FromParts(current: string, x: string, y: string, z: string)
    requires |Split(current, VersionSeparators)| >= 3
    requires Split(current, VersionSeparators)[0] == x
    requires Split(current, VersionSeparators)[1] == y
    requires Split(current, VersionSeparators)[2] == z
    ensures CalculateVersion(current, "alpha") == Ok(x + "." + y + "." + z + "-alpha." + PrereleaseNumber(current, "alpha"))
    ensures CalculateVersion(current, "beta") == Ok(x + "." + y + "." + z + "-beta." + PrereleaseNumber(current, "beta"))
    ensures CalculateVersion(current, "patch") == Ok(x + "." + y + "." + NumberText(Increment(ParseInt(z))))
    ensures CalculateVersion(current, "minor") == Ok(x + "." + NumberText(Increment(ParseInt(y))) + ".0")
    ensures CalculateVersion(current, "stable") == Ok(x + "." + y + "." + z)
  {
  }

  /** What `major` makes of a version whose first part is `x`. */
  lemma MajorFromParts(current: string, x: string)
    requires |Split(current, VersionSeparators)| >= 1
    requires Split(current, VersionSeparators)[0] == x
    ensures CalculateVersion(current, "major") == Ok(NumberText(Increment(ParseInt(x))) + ".0.0")
  {
  }

  /** `patch` adds one to the third number. */
  lemma PatchBump(a: nat, b: nat, c: nat)
    ensures CalculateVersion(VersionText(a, b, c), "patch") == Ok(VersionText(a, b, c + 1))
  {
    SplitVersion(a, b, c);
    FromParts(VersionText(a, b, c), NatToText(a), NatToText(b), NatToText(c));
    IncrementText(c);
  }

  /** `minor` adds one to the second number and zeroes the third. */
  lemma MinorBump(a: nat, b: nat, c: nat)
    ensures CalculateVersion(VersionText(a, b, c), "minor") == Ok(VersionText(a, b + 1, 0))
  {
    SplitVersion(a, b, c);
    FromParts(VersionText(a, b, c), NatToText(a), NatToText(b), NatToText(c));
    IncrementText(b);
    assert NatToText(0) == "0";
    ZeroTails(NatToText(a) + "." + NatToText(b + 1));
  }

  /** `major` adds one to the first number and zeroes the others. */
  lemma MajorBump(a: nat, b: nat, c: nat)
    ensures CalculateVersion(VersionText(a, b, c), "major") == Ok(VersionText(a + 1, 0, 0))
  {
    SplitVersion(a, b, c);
    MajorFromParts(VersionText(a, b, c), NatToText(a));
    IncrementText(a);
    assert NatToText(0) == "0";
    ZeroTails(NatToText(a + 1));
  }

  /** A prerelease suffix written as one literal or as its pieces. */
  lemma PrereleaseLiterals(v: string, w: string)
    ensures v + "-alpha." + w == v + "-" + "alpha" + "." + w
    ensures v + "-beta." + w == v + "-" + "beta" + "." + w
    ensures v + "-alpha." + "1" == v + "-alpha.1"
    ensures v + "-beta." + "1" == v + "-beta.1"
  {
  }

  /** Zeroed parts written as one literal. */
  lemma ZeroTails(x: string)
    ensures x + ".0" == x + "." + "0"
    ensures x + ".0.0" == x + "." + "0" + "." + "0"
  {
  }

  /** `stable` leaves a plain version as it is. */
  lemma StableOfPlain(a: nat, b: nat, c: nat)
    ensures CalculateVersion(VersionText(a, b, c), "stable") == Ok(VersionText(a, b, c))
  {
    SplitVersion(a, b, c);
    FromParts(VersionText(a, b, c), NatToText(a), NatToText(b), NatToText(c));
  }

  /** `stable` drops a prerelease suffix. */
  lemma StableDropsPrerelease(a: nat, b: nat, c: nat, tag: string, n: nat)
    requires Free(tag, VersionSeparators)
    ensures CalculateVersion(VersionText(a, b, c) + "-" + tag + "." + NatToText(n), "stable")
            == Ok(VersionText(a, b, c))
  {
    PrereleaseParts(a, b, c, tag, n);
    FromParts(VersionText(a, b, c) + "-" + tag + "." + NatToText(n), NatToText(a), NatToText(b), NatToText(c));
  }

  /** `patch` on a prerelease bumps the third number and drops the suffix. */
  lemma PatchDropsPrerelease(a: nat, b: nat, c: nat, tag: string, n: nat)
    requires Free(tag, VersionSeparators)
    ensures CalculateVersion(VersionText(a, b, c) + "-" + tag + "." + NatToText(n), "patch")
            == Ok(VersionText(a, b, c + 1))
  {
    PrereleaseParts(a, b, c, tag, n);
    FromParts(VersionText(a, b, c) + "-" + tag + "." + NatToText(n), NatToText(a), NatToText(b), NatToText(c));
    IncrementText(c);
  }

  /** Whatever the input, `stable` gives three separator-free parts, so a second `stable` changes nothing. */
  lemma StableIdempotent(current: string)
    ensures CalculateVersion(current, "stable").Ok?
    ensures CalculateVersion(CalculateVersion(current, "stable").value, "stable")
            == CalculateVersion(current, "stable")
  {
    var parts := Split(current, VersionSeparators);
    var x, y, z := Part(parts, 0), Part(parts, 1), Part(parts, 2);
    SplitPartsAreFree(current, VersionSeparators);
    PartsFree(parts, 0);
    PartsFree(parts, 1);
    PartsFree(parts, 2);
    SplitThree(x, y, z);
    FromParts(x + "." + y + "." + z, x, y, z);
  }

  /** Each destructured part of a split is free of separators, `undefined` included. */
  lemma PartsFree(parts: seq<string>, i: nat)
    requires forall k :: 0 <= k < |parts| ==> Free(parts[k], VersionSeparators)
    ensures Free(Part(parts, i), VersionSeparators)
  {
    assert Free("undefined", VersionSeparators);
  }

  // ---------------------------------------------------------------------------
  // The prerelease counter

  /** Scanning past characters that cannot start `tag.` finds what scanning from the end finds. */
  lemma {:induction false} CaptureSkips(s: string, tag: string, from: nat, to: nat)
    requires tag != [] && from <= to <= |s|
    requires forall i :: from <= i < to ==> s[i] != tag[0]
    ensures PrereleaseCapture(s, tag, from) == PrereleaseCapture(s, tag, to)
    decreases |s| - from
  {
    if from < to {
      assert (tag + ".")[0] == tag[0];
      CaptureSkips(s, tag, from + 1, to);
    }
  }

  /** At a `tag.` followed by a run of digits that ends the string, the run is captured. */
  lemma CaptureAt(s: string, tag: string, p: nat, w: string)
    requires p + |tag| + 1 <= |s| && s[p..p + |tag| + 1] == tag + "."
    requires s[p + |tag| + 1..] == w && w != [] && AllDigits(w)
    ensures PrereleaseCapture(s, tag, p) == Some(w)
  {
    assert OccursAt(s, tag + ".", p);
    assert s[p + |tag| + 1] == w[0];
    DigitRunOfDigits(w, "");
    assert w + "" == w;
  }

  /** Digits and dots only, as in a plain version. */
  predicate PlainChars(v: string)
  {
    forall i :: 0 <= i < |v| ==> IsDigit(v[i]) || v[i] == '.'
  }

  /** The characters of a plain version: digits and dots. */
  lemma VersionChars(a: nat, b: nat, c: nat)
    ensures PlainChars(VersionText(a, b, c))
  {
    var x, y, z := NatToText(a), NatToText(b), NatToText(c);
    assert VersionText(a, b, c) == x + "." + y + "." + z;
  }

  /** Text made of digits and dots holds no prerelease counter. */
  lemma NoCaptureInPlain(v: string, tag: string)
    requires PlainChars(v) && (tag == "alpha" || tag == "beta")
    ensures PrereleaseCapture(v, tag, 0).None?
  {
    CaptureSkips(v, tag, 0, |v|);
  }

  /** In `v-tag.w`, with `v` plain and `w` a run of digits, the counter found is `w`. */
  lemma CaptureInPrerelease(v: string, tag: string, w: string)
    requires PlainChars(v) && (tag == "alpha" || tag == "beta")
    requires w != [] && AllDigits(w)
    ensures PrereleaseCapture(v + "-" + tag + "." + w, tag, 0) == Some(w)
  {
    var a, b := v + "-", tag + ".";
    var s := a + b + w;
    Pieces(a, b, w);
    Pieces(v, "-", tag);
    forall i | 0 <= i < |a|
      ensures s[i] != tag[0]
    {
      assert s[i] == a[i];
      if i < |v| {
        assert a[i] == v[i];
      }
    }
    CaptureSkips(s, tag, 0, |a|);
    CaptureAt(s, tag, |a|, w);
  }

  /** The pieces of a concatenation of three, and its grouping. */
  lemma Pieces(a: string, b: string, c: string)
    ensures forall i :: 0 <= i < |a| ==> (a + b + c)[i] == a[i]
    ensures (a + b + c)[|a|..|a| + |b|] == b && (a + b + c)[|a| + |b|..] == c
    ensures a + b + c == a + (b + c)
    ensures forall d: string :: a + b + (c + d) == a + b + c + d
  {
  }

  /** In `v-alpha.w`, with `v` plain and `w` digits, there is no `beta.` counter. */
  lemma NoBetaInAlpha(v: string, w: string)
    requires PlainChars(v) && AllDigits(w)
    ensures PrereleaseCapture(v + "-alpha." + w, "beta", 0).None?
  {
    var s := v + "-alpha." + w;
    forall i | 0 <= i < |s|
      ensures s[i] != 'b'
    {
      if i >= |v| + 7 {
        assert s[i] == w[i - |v| - 7];
      } else if i >= |v| {
        assert s[i] == "-alpha."[i - |v|];
      } else {
        assert s[i] == v[i];
      }
    }
    CaptureSkips(s, "beta", 0, |s|);
  }

  /** An `alpha` release of a plain version is its first alpha. */
  lemma FirstAlpha(a: nat, b: nat, c: nat)
    ensures CalculateVersion(VersionText(a, b, c), "alpha") == Ok(VersionText(a, b, c) + "-alpha.1")
  {
    var v := VersionText(a, b, c);
    SplitVersion(a, b, c);
    FromParts(v, NatToText(a), NatToText(b), NatToText(c));
    VersionChars(a, b, c);
    NoCaptureInPlain(v, "alpha");
    PrereleaseLiterals(v, "");
  }

  /** An `alpha` release of `a.b.c-alpha.n` is `a.b.c-alpha.(n+1)`. */
  lemma NextAlpha(a: nat, b: nat, c: nat, n: nat)
    ensures CalculateVersion(VersionText(a, b, c) + "-alpha." + NatToText(n), "alpha")
            == Ok(VersionText(a, b, c) + "-alpha." + NatToText(n + 1))
  {
    var v, w := VersionText(a, b, c), NatToText(n);
    var s := v + "-alpha." + w;
    PrereleaseLiterals(v, w);
    PrereleaseParts(a, b, c, "alpha", n);
    FromParts(VersionText(a, b, c) + "-" + "alpha" + "." + NatToText(n), NatToText(a), NatToText(b), NatToText(c));
    VersionChars(a, b, c);
    CaptureInPrerelease(v, "alpha", w);
    IncrementText(n);
  }

  /** A `beta` release of `a.b.c-beta.n` is `a.b.c-beta.(n+1)`. */
  lemma NextBeta(a: nat, b: nat, c: nat, n: nat)
    ensures CalculateVersion(VersionText(a, b, c) + "-beta." + NatToText(n), "beta")
            == Ok(VersionText(a, b, c) + "-beta." + NatToText(n + 1))
  {
    var v, w := VersionText(a, b, c), NatToText(n);
    var s := v + "-beta." + w;
    PrereleaseLiterals(v, w);
    PrereleaseParts(a, b, c, "beta", n);
    FromParts(VersionText(a, b, c) + "-" + "beta" + "." + NatToText(n), NatToText(a), NatToText(b), NatToText(c));
    VersionChars(a, b, c);
    CaptureInPrerelease(v, "beta", w);
    IncrementText(n);
  }

  /** A `beta` release of an alpha starts the betas at 1. */
  lemma BetaAfterAlpha(a: nat, b: nat, c: nat, n: nat)
    ensures CalculateVersion(VersionText(a, b, c) + "-alpha." + NatToText(n), "beta")
            == Ok(VersionText(a, b, c) + "-beta.1")
  {
    var v, w := VersionText(a, b, c), NatToText(n);
    var s := v + "-alpha." + w;
    assert s == v + "-" + "alpha" + "." + w by {
      PrereleaseLiterals(v, w);
    }
    assert CalculateVersion(s, "beta") == Ok(v + "-beta." + PrereleaseNumber(s, "beta")) by {
      PrereleaseParts(a, b, c, "alpha", n);
      FromParts(s, NatToText(a), NatToText(b), NatToText(c));
    }
    NoBetaNumber(a, b, c, n);
    PrereleaseLiterals(v, w);
  }

  /** An alpha version holds no `beta.` number, so the betas start at 1. */
  lemma NoBetaNumber(a: nat, b: nat, c: nat, n: nat)
    ensures PrereleaseNumber(VersionText(a, b, c) + "-alpha." + NatToText(n), "beta") == "1"
  {
    VersionChars(a, b, c);
    NoBetaInAlpha(VersionText(a, b, c), NatToText(n));
  }

  // ---------------------------------------------------------------------------
  // The changelog

  const UnreleasedHeading: string := "## [未发布]"

  /** The heading of a released version's entry. */
  function VersionHeader(version: string, date: string): string
  {
    VersionMarker(version) + " - " + date
  }

  /** What `includes` looks for to tell that a version already has an entry. */
  function VersionMarker(version: string): string
  {
    "## [" + version + "]"
  }

  /** The placeholder sections under a new heading. */
  const ReleaseNotes: string :=
    "\n\n### 新增\n- 详见发布说明\n\n### 变更\n- 无\n\n### 修复\n- 无\n\n### 移除\n- 无\n"

  /** The text spliced in before the insertion point. */
  function Entry(version: string, date: string): string
  {
    "\n\n" + VersionHeader(version, date) + ReleaseNotes
  }

  /** The text put in front of a changelog that has no unreleased section. */
  function Preamble(version: string, date: string): string
  {
    VersionHeader(version, date) + ReleaseNotes + "\n---\n\n"
  }

  /**
   * The text `updateChangelog(version)` writes, as written: when the unreleased
   * section has neither a `---` line nor a later `## [` heading after it, the
   * text is written back unchanged.
   */
  function UpdateChangelogAsWritten(changelog: string, version: string, date: string): string
  {
    if Contains(changelog, VersionMarker(version)) then changelog
    else match IndexOf(changelog, UnreleasedHeading, 0)
      case None => Preamble(version, date) + changelog
      case Some(u) =>
        match IndexOf(changelog, "\n---", u)
        case Some(i) => changelog[..i] + Entry(version, date) + changelog[i..]
        case None =>
          match IndexOf(changelog, "\n## [", u + 1)
          case Some(j) => changelog[..j] + Entry(version, date) + changelog[j..]
          case None => changelog
  }

  /**
   * The text `updateChangelog(version)` evidently means to write: as written,
   * except that an unreleased section with nothing after it gets the entry
   * appended at the end.
   */
  function UpdateChangelog(changelog: string, version: string, date: string): string
  {
    if Contains(changelog, VersionMarker(version)) then changelog
    else match IndexOf(changelog, UnreleasedHeading, 0)
      case None => Preamble(version, date) + changelog
      case Some(u) =>
        match IndexOf(changelog, "\n---", u)
        case Some(i) => changelog[..i] + Entry(version, date) + changelog[i..]
        case None =>
          match IndexOf(changelog, "\n## [", u + 1)
          case Some(j) => changelog[..j] + Entry(version, date) + changelog[j..]
          case None => changelog + Entry(version, date)
  }

  /** A version that already has an entry leaves the changelog as it is. */
  lemma ChangelogUnchangedWhenPresent(changelog: string, version: string, date: string)
    requires Contains(changelog, VersionMarker(version))
    ensures UpdateChangelog(changelog, version, date) == changelog
    ensures UpdateChangelogAsWritten(changelog, version, date) == changelog
  {
  }

  /** The entry's heading carries the marker of its version. */
  lemma EntryHasMarker(before: string, version: string, date: string, after: string)
    ensures Contains(before + Entry(version, date) + after, VersionMarker(version))
    ensures Contains(Preamble(version, date) + after, VersionMarker(version))
  {
    var m := VersionMarker(version);
    Associative(m, " - ", date);
    Around(before, "\n\n", m, " - " + date, ReleaseNotes, after);
    ContainsInMiddle(before + "\n\n", m, " - " + date + ReleaseNotes + after);
    Front(m, " - " + date, ReleaseNotes, "\n---\n\n", after);
    ContainsInMiddle([], m, " - " + date + ReleaseNotes + "\n---\n\n" + after);
  }

  lemma Associative(a: string, b: string, c: string)
    ensures a + b + c == a + (b + c)
  {
  }

  /** Regrouping a concatenation around its middle piece `m`. */
  lemma Around(a: string, b: string, m: string, c: string, d: string, e: string)
    ensures a + (b + (m + c) + d) + e == a + b + m + (c + d + e)
  {
  }

  /** Regrouping a concatenation that starts with `m`. */
  lemma Front(m: string, c: string, d: string, e: string, f: string)
    ensures (m + c) + d + e + f == [] + m + (c + d + e + f)
  {
  }

  /**
   * A changelog without the version is either prepended with the entry and a
   * `---` line, exactly when it has no unreleased heading, or gets the entry
   * spliced in at one position; the text on both sides is kept as it was.
   */
  lemma ChangelogKeepsText(changelog: string, version: string, date: string)
    requires !Contains(changelog, VersionMarker(version))
    ensures UpdateChangelog(changelog, version, date) == Preamble(version, date) + changelog
            || exists i :: 0 <= i <= |changelog|
                 && UpdateChangelog(changelog, version, date)
                    == changelog[..i] + Entry(version, date) + changelog[i..]
    ensures UpdateChangelog(changelog, version, date) == Preamble(version, date) + changelog
            <==> !Contains(changelog, UnreleasedHeading)
  {
    IncludesIsContains(changelog, UnreleasedHeading);
    if IndexOf(changelog, UnreleasedHeading, 0).Some? {
      var u := IndexOf(changelog, UnreleasedHeading, 0).value;
      if IndexOf(changelog, "\n---", u).None? && IndexOf(changelog, "\n## [", u + 1).None? {
        assert changelog[..|changelog|] == changelog && changelog[|changelog|..] == [];
      }
      assert |Entry(version, date)| < |Preamble(version, date)|;
    }
  }

  /** Without an unreleased heading the entry and a `---` line go in front. */
  lemma ChangelogWithoutUnreleased(changelog: string, version: string, date: string)
    requires !Contains(changelog, VersionMarker(version)) && !Contains(changelog, UnreleasedHeading)
    ensures UpdateChangelog(changelog, version, date) == Preamble(version, date) + changelog
    ensures UpdateChangelogAsWritten(changelog, version, date) == Preamble(version, date) + changelog
  {
    IncludesIsContains(changelog, UnreleasedHeading);
  }

  /**
   * With the unreleased heading first at `u`, the entry goes just before the first
   * `\n---` at or after `u`.
   */
  lemma ChangelogBeforeSeparator(changelog: string, version: string, date: string, u: nat, i: nat)
    requires !Contains(changelog, VersionMarker(version))
    requires FirstAt(changelog, UnreleasedHeading, 0, u) && FirstAt(changelog, "\n---", u, i)
    ensures UpdateChangelog(changelog, version, date) == changelog[..i] + Entry(version, date) + changelog[i..]
    ensures UpdateChangelogAsWritten(changelog, version, date) == changelog[..i] + Entry(version, date) + changelog[i..]
  {
    IndexOfIsFirst(changelog, UnreleasedHeading, 0, u);
    IndexOfIsFirst(changelog, "\n---", u, i);
  }

  /**
   * With no `\n---` after the unreleased heading, the entry goes just before the
   * first `\n## [` after the heading's start.
   */
  lemma ChangelogBeforeNextSection(changelog: string, version: string, date: string, u: nat, j: nat)
    requires !Contains(changelog, VersionMarker(version)) && FirstAt(changelog, UnreleasedHeading, 0, u)
    requires forall k :: u <= k ==> !OccursAt(changelog, "\n---", k)
    requires FirstAt(changelog, "\n## [", u + 1, j)
    ensures UpdateChangelog(changelog, version, date) == changelog[..j] + Entry(version, date) + changelog[j..]
    ensures UpdateChangelogAsWritten(changelog, version, date) == changelog[..j] + Entry(version, date) + changelog[j..]
  {
    IndexOfIsFirst(changelog, UnreleasedHeading, 0, u);
    IndexOfIsFirst(changelog, "\n## [", u + 1, j);
  }

  /**
   * With neither after the heading, the corrected update appends the entry at the
   * end, while the update as written returns the text unchanged.
   */
  lemma ChangelogAtEnd(changelog: string, version: string, date: string, u: nat)
    requires !Contains(changelog, VersionMarker(version)) && FirstAt(changelog, UnreleasedHeading, 0, u)
    requires forall k :: u <= k ==> !OccursAt(changelog, "\n---", k)
    requires forall k :: u + 1 <= k ==> !OccursAt(changelog, "\n## [", k)
    ensures UpdateChangelog(changelog, version, date) == changelog + Entry(version, date)
    ensures UpdateChangelogAsWritten(changelog, version, date) == changelog
  {
    IndexOfIsFirst(changelog, UnreleasedHeading, 0, u);
  }

  /** After the update the changelog has an entry for the version. */
  lemma ChangelogRecordsVersion(changelog: string, version: string, date: string)
    ensures Contains(UpdateChangelog(changelog, version, date), VersionMarker(version))
  {
    if !Contains(changelog, VersionMarker(version)) {
      ChangelogKeepsText(changelog, version, date);
      var r := UpdateChangelog(changelog, version, date);
      if r == Preamble(version, date) + changelog {
        EntryHasMarker([], version, date, changelog);
      } else {
        var i :| 0 <= i <= |changelog| && r == changelog[..i] + Entry(version, date) + changelog[i..];
        EntryHasMarker(changelog[..i], version, date, changelog[i..]);
      }
    }
  }

  /** Running the update twice for the same version is the same as running it once. */
  lemma ChangelogIdempotent(changelog: string, version: string, date: string)
    ensures UpdateChangelog(UpdateChangelog(changelog, version, date), version, date)
            == UpdateChangelog(changelog, version, date)
  {
    ChangelogRecordsVersion(changelog, version, date);
  }

  /** No character of `s` at or after `from` starts `needle`, so it occurs nowhere there. */
  lemma NotFoundWithoutFirst(s: string, needle: string, from: nat)
    requires needle != []
    requires forall k :: from <= k < |s| ==> s[k] != needle[0]
    ensures IndexOf(s, needle, from).None?
  {
    forall k | from <= k && k + |needle| <= |s|
      ensures !OccursAt(s, needle, k)
    {
      assert s[k..k + |needle|][0] == s[k];
    }
  }

  /**
   * The as-written update skips the version when the unreleased section is a
   * single line at the end of the file: the text comes back unchanged, without
   * an entry for the version.
   */
  lemma ChangelogSkipsTrailingUnreleased(line: string, a: nat, b: nat, c: nat, date: string)
    requires forall k :: 0 <= k < |line| ==> line[k] != '\n' && line[k] != '#'
    ensures UpdateChangelogAsWritten(UnreleasedHeading + line, VersionText(a, b, c), date)
            == UnreleasedHeading + line
    ensures !Contains(UpdateChangelogAsWritten(UnreleasedHeading + line, VersionText(a, b, c), date),
                      VersionMarker(VersionText(a, b, c)))
  {
    var s := UnreleasedHeading + line;
    var m := VersionMarker(VersionText(a, b, c));
    assert s[0..|UnreleasedHeading|] == UnreleasedHeading;
    assert OccursAt(s, UnreleasedHeading, 0);
    assert IndexOf(s, UnreleasedHeading, 0) == Some(0);
    assert forall k :: 0 <= k < |s| ==> s[k] != '\n' by {
      forall k | 0 <= k < |s|
        ensures s[k] != '\n'
      {
        if k >= |UnreleasedHeading| {
          assert s[k] == line[k - |UnreleasedHeading|];
        }
      }
    }
    NotFoundWithoutFirst(s, "\n---", 0);
    NotFoundWithoutFirst(s, "\n## [", 1);
    NoMarkerAfterHeading(line, a, b, c);
  }

  /** `## [a.b.c]` does not occur in the unreleased heading followed by a line without `#`. */
  lemma NoMarkerAfterHeading(line: string, a: nat, b: nat, c: nat)
    requires forall k :: 0 <= k < |line| ==> line[k] != '\n' && line[k] != '#'
    ensures !Contains(UnreleasedHeading + line, VersionMarker(VersionText(a, b, c)))
  {
    var s := UnreleasedHeading + line;
    var m := VersionMarker(VersionText(a, b, c));
    var v := VersionText(a, b, c);
    assert m[4] == v[0] && IsDigit(v[0]);
    forall k: nat | k + |m| <= |s|
      ensures !OccursAt(s, m, k)
    {
      var w := s[k..k + |m|];
      if k == 0 {
        assert w[4] == s[4] == '未';
      } else {
        assert w[1] == s[k + 1];
        if k + 1 >= |UnreleasedHeading| {
          assert s[k + 1] == line[k + 1 - |UnreleasedHeading|];
        } else {
          assert s[k + 1] == UnreleasedHeading[k + 1];
        }
      }
    }
  }
}
