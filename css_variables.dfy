/**
 * The mapping from a theme's token tables to CSS custom properties: the
 * record `themeToCSSVariables` fills, key by key, and the declaration block
 * `generateCSSVariables` prints from it.
 */
module CssVariables {
  import opened JsValues
  import opened Text

  /** One own enumerable property of a token table, in the order `Object.entries` lists it. */
  datatype Token = Token(key: string, value: string)

  /** A property of a numeric token table (`fontWeight`, `lineHeight`). */
  datatype NumberToken = NumberToken(key: string, value: Number)

  datatype Typography = Typography(
    fontFamily: string,
    fontSize: seq<Token>,
    fontWeight: seq<NumberToken>,
    lineHeight: seq<NumberToken>)

  datatype Theme = Theme(
    colors: seq<Token>,
    spacing: seq<Token>,
    typography: Typography,
    borderRadius: seq<Token>,
    breakpoints: seq<Token>)

  const VariablePrefix: string := "--l2ui-"
  const ColorPrefix: string := "--l2ui-color-"
  const SpacingPrefix: string := "--l2ui-spacing-"
  const FontSizePrefix: string := "--l2ui-font-size-"
  const FontWeightPrefix: string := "--l2ui-font-weight-"
  const LineHeightPrefix: string := "--l2ui-line-height-"
  const FontFamilyKey: string := "--l2ui-font-family"
  const BorderRadiusPrefix: string := "--l2ui-border-radius-"
  const BreakpointPrefix: string := "--l2ui-breakpoint-"

  /** The key groups in the order they are filled; the font family is a group of one key. */
  const Groups: seq<string> := [ColorPrefix, SpacingPrefix, FontSizePrefix, FontWeightPrefix,
                                LineHeightPrefix, FontFamilyKey, BorderRadiusPrefix, BreakpointPrefix]

  /** No two properties of a table share a key (as in any JavaScript object). */
  predicate UniqueKeys(tokens: seq<Token>)
  {
    forall i, j :: 0 <= i < j < |tokens| ==> tokens[i].key != tokens[j].key
  }

  predicate UniqueNumberKeys(tokens: seq<NumberToken>)
  {
    forall i, j :: 0 <= i < j < |tokens| ==> tokens[i].key != tokens[j].key
  }

  /** A numeric table with `String(value)` applied to each value. */
  function Stringified(tokens: seq<NumberToken>, numberText: Number -> string): (r: seq<Token>)
    ensures |r| == |tokens|
    ensures forall i :: 0 <= i < |tokens| ==> r[i] == Token(tokens[i].key, numberText(tokens[i].value))
  {
    seq(|tokens|, i requires 0 <= i < |tokens| => Token(tokens[i].key, numberText(tokens[i].value)))
  }

  /** The theme's tables are JavaScript objects: each has distinct keys. */
  predicate WellFormed(theme: Theme)
  {
    UniqueKeys(theme.colors) && UniqueKeys(theme.spacing) && UniqueKeys(theme.typography.fontSize)
    && UniqueNumberKeys(theme.typography.fontWeight) && UniqueNumberKeys(theme.typography.lineHeight)
    && UniqueKeys(theme.borderRadius) && UniqueKeys(theme.breakpoints)
  }

  // ---------------------------------------------------------------------------
  // The record as JavaScript builds it

  /**
   * `record[key] = value` on a record whose keys are not array indices: a key
   * already present keeps its place and takes the new value, a new key goes last.
   */
  function Put(record: seq<Token>, key: string, value: string): (r: seq<Token>)
    ensures |r| == |record| || |r| == |record| + 1
    ensures r != []
  {
    if record == [] then [Token(key, value)]
    else if record[0].key == key then [Token(key, value)] + record[1..]
    else [record[0]] + Put(record[1..], key, value)
  }

  /** Assigning a key the record does not have appends it. */
  lemma {:induction false} PutNew(record: seq<Token>, key: string, value: string)
    requires forall i :: 0 <= i < |record| ==> record[i].key != key
    ensures Put(record, key, value) == record + [Token(key, value)]
  {
    if record != [] {
      PutNew(record[1..], key, value);
      assert [record[0]] + (record[1..] + [Token(key, value)]) == record + [Token(key, value)];
    }
  }

  /** Assigning a key the record has replaces the value in its first place and keeps the order. */
  lemma {:induction false} PutExisting(record: seq<Token>, key: string, value: string, i: nat)
    requires i < |record| && record[i].key == key
    requires forall j :: 0 <= j < i ==> record[j].key != key
    ensures Put(record, key, value) == record[i := Token(key, value)]
  {
    if i > 0 {
      PutExisting(record[1..], key, value, i - 1);
      assert [record[0]] + record[1..][i - 1 := Token(key, value)] == record[i := Token(key, value)];
    }
  }

  /** One `forEach` over a table: `record[prefix + key] = value` for each property in order. */
  function PutEach(record: seq<Token>, prefix: string, group: seq<Token>): (r: seq<Token>)
    ensures |record| <= |r| <= |record| + |group|
    decreases |group|
  {
    if group == [] then record
    else
      var last := group[|group| - 1];
      Put(PutEach(record, prefix, group[..|group| - 1]), prefix + last.key, last.value)
  }

  /** The record after the colour, spacing, font-size, font-weight and line-height loops. */
  function AssignedTokens(theme: Theme, numberText: Number -> string): seq<Token>
  {
    var t := theme.typography;
    var r := PutEach([], ColorPrefix, theme.colors);
    var r := PutEach(r, SpacingPrefix, theme.spacing);
    var r := PutEach(r, FontSizePrefix, t.fontSize);
    var r := PutEach(r, FontWeightPrefix, Stringified(t.fontWeight, numberText));
    PutEach(r, LineHeightPrefix, Stringified(t.lineHeight, numberText))
  }

  /** `themeToCSSVariables(theme)`: the record after the seven loops and the font-family assignment. */
  function Assigned(theme: Theme, numberText: Number -> string): seq<Token>
  {
    var r := Put(AssignedTokens(theme, numberText), FontFamilyKey, theme.typography.fontFamily);
    var r := PutEach(r, BorderRadiusPrefix, theme.borderRadius);
    PutEach(r, BreakpointPrefix, theme.breakpoints)
  }

  /** One loop of `themeToCSSVariables`. */
  method AssignGroup(record: seq<Token>, prefix: string, group: seq<Token>) returns (out: seq<Token>)
    ensures out == PutEach(record, prefix, group)
  {
    out := record;
    var i := 0;
    while i < |group|
      invariant 0 <= i <= |group|
      invariant out == PutEach(record, prefix, group[..i])
    {
      assert group[..i + 1][..i] == group[..i];
      out := Put(out, prefix + group[i].key, group[i].value);
      i := i + 1;
    }
    assert group[..|group|] == group;
  }

  /**
   * `themeToCSSVariables(theme)`, filling the record table by table. For a theme
   * whose tables have distinct keys, the record is the tables' properties in
   * order, each under its group's prefix, with the font family between the line
   * heights and the border radii.
   */
  method ThemeToCssVariables(theme: Theme, numberText: Number -> string) returns (vars: seq<Token>)
    ensures vars == Assigned(theme, numberText)
    ensures WellFormed(theme) ==> vars == CssVariables(theme, numberText)
  {
    var t := theme.typography;
    vars := AssignGroup([], ColorPrefix, theme.colors);
    vars := AssignGroup(vars, SpacingPrefix, theme.spacing);
    vars := AssignGroup(vars, FontSizePrefix, t.fontSize);
    vars := AssignGroup(vars, FontWeightPrefix, Stringified(t.fontWeight, numberText));
    vars := AssignGroup(vars, LineHeightPrefix, Stringified(t.lineHeight, numberText));
    vars := Put(vars, FontFamilyKey, t.fontFamily);
    vars := AssignGroup(vars, BorderRadiusPrefix, theme.borderRadius);
    vars := AssignGroup(vars, BreakpointPrefix, theme.breakpoints);
    if WellFormed(theme) {
      AssignedIsConcatenation(theme, numberText);
    }
  }

  // ---------------------------------------------------------------------------
  // The record described table by table

  /** A table's properties under a prefix, in order. */
  function Prefixed(prefix: string, group: seq<Token>): (r: seq<Token>)
    ensures |r| == |group|
    ensures forall i :: 0 <= i < |group| ==> r[i] == Token(prefix + group[i].key, group[i].value)
  {
    seq(|group|, i requires 0 <= i < |group| => Token(prefix + group[i].key, group[i].value))
  }

  /** The CSS variables of a theme: every table under its prefix, in the order the source fills them. */
  function CssVariables(theme: Theme, numberText: Number -> string): (r: seq<Token>)
    ensures |r| == |theme.colors| + |theme.spacing| + |theme.typography.fontSize|
                   + |theme.typography.fontWeight| + |theme.typography.lineHeight| + 1
                   + |theme.borderRadius| + |theme.breakpoints|
  {
    TokenVariables(theme, numberText) + [Token(FontFamilyKey, theme.typography.fontFamily)]
    + Prefixed(BorderRadiusPrefix, theme.borderRadius) + Prefixed(BreakpointPrefix, theme.breakpoints)
  }

  /** The colour, spacing, font-size, font-weight and line-height variables, in that order. */
  function TokenVariables(theme: Theme, numberText: Number -> string): (r: seq<Token>)
    ensures |r| == FontFamilyIndex(theme)
  {
    var t := theme.typography;
    Prefixed(ColorPrefix, theme.colors) + Prefixed(SpacingPrefix, theme.spacing)
    + Prefixed(FontSizePrefix, t.fontSize)
    + Prefixed(FontWeightPrefix, Stringified(t.fontWeight, numberText))
    + Prefixed(LineHeightPrefix, Stringified(t.lineHeight, numberText))
  }

  /** Neither string is a prefix of the other. */
  predicate Apart(p: string, q: string)
  {
    !(p <= q) && !(q <= p)
  }

  /** Two prefixes of one string are prefixes of each other, one way or the other. */
  lemma SharedPrefix(p: string, q: string, k: string)
    requires p <= k && q <= k
    ensures p <= q || q <= p
  {
    if |p| <= |q| {
      assert q[..|p|] == k[..|p|];
    } else {
      assert p[..|q|] == k[..|q|];
    }
  }

  /** The group keys and prefixes are pairwise apart, so no key can fall under two groups. */
  lemma GroupsApart()
    ensures forall j, k :: 0 <= j < k < |Groups| ==> Apart(Groups[j], Groups[k])
  {
    assert ColorPrefix[7] == 'c' && SpacingPrefix[7] == 's' && FontSizePrefix[7] == 'f';
    assert LineHeightPrefix[7] == 'l' && BorderRadiusPrefix[7] == 'b';
    assert FontSizePrefix[12] == 's' && FontWeightPrefix[12] == 'w' && FontFamilyKey[12] == 'f';
    assert BorderRadiusPrefix[8] == 'o' && BreakpointPrefix[8] == 'r';
  }

  /** The key starts with one of the first `n` groups. */
  predicate Under(key: string, n: nat)
    requires n <= |Groups|
  {
    exists j :: 0 <= j < n && Groups[j] <= key
  }

  /** Every key of the record is under one of the first `n` groups. */
  predicate AllUnder(record: seq<Token>, n: nat)
    requires n <= |Groups|
  {
    forall i :: 0 <= i < |record| ==> Under(record[i].key, n)
  }

  /** A key under an earlier group does not start with group `n`. */
  lemma NotUnderLater(key: string, n: nat)
    requires n < |Groups| && Under(key, n)
    ensures !(Groups[n] <= key)
  {
    GroupsApart();
    var j :| 0 <= j < n && Groups[j] <= key;
    if Groups[n] <= key {
      SharedPrefix(Groups[j], Groups[n], key);
    }
  }

  /** Filling group `n` into a record whose keys are all under earlier groups appends the table. */
  lemma {:induction false} PutEachAppends(record: seq<Token>, n: nat, group: seq<Token>)
    requires n < |Groups| && UniqueKeys(group)
    requires AllUnder(record, n)
    ensures PutEach(record, Groups[n], group) == record + Prefixed(Groups[n], group)
    ensures AllUnder(record + Prefixed(Groups[n], group), n + 1)
    decreases |group|
  {
    UnderExtend(record, n, group);
    var p := Groups[n];
    var all := record + Prefixed(p, group);
    if group != [] {
      var front := group[..|group| - 1];
      var last := group[|group| - 1];
      PutEachAppends(record, n, front);
      var before := record + Prefixed(p, front);
      forall i | 0 <= i < |before|
        ensures before[i].key != p + last.key
      {
        if i < |record| {
          NotUnderLater(record[i].key, n);
          assert p <= p + last.key;
        } else {
          var k := front[i - |record|].key;
          assert before[i].key == p + k;
          assert (p + k)[|p|..] == k && (p + last.key)[|p|..] == last.key;
        }
      }
      PutNew(before, p + last.key, last.value);
      PrefixedSnoc(record, p, group);
    }
  }

  /** A record followed by a table's properties, the last property split off. */
  lemma PrefixedSnoc(record: seq<Token>, p: string, group: seq<Token>)
    requires group != []
    ensures record + Prefixed(p, group)
            == record + Prefixed(p, group[..|group| - 1])
               + [Token(p + group[|group| - 1].key, group[|group| - 1].value)]
  {
    var last := group[|group| - 1];
    assert Prefixed(p, group) == Prefixed(p, group[..|group| - 1]) + [Token(p + last.key, last.value)];
  }

  /** Appending group `n` to a record under the first `n` groups gives one under the first `n + 1`. */
  lemma UnderExtend(record: seq<Token>, n: nat, group: seq<Token>)
    requires n < |Groups| && AllUnder(record, n)
    ensures AllUnder(record + Prefixed(Groups[n], group), n + 1)
  {
    var p := Groups[n];
    var all := record + Prefixed(p, group);
    forall i | 0 <= i < |all|
      ensures Under(all[i].key, n + 1)
    {
      if i < |record| {
        assert all[i] == record[i] && Under(record[i].key, n);
        var j :| 0 <= j < n && Groups[j] <= record[i].key;
      } else {
        assert all[i].key == p + group[i - |record|].key;
        assert p <= all[i].key;
      }
    }
  }

  /** The first five loops append their tables in order. */
  lemma AssignedTokensConcatenate(theme: Theme, numberText: Number -> string)
    requires WellFormed(theme)
    ensures AssignedTokens(theme, numberText) == TokenVariables(theme, numberText)
    ensures AllUnder(AssignedTokens(theme, numberText), 5)
  {
    var t := theme.typography;
    var weights := Stringified(t.fontWeight, numberText);
    var heights := Stringified(t.lineHeight, numberText);
    assert Groups[0] == ColorPrefix && Groups[1] == SpacingPrefix && Groups[2] == FontSizePrefix;
    assert Groups[3] == FontWeightPrefix && Groups[4] == LineHeightPrefix;
    PutEachAppends([], 0, theme.colors);
    var r1 := Prefixed(ColorPrefix, theme.colors);
    assert [] + r1 == r1;
    PutEachAppends(r1, 1, theme.spacing);
    var r2 := r1 + Prefixed(SpacingPrefix, theme.spacing);
    PutEachAppends(r2, 2, t.fontSize);
    var r3 := r2 + Prefixed(FontSizePrefix, t.fontSize);
    PutEachAppends(r3, 3, weights);
    var r4 := r3 + Prefixed(FontWeightPrefix, weights);
    PutEachAppends(r4, 4, heights);
  }

  /** After the five token tables, the font family is a new key and lands at the end. */
  lemma FontFamilyAppends(record: seq<Token>, fontFamily: string)
    requires AllUnder(record, 5)
    ensures Put(record, FontFamilyKey, fontFamily) == record + [Token(FontFamilyKey, fontFamily)]
    ensures AllUnder(record + [Token(FontFamilyKey, fontFamily)], 6)
  {
    forall i | 0 <= i < |record|
      ensures record[i].key != FontFamilyKey
    {
      NotUnderLater(record[i].key, 5);
    }
    PutNew(record, FontFamilyKey, fontFamily);
    var all := record + [Token(FontFamilyKey, fontFamily)];
    forall i | 0 <= i < |all|
      ensures Under(all[i].key, 6)
    {
      if i == |record| {
        assert Groups[5] <= all[i].key;
      } else {
        assert all[i] == record[i];
      }
    }
  }

  /** For a theme whose tables have distinct keys, the record the loops build is `CssVariables`. */
  lemma AssignedIsConcatenation(theme: Theme, numberText: Number -> string)
    requires WellFormed(theme)
    ensures Assigned(theme, numberText) == CssVariables(theme, numberText)
  {
    var t := theme.typography;
    AssignedTokensConcatenate(theme, numberText);
    var r5 := AssignedTokens(theme, numberText);
    FontFamilyAppends(r5, t.fontFamily);
    var r6 := r5 + [Token(FontFamilyKey, t.fontFamily)];
    assert Groups[6] == BorderRadiusPrefix && Groups[7] == BreakpointPrefix;
    PutEachAppends(r6, 6, theme.borderRadius);
    var r7 := r6 + Prefixed(BorderRadiusPrefix, theme.borderRadius);
    PutEachAppends(r7, 7, theme.breakpoints);
  }

  // ---------------------------------------------------------------------------
  // What the variables are

  /** Where the font family sits: after the colour, spacing, font-size, font-weight and line-height variables. */
  function FontFamilyIndex(theme: Theme): nat
  {
    |theme.colors| + |theme.spacing| + |theme.typography.fontSize|
    + |theme.typography.fontWeight| + |theme.typography.lineHeight|
  }

  /** The variables before the font family are under the first five groups. */
  lemma TokensUnder(theme: Theme, numberText: Number -> string)
    ensures AllUnder(TokenVariables(theme, numberText), 5)
  {
    var t := theme.typography;
    assert Groups[0] == ColorPrefix && Groups[1] == SpacingPrefix && Groups[2] == FontSizePrefix;
    assert Groups[3] == FontWeightPrefix && Groups[4] == LineHeightPrefix;
    var r1 := Prefixed(ColorPrefix, theme.colors);
    UnderExtend([], 0, theme.colors);
    assert [] + r1 == r1;
    var r2 := r1 + Prefixed(SpacingPrefix, theme.spacing);
    UnderExtend(r1, 1, theme.spacing);
    var r3 := r2 + Prefixed(FontSizePrefix, t.fontSize);
    UnderExtend(r2, 2, t.fontSize);
    var r4 := r3 + Prefixed(FontWeightPrefix, Stringified(t.fontWeight, numberText));
    UnderExtend(r3, 3, Stringified(t.fontWeight, numberText));
    var r5 := r4 + Prefixed(LineHeightPrefix, Stringified(t.lineHeight, numberText));
    UnderExtend(r4, 4, Stringified(t.lineHeight, numberText));
    assert TokenVariables(theme, numberText) == r5;
  }

  /** Every variable falls under one of the eight groups. */
  lemma VariablesUnder(theme: Theme, numberText: Number -> string)
    ensures AllUnder(CssVariables(theme, numberText), 8)
  {
    var vars := CssVariables(theme, numberText);
    var k := FontFamilyIndex(theme);
    var r5 := TokenVariables(theme, numberText);
    TokensUnder(theme, numberText);
    var r6 := r5 + [Token(FontFamilyKey, theme.typography.fontFamily)];
    assert AllUnder(r6, 6) by {
      forall i | 0 <= i < |r6|
        ensures Under(r6[i].key, 6)
      {
        if i == k {
          assert r6[i].key == Groups[5];
        } else {
          assert r6[i] == r5[i] && Under(r5[i].key, 5);
          var j :| 0 <= j < 5 && Groups[j] <= r5[i].key;
        }
      }
    }
    var r7 := r6 + Prefixed(BorderRadiusPrefix, theme.borderRadius);
    UnderExtend(r6, 6, theme.borderRadius);
    UnderExtend(r7, 7, theme.breakpoints);
  }

  /** Every key starts with `--l2ui-`. */
  lemma KeysArePrefixed(theme: Theme, numberText: Number -> string)
    ensures forall i :: 0 <= i < |CssVariables(theme, numberText)| ==>
              VariablePrefix <= CssVariables(theme, numberText)[i].key
  {
    var vars := CssVariables(theme, numberText);
    VariablesUnder(theme, numberText);
    forall i | 0 <= i < |vars|
      ensures VariablePrefix <= vars[i].key
    {
      assert Under(vars[i].key, 8);
      var j :| 0 <= j < 8 && Groups[j] <= vars[i].key;
      assert VariablePrefix <= Groups[j];
      assert vars[i].key[..|VariablePrefix|] == Groups[j][..|VariablePrefix|];
    }
  }

  /** No key that starts with `p` is `key` when `key` does not start with `p`. */
  lemma PrefixedAvoids(p: string, group: seq<Token>, key: string)
    requires !(p <= key)
    ensures forall i :: 0 <= i < |group| ==> Prefixed(p, group)[i].key != key
  {
    forall i | 0 <= i < |group|
      ensures Prefixed(p, group)[i].key != key
    {
      assert p <= p + group[i].key;
    }
  }

  /** There is exactly one `--l2ui-font-family` variable, holding the font family. */
  lemma FontFamilyOnce(theme: Theme, numberText: Number -> string)
    ensures CssVariables(theme, numberText)[FontFamilyIndex(theme)]
            == Token(FontFamilyKey, theme.typography.fontFamily)
    ensures forall i :: 0 <= i < |CssVariables(theme, numberText)| ==>
              (CssVariables(theme, numberText)[i].key == FontFamilyKey <==> i == FontFamilyIndex(theme))
  {
    var vars := CssVariables(theme, numberText);
    var k := FontFamilyIndex(theme);
    var r5 := TokenVariables(theme, numberText);
    TokensUnder(theme, numberText);
    GroupsApart();
    assert Groups[5] == FontFamilyKey && Groups[6] == BorderRadiusPrefix && Groups[7] == BreakpointPrefix;
    var radii := Prefixed(BorderRadiusPrefix, theme.borderRadius);
    var points := Prefixed(BreakpointPrefix, theme.breakpoints);
    PrefixedAvoids(BorderRadiusPrefix, theme.borderRadius, FontFamilyKey);
    PrefixedAvoids(BreakpointPrefix, theme.breakpoints, FontFamilyKey);
    forall i | 0 <= i < |vars| && i != k
      ensures vars[i].key != FontFamilyKey
    {
      if i < k {
        assert vars[i] == r5[i];
        NotUnderLater(r5[i].key, 5);
      } else if i < k + 1 + |radii| {
        assert vars[i] == radii[i - k - 1];
      } else {
        assert vars[i] == points[i - k - 1 - |radii|];
      }
    }
  }

  /** Where each of eight concatenated pieces lands in the whole. */
  lemma EightPieces<T>(a: seq<T>, b: seq<T>, c: seq<T>, d: seq<T>, e: seq<T>, f: seq<T>, g: seq<T>, h: seq<T>)
    ensures var s := a + b + c + d + e + f + g + h;
            (forall i :: 0 <= i < |a| ==> s[i] == a[i])
            && (forall i :: 0 <= i < |b| ==> s[|a| + i] == b[i])
            && (forall i :: 0 <= i < |c| ==> s[|a| + |b| + i] == c[i])
            && (forall i :: 0 <= i < |d| ==> s[|a| + |b| + |c| + i] == d[i])
            && (forall i :: 0 <= i < |e| ==> s[|a| + |b| + |c| + |d| + i] == e[i])
  {
  }

  /**
   * The tables before the font family appear in order: colours, spacing and font
   * sizes with their values unchanged, font weights and line heights through `String`.
   */
  lemma LeadingTables(theme: Theme, numberText: Number -> string)
    ensures var vars, t := CssVariables(theme, numberText), theme.typography;
            var o2 := |theme.colors|;
            var o3 := o2 + |theme.spacing|;
            var o4 := o3 + |t.fontSize|;
            var o5 := o4 + |t.fontWeight|;
            (forall i :: 0 <= i < |theme.colors| ==>
               vars[i] == Token(ColorPrefix + theme.colors[i].key, theme.colors[i].value))
            && (forall i :: 0 <= i < |theme.spacing| ==>
               vars[o2 + i] == Token(SpacingPrefix + theme.spacing[i].key, theme.spacing[i].value))
            && (forall i :: 0 <= i < |t.fontSize| ==>
               vars[o3 + i] == Token(FontSizePrefix + t.fontSize[i].key, t.fontSize[i].value))
            && (forall i :: 0 <= i < |t.fontWeight| ==>
               vars[o4 + i] == Token(FontWeightPrefix + t.fontWeight[i].key, numberText(t.fontWeight[i].value)))
            && (forall i :: 0 <= i < |t.lineHeight| ==>
               vars[o5 + i] == Token(LineHeightPrefix + t.lineHeight[i].key, numberText(t.lineHeight[i].value)))
  {
    var t := theme.typography;
    EightPieces(Prefixed(ColorPrefix, theme.colors), Prefixed(SpacingPrefix, theme.spacing),
                Prefixed(FontSizePrefix, t.fontSize),
                Prefixed(FontWeightPrefix, Stringified(t.fontWeight, numberText)),
                Prefixed(LineHeightPrefix, Stringified(t.lineHeight, numberText)),
                [Token(FontFamilyKey, t.fontFamily)],
                Prefixed(BorderRadiusPrefix, theme.borderRadius), Prefixed(BreakpointPrefix, theme.breakpoints));
  }

  /** The tables after the font family appear in order under their prefixes, values unchanged. */
  lemma TrailingTables(theme: Theme, numberText: Number -> string)
    ensures var vars := CssVariables(theme, numberText);
            var o6 := FontFamilyIndex(theme) + 1;
            var o7 := o6 + |theme.borderRadius|;
            (forall i :: 0 <= i < |theme.borderRadius| ==>
               vars[o6 + i] == Token(BorderRadiusPrefix + theme.borderRadius[i].key, theme.borderRadius[i].value))
            && (forall i :: 0 <= i < |theme.breakpoints| ==>
               vars[o7 + i] == Token(BreakpointPrefix + theme.breakpoints[i].key, theme.breakpoints[i].value))
  {
    var vars := CssVariables(theme, numberText);
    var head := TokenVariables(theme, numberText) + [Token(FontFamilyKey, theme.typography.fontFamily)];
    var radii := Prefixed(BorderRadiusPrefix, theme.borderRadius);
    var points := Prefixed(BreakpointPrefix, theme.breakpoints);
    assert vars == head + (radii + points);
    assert forall i :: 0 <= i < |radii| + |points| ==> vars[|head| + i] == (radii + points)[i];
  }

  // ---------------------------------------------------------------------------
  // The declaration block

  /** One declaration: `  key: value;`. */
  function Line(t: Token): string
  {
    "  " + t.key + ": " + t.value + ";"
  }

  /** The declarations of a record, in its order. */
  function Lines(record: seq<Token>): (r: seq<string>)
    ensures |r| == |record|
    ensures forall i :: 0 <= i < |record| ==> r[i] == Line(record[i])
  {
    seq(|record|, i requires 0 <= i < |record| => Line(record[i]))
  }

  /** `generateCSSVariables(theme)`: the declarations joined by newlines. */
  function GenerateCssVariables(theme: Theme, numberText: Number -> string): string
  {
    Join(Lines(Assigned(theme, numberText)), "\n")
  }

  /** A declaration holds a newline only where its key or value does. */
  lemma LineFree(t: Token)
    requires Free(t.key, {'\n'}) && Free(t.value, {'\n'})
    ensures Free(Line(t), {'\n'})
  {
    var l := Line(t);
    forall i | 0 <= i < |l|
      ensures l[i] != '\n'
    {
      if i < 2 {
        assert l[i] == ' ';
      } else if i < 2 + |t.key| {
        assert l[i] == t.key[i - 2];
      } else if i < 4 + |t.key| {
        assert l[i] == ": "[i - 2 - |t.key|];
      } else if i < 4 + |t.key| + |t.value| {
        assert l[i] == t.value[i - 4 - |t.key|];
      } else {
        assert l[i] == ';';
      }
    }
  }

  /**
   * Splitting the block at its newlines gives one `  key: value;` line per
   * variable, in order, when no key or value holds a newline.
   */
  lemma GeneratedLines(theme: Theme, numberText: Number -> string)
    requires WellFormed(theme)
    requires forall i :: 0 <= i < |CssVariables(theme, numberText)| ==>
               Free(CssVariables(theme, numberText)[i].key, {'\n'})
               && Free(CssVariables(theme, numberText)[i].value, {'\n'})
    ensures Split(GenerateCssVariables(theme, numberText), {'\n'}) == Lines(CssVariables(theme, numberText))
  {
    var vars := CssVariables(theme, numberText);
    AssignedIsConcatenation(theme, numberText);
    forall i | 0 <= i < |vars|
      ensures Free(Lines(vars)[i], {'\n'})
    {
      LineFree(vars[i]);
    }
    SplitJoin(Lines(vars), '\n');
  }

  /** The block ends with the last declaration's `;`: there is no trailing newline. */
  lemma NoTrailingNewline(theme: Theme, numberText: Number -> string)
    ensures GenerateCssVariables(theme, numberText) != []
    ensures GenerateCssVariables(theme, numberText)[|GenerateCssVariables(theme, numberText)| - 1] == ';'
  {
    var lines := Lines(Assigned(theme, numberText));
    var last := lines[|lines| - 1];
    assert last[|last| - 1] == ';';
    JoinEndsWithLast(lines, "\n");
  }
}
