/**
 * The stylesheet rewriting of scripts/ready-ai/converter.ts: the colour,
 * spacing and font-size tables, the flexbox and grid tables, the gradient
 * pass, and the per-rule pipeline joined into one stylesheet.
 */
module Css {
  import opened Common
  import opened Strings
  import opened Config

  // ---------------------------------------------------------------------------
  // Literal rewriting: when a replacement cannot create an occurrence
  // ---------------------------------------------------------------------------

  /**
   * The replacement `r` can take part in no occurrence of `q`: neither its
   * first nor its last character occurs in `q`, and `q` does not occur in it.
   */
  predicate Avoids(q: string, r: string) {
    |r| > 0 && r[0] !in q && r[|r| - 1] !in q && !Contains(r, q)
  }

  /**
   * A prefix of a global replacement either copies the same prefix of the
   * input or already holds the first character of the replacement.
   */
  lemma {:induction false} ReplaceAllPrefix(x: string, p: string, r: string, k: nat)
    requires |p| > 0 && |r| > 0
    requires k <= |ReplaceAll(x, p, r)|
    ensures (k <= |x| && ReplaceAll(x, p, r)[..k] == x[..k]) || r[0] in ReplaceAll(x, p, r)[..k]
    decreases |x|
  {
    var o := ReplaceAll(x, p, r);
    if k > 0 {
      if IsPrefix(p, x) {
        assert o[..k][0] == r[0];
      } else {
        var o' := ReplaceAll(x[1..], p, r);
        assert o == [x[0]] + o';
        ReplaceAllPrefix(x[1..], p, r, k - 1);
        if k - 1 <= |x| - 1 && o'[..k - 1] == x[1..][..k - 1] {
          assert o[..k] == [x[0]] + o'[..k - 1];
          assert x[..k] == [x[0]] + x[1..][..k - 1];
        } else {
          assert o[..k] == [x[0]] + o'[..k - 1];
        }
      }
    }
  }

  /**
   * An occurrence of `q` that starts inside `r` in `r + rest` either lies
   * wholly inside `r` or holds the last character of `r`.
   */
  lemma OccursInConcatHead(r: string, rest: string, q: string, i: nat)
    requires |q| > 0 && i < |r|
    requires OccursAt(r + rest, q, i)
    ensures OccursAt(r, q, i) || r[|r| - 1] in q
  {
    var o := r + rest;
    if i + |q| <= |r| {
      assert o[i..i + |q|] == r[i..i + |q|];
    } else {
      assert o[|r| - 1] == q[|r| - 1 - i];
    }
  }

  /** An occurrence of `q` inside `r + rest`, for `q` avoiding `r`, lies in `rest`. */
  lemma OccursAfterReplacement(r: string, rest: string, q: string, i: nat)
    requires |q| > 0 && Avoids(q, r)
    requires OccursAt(r + rest, q, i)
    ensures i >= |r| && OccursAt(rest, q, i - |r|)
  {
    if i < |r| {
      OccursInConcatHead(r, rest, q, i);
      assert false;
    } else {
      assert (r + rest)[i..i + |q|] == rest[i - |r|..i - |r| + |q|];
    }
  }

  /**
   * An occurrence at the very start of a global replacement whose input does
   * not start with the pattern holds the replacement's first character or is
   * an occurrence at the start of the input.
   */
  lemma HeadOccurrence(s: string, p: string, r: string, q: string)
    requires |p| > 0 && |r| > 0 && |q| > 0 && |s| > 0 && !IsPrefix(p, s)
    requires OccursAt(ReplaceAll(s, p, r), q, 0)
    ensures r[0] in q || OccursAt(s, q, 0)
  {
    var o' := ReplaceAllHead(s, p, r);
    ReplaceAllPrefix(s[1..], p, r, |q| - 1);
    HeadOccurrenceCases(s, o', q, r[0]);
  }

  /** A global replacement of an input that does not start with the pattern copies its first character. */
  lemma ReplaceAllHead(s: string, p: string, r: string) returns (o': string)
    requires |p| > 0 && |s| > 0 && !IsPrefix(p, s)
    ensures o' == ReplaceAll(s[1..], p, r) && ReplaceAll(s, p, r) == [s[0]] + o'
  {
    o' := ReplaceAll(s[1..], p, r);
  }

  /** The case split behind `HeadOccurrence`, for output `[s[0]] + o'` whose prefix copies the input or holds `c`. */
  lemma HeadOccurrenceCases(s: string, o': string, q: string, c: char)
    requires |q| > 0 && |s| > 0 && OccursAt([s[0]] + o', q, 0)
    requires (|q| - 1 <= |s| - 1 && o'[..|q| - 1] == s[1..][..|q| - 1]) || c in o'[..|q| - 1]
    ensures c in q || OccursAt(s, q, 0)
  {
    var o := [s[0]] + o';
    assert q == o[0..|q|];
    assert q[1..] == o'[..|q| - 1];
    if c in o'[..|q| - 1] {
      assert c in q[1..];
    } else {
      assert q[1..] == s[1..|q|];
      assert q == s[0..|q|];
    }
  }

  /** A global replacement whose replacement avoids `q` creates no occurrence of `q`. */
  lemma {:induction false} ReplaceAllKeepsAbsent(s: string, p: string, r: string, q: string)
    requires |p| > 0 && |q| > 0 && Avoids(q, r)
    ensures Contains(ReplaceAll(s, p, r), q) ==> Contains(s, q)
    decreases |s|
  {
    var o := ReplaceAll(s, p, r);
    if Contains(o, q) {
      var i :| 0 <= i <= |o| && OccursAt(o, q, i);
      if IsPrefix(p, s) {
        var o' := ReplaceAll(s[|p|..], p, r);
        OccursAfterReplacement(r, o', q, i);
        ReplaceAllKeepsAbsent(s[|p|..], p, r, q);
        ContainsSuffix(s, |p|, q);
      } else if i >= 1 {
        var o' := ReplaceAll(s[1..], p, r);
        assert o == [s[0]] + o';
        assert o[i..i + |q|] == o'[i - 1..i - 1 + |q|];
        assert OccursAt(o', q, i - 1);
        ReplaceAllKeepsAbsent(s[1..], p, r, q);
        ContainsSuffix(s, 1, q);
      } else {
        HeadOccurrence(s, p, r, q);
      }
    }
  }

  /** After a global replacement that avoids its own pattern, the pattern is gone. */
  lemma {:induction false} ReplaceAllEliminates(s: string, p: string, r: string)
    requires |p| > 0 && Avoids(p, r)
    ensures !Contains(ReplaceAll(s, p, r), p)
    decreases |s|
  {
    var o := ReplaceAll(s, p, r);
    if Contains(o, p) {
      var i :| 0 <= i <= |o| && OccursAt(o, p, i);
      if IsPrefix(p, s) {
        var o' := ReplaceAll(s[|p|..], p, r);
        OccursAfterReplacement(r, o', p, i);
        ReplaceAllEliminates(s[|p|..], p, r);
        assert false;
      } else if i >= 1 {
        var o' := ReplaceAll(s[1..], p, r);
        assert o == [s[0]] + o';
        assert o[i..i + |p|] == o'[i - 1..i - 1 + |p|];
        assert OccursAt(o', p, i - 1);
        ReplaceAllEliminates(s[1..], p, r);
        assert false;
      } else {
        HeadOccurrence(s, p, r, p);
        assert false;
      }
    }
  }

  // ---------------------------------------------------------------------------
  // Rewrite tables
  // ---------------------------------------------------------------------------

  /** A table of literal patterns, each with its replacement. */
  type Table = seq<(string, string)>

  predicate NonEmptyPatterns(table: Table) {
    forall k :: 0 <= k < |table| ==> |table[k].0| > 0
  }

  /** Every pattern avoids every replacement of the table. */
  predicate SelfAvoiding(table: Table) {
    && NonEmptyPatterns(table)
    && forall j, k :: 0 <= j < |table| && 0 <= k < |table| ==> Avoids(table[j].0, table[k].1)
  }

  /** `Object.entries(table).forEach(([p, r]) => css = css.replace(new RegExp(p, 'g'), r))`. */
  function ReplaceEach(table: Table, s: string): string
    requires NonEmptyPatterns(table)
    decreases |table|
  {
    if |table| == 0 then s else ReplaceEach(table[1..], ReplaceAll(s, table[0].0, table[0].1))
  }

  /** Passing a table creates no occurrence of a pattern its replacements avoid. */
  lemma {:induction false} ReplaceEachKeepsAbsent(table: Table, s: string, q: string)
    requires NonEmptyPatterns(table) && |q| > 0
    requires forall k :: 0 <= k < |table| ==> Avoids(q, table[k].1)
    requires !Contains(s, q)
    ensures !Contains(ReplaceEach(table, s), q)
    decreases |table|
  {
    if |table| > 0 {
      ReplaceAllKeepsAbsent(s, table[0].0, table[0].1, q);
      ReplaceEachKeepsAbsent(table[1..], ReplaceAll(s, table[0].0, table[0].1), q);
    }
  }

  /** After a self-avoiding table has been applied, none of its patterns occurs. */
  lemma {:induction false} ReplaceEachClears(table: Table, s: string, k: nat)
    requires SelfAvoiding(table) && k < |table|
    ensures !Contains(ReplaceEach(table, s), table[k].0)
    decreases |table|
  {
    var s' := ReplaceAll(s, table[0].0, table[0].1);
    assert SelfAvoiding(table[1..]) by {
      assert forall j :: 0 <= j < |table| - 1 ==> table[1..][j] == table[j + 1];
    }
    if k == 0 {
      ReplaceAllEliminates(s, table[0].0, table[0].1);
      ReplaceEachKeepsAbsent(table[1..], s', table[0].0);
    } else {
      ReplaceEachClears(table[1..], s', k - 1);
    }
  }

  /** A string holding none of the patterns passes a table unchanged. */
  lemma {:induction false} ReplaceEachInert(table: Table, s: string)
    requires NonEmptyPatterns(table)
    requires forall k :: 0 <= k < |table| ==> !Contains(s, table[k].0)
    ensures ReplaceEach(table, s) == s
    decreases |table|
  {
    if |table| > 0 {
      ReplaceAllAbsent(s, table[0].0, table[0].1);
      ReplaceEachInert(table[1..], s);
    }
  }

  /** A self-avoiding table is idempotent. */
  lemma ReplaceEachIdempotent(table: Table, s: string)
    requires SelfAvoiding(table)
    ensures ReplaceEach(table, ReplaceEach(table, s)) == ReplaceEach(table, s)
  {
    forall k | 0 <= k < |table| ensures !Contains(ReplaceEach(table, s), table[k].0) {
      ReplaceEachClears(table, s, k);
    }
    ReplaceEachInert(table, ReplaceEach(table, s));
  }

  /**
   * A table is self-avoiding when some character `c` lies in every pattern
   * and in no replacement, and every replacement starts with `first` and ends
   * with `last`, neither of which occurs in any pattern.
   */
  lemma TableAvoids(table: Table, c: char, first: char, last: char)
    requires forall k :: 0 <= k < |table| ==> c in table[k].0 && first !in table[k].0 && last !in table[k].0
    requires forall k :: 0 <= k < |table| ==>
               |table[k].1| > 0 && table[k].1[0] == first && table[k].1[|table[k].1| - 1] == last && c !in table[k].1
    ensures SelfAvoiding(table)
  {
    forall j, k | 0 <= j < |table| && 0 <= k < |table|
      ensures Avoids(table[j].0, table[k].1)
    {
      NoCharNoContains(table[k].1, table[j].0, c);
    }
  }

  /** The flexbox table of `convertFlexboxToUno`. */
  const FlexMap: Table := [
    ("display: flex", "/* flex */"),
    ("flex-direction: column", "/* flex-col */"),
    ("flex-direction: row", "/* flex-row */"),
    ("justify-content: center", "/* justify-center */"),
    ("justify-content: space-between", "/* justify-between */"),
    ("align-items: center", "/* items-center */"),
    ("align-items: flex-start", "/* items-start */"),
    ("align-items: flex-end", "/* items-end */")
  ]

  /** The grid table of `convertGridToUno`, with the escaped parentheses read as literal ones. */
  const GridMap: Table := [
    ("display: grid", "/* grid */"),
    ("grid-template-columns: repeat(2, 1fr)", "/* grid-cols-2 */"),
    ("grid-template-columns: repeat(3, 1fr)", "/* grid-cols-3 */"),
    ("grid-template-columns: repeat(4, 1fr)", "/* grid-cols-4 */"),
    ("gap: 20px", "/* gap-5 */"),
    ("gap: 16px", "/* gap-4 */")
  ]

  /** `convertFlexboxToUno`. */
  function Flexbox(css: string): string {
    FlexTableShape();
    ReplaceEach(FlexMap, css)
  }

  /** `convertGridToUno`. */
  function Grid(css: string): string {
    GridTableShape();
    ReplaceEach(GridMap, css)
  }

  lemma FlexTableShape()
    ensures SelfAvoiding(FlexMap)
  {
    FlexPatterns();
    FlexComments();
    TableAvoids(FlexMap, ':', '/', '/');
  }

  lemma GridTableShape()
    ensures SelfAvoiding(GridMap)
  {
    GridPatterns();
    GridComments();
    TableAvoids(GridMap, ':', '/', '/');
  }

  /** `r` is a comment free of `:`, starting and ending with `/`. */
  predicate IsComment(r: string) {
    |r| > 0 && r[0] == '/' && r[|r| - 1] == '/' && ':' !in r
  }

  // Every pattern of the two tables is a declaration, holding a `:` and no
  // `/`, and every replacement is a comment.

  lemma FlexPatterns()
    ensures forall k :: 0 <= k < |FlexMap| ==> ':' in FlexMap[k].0 && '/' !in FlexMap[k].0
  {
    FlexColons();
    FlexSlashless();
  }

  lemma FlexColons()
    ensures forall k :: 0 <= k < |FlexMap| ==> ':' in FlexMap[k].0
  {
    var t := FlexMap;
    assert t[0].0[7] == ':';
    assert t[1].0[14] == ':';
    assert t[2].0[14] == ':';
    assert t[3].0[15] == ':';
    assert t[4].0[15] == ':';
    assert t[5].0[11] == ':';
    assert t[6].0[11] == ':';
    assert t[7].0[11] == ':';
  }

  lemma FlexSlashless()
    ensures forall k :: 0 <= k < |FlexMap| ==> '/' !in FlexMap[k].0
  {
    var t := FlexMap;
    assert '/' !in t[0].0;
    assert '/' !in t[1].0;
    assert '/' !in t[2].0;
    assert '/' !in t[3].0;
    assert '/' !in t[4].0;
    assert '/' !in t[5].0;
    assert '/' !in t[6].0;
    assert '/' !in t[7].0;
  }


  lemma FlexComments()
    ensures forall k :: 0 <= k < |FlexMap| ==> IsComment(FlexMap[k].1)
  {
    var t := FlexMap;
    assert IsComment(t[0].1);
    assert IsComment(t[1].1);
    assert IsComment(t[2].1);
    assert IsComment(t[3].1);
    assert IsComment(t[4].1);
    assert IsComment(t[5].1);
    assert IsComment(t[6].1);
    assert IsComment(t[7].1);
  }

  lemma GridPatterns()
    ensures forall k :: 0 <= k < |GridMap| ==> ':' in GridMap[k].0 && '/' !in GridMap[k].0
  {
    GridColons();
    GridSlashless();
  }

  lemma GridColons()
    ensures forall k :: 0 <= k < |GridMap| ==> ':' in GridMap[k].0
  {
    var t := GridMap;
    assert t[0].0[7] == ':';
    assert t[1].0[21] == ':';
    assert t[2].0[21] == ':';
    assert t[3].0[21] == ':';
    assert t[4].0[3] == ':';
    assert t[5].0[3] == ':';
  }

  lemma GridSlashless()
    ensures forall k :: 0 <= k < |GridMap| ==> '/' !in GridMap[k].0
  {
    var t := GridMap;
    assert '/' !in t[0].0;
    assert '/' !in t[1].0;
    assert '/' !in t[2].0;
    assert '/' !in t[3].0;
    assert '/' !in t[4].0;
    assert '/' !in t[5].0;
  }


  lemma GridComments()
    ensures forall k :: 0 <= k < |GridMap| ==> IsComment(GridMap[k].1)
  {
    var t := GridMap;
    assert IsComment(t[0].1);
    assert IsComment(t[1].1);
    assert IsComment(t[2].1);
    assert IsComment(t[3].1);
    assert IsComment(t[4].1);
    assert IsComment(t[5].1);
  }

  /** Converting flexbox declarations twice changes nothing more. */
  lemma FlexboxIdempotent(css: string)
    ensures Flexbox(Flexbox(css)) == Flexbox(css)
  {
    FlexTableShape();
    ReplaceEachIdempotent(FlexMap, css);
  }

  /** Converting grid declarations twice changes nothing more. */
  lemma GridIdempotent(css: string)
    ensures Grid(Grid(css)) == Grid(css)
  {
    GridTableShape();
    ReplaceEachIdempotent(GridMap, css);
  }

  /** Every pattern of `table` is absent from `s`. */
  predicate Untouched(table: Table, s: string) {
    forall k :: 0 <= k < |table| ==> !Contains(s, table[k].0)
  }

  // ---------------------------------------------------------------------------
  // Colours: the hex literal is matched ignoring case
  // ---------------------------------------------------------------------------

  /** `s` starts with `p` when compared after lower-casing (`p` itself is lower case). */
  predicate FoldedPrefix(p: string, s: string) {
    |p| <= |s| && Lower(s[..|p|]) == p
  }

  /** `s.replace(new RegExp(p, 'gi'), r)` for a lower-case pattern without special characters. */
  function ReplaceAllFolded(s: string, p: string, r: string): string
    requires |p| > 0
    decreases |s|
  {
    if |s| == 0 then ""
    else if FoldedPrefix(p, s) then r + ReplaceAllFolded(s[|p|..], p, r)
    else [s[0]] + ReplaceAllFolded(s[1..], p, r)
  }

  /**
   * Lower-casing commutes with the case-insensitive replacement: it is the
   * literal replacement on the lower-cased text.
   */
  lemma {:induction false} LowerReplaceAllFolded(s: string, p: string, r: string)
    requires |p| > 0
    ensures Lower(ReplaceAllFolded(s, p, r)) == ReplaceAll(Lower(s), p, Lower(r))
    decreases |s|
  {
    if |s| > 0 {
      if |p| <= |s| {
        LowerSlices(s, |p|);
      }
      assert FoldedPrefix(p, s) <==> IsPrefix(p, Lower(s));
      if FoldedPrefix(p, s) {
        LowerReplaceAllFolded(s[|p|..], p, r);
        LowerConcat(r, ReplaceAllFolded(s[|p|..], p, r));
      } else {
        LowerSlices(s, 1);
        LowerReplaceAllFolded(s[1..], p, r);
        LowerConcat([s[0]], ReplaceAllFolded(s[1..], p, r));
      }
    }
  }

  /** Without a case-insensitive occurrence, the replacement is the identity. */
  lemma {:induction false} ReplaceAllFoldedAbsent(s: string, p: string, r: string)
    requires |p| > 0 && !Contains(Lower(s), p)
    ensures ReplaceAllFolded(s, p, r) == s
    decreases |s|
  {
    if |s| > 0 {
      LowerSlices(s, 1);
      if |p| <= |s| {
        LowerSlices(s, |p|);
        assert FoldedPrefix(p, s) ==> OccursAt(Lower(s), p, 0);
      }
      if Contains(Lower(s[1..]), p) {
        ContainsSuffix(Lower(s), 1, p);
      }
      ReplaceAllFoldedAbsent(s[1..], p, r);
      assert s == [s[0]] + s[1..];
    }
  }

  /** The table passes of the colour conversion, one case-insensitive pass per entry. */
  function ReplaceEachFolded(table: Table, s: string): string
    requires NonEmptyPatterns(table)
    decreases |table|
  {
    if |table| == 0 then s else ReplaceEachFolded(table[1..], ReplaceAllFolded(s, table[0].0, table[0].1))
  }

  /** Every replacement of `table` reads the same lower-cased. */
  predicate LowerReplacements(table: Table) {
    forall k :: 0 <= k < |table| ==> Lower(table[k].1) == table[k].1
  }

  /** With lower-case replacements, lower-casing commutes with the whole table. */
  lemma {:induction false} LowerReplaceEachFolded(table: Table, s: string)
    requires NonEmptyPatterns(table) && LowerReplacements(table)
    ensures Lower(ReplaceEachFolded(table, s)) == ReplaceEach(table, Lower(s))
    decreases |table|
  {
    if |table| > 0 {
      LowerReplaceAllFolded(s, table[0].0, table[0].1);
      LowerReplaceEachFolded(table[1..], ReplaceAllFolded(s, table[0].0, table[0].1));
    }
  }

  lemma {:induction false} ReplaceEachFoldedInert(table: Table, s: string)
    requires NonEmptyPatterns(table) && Untouched(table, Lower(s))
    ensures ReplaceEachFolded(table, s) == s
    decreases |table|
  {
    if |table| > 0 {
      ReplaceAllFoldedAbsent(s, table[0].0, table[0].1);
      ReplaceEachFoldedInert(table[1..], s);
    }
  }

  /** Each value `v` of `m` becomes the CSS variable `var(--un-<prefix><v>)`. */
  function AsVariables(m: seq<(string, string)>, prefix: string): (t: Table)
    ensures |t| == |m|
    ensures forall k :: 0 <= k < |m| ==> t[k] == (m[k].0, "var(--un-" + prefix + m[k].1 + ")")
  {
    if |m| == 0 then [] else [(m[0].0, "var(--un-" + prefix + m[0].1 + ")")] + AsVariables(m[1..], prefix)
  }

  /** The colour table as rewrites: `#667eea` becomes `var(--un-blue-500)`. */
  const ColorRewrites: Table := AsVariables(ColorMap, "")

  /** The colour step of `convertCssToUnoCSS`. */
  function Colors(rule: string): string {
    ColorTableShape();
    ReplaceEachFolded(ColorRewrites, rule)
  }

  /** No character of `s` is an upper-case letter, so lower-casing leaves it alone. */
  predicate NoUpper(s: string) {
    forall i :: 0 <= i < |s| ==> !IsUpper(s[i])
  }

  /**
   * A table of CSS variables is self-avoiding when some character `c` lies in
   * every key and in no value, and the keys hold neither 'v' nor ')'.
   */
  lemma VariablesAvoid(m: seq<(string, string)>, prefix: string, c: char)
    requires forall k :: 0 <= k < |m| ==> c in m[k].0 && 'v' !in m[k].0 && ')' !in m[k].0 && c !in m[k].1
    requires c !in "var(--un-" + prefix + ")"
    ensures SelfAvoiding(AsVariables(m, prefix))
  {
    var t := AsVariables(m, prefix);
    forall k | 0 <= k < |t| ensures c !in t[k].1 {
      assert t[k].1 == "var(--un-" + prefix + m[k].1 + ")";
    }
    TableAvoids(t, c, 'v', ')');
  }

  /** A table of CSS variables with lower-case names has lower-case replacements. */
  lemma VariablesLower(m: seq<(string, string)>, prefix: string)
    requires NoUpper(prefix) && forall k :: 0 <= k < |m| ==> NoUpper(m[k].1)
    ensures LowerReplacements(AsVariables(m, prefix))
  {
    var t := AsVariables(m, prefix);
    forall k | 0 <= k < |t| ensures Lower(t[k].1) == t[k].1 {
      assert NoUpper(t[k].1) by {
        assert t[k].1 == "var(--un-" + prefix + m[k].1 + ")";
      }
    }
  }

  lemma ColorTableShape()
    ensures SelfAvoiding(ColorRewrites) && LowerReplacements(ColorRewrites)
  {
    ColorTableAvoids();
    ColorTableLower();
  }

  lemma ColorTableAvoids()
    ensures SelfAvoiding(ColorRewrites)
  {
    VariablesAvoid(ColorMap, "", '#');
  }

  lemma ColorTableLower()
    ensures LowerReplacements(ColorRewrites)
  {
    VariablesLower(ColorMap, "");
  }

  /** After the colour step no colour of the table is left, in any letter case. */
  lemma ColorsClear(rule: string)
    ensures Untouched(ColorRewrites, Lower(Colors(rule)))
  {
    ColorTableShape();
    LowerReplaceEachFolded(ColorRewrites, rule);
    forall k | 0 <= k < |ColorRewrites| ensures !Contains(Lower(Colors(rule)), ColorRewrites[k].0) {
      ReplaceEachClears(ColorRewrites, Lower(rule), k);
    }
  }

  /** Converting colours twice changes nothing more. */
  lemma ColorsIdempotent(rule: string)
    ensures Colors(Colors(rule)) == Colors(rule)
  {
    ColorsClear(rule);
    ColorTableShape();
    ReplaceEachFoldedInert(ColorRewrites, Colors(rule));
  }

  // ---------------------------------------------------------------------------
  // Spacing
  // ---------------------------------------------------------------------------

  /** The spacing table as rewrites: `20px` becomes `var(--un-spacing-5)`. */
  const SpacingRewrites: Table := AsVariables(SpacingMap, "spacing-")

  /** The spacing step of `convertCssToUnoCSS`: every pixel literal of the table, wherever it occurs. */
  function Spacing(rule: string): string {
    SpacingTableShape();
    ReplaceEach(SpacingRewrites, rule)
  }

  lemma SpacingTableShape()
    ensures SelfAvoiding(SpacingRewrites)
  {
    VariablesAvoid(SpacingMap, "spacing-", 'x');
  }

  /** Converting spacing twice changes nothing more. */
  lemma SpacingIdempotent(rule: string)
    ensures Spacing(Spacing(rule)) == Spacing(rule)
  {
    SpacingTableShape();
    ReplaceEachIdempotent(SpacingRewrites, rule);
  }

  // ---------------------------------------------------------------------------
  // Font sizes: only the first declaration of each size is converted
  // ---------------------------------------------------------------------------

  /**
   * An occurrence of `q` in `a + r + b` either lies in `a`, lies in `b`, lies
   * inside `r`, or covers the first or the last character of `r`.
   */
  lemma OccursAroundCases(a: string, r: string, b: string, q: string, i: nat)
    requires |q| > 0 && |r| > 0
    requires OccursAt(a + r + b, q, i)
    ensures || OccursAt(a, q, i) || OccursAt(b, q, i - |a| - |r|) || OccursAt(r, q, i - |a|)
            || r[0] in q || r[|r| - 1] in q
  {
    var o := a + r + b;
    if i + |q| <= |a| {
      assert o[i..i + |q|] == a[i..i + |q|];
    } else if i >= |a| + |r| {
      assert o[i..i + |q|] == b[i - |a| - |r|..i - |a| - |r| + |q|];
    } else if i <= |a| {
      assert o[|a|] == q[|a| - i];
    } else if i + |q| <= |a| + |r| {
      assert o[i..i + |q|] == r[i - |a|..i - |a| + |q|];
    } else {
      assert o[|a| + |r| - 1] == q[|a| + |r| - 1 - i];
    }
  }

  /** Replacing the first occurrence creates no occurrence of a `q` the replacement avoids. */
  lemma ReplaceFirstKeepsAbsent(s: string, p: string, r: string, q: string)
    requires |q| > 0 && Avoids(q, r)
    ensures Contains(ReplaceFirst(s, p, r), q) ==> Contains(s, q)
  {
    if !Contains(s, p) {
      ReplaceFirstAbsent(s, p, r);
    } else {
      var i := FirstOccurrenceExists(s, p);
      ReplaceFirstAt(s, p, r, i);
      var a, b := s[..i], s[i + |p|..];
      if Contains(a + r + b, q) {
        var j :| 0 <= j <= |a + r + b| && OccursAt(a + r + b, q, j);
        OccursAroundCases(a, r, b, q, j);
        if OccursAt(a, q, j) {
          ContainsPrefixPart(s, i, q);
        } else {
          ContainsSuffix(s, i + |p|, q);
        }
      }
    }
  }

  function FontPattern(size: string): string {
    "font-size: " + size
  }

  function FontComment(cls: string): string {
    "/* " + cls + " */"
  }

  /** One entry of the font-size step: `if (includes(p)) rule = rule.replace(p, comment)`. */
  function FontStep(rule: string, size: string, cls: string): string {
    var p := FontPattern(size);
    if Contains(rule, p) then ReplaceFirst(rule, p, FontComment(cls)) else rule
  }

  /**
   * The step leaves a rule without the declaration alone; otherwise it turns
   * exactly the leftmost declaration of the size into the class comment.
   */
  lemma FontStepSpec(rule: string, size: string, cls: string, i: nat)
    ensures !Contains(rule, FontPattern(size)) ==> FontStep(rule, size, cls) == rule
    ensures FirstOccurrence(rule, FontPattern(size), i) ==>
              FontStep(rule, size, cls) == rule[..i] + FontComment(cls) + rule[i + |FontPattern(size)|..]
  {
    if FirstOccurrence(rule, FontPattern(size), i) {
      ReplaceFirstAt(rule, FontPattern(size), FontComment(cls), i);
    }
  }

  /** The font-size steps for the entries of `table`, in order. */
  function FontSizesWith(table: seq<(string, string)>, rule: string): string
    decreases |table|
  {
    if |table| == 0 then rule else FontSizesWith(table[1..], FontStep(rule, table[0].0, table[0].1))
  }

  /** The font-size step of `convertCssToUnoCSS`. */
  function FontSizes(rule: string): string {
    FontSizesWith(FontSizeMap, rule)
  }

  /** A rule with no `font-size: ` declaration passes the font-size step unchanged. */
  lemma {:induction false} FontSizesWithInert(table: seq<(string, string)>, rule: string)
    requires !Contains(rule, "font-size: ")
    ensures FontSizesWith(table, rule) == rule
    decreases |table|
  {
    if |table| > 0 {
      var p := FontPattern(table[0].0);
      OccursAtPrefix(p, "font-size: ");
      NotContainsWider(rule, "font-size: ", p);
      FontSizesWithInert(table[1..], rule);
    }
  }

  /** The font-size step creates no occurrence of a `q` that every class comment avoids. */
  lemma {:induction false} FontSizesWithKeepsAbsent(table: seq<(string, string)>, rule: string, q: string)
    requires |q| > 0 && forall k :: 0 <= k < |table| ==> Avoids(q, FontComment(table[k].1))
    requires !Contains(rule, q)
    ensures !Contains(FontSizesWith(table, rule), q)
    decreases |table|
  {
    if |table| > 0 {
      ReplaceFirstKeepsAbsent(rule, FontPattern(table[0].0), FontComment(table[0].1), q);
      FontSizesWithKeepsAbsent(table[1..], FontStep(rule, table[0].0, table[0].1), q);
    }
  }

  // ---------------------------------------------------------------------------
  // Gradients: `background:\s*linear-gradient\(([^)]+)\)`, globally
  // ---------------------------------------------------------------------------

  const GradientKey: string := "background:"
  const GradientFunction: string := "linear-gradient("

  /** A match of `<key>\s*<fn>([^)]+)`: the white space skipped and the captured parameters. */
  datatype CallMatch = CallMatch(spaces: nat, params: string)

  /** The number of characters a match covers. */
  function CallLength(key: string, fn: string, g: CallMatch): nat {
    |key| + g.spaces + |fn| + |g.params| + 1
  }

  /** The matched text for white space `ws` and parameters `params`. */
  function CallText(key: string, ws: string, fn: string, params: string): string {
    key + ws + fn + params + ")"
  }

  /** `ws` is a run of `\s`, and `params` is `[^)]+`. */
  predicate CallForm(ws: string, params: string) {
    && (forall i :: 0 <= i < |ws| ==> IsSpace(ws[i]))
    && |params| > 0 && ')' !in params
  }

  /** The number of white-space characters starting at `from`: what `\s*` consumes there. */
  function LeadingSpaces(s: string, from: nat): (n: nat)
    requires from <= |s|
    ensures from + n <= |s|
    ensures forall i :: from <= i < from + n ==> IsSpace(s[i])
    ensures from + n < |s| ==> !IsSpace(s[from + n])
    decreases |s| - from
  {
    if from < |s| && IsSpace(s[from]) then 1 + LeadingSpaces(s, from + 1) else 0
  }

  /** `LeadingSpaces` is the only count of spaces followed by a non-space or the end. */
  lemma {:induction false} LeadingSpacesUnique(s: string, from: nat, n: nat)
    requires from + n <= |s|
    requires forall i :: from <= i < from + n ==> IsSpace(s[i])
    requires from + n < |s| ==> !IsSpace(s[from + n])
    ensures LeadingSpaces(s, from) == n
    decreases n
  {
    if n > 0 {
      LeadingSpacesUnique(s, from + 1, n - 1);
    }
  }

  /** The match of `<key>\s*<fn>([^)]+)` at the start of `s`, if any. */
  function MatchCall(s: string, key: string, fn: string): (m: Option<CallMatch>)
    ensures m.Some? ==> CallLength(key, fn, m.value) <= |s|
  {
    if !IsPrefix(key, s) then None
    else
      var spaces := LeadingSpaces(s, |key|);
      var open := |key| + spaces;
      if !OccursAt(s, fn, open) then None
      else
        var from := open + |fn|;
        match IndexOfChar(s, ')', from)
        case None => None
        case Some(j) => if j == from then None else Some(CallMatch(spaces, s[from..j]))
  }

  /** A match covers text of the pattern's form: key, white space, function, parameters, `)`. */
  lemma MatchCallSound(s: string, key: string, fn: string, g: CallMatch)
    requires MatchCall(s, key, fn) == Some(g)
    ensures Covers(s, key, fn, g)
  {
    var j := MatchCallEnd(s, key, fn, g);
    assert g == CallMatch(g.spaces, s[|key| + g.spaces + |fn|..j]);
    CallSlices(s, key, fn, g.spaces, j);
  }

  /**
   * `s` starts with the text of match `g`: the key, white space, the function
   * name, parameters free of `)`, and `)`.
   */
  predicate Covers(s: string, key: string, fn: string, g: CallMatch) {
    && CallLength(key, fn, g) <= |s|
    && var ws := s[|key|..|key| + g.spaces];
       CallForm(ws, g.params) && s[..CallLength(key, fn, g)] == CallText(key, ws, fn, g.params)
  }

  /** The closing `)` of a match, with the facts the match checked on the way. */
  lemma MatchCallEnd(s: string, key: string, fn: string, g: CallMatch) returns (j: nat)
    requires MatchCall(s, key, fn) == Some(g)
    ensures IsPrefix(key, s) && |key| + g.spaces + |fn| < j < |s|
    ensures forall i :: |key| <= i < |key| + g.spaces ==> IsSpace(s[i])
    ensures OccursAt(s, fn, |key| + g.spaces)
    ensures s[j] == ')' && forall i :: |key| + g.spaces + |fn| <= i < j ==> s[i] != ')'
    ensures g.params == s[|key| + g.spaces + |fn|..j] && CallLength(key, fn, g) == j + 1
  {
    j := IndexOfChar(s, ')', |key| + g.spaces + |fn|).value;
  }

  /** The slices of a match: key, white space, function name, parameters free of `)`, and `)`. */
  lemma CallSlices(s: string, key: string, fn: string, spaces: nat, j: nat)
    requires IsPrefix(key, s) && |key| + spaces + |fn| < j < |s|
    requires forall i :: |key| <= i < |key| + spaces ==> IsSpace(s[i])
    requires OccursAt(s, fn, |key| + spaces)
    requires s[j] == ')' && forall i :: |key| + spaces + |fn| <= i < j ==> s[i] != ')'
    ensures Covers(s, key, fn, CallMatch(spaces, s[|key| + spaces + |fn|..j]))
  {
    var open := |key| + spaces;
    var from := open + |fn|;
    SlicesForm(s, |key|, open, from, j);
    SlicesText(s, key, fn, open, j);
  }

  lemma SlicesForm(s: string, a: nat, open: nat, from: nat, j: nat)
    requires a <= open <= from < j < |s|
    requires forall i :: a <= i < open ==> IsSpace(s[i])
    requires forall i :: from <= i < j ==> s[i] != ')'
    ensures CallForm(s[a..open], s[from..j])
  {
    var ws, params := s[a..open], s[from..j];
    assert forall i :: 0 <= i < |ws| ==> IsSpace(ws[i]);
    assert ')' !in params by {
      forall i | 0 <= i < |params| ensures params[i] != ')' {
        assert params[i] == s[from + i];
      }
    }
  }

  lemma SlicesText(s: string, key: string, fn: string, open: nat, j: nat)
    requires IsPrefix(key, s) && |key| <= open && OccursAt(s, fn, open)
    requires open + |fn| <= j < |s| && s[j] == ')'
    ensures s[..j + 1] == CallText(key, s[|key|..open], fn, s[open + |fn|..j])
  {
    SliceInFive(s, |key|, open, open + |fn|, j, j + 1);
    assert s[..|key|] == key && s[open..open + |fn|] == fn && s[j..j + 1] == ")";
  }

  /** A prefix cut at four points is the concatenation of the five slices. */
  lemma SliceInFive(s: string, a: nat, b: nat, c: nat, d: nat, e: nat)
    requires a <= b <= c <= d <= e <= |s|
    ensures s[..e] == s[..a] + s[a..b] + s[b..c] + s[c..d] + s[d..e]
  {
  }

  /**
   * Text of the pattern's form is matched, with exactly that white space and
   * those parameters: the greedy `\s*` cannot stop early before the function
   * name, and `[^)]+` runs to the first `)`.
   */
  lemma MatchCallOf(key: string, ws: string, fn: string, params: string, rest: string)
    requires CallForm(ws, params) && |fn| > 0 && !IsSpace(fn[0])
    ensures MatchCall(CallText(key, ws, fn, params) + rest, key, fn) == Some(CallMatch(|ws|, params))
  {
    var s := CallText(key, ws, fn, params) + rest;
    var from := |key| + |ws| + |fn|;
    CallTextChecks(key, ws, fn, params, rest);
    MatchCallAt(s, key, fn, |ws|, params);
  }

  /** Each check `MatchCall` makes succeeds, with `spaces` white-space characters and parameters `params`. */
  predicate ChecksPass(s: string, key: string, fn: string, spaces: nat, params: string) {
    var from := |key| + spaces + |fn|;
    && IsPrefix(key, s) && |key| + spaces <= |s| && LeadingSpaces(s, |key|) == spaces
    && OccursAt(s, fn, |key| + spaces)
    && |params| > 0 && IndexOfChar(s, ')', from) == Some(from + |params|)
    && s[from..from + |params|] == params
  }

  /** The checks pass on text of the pattern's form. */
  lemma CallTextChecks(key: string, ws: string, fn: string, params: string, rest: string)
    requires CallForm(ws, params) && |fn| > 0 && !IsSpace(fn[0])
    ensures ChecksPass(CallText(key, ws, fn, params) + rest, key, fn, |ws|, params)
  {
    var s := CallText(key, ws, fn, params) + rest;
    CallTextSlices(key, ws, fn, params, rest);
    SpacesAt(s, |key|, ws, fn);
    CloseAt(s, |key| + |ws| + |fn|, params);
  }

  /** Where each part of a match's text lies. */
  lemma CallTextSlices(key: string, ws: string, fn: string, params: string, rest: string)
    ensures var s, open := CallText(key, ws, fn, params) + rest, |key| + |ws|;
      && s[..|key|] == key && s[|key|..open] == ws && s[open..open + |fn|] == fn
      && s[open + |fn|..open + |fn| + |params|] == params && s[open + |fn| + |params|] == ')'
  {
    var s := CallText(key, ws, fn, params) + rest;
    var open := |key| + |ws|;
    var from := open + |fn|;
    assert s[..|key|] == key;
    assert s[|key|..open] == ws;
    assert s[open..from] == fn;
    assert s[from..from + |params|] == params;
    assert s[from + |params|] == ')';
  }

  /** The match `MatchCall` finds when each of its checks succeeds. */
  lemma MatchCallAt(s: string, key: string, fn: string, spaces: nat, params: string)
    requires ChecksPass(s, key, fn, spaces, params)
    ensures MatchCall(s, key, fn) == Some(CallMatch(spaces, params))
  {
  }

  /** The white space `ws` at `a`, followed by a non-space, is what `\s*` consumes there. */
  lemma SpacesAt(s: string, a: nat, ws: string, fn: string)
    requires (forall i :: 0 <= i < |ws| ==> IsSpace(ws[i])) && |fn| > 0 && !IsSpace(fn[0])
    requires a + |ws| + |fn| <= |s| && s[a..a + |ws|] == ws && s[a + |ws|..a + |ws| + |fn|] == fn
    ensures LeadingSpaces(s, a) == |ws|
  {
    assert forall i :: 0 <= i < |ws| ==> s[a + i] == ws[i];
    assert s[a + |ws|] == fn[0];
    LeadingSpacesUnique(s, a, |ws|);
  }

  /** Parameters free of `)` at `from`, followed by `)`: the first `)` from there ends them. */
  lemma CloseAt(s: string, from: nat, params: string)
    requires ')' !in params && from + |params| < |s|
    requires s[from..from + |params|] == params && s[from + |params|] == ')'
    ensures IndexOfChar(s, ')', from) == Some(from + |params|)
  {
    assert forall i :: 0 <= i < |params| ==> s[from + i] == params[i];
  }

  /** The gradient pattern `background:\s*linear-gradient\(([^)]+)\)` at the start of `s`. */
  function MatchGradient(s: string): (m: Option<CallMatch>)
    ensures m.Some? ==> CallLength(GradientKey, GradientFunction, m.value) <= |s|
  {
    MatchCall(s, GradientKey, GradientFunction)
  }

  function GradientText(ws: string, params: string): string {
    CallText(GradientKey, ws, GradientFunction, params)
  }

  /** The direction class: `45deg` wins over `135deg`, and `to-r` is the default. */
  function Direction(angle: string): string {
    if Contains(angle, "45deg") then "to-tr"
    else if Contains(angle, "135deg") then "to-br"
    else "to-r"
  }

  /** The replacement callback: three or more parameters become a comment, fewer keep the match. */
  function GradientReplacement(matched: string, params: string): string {
    var parts := TrimAll(Split(params, ','));
    if |parts| >= 3 then
      "/* bg-gradient-" + Direction(parts[0]) + " from-[" + Split(parts[1], ' ')[0]
      + "] to-[" + Split(parts[2], ' ')[0] + "] */"
    else matched
  }

  /** `convertGradientToUno`: matches are found left to right and do not overlap. */
  function Gradient(css: string): string
    decreases |css|
  {
    if |css| == 0 then ""
    else
      match MatchGradient(css)
      case Some(g) =>
        var n := CallLength(GradientKey, GradientFunction, g);
        GradientReplacement(css[..n], g.params) + Gradient(css[n..])
      case None => [css[0]] + Gradient(css[1..])
  }

  /** A gradient declaration at the start is replaced and the scan resumes after it. */
  lemma GradientDeclaration(ws: string, params: string, rest: string)
    requires CallForm(ws, params)
    ensures Gradient(GradientText(ws, params) + rest)
            == GradientReplacement(GradientText(ws, params), params) + Gradient(rest)
  {
    var s := GradientText(ws, params) + rest;
    MatchCallOf(GradientKey, ws, GradientFunction, params, rest);
    var n := CallLength(GradientKey, GradientFunction, CallMatch(|ws|, params));
    assert n == |GradientText(ws, params)|;
    assert s[..n] == GradientText(ws, params) && s[n..] == rest;
  }

  /** Without `background:` the gradient step changes nothing. */
  lemma {:induction false} GradientInert(css: string)
    requires !Contains(css, GradientKey)
    ensures Gradient(css) == css
    decreases |css|
  {
    if |css| > 0 {
      if IsPrefix(GradientKey, css) {
        OccursAtPrefix(css, GradientKey);
      }
      if Contains(css[1..], GradientKey) {
        ContainsSuffix(css, 1, GradientKey);
      }
      GradientSkips(css);
      GradientInert(css[1..]);
      assert css == [css[0]] + css[1..];
    }
  }

  /** Where no declaration starts, the gradient step copies one character and moves on. */
  lemma GradientSkips(css: string)
    requires |css| > 0 && !IsPrefix(GradientKey, css)
    ensures Gradient(css) == [css[0]] + Gradient(css[1..])
  {
    assert MatchGradient(css).None?;
  }
  // ---------------------------------------------------------------------------
  // The rule pipeline and the stylesheet
  // ---------------------------------------------------------------------------

  /** One rule through the steps of `convertCssToUnoCSS`, in the source's order. */
  function ConvertRule(rule: string): string {
    Gradient(Grid(Flexbox(FontSizes(Spacing(Colors(rule))))))
  }

  /** `convertCssToUnoCSS`: every rule converted, joined by a blank line. */
  function ConvertCss(styles: seq<string>): string {
    Join(ConvertRules(styles), "\n\n")
  }

  function ConvertRules(styles: seq<string>): (r: seq<string>)
    ensures |r| == |styles|
    ensures forall i :: 0 <= i < |styles| ==> r[i] == ConvertRule(styles[i])
  {
    MapEach(ConvertRule, styles)
  }

  /** A rule holding nothing any step looks for. */
  predicate Inert(rule: string) {
    && Untouched(ColorRewrites, Lower(rule))
    && Untouched(SpacingRewrites, rule)
    && !Contains(rule, "font-size: ")
    && Untouched(FlexMap, rule)
    && Untouched(GridMap, rule)
    && !Contains(rule, GradientKey)
  }

  /** A rule holding nothing any step looks for comes out exactly as it went in. */
  lemma ConvertRuleInert(rule: string)
    requires Inert(rule)
    ensures ConvertRule(rule) == rule
  {
    ColorTableShape();
    ReplaceEachFoldedInert(ColorRewrites, rule);
    SpacingTableShape();
    ReplaceEachInert(SpacingRewrites, rule);
    FontSizesWithInert(FontSizeMap, rule);
    FlexTableShape();
    ReplaceEachInert(FlexMap, rule);
    GridTableShape();
    ReplaceEachInert(GridMap, rule);
    GradientInert(rule);
  }

  /** A stylesheet of inert rules is the rules joined by blank lines. */
  lemma ConvertCssInert(styles: seq<string>)
    requires forall i :: 0 <= i < |styles| ==> Inert(styles[i])
    ensures ConvertCss(styles) == Join(styles, "\n\n")
  {
    InertRulesFixed(styles);
    ConvertRulesFixed(styles);
  }

  lemma InertRulesFixed(styles: seq<string>)
    requires forall i :: 0 <= i < |styles| ==> Inert(styles[i])
    ensures forall i :: 0 <= i < |styles| ==> ConvertRule(styles[i]) == styles[i]
  {
    forall i | 0 <= i < |styles| ensures ConvertRule(styles[i]) == styles[i] {
      ConvertRuleInert(styles[i]);
    }
  }

  lemma ConvertRulesFixed(styles: seq<string>)
    requires forall i :: 0 <= i < |styles| ==> ConvertRule(styles[i]) == styles[i]
    ensures ConvertRules(styles) == styles
  {
  }

  /**
   * The grid table's `gap: 20px` entry never fires: the spacing step has
   * already turned every `20px` into `var(--un-spacing-5)`, and neither the
   * font-size comments nor the flexbox comments bring one back.
   */
  lemma GapTwentyNeverReachesGrid(rule: string)
    ensures !Contains(Flexbox(FontSizes(Spacing(Colors(rule)))), "gap: 20px")
  {
    var spaced := Spacing(Colors(rule));
    SpacingClearsTwenty(Colors(rule));
    FontCommentsAvoidTwenty();
    FontSizesWithKeepsAbsent(FontSizeMap, spaced, "20px");
    FlexCommentsAvoidTwenty();
    FlexTableShape();
    ReplaceEachKeepsAbsent(FlexMap, FontSizes(spaced), "20px");
    TwentyInGap();
    NotContainsWider(Flexbox(FontSizes(spaced)), "20px", "gap: 20px");
  }

  lemma SpacingClearsTwenty(rule: string)
    ensures !Contains(Spacing(rule), "20px")
  {
    SpacingTableShape();
    ReplaceEachClears(SpacingRewrites, rule, 1);
  }

  lemma TwentyInGap()
    ensures Contains("gap: 20px", "20px")
  {
    assert OccursAt("gap: 20px", "20px", 5);
  }

  /** A replacement lacking a character of `q`, and starting and ending outside `q`, avoids `q`. */
  lemma AvoidsByChar(q: string, r: string, c: char)
    requires c in q && c !in r && |r| > 0 && r[0] !in q && r[|r| - 1] !in q
    ensures Avoids(q, r)
  {
    NoCharNoContains(r, q, c);
  }

  lemma FontCommentsAvoidTwenty()
    ensures forall k :: 0 <= k < |FontSizeMap| ==> Avoids("20px", FontComment(FontSizeMap[k].1))
  {
    forall k | 0 <= k < |FontSizeMap| ensures Avoids("20px", FontComment(FontSizeMap[k].1)) {
      var cls := FontSizeMap[k].1;
      assert '0' !in cls;
      AvoidsByChar("20px", FontComment(cls), '0');
    }
  }

  lemma FlexCommentsAvoidTwenty()
    ensures forall k :: 0 <= k < |FlexMap| ==> Avoids("20px", FlexMap[k].1)
  {
    forall k | 0 <= k < |FlexMap| ensures Avoids("20px", FlexMap[k].1) {
      AvoidsByChar("20px", FlexMap[k].1, '0');
    }
  }
}
