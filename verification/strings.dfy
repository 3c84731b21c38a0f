/**
 * The JavaScript string operations the pipeline relies on, written out on
 * `seq<char>`: `includes`, `startsWith`/`endsWith`, `trim`, `split` on one
 * character, `join`, literal `replace`/`replaceAll`, ASCII case mapping and
 * decimal formatting of naturals.
 */
module Strings {
  import opened Common

  // ---------------------------------------------------------------------------
  // Characters
  // ---------------------------------------------------------------------------

  /** The characters JavaScript's `\s` and `String.prototype.trim` treat as white space. */
  predicate IsSpace(c: char) {
    || c == ' ' || c == '\t' || c == '\n' || c == '\U{000B}' || c == '\U{000C}' || c == '\r'
    || c == '\U{00A0}' || c == '\U{1680}' || ('\U{2000}' <= c <= '\U{200A}')
    || c == '\U{2028}' || c == '\U{2029}' || c == '\U{202F}' || c == '\U{205F}'
    || c == '\U{3000}' || c == '\U{FEFF}'
  }

  predicate IsDigit(c: char) { '0' <= c <= '9' }

  predicate IsUpper(c: char) { 'A' <= c <= 'Z' }

  predicate IsLower(c: char) { 'a' <= c <= 'z' }

  /** `[a-zA-Z0-9]` */
  predicate IsAlnum(c: char) { IsDigit(c) || IsUpper(c) || IsLower(c) }

  /** `\w`: `[A-Za-z0-9_]` */
  predicate IsWordChar(c: char) { IsAlnum(c) || c == '_' }

  function LowerChar(c: char): (r: char)
    ensures IsUpper(c) ==> IsLower(r)
    ensures !IsUpper(c) ==> r == c
  {
    if IsUpper(c) then (c as int + 32) as char else c
  }

  function UpperChar(c: char): (r: char)
    ensures IsLower(c) ==> IsUpper(r)
    ensures !IsLower(c) ==> r == c
  {
    if IsLower(c) then (c as int - 32) as char else c
  }

  /** `toLowerCase` restricted to ASCII letters. */
  function Lower(s: string): (r: string)
    ensures |r| == |s|
    ensures forall i :: 0 <= i < |s| ==> r[i] == LowerChar(s[i])
  {
    if |s| == 0 then "" else [LowerChar(s[0])] + Lower(s[1..])
  }

  /** Keeps the characters satisfying `IsAlnum`: `replace(/[^a-zA-Z0-9]/g, '')`. */
  function FilterAlnum(s: string): (r: string)
    ensures |r| <= |s|
    ensures forall i :: 0 <= i < |r| ==> IsAlnum(r[i])
    ensures (forall i :: 0 <= i < |s| ==> IsAlnum(s[i])) ==> r == s
  {
    if |s| == 0 then ""
    else if IsAlnum(s[0]) then [s[0]] + FilterAlnum(s[1..])
    else FilterAlnum(s[1..])
  }

  /** `s.replace(/[^…]/g, '')`: keeps the characters `ok` accepts, in order. */
  function Keep(s: string, ok: char -> bool): (r: string)
    ensures |r| <= |s|
    ensures forall i :: 0 <= i < |r| ==> ok(r[i])
  {
    if |s| == 0 then "" else (if ok(s[0]) then [s[0]] else "") + Keep(s[1..], ok)
  }

  /** Filtering works piece by piece. */
  lemma {:induction false} KeepConcat(a: string, b: string, ok: char -> bool)
    ensures Keep(a + b, ok) == Keep(a, ok) + Keep(b, ok)
    decreases |a|
  {
    if |a| == 0 {
      assert a + b == b;
    } else {
      assert (a + b)[1..] == a[1..] + b;
      KeepConcat(a[1..], b, ok);
    }
  }

  /** A string whose every character is accepted is kept whole. */
  lemma {:induction false} KeepAll(s: string, ok: char -> bool)
    requires forall i :: 0 <= i < |s| ==> ok(s[i])
    ensures Keep(s, ok) == s
    decreases |s|
  {
    if |s| > 0 {
      KeepAll(s[1..], ok);
      assert [s[0]] + s[1..] == s;
    }
  }

  /** A string with no accepted character is dropped entirely. */
  lemma {:induction false} KeepNone(s: string, ok: char -> bool)
    requires forall i :: 0 <= i < |s| ==> !ok(s[i])
    ensures Keep(s, ok) == ""
    decreases |s|
  {
    if |s| > 0 {
      KeepNone(s[1..], ok);
    }
  }

  /** `s.slice(0, n)`. */
  function Take(s: string, n: nat): (r: string)
    ensures |r| <= n && IsPrefix(r, s)
    ensures |s| <= n ==> r == s
  {
    if |s| <= n then s else s[..n]
  }

  /** `s.charAt(0).toUpperCase() + s.slice(1)`. */
  function Capitalize(s: string): (r: string)
    ensures |r| == |s|
    ensures |s| > 0 ==> r[0] == UpperChar(s[0]) && r[1..] == s[1..]
  {
    if |s| == 0 then "" else [UpperChar(s[0])] + s[1..]
  }

  // ---------------------------------------------------------------------------
  // Substrings
  // ---------------------------------------------------------------------------

  predicate IsPrefix(p: string, s: string) {
    |p| <= |s| && s[..|p|] == p
  }

  predicate IsSuffix(p: string, s: string) {
    |p| <= |s| && s[|s| - |p|..] == p
  }

  /** A string glued from three pieces starts with the first and ends with the last. */
  lemma Ends(a: string, b: string, c: string)
    ensures IsPrefix(a, a + b + c) && IsSuffix(c, a + b + c)
  {
    assert (a + b + c)[..|a|] == a;
    assert (a + b + c)[|a + b + c| - |c|..] == c;
  }

  /** A text is a prefix of itself followed by anything. */
  lemma PrefixConcat(a: string, b: string)
    ensures IsPrefix(a, a + b)
  {
    assert (a + b)[..|a|] == a;
  }

  /** A prefix of a prefix is a prefix. */
  lemma PrefixTrans(a: string, b: string, c: string)
    requires IsPrefix(a, b) && IsPrefix(b, c)
    ensures IsPrefix(a, c)
  {
    assert c[..|a|] == c[..|b|][..|a|];
  }

  /** `p` occurs in `s` starting at index `i`. */
  predicate OccursAt(s: string, p: string, i: int) {
    0 <= i && i + |p| <= |s| && s[i..i + |p|] == p
  }

  /** `s.includes(p)`. */
  predicate Contains(s: string, p: string) {
    exists i | 0 <= i <= |s| :: OccursAt(s, p, i)
  }

  lemma OccursAtPrefix(s: string, p: string)
    requires IsPrefix(p, s)
    ensures Contains(s, p)
  {
    assert OccursAt(s, p, 0);
  }

  /** An occurrence in a suffix is an occurrence in the whole string. */
  lemma ContainsSuffix(s: string, k: nat, p: string)
    requires k <= |s|
    requires Contains(s[k..], p)
    ensures Contains(s, p)
  {
    var i :| 0 <= i <= |s[k..]| && OccursAt(s[k..], p, i);
    assert s[k + i..k + i + |p|] == s[k..][i..i + |p|];
    assert OccursAt(s, p, k + i);
  }

  /** An occurrence in a prefix is an occurrence in the whole string. */
  lemma ContainsPrefixPart(s: string, k: nat, p: string)
    requires k <= |s|
    requires Contains(s[..k], p)
    ensures Contains(s, p)
  {
    var i :| 0 <= i <= |s[..k]| && OccursAt(s[..k], p, i);
    assert s[i..i + |p|] == s[..k][i..i + |p|];
    assert OccursAt(s, p, i);
  }

  /** Occurrence in `a + b`: inside `b`, or starting inside `a`. */
  lemma ContainsConcat(a: string, b: string, p: string)
    requires Contains(a + b, p)
    ensures Contains(b, p) || exists i :: 0 <= i < |a| && OccursAt(a + b, p, i)
  {
    var i :| 0 <= i <= |a + b| && OccursAt(a + b, p, i);
    if i >= |a| {
      assert (a + b)[i..i + |p|] == b[i - |a|..i - |a| + |p|];
      assert OccursAt(b, p, i - |a|);
    }
  }

  /** `c` appears in `s` */
  predicate HasChar(s: string, c: char) {
    exists i :: 0 <= i < |s| && s[i] == c
  }

  /** The first index at or after `from` holding `c`: `s.indexOf(c, from)`. */
  function IndexOfChar(s: string, c: char, from: nat): (r: Option<nat>)
    ensures r.Some? ==> from <= r.value < |s| && s[r.value] == c
                        && forall j :: from <= j < r.value ==> s[j] != c
    ensures r.None? ==> forall j :: from <= j < |s| ==> s[j] != c
    decreases |s| - from
  {
    if from >= |s| then None
    else if s[from] == c then Some(from)
    else IndexOfChar(s, c, from + 1)
  }

  lemma IndexOfCharAt(s: string, c: char, from: nat, k: nat)
    requires from <= k < |s| && s[k] == c
    requires forall j :: from <= j < k ==> s[j] != c
    ensures IndexOfChar(s, c, from) == Some(k)
  {
  }

  /** The first index at or after `from` where `p` occurs: `s.indexOf(p, from)`. */
  function IndexOfString(s: string, p: string, from: nat): (r: Option<nat>)
    ensures r.Some? ==> from <= r.value && OccursAt(s, p, r.value)
                        && forall j :: from <= j < r.value ==> !OccursAt(s, p, j)
    ensures r.None? ==> forall j :: from <= j ==> !OccursAt(s, p, j)
    decreases |s| - from
  {
    if from + |p| > |s| then None
    else if s[from..from + |p|] == p then Some(from)
    else IndexOfString(s, p, from + 1)
  }

  lemma IndexOfStringAt(s: string, p: string, from: nat, k: nat)
    requires from <= k && OccursAt(s, p, k)
    requires forall j :: from <= j < k ==> !OccursAt(s, p, j)
    ensures IndexOfString(s, p, from) == Some(k)
  {
  }

  // ---------------------------------------------------------------------------
  // Trimming
  // ---------------------------------------------------------------------------

  function TrimStart(s: string): (r: string)
    ensures |r| <= |s| && r == s[|s| - |r|..]
    ensures |r| > 0 ==> !IsSpace(r[0])
    ensures forall i :: 0 <= i < |s| - |r| ==> IsSpace(s[i])
  {
    if |s| > 0 && IsSpace(s[0]) then TrimStart(s[1..]) else s
  }

  function TrimEnd(s: string): (r: string)
    ensures |r| <= |s| && r == s[..|r|]
    ensures |r| > 0 ==> !IsSpace(r[|r| - 1])
    ensures forall i :: |r| <= i < |s| ==> IsSpace(s[i])
  {
    if |s| > 0 && IsSpace(s[|s| - 1]) then TrimEnd(s[..|s| - 1]) else s
  }

  /** `xs.map(f)`: each string transformed on its own, in order. */
  function MapEach(f: string -> string, xs: seq<string>): (r: seq<string>)
    ensures |r| == |xs|
    ensures forall i :: 0 <= i < |xs| ==> r[i] == f(xs[i])
  {
    if |xs| == 0 then [] else [f(xs[0])] + MapEach(f, xs[1..])
  }

  /**
   * `String.prototype.trim`: the longest infix of `s` that neither starts nor
   * ends with white space, with only white space cut off either side.
   */
  function Trim(s: string): (r: string)
    ensures |r| <= |s|
    ensures |r| > 0 ==> !IsSpace(r[0]) && !IsSpace(r[|r| - 1])
    ensures exists k :: TrimmedAt(s, r, k)
  {
    var a := TrimStart(s);
    var r := TrimEnd(a);
    var k := |s| - |a|;
    assert TrimmedAt(s, r, k);
    r
  }

  /** `r` is `s[k..k + |r|]` and everything of `s` outside it is white space. */
  predicate TrimmedAt(s: string, r: string, k: int) {
    && 0 <= k <= |s| - |r| && r == s[k..k + |r|]
    && (forall i :: 0 <= i < k ==> IsSpace(s[i]))
    && (forall i :: k + |r| <= i < |s| ==> IsSpace(s[i]))
  }

  /** Trimming a string without white space at either end changes nothing. */
  lemma TrimUnchanged(s: string)
    requires |s| > 0 ==> !IsSpace(s[0]) && !IsSpace(s[|s| - 1])
    ensures Trim(s) == s
  {
  }

  /** `parts.map(p => p.trim())` */
  function TrimAll(parts: seq<string>): (r: seq<string>)
    ensures |r| == |parts|
    ensures forall i :: 0 <= i < |parts| ==> r[i] == Trim(parts[i])
  {
    MapEach(Trim, parts)
  }

  // ---------------------------------------------------------------------------
  // split / join
  // ---------------------------------------------------------------------------

  /** A character of a concatenation comes from one of its halves. */
  lemma HasCharConcat(a: string, b: string, c: char)
    ensures HasChar(a + b, c) <==> HasChar(a, c) || HasChar(b, c)
  {
    if HasChar(a + b, c) {
      var i :| 0 <= i < |a + b| && (a + b)[i] == c;
      if i < |a| { assert a[i] == c; } else { assert b[i - |a|] == c; }
    }
    if HasChar(a, c) {
      var i :| 0 <= i < |a| && a[i] == c;
      assert (a + b)[i] == c;
    }
    if HasChar(b, c) {
      var i :| 0 <= i < |b| && b[i] == c;
      assert (a + b)[|a| + i] == c;
    }
  }

  /** Joining a concatenation of piece lists: the two joins, with one separator between them. */
  lemma {:induction false} JoinAppend(a: seq<string>, b: seq<string>, sep: string)
    requires |a| > 0 && |b| > 0
    ensures Join(a + b, sep) == Join(a, sep) + sep + Join(b, sep)
    decreases |a|
  {
    if |a| == 1 {
      assert (a + b)[1..] == b;
    } else {
      assert (a + b)[1..] == a[1..] + b;
      JoinAppend(a[1..], b, sep);
    }
  }

  /** `s.split(sep)` for a one-character separator: never empty. */
  function Split(s: string, sep: char): (r: seq<string>)
    ensures |r| >= 1
    ensures forall k, i :: 0 <= k < |r| && 0 <= i < |r[k]| ==> r[k][i] != sep
  {
    if |s| == 0 then [""]
    else
      var rest := Split(s[1..], sep);
      if s[0] == sep then [""] + rest
      else [[s[0]] + rest[0]] + rest[1..]
  }

  /** `parts.join(sep)`. */
  function Join(parts: seq<string>, sep: string): string {
    if |parts| == 0 then ""
    else if |parts| == 1 then parts[0]
    else parts[0] + sep + Join(parts[1..], sep)
  }

  /** Joining the pieces of a split with the separator restores the string. */
  lemma {:induction false} JoinSplit(s: string, sep: char)
    ensures Join(Split(s, sep), [sep]) == s
  {
    if |s| > 0 {
      var rest := Split(s[1..], sep);
      JoinSplit(s[1..], sep);
      if s[0] == sep {
        assert Split(s, sep) == [""] + rest;
      } else {
        var r := Split(s, sep);
        assert r == [[s[0]] + rest[0]] + rest[1..];
        if |rest| == 1 {
          assert Join(r, [sep]) == [s[0]] + rest[0];
        } else {
          assert r[1..] == rest[1..];
          assert Join(rest, [sep]) == rest[0] + [sep] + Join(rest[1..], [sep]);
          assert Join(r, [sep]) == [s[0]] + rest[0] + [sep] + Join(rest[1..], [sep]);
        }
      }
    }
  }

  /** The first piece of a split is the part before the first separator. */
  lemma {:induction false} SplitHeadHasNoSep(s: string, sep: char)
    ensures IsPrefix(Split(s, sep)[0], s)
    ensures |Split(s, sep)[0]| < |s| ==> s[|Split(s, sep)[0]|] == sep
  {
    if |s| > 0 {
      SplitHeadHasNoSep(s[1..], sep);
    }
  }

  /** A string without the separator splits into itself alone. */
  lemma {:induction false} SplitNoSeparator(s: string, sep: char)
    requires !HasChar(s, sep)
    ensures Split(s, sep) == [s]
  {
    if |s| > 0 {
      assert !HasChar(s[1..], sep) by {
        forall i | 0 <= i < |s| - 1 ensures s[1..][i] != sep { assert s[1..][i] == s[i + 1]; }
      }
      SplitNoSeparator(s[1..], sep);
      assert [s[0]] + s[1..] == s;
    }
  }

  // ---------------------------------------------------------------------------
  // Literal replacement
  // ---------------------------------------------------------------------------

  /**
   * `s.replace(new RegExp(p, 'g'), r)` for a pattern with no special characters:
   * every occurrence of `p`, scanned left to right without overlap, becomes `r`.
   */
  function ReplaceAll(s: string, p: string, r: string): string
    requires |p| > 0
    decreases |s|
  {
    if |s| == 0 then ""
    else if IsPrefix(p, s) then r + ReplaceAll(s[|p|..], p, r)
    else [s[0]] + ReplaceAll(s[1..], p, r)
  }

  /** Without an occurrence of the pattern, replacement is the identity. */
  lemma {:induction false} ReplaceAllAbsent(s: string, p: string, r: string)
    requires |p| > 0
    requires !Contains(s, p)
    ensures ReplaceAll(s, p, r) == s
  {
    if |s| > 0 {
      if IsPrefix(p, s) {
        OccursAtPrefix(s, p);
      }
      if Contains(s[1..], p) {
        ContainsSuffix(s, 1, p);
      }
      ReplaceAllAbsent(s[1..], p, r);
    }
  }

  /** `s.replace(p, r)` with a string pattern: only the first occurrence is replaced. */
  function ReplaceFirst(s: string, p: string, r: string): string
    decreases |s|
  {
    if IsPrefix(p, s) then r + s[|p|..]
    else if |s| == 0 then s
    else [s[0]] + ReplaceFirst(s[1..], p, r)
  }

  /** Replacing the first occurrence of a prefix replaces that prefix. */
  lemma ReplaceFirstAtStart(p: string, rest: string, r: string)
    ensures ReplaceFirst(p + rest, p, r) == r + rest
  {
    assert IsPrefix(p, p + rest);
    assert (p + rest)[|p|..] == rest;
  }

  /** `i` is the leftmost occurrence of `p` in `s`. */
  predicate FirstOccurrence(s: string, p: string, i: int) {
    OccursAt(s, p, i) && forall j :: 0 <= j < i ==> !OccursAt(s, p, j)
  }

  /** Occurrences in `s[1..]` are the occurrences in `s` shifted by one. */
  lemma OccursShift(s: string, p: string, j: int)
    requires 0 < j <= |s|
    ensures OccursAt(s, p, j) <==> OccursAt(s[1..], p, j - 1)
  {
    if j + |p| <= |s| {
      assert s[j..j + |p|] == s[1..][j - 1..j - 1 + |p|];
    }
  }

  /** `ReplaceFirst` leaves a string without the pattern alone. */
  lemma {:induction false} ReplaceFirstAbsent(s: string, p: string, r: string)
    requires !Contains(s, p)
    ensures ReplaceFirst(s, p, r) == s
    decreases |s|
  {
    if IsPrefix(p, s) {
      OccursAtPrefix(s, p);
    } else if |s| > 0 {
      if Contains(s[1..], p) {
        ContainsSuffix(s, 1, p);
      }
      ReplaceFirstAbsent(s[1..], p, r);
      assert s == [s[0]] + s[1..];
    }
  }

  /** `ReplaceFirst` replaces exactly the leftmost occurrence of the pattern. */
  lemma {:induction false} ReplaceFirstAt(s: string, p: string, r: string, i: nat)
    requires FirstOccurrence(s, p, i)
    ensures ReplaceFirst(s, p, r) == s[..i] + r + s[i + |p|..]
    decreases i
  {
    if i == 0 {
      assert s[..|p|] == s[0..|p|];
      assert ReplaceFirst(s, p, r) == r + s[|p|..];
      assert s[..0] == [];
    } else {
      var t := s[1..];
      FirstOccurrenceShift(s, p, i);
      ReplaceFirstAt(t, p, r, i - 1);
      assert ReplaceFirst(s, p, r) == [s[0]] + ReplaceFirst(t, p, r);
      assert s[..i] == [s[0]] + t[..i - 1];
      assert s[i + |p|..] == t[i - 1 + |p|..];
    }
  }

  /** A leftmost occurrence past the start is a leftmost occurrence of the tail. */
  lemma FirstOccurrenceShift(s: string, p: string, i: nat)
    requires FirstOccurrence(s, p, i) && i > 0
    ensures !IsPrefix(p, s) && FirstOccurrence(s[1..], p, i - 1)
  {
    assert !OccursAt(s, p, 0);
    OccursShift(s, p, i);
    forall j | 0 <= j < i - 1 ensures !OccursAt(s[1..], p, j) {
      OccursShift(s, p, j + 1);
    }
  }

  /**
   * The replacement text JavaScript builds from `r` for a match of a string
   * pattern (the GetSubstitution operation of ECMAScript): `$$` gives `$`, `$&`
   * the matched text, `` $` `` the text before the match and `$'` the text after
   * it. A string pattern has no capture groups, so every other `$` is literal.
   */
  function Substitution(r: string, matched: string, before: string, after: string): (t: string)
    ensures '$' !in r ==> t == r
    decreases |r|
  {
    if |r| == 0 then ""
    else if r[0] != '$' || |r| == 1 then [r[0]] + Substitution(r[1..], matched, before, after)
    else if r[1] == '$' then "$" + Substitution(r[2..], matched, before, after)
    else if r[1] == '&' then matched + Substitution(r[2..], matched, before, after)
    else if r[1] == '`' then before + Substitution(r[2..], matched, before, after)
    else if r[1] == '\'' then after + Substitution(r[2..], matched, before, after)
    else "$" + Substitution(r[1..], matched, before, after)
  }

  /** Three dollars before a quote collapse to two: `$$` is one escaped `$`, then a literal one. */
  lemma SubstitutionDollars(matched: string, before: string, after: string)
    ensures Substitution("$$$\"", matched, before, after) == "$$\""
  {
    assert "$$$\""[2..] == "$\"";
    assert "$\""[1..] == "\"";
    assert Substitution("$\"", matched, before, after) == "$" + Substitution("\"", matched, before, after);
  }

  /** Text without `$` at the front of a replacement is copied as it is. */
  lemma {:induction false} SubstitutionLiteralPrefix(a: string, r: string, matched: string, before: string, after: string)
    requires '$' !in a
    ensures Substitution(a + r, matched, before, after) == a + Substitution(r, matched, before, after)
    decreases |a|
  {
    if |a| > 0 {
      assert (a + r)[0] == a[0] && (a + r)[1..] == a[1..] + r;
      SubstitutionLiteralPrefix(a[1..], r, matched, before, after);
      assert [a[0]] + a[1..] == a;
    } else {
      assert a + r == r;
    }
  }

  /** `$&` writes the matched text back. */
  lemma SubstitutionMatched(matched: string, before: string, after: string)
    ensures Substitution("$&", matched, before, after) == matched
  {
    assert "$&"[2..] == "";
    assert matched + "" == matched;
  }

  /**
   * `s.replace(p, r)` as JavaScript runs it with a string pattern: the first
   * occurrence gives way to `r` with its `$` patterns expanded.
   */
  function ReplacePattern(s: string, p: string, r: string): string {
    match IndexOfString(s, p, 0)
    case None => s
    case Some(i) => s[..i] + Substitution(r, p, s[..i], s[i + |p|..]) + s[i + |p|..]
  }

  /** A replacement without `$` is taken literally: the program's `.replace` is `ReplaceFirst`. */
  lemma ReplacePatternLiteral(s: string, p: string, r: string)
    requires '$' !in r
    ensures ReplacePattern(s, p, r) == ReplaceFirst(s, p, r)
  {
    match IndexOfString(s, p, 0)
    case None =>
      ReplaceFirstAbsent(s, p, r);
    case Some(i) =>
      ReplaceFirstAt(s, p, r, i);
  }

  /** The leftmost occurrence of the pattern gives way to the expanded replacement. */
  lemma ReplacePatternAt(s: string, p: string, r: string, i: nat)
    requires FirstOccurrence(s, p, i)
    ensures ReplacePattern(s, p, r) == s[..i] + Substitution(r, p, s[..i], s[i + |p|..]) + s[i + |p|..]
  {
    IndexOfStringAt(s, p, 0, i);
    assert IndexOfString(s, p, 0) == Some(i);
    var before, after := s[..i], s[i + |p|..];
    assert ReplacePattern(s, p, r) == before + Substitution(r, p, before, after) + after;
  }

  /** The program's `.replace` is `ReplaceFirst` of the expanded replacement. */
  lemma ReplacePatternAsFirst(s: string, p: string, r: string, i: nat)
    requires FirstOccurrence(s, p, i)
    ensures ReplacePattern(s, p, r) == ReplaceFirst(s, p, Substitution(r, p, s[..i], s[i + |p|..]))
  {
    ReplacePatternAt(s, p, r, i);
    ReplaceFirstAt(s, p, Substitution(r, p, s[..i], s[i + |p|..]), i);
  }

  /** A string lacking one of the pattern's characters does not contain it. */
  lemma NoCharNoContains(s: string, q: string, c: char)
    requires c in q && c !in s
    ensures !Contains(s, q)
  {
    var k :| 0 <= k < |q| && q[k] == c;
    forall i | 0 <= i <= |s| ensures !OccursAt(s, q, i) {
      if i + |q| <= |s| {
        assert s[i..i + |q|][k] == s[i + k];
      }
    }
  }

  /** Containment is transitive. */
  lemma ContainsTransitive(s: string, q: string, p: string)
    requires Contains(s, q) && Contains(q, p)
    ensures Contains(s, p)
  {
    var i :| 0 <= i <= |s| && OccursAt(s, q, i);
    var j :| 0 <= j <= |q| && OccursAt(q, p, j);
    forall k | 0 <= k < |p| ensures s[i + j + k] == p[k] {
      assert s[i..i + |q|][j + k] == q[j + k];
      assert q[j..j + |p|][k] == p[k];
    }
    assert s[i + j..i + j + |p|] == p;
    assert OccursAt(s, p, i + j);
  }

  /** A string that does not contain `q` contains nothing that contains `q`. */
  lemma NotContainsWider(s: string, q: string, w: string)
    requires !Contains(s, q) && Contains(w, q)
    ensures !Contains(s, w)
  {
    if Contains(s, w) {
      ContainsTransitive(s, w, q);
    }
  }

  /** The leftmost occurrence of a contained pattern exists. */
  lemma FirstOccurrenceExists(s: string, p: string) returns (i: nat)
    requires Contains(s, p)
    ensures i <= |s| && FirstOccurrence(s, p, i)
  {
    var found := IndexOfString(s, p, 0);
    i := found.value;
  }

  /** Skipping leading white space before a non-space character lands on that character. */
  lemma {:induction false} TrimStartSpaces(ws: string, x: string)
    requires forall i :: 0 <= i < |ws| ==> IsSpace(ws[i])
    requires |x| > 0 && !IsSpace(x[0])
    ensures TrimStart(ws + x) == x
    decreases |ws|
  {
    if |ws| > 0 {
      assert (ws + x)[1..] == ws[1..] + x;
      TrimStartSpaces(ws[1..], x);
    } else {
      assert ws + x == x;
    }
  }

  /** Text without upper-case letters is its own lower case. */
  lemma {:induction false} LowerFixes(s: string)
    requires forall i :: 0 <= i < |s| ==> !IsUpper(s[i])
    ensures Lower(s) == s
  {
    assert forall i :: 0 <= i < |s| ==> Lower(s)[i] == s[i];
  }

  /** Lower-casing works character by character. */
  lemma {:induction false} LowerConcat(a: string, b: string)
    ensures Lower(a + b) == Lower(a) + Lower(b)
  {
    var l, r := Lower(a + b), Lower(a) + Lower(b);
    forall i | 0 <= i < |l|
      ensures l[i] == r[i]
    {
      if i < |a| {
        assert (a + b)[i] == a[i] && r[i] == Lower(a)[i];
      } else {
        assert (a + b)[i] == b[i - |a|] && r[i] == Lower(b)[i - |a|];
      }
    }
  }

  lemma {:induction false} LowerSlices(s: string, k: nat)
    requires k <= |s|
    ensures Lower(s)[..k] == Lower(s[..k]) && Lower(s)[k..] == Lower(s[k..])
  {
    var l := Lower(s);
    assert forall i :: 0 <= i < k ==> l[..k][i] == LowerChar(s[i]) == Lower(s[..k])[i];
    assert forall i :: 0 <= i < |s| - k ==> l[k..][i] == LowerChar(s[k + i]) == Lower(s[k..])[i];
  }

  /** A separator-free first piece splits off on its own. */
  lemma {:induction false} SplitAfterPiece(x: string, sep: char, y: string)
    requires !HasChar(x, sep)
    ensures Split(x + [sep] + y, sep) == [x] + Split(y, sep)
    decreases |x|
  {
    if |x| == 0 {
      assert x + [sep] + y == [sep] + y;
      assert ([sep] + y)[1..] == y;
    } else {
      assert !HasChar(x[1..], sep) by {
        forall i | 0 <= i < |x| - 1 ensures x[1..][i] != sep { assert x[1..][i] == x[i + 1]; }
      }
      SplitAfterPiece(x[1..], sep, y);
      assert (x + [sep] + y)[1..] == x[1..] + [sep] + y;
      assert [x[0]] + x[1..] == x;
    }
  }

  /** Splitting a join of separator-free pieces gives the pieces back. */
  lemma {:induction false} SplitJoin(parts: seq<string>, sep: char)
    requires |parts| >= 1
    requires forall k :: 0 <= k < |parts| ==> !HasChar(parts[k], sep)
    ensures Split(Join(parts, [sep]), sep) == parts
    decreases |parts|
  {
    if |parts| == 1 {
      SplitNoSeparator(parts[0], sep);
    } else {
      SplitJoin(parts[1..], sep);
      SplitAfterPiece(parts[0], sep, Join(parts[1..], [sep]));
      assert [parts[0]] + parts[1..] == parts;
    }
  }

  /**
   * Neither half contains `p`, and an occurrence across the seam would have to
   * cover a character of `p` on one side of it: then the whole does not contain `p`.
   */
  lemma NotContainsConcat(x: string, y: string, p: string)
    requires !Contains(x, p) && !Contains(y, p)
    requires (|x| > 0 && x[|x| - 1] !in p) || (|y| > 0 && y[0] !in p)
    ensures !Contains(x + y, p)
  {
    var s := x + y;
    forall i | 0 <= i <= |s| ensures !OccursAt(s, p, i) {
      if i + |p| <= |s| {
        if i + |p| <= |x| {
          assert s[i..i + |p|] == x[i..i + |p|];
          assert !OccursAt(x, p, i);
        } else if i >= |x| {
          assert s[i..i + |p|] == y[i - |x|..i - |x| + |p|];
          assert !OccursAt(y, p, i - |x|);
        } else if |x| > 0 && x[|x| - 1] !in p {
          assert s[i..i + |p|][|x| - 1 - i] == x[|x| - 1];
        } else {
          assert s[i..i + |p|][|x| - i] == y[0];
        }
      }
    }
  }

  /**
   * When `a` holds no occurrence of `p` and ends in a character `p` lacks, the
   * `p` right after `a` is the leftmost occurrence.
   */
  lemma FirstAfter(a: string, p: string, b: string)
    requires !Contains(a, p)
    requires |a| > 0 && a[|a| - 1] !in p
    ensures FirstOccurrence(a + p + b, p, |a|)
  {
    var s := a + p + b;
    assert s[|a|..|a| + |p|] == p;
    forall j | 0 <= j < |a| ensures !OccursAt(s, p, j) {
      if j + |p| <= |s| {
        if j + |p| <= |a| {
          assert s[j..j + |p|] == a[j..j + |p|];
          assert !OccursAt(a, p, j);
        } else {
          assert s[j..j + |p|][|a| - 1 - j] == a[|a| - 1];
        }
      }
    }
  }

  /** A replacement that cannot start inside a prefix keeps the prefix. */
  lemma {:induction false} ReplaceFirstKeepsPrefix(s: string, p: string, r: string, pre: string)
    requires IsPrefix(pre, s)
    requires |p| > 0 && p[0] !in pre
    ensures IsPrefix(pre, ReplaceFirst(s, p, r))
    decreases |pre|
  {
    if |pre| > 0 {
      assert s[0] == pre[0];
      assert !IsPrefix(p, s);
      assert IsPrefix(pre[1..], s[1..]) by {
        assert s[1..][..|pre| - 1] == s[..|pre|][1..];
      }
      assert forall k :: 0 <= k < |pre| - 1 ==> pre[1..][k] == pre[k + 1];
      ReplaceFirstKeepsPrefix(s[1..], p, r, pre[1..]);
      assert ReplaceFirst(s, p, r) == [s[0]] + ReplaceFirst(s[1..], p, r);
    }
  }

  // ---------------------------------------------------------------------------
  // Decimal numbers
  // ---------------------------------------------------------------------------

  function DigitChar(d: nat): (c: char)
    requires d < 10
    ensures IsDigit(c)
  {
    ('0' as int + d) as char
  }

  function DigitValue(c: char): (d: nat)
    requires IsDigit(c)
    ensures d < 10
  {
    c as int - '0' as int
  }

  /** `String(n)` for a natural number. */
  function NatToString(n: nat): (r: string)
    ensures |r| > 0
    ensures forall i :: 0 <= i < |r| ==> IsDigit(r[i])
  {
    if n < 10 then [DigitChar(n)] else NatToString(n / 10) + [DigitChar(n % 10)]
  }

  /** The value of a string of decimal digits. */
  function DigitsValue(s: string): nat
    requires forall i :: 0 <= i < |s| ==> IsDigit(s[i])
  {
    if |s| == 0 then 0 else DigitsValue(s[..|s| - 1]) * 10 + DigitValue(s[|s| - 1])
  }

  /** Formatting then reading back a natural number gives it back. */
  lemma {:induction false} DigitsValueOfNatToString(n: nat)
    ensures DigitsValue(NatToString(n)) == n
  {
    if n >= 10 {
      var s := NatToString(n);
      assert s[..|s| - 1] == NatToString(n / 10);
      DigitsValueOfNatToString(n / 10);
    }
  }

  /** Decimal formatting is injective. */
  lemma NatToStringInjective(m: nat, n: nat)
    requires NatToString(m) == NatToString(n)
    ensures m == n
  {
    DigitsValueOfNatToString(m);
    DigitsValueOfNatToString(n);
  }

  /** `String(n).padStart(width, '0')`: zero-padded to at least `width` digits. */
  function PadNat(n: nat, width: nat): (r: string)
    ensures |r| >= width
    ensures forall i :: 0 <= i < |r| ==> IsDigit(r[i])
  {
    var s := NatToString(n);
    if |s| >= width then s else Zeros(width - |s|) + s
  }

  function Zeros(k: nat): (r: string)
    ensures |r| == k
    ensures forall i :: 0 <= i < k ==> r[i] == '0'
  {
    if k == 0 then "" else "0" + Zeros(k - 1)
  }

  lemma {:induction false} DigitsValueLeadingZeros(k: nat, s: string)
    requires forall i :: 0 <= i < |s| ==> IsDigit(s[i])
    ensures DigitsValue(Zeros(k) + s) == DigitsValue(s)
    decreases |s|
  {
    if |s| == 0 {
      DigitsValueOfZeros(k);
      assert Zeros(k) + s == Zeros(k);
    } else {
      var t := Zeros(k) + s;
      assert t[..|t| - 1] == Zeros(k) + s[..|s| - 1];
      DigitsValueLeadingZeros(k, s[..|s| - 1]);
    }
  }

  lemma {:induction false} DigitsValueOfZeros(k: nat)
    ensures DigitsValue(Zeros(k)) == 0
  {
    if k > 0 {
      var z := Zeros(k);
      assert z[..|z| - 1] == Zeros(k - 1) by {
        ZerosSplit(k);
      }
      DigitsValueOfZeros(k - 1);
    }
  }

  lemma ZerosSplit(k: nat)
    requires k > 0
    ensures Zeros(k) == Zeros(k - 1) + "0"
  {
    assert forall i :: 0 <= i < k ==> Zeros(k)[i] == (Zeros(k - 1) + "0")[i];
  }

  /** Reading a zero-padded number back gives the number. */
  lemma PadNatValue(n: nat, width: nat)
    ensures DigitsValue(PadNat(n, width)) == n
  {
    DigitsValueOfNatToString(n);
    var s := NatToString(n);
    if |s| < width {
      DigitsValueLeadingZeros(width - |s|, s);
    }
  }

  /** A number below `10^width` pads to exactly `width` digits. */
  lemma NatToStringLength(n: nat, width: nat)
    requires width >= 1 && n < Pow10(width)
    ensures |NatToString(n)| <= width
    ensures |PadNat(n, width)| == width
  {
    NatToStringBound(n, width);
  }

  function Pow10(k: nat): (r: nat)
    ensures r >= 1
  {
    if k == 0 then 1 else 10 * Pow10(k - 1)
  }

  lemma {:induction false} NatToStringBound(n: nat, width: nat)
    requires width >= 1 && n < Pow10(width)
    ensures |NatToString(n)| <= width
  {
    if n >= 10 {
      assert width >= 2;
      assert n / 10 < Pow10(width - 1);
      NatToStringBound(n / 10, width - 1);
    }
  }

  predicate AllDigits(s: string) {
    forall i :: 0 <= i < |s| ==> IsDigit(s[i])
  }

  /** The last `w` decimal digits of `n`, zero-padded: a fixed-width field. */
  function FixedDigits(n: nat, w: nat): (r: string)
    ensures |r| == w
    ensures AllDigits(r)
  {
    if w == 0 then "" else FixedDigits(n / 10, w - 1) + [DigitChar(n % 10)]
  }

  /** A number that fits in `w` digits reads back from its field. */
  lemma {:induction false} FixedDigitsValue(n: nat, w: nat)
    requires n < Pow10(w)
    ensures DigitsValue(FixedDigits(n, w)) == n
  {
    if w > 0 {
      var s := FixedDigits(n, w);
      assert s[..|s| - 1] == FixedDigits(n / 10, w - 1);
      FixedDigitsValue(n / 10, w - 1);
    }
  }

  /**
   * Lexicographic order on characters, standing in for the default
   * `Array.prototype.sort`, which compares UTF-16 code units. The two agree on
   * text of Basic Multilingual Plane characters, which includes the ASCII
   * folder names this order is used to sort.
   */
  predicate LexLess(a: string, b: string) {
    if |a| == 0 then |b| > 0
    else if |b| == 0 then false
    else if a[0] == b[0] then LexLess(a[1..], b[1..])
    else a[0] < b[0]
  }

  /** Comparing two concatenations whose first parts have the same length. */
  lemma {:induction false} LexConcat(a1: string, a2: string, b1: string, b2: string)
    requires |a1| == |b1|
    ensures LexLess(a1 + a2, b1 + b2) <==> LexLess(a1, b1) || (a1 == b1 && LexLess(a2, b2))
  {
    if |a1| == 0 {
      assert a1 + a2 == a2 && b1 + b2 == b2;
    } else {
      assert (a1 + a2)[0] == a1[0] && (b1 + b2)[0] == b1[0];
      assert (a1 + a2)[1..] == a1[1..] + a2;
      assert (b1 + b2)[1..] == b1[1..] + b2;
      LexConcat(a1[1..], a2, b1[1..], b2);
      if a1[0] == b1[0] {
        assert a1 == b1 <==> a1[1..] == b1[1..] by {
          if a1[1..] == b1[1..] {
            assert a1 == [a1[0]] + a1[1..] && b1 == [b1[0]] + b1[1..];
          }
        }
      }
    }
  }

  lemma LexLessIrreflexive(a: string)
    ensures !LexLess(a, a)
  {
  }

  lemma {:induction false} LexLessTransitive(a: string, b: string, c: string)
    requires LexLess(a, b) && LexLess(b, c)
    ensures LexLess(a, c)
  {
    if |a| > 0 && |b| > 0 && |c| > 0 && a[0] == b[0] && b[0] == c[0] {
      LexLessTransitive(a[1..], b[1..], c[1..]);
    }
  }

  lemma {:induction false} LexLessAsymmetric(a: string, b: string)
    requires LexLess(a, b)
    ensures !LexLess(b, a)
  {
    if |a| > 0 && |b| > 0 && a[0] == b[0] {
      LexLessAsymmetric(a[1..], b[1..]);
    }
  }

  /** Any two different strings are ordered one way or the other. */
  lemma {:induction false} LexLessTotal(a: string, b: string)
    ensures a == b || LexLess(a, b) || LexLess(b, a)
  {
    if |a| > 0 && |b| > 0 && a[0] == b[0] {
      LexLessTotal(a[1..], b[1..]);
      assert a == [a[0]] + a[1..] && b == [b[0]] + b[1..];
    }
  }

  /** "Not before" is transitive as well. */
  lemma NotLexLessTransitive(a: string, b: string, c: string)
    requires !LexLess(a, b) && !LexLess(b, c)
    ensures !LexLess(a, c)
  {
    LexLessTotal(a, b);
    if LexLess(b, a) && LexLess(a, c) {
      LexLessTransitive(b, a, c);
    }
  }

  /** Fixed-width fields compare as strings exactly as their values compare as numbers. */
  lemma {:induction false} FixedDigitsOrder(m: nat, n: nat, w: nat)
    requires m < Pow10(w) && n < Pow10(w)
    ensures LexLess(FixedDigits(m, w), FixedDigits(n, w)) <==> m < n
  {
    if w == 0 {
      assert m == 0 && n == 0;
    } else {
      assert m / 10 < Pow10(w - 1) && n / 10 < Pow10(w - 1);
      FixedDigitsOrder(m / 10, n / 10, w - 1);
      var hm, hn := FixedDigits(m / 10, w - 1), FixedDigits(n / 10, w - 1);
      LexConcat(hm, [DigitChar(m % 10)], hn, [DigitChar(n % 10)]);
      FixedDigitsValue(m / 10, w - 1);
      FixedDigitsValue(n / 10, w - 1);
      assert hm == hn <==> m / 10 == n / 10;
    }
  }
}
