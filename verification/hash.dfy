/**
 * Change-detection fingerprints of scripts/utils/hash.ts.
 *
 * The site fingerprint is the MD5 digest of the scrubbed markup followed by the
 * scrubbed stylesheet. Each regular expression of the two scrubbers is written
 * out as a `Rule` whose match at the start of a string is computed by `Step`;
 * `Apply` performs the global, left-to-right, non-overlapping replacement that
 * `String.prototype.replace` with a `/g` pattern performs.
 *
 * Both scrubbers pass `pattern === /\s+/g ? ' ' : ''` as the replacement. A
 * regular-expression literal creates a fresh object, so the comparison is always
 * false and every pattern, white space included, is replaced by ''. White space
 * is therefore deleted, not collapsed.
 */
module Hash {
  import opened Common
  import opened Strings

  /** A hexadecimal MD5 digest: 32 lower-case hex digits. */
  predicate Digest(d: string) {
    |d| == 32 && forall i :: 0 <= i < |d| ==> IsDigit(d[i]) || 'a' <= d[i] <= 'f'
  }

  /** The strings an MD5 implementation can return. */
  type HexDigest = d: string | Digest(d) witness "00000000000000000000000000000000"

  /** An MD5 implementation, left uninterpreted: every digest is 32 hex characters. */
  type Md5 = string -> HexDigest

  // ---------------------------------------------------------------------------
  // The scrubbing patterns
  // ---------------------------------------------------------------------------

  datatype Rule =
    | ReadyDataAttr           // /data-ready-[^=]*="[^"]*"/gi
    | NumericId               // /id="[^"]*\d{10,}[^"]*"/gi
    | TransformStyle          // /style="[^"]*transform[^"]*"/gi
    | HtmlComment             // /<!--[\s\S]*?-->/g
    | CssComment              // /\/\*[\s\S]*?\*\//g
    | Keyframes               // /@keyframes[^}]+\{[^}]*\}/gi
    | NumberedCustomProperty  // /--[^:]*-\d+[^:]*:[^;]+;/gi
    | ShortHex                // /#([0-9a-f]{3})\b/gi, each digit doubled
    | LongHex                 // /#([0-9a-f]{6})\b/gi, lower-cased
    | SemicolonBeforeBrace    // /;\s*}/g, replaced by '}'

  /** `s` starts with the lower-case literal `p`, compared case-insensitively. */
  predicate StartsWithFolded(p: string, s: string) {
    |p| <= |s| && Lower(s[..|p|]) == p
  }

  predicate IsHex(c: char) {
    IsDigit(c) || 'a' <= c <= 'f' || 'A' <= c <= 'F'
  }

  /** `n` digits in a row start at index `i` of `s`. */
  predicate DigitRunAt(s: string, i: int, n: nat) {
    0 <= i && i + n <= |s| && AllDigits(s[i..i + n])
  }

  /** `\d{n,}` occurs somewhere in `s`. */
  predicate HasDigitRun(s: string, n: nat) {
    exists i | 0 <= i <= |s| :: DigitRunAt(s, i, n)
  }

  /** `-\d` occurs somewhere in `s`. */
  predicate HasDashDigit(s: string) {
    exists i | 0 <= i < |s| - 1 :: s[i] == '-' && IsDigit(s[i + 1])
  }

  /** A `\b` right after a word character at index `k - 1`. */
  predicate BoundaryAt(s: string, k: nat) {
    k == |s| || (k < |s| && !IsWordChar(s[k]))
  }

  /** The first index at or after `from` that is not white space. */
  function SkipSpace(s: string, from: nat): (k: nat)
    requires from <= |s|
    ensures from <= k <= |s|
    ensures k < |s| ==> !IsSpace(s[k])
    ensures forall j :: from <= j < k ==> IsSpace(s[j])
    decreases |s| - from
  {
    if from < |s| && IsSpace(s[from]) then SkipSpace(s, from + 1) else from
  }

  /**
   * For an attribute pattern `name="[^"]*…[^"]*"`: the value between the opening
   * quote (the last character of `open`) and the first closing quote, and the
   * length of the whole attribute.
   */
  function QuotedValue(s: string, open: string): (m: Option<(string, nat)>)
    requires |open| > 0
    ensures m.Some? ==> |open| < m.value.1 <= |s|
  {
    if !StartsWithFolded(open, s) then None
    else match IndexOfChar(s, '"', |open|)
      case None => None
      case Some(q) => Some((s[|open|..q], q + 1))
  }

  /** `m` is either no match or a non-empty match of `s` with a replacement free of white space. */
  predicate Fits(m: Option<(nat, string)>, s: string) {
    m.Some? ==> 0 < m.value.0 <= |s| && NoSpace(m.value.1)
  }

  /**
   * The match of `rule` at the very start of `s`, if any: its length and the
   * text it is replaced by. No replacement contains white space.
   */
  function Step(rule: Rule, s: string): (m: Option<(nat, string)>)
    ensures m.Some? ==> 0 < m.value.0 <= |s|
    ensures m.Some? ==> forall i :: 0 <= i < |m.value.1| ==> !IsSpace(m.value.1[i])
  {
    var m := match rule
      case ReadyDataAttr => ReadyDataStep(s)
      case NumericId => NumericIdStep(s)
      case TransformStyle => TransformStep(s)
      case HtmlComment => HtmlCommentStep(s)
      case CssComment => CssCommentStep(s)
      case Keyframes => KeyframesStep(s)
      case NumberedCustomProperty => CustomPropertyStep(s)
      case ShortHex => ShortHexMatch(s)
      case LongHex => LongHexMatch(s)
      case SemicolonBeforeBrace => SemicolonStep(s);
    assert Fits(m, s);
    m
  }

  /** A Ready.ai `data-ready-…` attribute with its quoted value, removed. */
  function ReadyDataStep(s: string): (m: Option<(nat, string)>)
    ensures Fits(m, s)
  {
    if !StartsWithFolded("data-ready-", s) then None
    else match IndexOfChar(s, '=', 11)
      case None => None
      case Some(e) => QuotedFrom(s, e)
  }

  /** After the `=` at index `e`: an opening quote right behind it and the first closing quote after that. */
  function QuotedFrom(s: string, e: nat): (m: Option<(nat, string)>)
    requires e < |s|
    ensures Fits(m, s)
  {
    if e + 1 < |s| && s[e + 1] == '"' then
      (match IndexOfChar(s, '"', e + 2)
        case None => None
        case Some(q) => Some((q + 1, "")))
    else None
  }

  /** An `id` attribute whose value holds ten or more consecutive digits, removed. */
  function NumericIdStep(s: string): (m: Option<(nat, string)>)
    ensures Fits(m, s)
  {
    match QuotedValue(s, "id=\"")
    case Some((v, n)) => if HasDigitRun(v, 10) then Some((n, "")) else None
    case None => None
  }

  /** A `style` attribute whose value mentions `transform`, removed. */
  function TransformStep(s: string): (m: Option<(nat, string)>)
    ensures Fits(m, s)
  {
    match QuotedValue(s, "style=\"")
    case Some((v, n)) => if Contains(Lower(v), "transform") then Some((n, "")) else None
    case None => None
  }

  /** A markup comment up to its first terminator, removed. */
  function HtmlCommentStep(s: string): (m: Option<(nat, string)>)
    ensures Fits(m, s)
  {
    if !IsPrefix("<!--", s) then None
    else match IndexOfString(s, "-->", 4)
      case None => None
      case Some(e) => Some((e + 3, ""))
  }

  /** A stylesheet comment up to its first terminator, removed. */
  function CssCommentStep(s: string): (m: Option<(nat, string)>)
    ensures Fits(m, s)
  {
    if !IsPrefix("/*", s) then None
    else match IndexOfString(s, "*/", 2)
      case None => None
      case Some(e) => Some((e + 2, ""))
  }

  /** An `@keyframes` block up to its first closing brace, removed. */
  function KeyframesStep(s: string): (m: Option<(nat, string)>)
    ensures Fits(m, s)
  {
    if !StartsWithFolded("@keyframes", s) then None
    else match IndexOfChar(s, '}', 10)
      case None => None
      case Some(k) => if 11 <= k && HasChar(s[11..k], '{') then Some((k + 1, "")) else None
  }

  /** A custom property whose name holds a dash and a digit, with its non-empty value, removed. */
  function CustomPropertyStep(s: string): (m: Option<(nat, string)>)
    ensures Fits(m, s)
  {
    if !IsPrefix("--", s) then None
    else match IndexOfChar(s, ':', 2)
      case None => None
      case Some(c) =>
        if !HasDashDigit(s[2..c]) then None
        else (match IndexOfChar(s, ';', c + 1)
          case None => None
          case Some(e) => if e > c + 1 then Some((e + 1, "")) else None)
  }

  /** A three-digit hex colour at a word boundary, each digit doubled. */
  function ShortHexMatch(s: string): (m: Option<(nat, string)>)
    ensures Fits(m, s)
  {
    if 4 <= |s| && s[0] == '#' && IsHex(s[1]) && IsHex(s[2]) && IsHex(s[3]) && BoundaryAt(s, 4)
    then Some((4, ['#', s[1], s[1], s[2], s[2], s[3], s[3]]))
    else None
  }

  /** A six-digit hex colour at a word boundary, lower-cased. */
  function LongHexMatch(s: string): (m: Option<(nat, string)>)
    ensures Fits(m, s)
  {
    if 7 <= |s| && s[0] == '#' && (forall i :: 1 <= i < 7 ==> IsHex(s[i])) && BoundaryAt(s, 7)
    then
      HexNoSpace(s[1..7]);
      Some((7, "#" + Lower(s[1..7])))
    else None
  }

  /** Lower-cased hex digits are not white space. */
  lemma HexNoSpace(h: string)
    requires forall i :: 0 <= i < |h| ==> IsHex(h[i])
    ensures NoSpace("#" + Lower(h))
  {
    var l := "#" + Lower(h);
    forall i | 0 <= i < |l| ensures !IsSpace(l[i]) {
      if i > 0 {
        assert l[i] == LowerChar(h[i - 1]);
        HexCharNoSpace(h[i - 1]);
      }
    }
  }

  lemma HexCharNoSpace(c: char)
    requires IsHex(c)
    ensures !IsSpace(LowerChar(c))
  {
    if IsUpper(c) {
      assert IsLower(LowerChar(c));
    }
  }

  /** A `;` before a closing brace, dropped together with the white space between. */
  function SemicolonStep(s: string): (m: Option<(nat, string)>)
    ensures Fits(m, s)
  {
    if 0 < |s| && s[0] == ';' then
      var k := SkipSpace(s, 1);
      if k < |s| && s[k] == '}' then Some((k + 1, "}")) else None
    else None
  }

  /** The character, lower-cased, that every match of `rule` starts with. */
  function Lead(rule: Rule): char {
    match rule
    case ReadyDataAttr => 'd'
    case NumericId => 'i'
    case TransformStyle => 's'
    case HtmlComment => '<'
    case CssComment => '/'
    case Keyframes => '@'
    case NumberedCustomProperty => '-'
    case ShortHex => '#'
    case LongHex => '#'
    case SemicolonBeforeBrace => ';'
  }

  lemma StepLead(rule: Rule, s: string)
    requires Step(rule, s).Some?
    ensures |s| > 0 && LowerChar(s[0]) == Lead(rule)
  {
    match rule
    case ReadyDataAttr => assert Lower(s[..11])[0] == LowerChar(s[0]);
    case NumericId => assert Lower(s[..4])[0] == LowerChar(s[0]);
    case TransformStyle => assert Lower(s[..7])[0] == LowerChar(s[0]);
    case Keyframes => assert Lower(s[..10])[0] == LowerChar(s[0]);
    case HtmlComment => assert s[..4][0] == s[0];
    case CssComment => assert s[..2][0] == s[0];
    case NumberedCustomProperty => assert s[..2][0] == s[0];
    case ShortHex =>
    case LongHex =>
    case SemicolonBeforeBrace =>
  }

  /** A pattern cannot match a string none of whose characters is its lead. */
  lemma InertWithoutLead(rule: Rule, s: string)
    requires forall i :: 0 <= i < |s| ==> LowerChar(s[i]) != Lead(rule)
    ensures Inert(rule, s)
  {
    forall i | 0 <= i < |s|
      ensures Step(rule, s[i..]).None?
    {
      if Step(rule, s[i..]).Some? {
        StepLead(rule, s[i..]);
      }
    }
  }

  /** Every character of `s` is something other than white space. */
  predicate NoSpace(s: string) {
    forall i :: 0 <= i < |s| ==> !IsSpace(s[i])
  }

  /**
   * `s.replace(pattern, replacement)` for a global pattern: every leftmost match,
   * scanning left to right without overlap, is replaced. A string without white
   * space stays without white space, since no replacement introduces any.
   */
  function Apply(rule: Rule, s: string): (r: string)
    ensures NoSpace(s) ==> NoSpace(r)
    decreases |s|
  {
    if |s| == 0 then ""
    else match Step(rule, s)
      case Some((n, rep)) => rep + Apply(rule, s[n..])
      case None => [s[0]] + Apply(rule, s[1..])
  }

  /** `rule` matches nowhere in `s`. */
  predicate Inert(rule: Rule, s: string) {
    forall i :: 0 <= i < |s| ==> Step(rule, s[i..]).None?
  }

  /** A pattern that matches nowhere leaves the string unchanged. */
  lemma {:induction false} ApplyInert(rule: Rule, s: string)
    requires Inert(rule, s)
    ensures Apply(rule, s) == s
    decreases |s|
  {
    if |s| > 0 {
      assert s[0..] == s;
      assert Step(rule, s).None?;
      forall i | 0 <= i < |s[1..]|
        ensures Step(rule, s[1..][i..]).None?
      {
        assert s[1..][i..] == s[i + 1..];
      }
      ApplyInert(rule, s[1..]);
    }
  }

  /** No match of `rule` starts before index `k` of `s`. */
  predicate NoMatchBefore(rule: Rule, s: string, k: nat) {
    forall i :: 0 <= i < k && i < |s| ==> Step(rule, s[i..]).None?
  }

  /** A prefix in which no match starts is copied through unchanged. */
  lemma ApplyQuietPrefix(rule: Rule, a: string, t: string)
    requires NoMatchBefore(rule, a + t, |a|)
    ensures Apply(rule, a + t) == a + Apply(rule, t)
  {
    var s := a + t;
    ApplyQuietUpTo(rule, s, |a|);
    assert s[..|a|] == a && s[|a|..] == t;
  }

  lemma {:induction false} ApplyQuietUpTo(rule: Rule, s: string, k: nat)
    requires k <= |s| && NoMatchBefore(rule, s, k)
    ensures Apply(rule, s) == s[..k] + Apply(rule, s[k..])
    decreases k
  {
    if k == 0 {
      assert s[..0] == [] && s[0..] == s;
    } else {
      ApplyFirstUnmatched(rule, s, k);
      NoMatchBeforeShift(rule, s, k);
      ApplyQuietUpTo(rule, s[1..], k - 1);
      ConsPrefix(s, k, Apply(rule, s[k..]));
    }
  }

  lemma ApplyFirstUnmatched(rule: Rule, s: string, k: nat)
    requires 0 < k <= |s| && NoMatchBefore(rule, s, k)
    ensures Apply(rule, s) == [s[0]] + Apply(rule, s[1..])
  {
    assert s[0..] == s;
    ApplyUnmatched(rule, s);
  }

  lemma ConsPrefix(s: string, k: nat, x: string)
    requires 0 < k <= |s|
    ensures [s[0]] + (s[1..][..k - 1] + x) == s[..k] + x
    ensures s[1..][k - 1..] == s[k..]
  {
    assert [s[0]] + s[1..][..k - 1] == s[..k];
  }

  lemma ApplyUnmatched(rule: Rule, s: string)
    requires |s| > 0 && Step(rule, s).None?
    ensures Apply(rule, s) == [s[0]] + Apply(rule, s[1..])
  {
  }

  lemma NoMatchBeforeShift(rule: Rule, s: string, k: nat)
    requires 0 < k && NoMatchBefore(rule, s, k) && |s| > 0
    ensures NoMatchBefore(rule, s[1..], k - 1)
  {
    forall i | 0 <= i < k - 1 && i < |s[1..]|
      ensures Step(rule, s[1..][i..]).None?
    {
      assert s[1..][i..] == s[i + 1..];
    }
  }

  /** A prefix none of whose characters is the rule's lead holds no match start. */
  lemma NoMatchBeforeWithoutLead(rule: Rule, a: string, t: string)
    requires forall i :: 0 <= i < |a| ==> LowerChar(a[i]) != Lead(rule)
    ensures NoMatchBefore(rule, a + t, |a|)
  {
    forall i | 0 <= i < |a| && i < |a + t|
      ensures Step(rule, (a + t)[i..]).None?
    {
      assert (a + t)[i..][0] == a[i];
      if Step(rule, (a + t)[i..]).Some? {
        StepLead(rule, (a + t)[i..]);
      }
    }
  }

  /**
   * A match `m` that nothing before it can reach into is replaced in place:
   * the text before it is copied, `m` becomes `r`, and the rest is scanned on.
   */
  lemma ApplyAtMatch(rule: Rule, a: string, m: string, b: string, r: string)
    requires Step(rule, m + b) == Some((|m|, r))
    requires NoMatchBefore(rule, a + m + b, |a|)
    ensures Apply(rule, a + m + b) == a + r + Apply(rule, b)
  {
    assert a + m + b == a + (m + b);
    ApplyQuietPrefix(rule, a, m + b);
    ApplyMatched(rule, m, b, r);
  }

  lemma ApplyMatched(rule: Rule, m: string, b: string, r: string)
    requires Step(rule, m + b) == Some((|m|, r))
    ensures Apply(rule, m + b) == r + Apply(rule, b)
  {
    assert (m + b)[|m|..] == b;
  }

  /**
   * A removed match leaves no trace: inserting it between two texts neither
   * of which starts a match across the seam changes nothing.
   */
  lemma ApplyDropsMatch(rule: Rule, a: string, m: string, b: string)
    requires Step(rule, m + b) == Some((|m|, ""))
    requires NoMatchBefore(rule, a + m + b, |a|) && NoMatchBefore(rule, a + b, |a|)
    ensures Apply(rule, a + m + b) == Apply(rule, a + b)
  {
    assert Apply(rule, a + m + b) == a + Apply(rule, b) by {
      ApplyAtMatch(rule, a, m, b, "");
      assert a + "" == a;
    }
    ApplyQuietPrefix(rule, a, b);
  }

  /** `s.replace(/\s+/g, '')`: every white-space character is deleted. */
  function DeleteSpace(s: string): (r: string)
    ensures NoSpace(r)
    ensures |r| <= |s|
    ensures NoSpace(s) ==> r == s
  {
    if |s| == 0 then ""
    else if IsSpace(s[0]) then DeleteSpace(s[1..])
    else [s[0]] + DeleteSpace(s[1..])
  }

  // ---------------------------------------------------------------------------
  // Markup scrubbing
  // ---------------------------------------------------------------------------

  /** The only white space `s` holds is the plain space. */
  predicate PlainSpacesOnly(s: string) {
    forall i :: 0 <= i < |s| ==> IsSpace(s[i]) ==> s[i] == ' '
  }

  lemma {:induction false} ReplaceAllPlainSpaces(s: string, p: string, r: string)
    requires |p| > 0
    requires PlainSpacesOnly(s) && PlainSpacesOnly(r)
    ensures PlainSpacesOnly(ReplaceAll(s, p, r))
    decreases |s|
  {
    if |s| > 0 {
      if IsPrefix(p, s) {
        ReplaceAllPlainSpaces(s[|p|..], p, r);
      } else {
        ReplaceAllPlainSpaces(s[1..], p, r);
      }
    }
  }

  lemma TrimPlainSpaces(s: string)
    requires PlainSpacesOnly(s)
    ensures PlainSpacesOnly(Trim(s))
  {
    var r := Trim(s);
    var k :| TrimmedAt(s, r, k);
    assert forall i :: 0 <= i < |r| ==> r[i] == s[k + i];
  }

  lemma TrimNoSpace(s: string)
    requires NoSpace(s)
    ensures NoSpace(Trim(s))
  {
    var r := Trim(s);
    var k :| TrimmedAt(s, r, k);
    assert forall i :: 0 <= i < |r| ==> r[i] == s[k + i];
  }

  /** The five entity replacements, in the order the source applies them. */
  function DecodeEntities(s: string): string {
    var a := ReplaceAll(s, "&nbsp;", " ");
    var b := ReplaceAll(a, "&amp;", "&");
    var c := ReplaceAll(b, "&lt;", "<");
    var d := ReplaceAll(c, "&gt;", ">");
    ReplaceAll(d, "&quot;", "\"")
  }

  lemma DecodeEntitiesPlainSpaces(s: string)
    requires PlainSpacesOnly(s)
    ensures PlainSpacesOnly(DecodeEntities(s))
  {
    var a := ReplaceAll(s, "&nbsp;", " ");
    ReplaceAllPlainSpaces(s, "&nbsp;", " ");
    var b := ReplaceAll(a, "&amp;", "&");
    ReplaceAllPlainSpaces(a, "&amp;", "&");
    var c := ReplaceAll(b, "&lt;", "<");
    ReplaceAllPlainSpaces(b, "&lt;", "<");
    var d := ReplaceAll(c, "&gt;", ">");
    ReplaceAllPlainSpaces(c, "&gt;", ">");
    ReplaceAllPlainSpaces(d, "&quot;", "\"");
  }

  /** Without an ampersand there is no entity to decode. */
  lemma DecodeEntitiesNoAmpersand(s: string)
    requires !HasChar(s, '&')
    ensures DecodeEntities(s) == s
  {
    AmpersandLeadAbsent(s, "&nbsp;");
    AmpersandLeadAbsent(s, "&amp;");
    AmpersandLeadAbsent(s, "&lt;");
    AmpersandLeadAbsent(s, "&gt;");
    AmpersandLeadAbsent(s, "&quot;");
    ReplaceAllAbsent(s, "&nbsp;", " ");
    ReplaceAllAbsent(s, "&amp;", "&");
    ReplaceAllAbsent(s, "&lt;", "<");
    ReplaceAllAbsent(s, "&gt;", ">");
    ReplaceAllAbsent(s, "&quot;", "\"");
  }

  /** A text without `&` holds no pattern that starts with one. */
  lemma AmpersandLeadAbsent(s: string, p: string)
    requires !HasChar(s, '&') && |p| > 0 && p[0] == '&'
    ensures !Contains(s, p)
  {
    forall i | 0 <= i <= |s| ensures !OccursAt(s, p, i) {
      if i + |p| <= |s| {
        assert s[i..i + |p|][0] == s[i] != '&';
      }
    }
  }

  /** A Ready.ai data attribute `data-ready-<name>="<value>"`. */
  function ReadyDataText(name: string, value: string): string {
    "data-ready-" + name + "=\"" + value + "\""
  }

  /** An `id` attribute `id="<value>"`. */
  function IdText(value: string): string {
    "id=\"" + value + "\""
  }

  /** A `style` attribute `style="<value>"`. */
  function StyleText(value: string): string {
    "style=\"" + value + "\""
  }

  /** A markup comment `<!--<body>-->`. */
  function HtmlCommentText(body: string): string {
    "<!--" + body + "-->"
  }

  lemma LowerLiteral(p: string)
    requires forall i :: 0 <= i < |p| ==> !IsUpper(p[i])
    ensures Lower(p) == p
  {
  }

  lemma FoldedPrefix(p: string, t: string)
    requires forall i :: 0 <= i < |p| ==> !IsUpper(p[i])
    ensures StartsWithFolded(p, p + t)
  {
    assert (p + t)[..|p|] == p;
    LowerLiteral(p);
  }

  /** A data attribute whose name holds no `=` and whose value holds no `"` is matched whole. */
  lemma ReadyDataMatch(name: string, value: string, b: string)
    requires !HasChar(name, '=') && !HasChar(value, '"')
    ensures Step(ReadyDataAttr, ReadyDataText(name, value) + b) == Some((|ReadyDataText(name, value)|, ""))
  {
    ReadyDataStepOf(name, value, b);
    assert |ReadyDataText(name, value)| == 14 + |name| + |value|;
  }

  lemma ReadyDataStepOf(name: string, value: string, b: string)
    requires !HasChar(name, '=') && !HasChar(value, '"')
    ensures ReadyDataStep(ReadyDataText(name, value) + b) == Some((14 + |name| + |value|, ""))
  {
    var s := ReadyDataText(name, value) + b;
    ReadyDataHead(name, value, b);
    ReadyDataEquals(name, value, b);
    ReadyDataCloses(name, value, b);
    ReadyDataStepAt(s, 11 + |name|, 13 + |name| + |value|);
  }

  lemma ReadyDataStepAt(s: string, e: nat, q: nat)
    requires StartsWithFolded("data-ready-", s)
    requires IndexOfChar(s, '=', 11) == Some(e) && e + 1 < |s| && s[e + 1] == '"'
    requires IndexOfChar(s, '"', e + 2) == Some(q)
    ensures ReadyDataStep(s) == Some((q + 1, ""))
  {
    QuotedFromAt(s, e, q);
  }

  lemma QuotedFromAt(s: string, e: nat, q: nat)
    requires e + 1 < |s| && s[e + 1] == '"'
    requires IndexOfChar(s, '"', e + 2) == Some(q)
    ensures QuotedFrom(s, e) == Some((q + 1, ""))
  {
  }

  lemma ReadyDataHead(name: string, value: string, b: string)
    ensures StartsWithFolded("data-ready-", ReadyDataText(name, value) + b)
  {
    var s := ReadyDataText(name, value) + b;
    assert s[..11] == "data-ready-";
    LowerLiteral("data-ready-");
  }

  lemma ReadyDataEquals(name: string, value: string, b: string)
    requires !HasChar(name, '=')
    ensures IndexOfChar(ReadyDataText(name, value) + b, '=', 11) == Some(11 + |name|)
    ensures 12 + |name| < |ReadyDataText(name, value) + b|
    ensures (ReadyDataText(name, value) + b)[12 + |name|] == '"'
  {
    var s := ReadyDataText(name, value) + b;
    assert forall j :: 11 <= j < 11 + |name| ==> s[j] == name[j - 11];
    IndexOfCharAt(s, '=', 11, 11 + |name|);
  }

  lemma ReadyDataCloses(name: string, value: string, b: string)
    requires !HasChar(value, '"')
    ensures IndexOfChar(ReadyDataText(name, value) + b, '"', 13 + |name|) == Some(13 + |name| + |value|)
  {
    var s := ReadyDataText(name, value) + b;
    var e := 13 + |name|;
    assert forall j :: e <= j < e + |value| ==> s[j] == value[j - e];
    IndexOfCharAt(s, '"', e, e + |value|);
  }

  /** An attribute `<open><value>"` whose value holds no `"` yields that value and its whole length. */
  lemma QuotedValueOf(open: string, value: string, b: string)
    requires |open| > 0 && forall i :: 0 <= i < |open| ==> !IsUpper(open[i])
    requires !HasChar(value, '"')
    ensures QuotedValue(open + value + "\"" + b, open) == Some((value, |open| + |value| + 1))
  {
    var s := open + value + "\"" + b;
    assert s[..|open|] == open;
    LowerLiteral(open);
    assert forall j :: |open| <= j < |open| + |value| ==> s[j] == value[j - |open|];
    IndexOfCharAt(s, '"', |open|, |open| + |value|);
    assert s[|open|..|open| + |value|] == value;
  }

  /** An `id` whose value holds ten digits in a row and no `"` is matched whole. */
  lemma NumericIdMatch(value: string, b: string)
    requires !HasChar(value, '"') && HasDigitRun(value, 10)
    ensures Step(NumericId, IdText(value) + b) == Some((|IdText(value)|, ""))
  {
    QuotedValueOf("id=\"", value, b);
    assert IdText(value) + b == "id=\"" + value + "\"" + b;
  }

  /** A `style` whose value mentions `transform` in any case and holds no `"` is matched whole. */
  lemma TransformMatch(value: string, b: string)
    requires !HasChar(value, '"') && Contains(Lower(value), "transform")
    ensures Step(TransformStyle, StyleText(value) + b) == Some((|StyleText(value)|, ""))
  {
    QuotedValueOf("style=\"", value, b);
    assert StyleText(value) + b == "style=\"" + value + "\"" + b;
  }

  /** A comment whose body holds no `>` is matched up to its own terminator. */
  lemma HtmlCommentMatch(body: string, b: string)
    requires !HasChar(body, '>')
    ensures Step(HtmlComment, HtmlCommentText(body) + b) == Some((|HtmlCommentText(body)|, ""))
  {
    var s := HtmlCommentText(body) + b;
    var e := 4 + |body|;
    assert IsPrefix("<!--", s) by {
      assert s[..4] == "<!--";
    }
    assert s[e..e + 3] == "-->";
    forall j | 4 <= j < e
      ensures !OccursAt(s, "-->", j)
    {
      HtmlCommentOpenAt(body, b, j);
    }
    IndexOfStringAt(s, "-->", 4, e);
  }

  lemma HtmlCommentOpenAt(body: string, b: string, j: nat)
    requires !HasChar(body, '>') && 4 <= j < 4 + |body|
    ensures !OccursAt(HtmlCommentText(body) + b, "-->", j)
  {
    var s := HtmlCommentText(body) + b;
    assert s[j..j + 3][2] == s[j + 2];
    if j + 2 < 4 + |body| {
      assert s[j + 2] == body[j - 2];
    } else {
      assert s[j + 2] == '-';
    }
  }

  /** The four removal patterns of the markup scrubber, in source order. */
  function StripMarkupNoise(html: string): string {
    Apply(HtmlComment, Apply(TransformStyle, Apply(NumericId, Apply(ReadyDataAttr, html))))
  }

  /**
   * `cleanHtmlForHashing`: removes Ready.ai data attributes, ids holding ten or
   * more consecutive digits, inline styles mentioning `transform` and comments,
   * deletes white space, decodes five entities and trims. The only white space
   * left is a space decoded from `&nbsp;`, never at either end.
   */
  function CleanHtml(html: string): (r: string)
    ensures PlainSpacesOnly(r)
    ensures |r| > 0 ==> r[0] != ' ' && r[|r| - 1] != ' '
  {
    var d := DeleteSpace(StripMarkupNoise(html));
    DecodeEntitiesPlainSpaces(d);
    var e := DecodeEntities(d);
    TrimPlainSpaces(e);
    Trim(e)
  }

  /** Markup in which none of the four removal patterns match. */
  predicate QuietMarkup(html: string) {
    Inert(ReadyDataAttr, html) && Inert(NumericId, html) && Inert(TransformStyle, html)
    && Inert(HtmlComment, html)
  }

  lemma QuietWithoutLeads(html: string)
    requires forall i :: 0 <= i < |html| ==> LowerChar(html[i]) !in {'d', 'i', 's', '<'}
    ensures QuietMarkup(html)
  {
    InertWithoutLead(ReadyDataAttr, html);
    InertWithoutLead(NumericId, html);
    InertWithoutLead(TransformStyle, html);
    InertWithoutLead(HtmlComment, html);
  }

  lemma StripQuietMarkup(html: string)
    requires QuietMarkup(html)
    ensures StripMarkupNoise(html) == html
  {
    ApplyInert(ReadyDataAttr, html);
    ApplyInert(NumericId, html);
    ApplyInert(TransformStyle, html);
    ApplyInert(HtmlComment, html);
  }

  /**
   * A string with no white space, no `&` and none of the removal patterns is
   * already clean.
   */
  lemma CleanHtmlFixpoint(html: string)
    requires QuietMarkup(html) && NoSpace(html) && !HasChar(html, '&')
    ensures CleanHtml(html) == html
  {
    StripQuietMarkup(html);
    DecodeEntitiesNoAmpersand(html);
    TrimUnchanged(html);
  }

  /**
   * White space is deleted rather than collapsed: two markups free of the
   * removal patterns that differ only in white space scrub to the same text.
   */
  lemma CleanHtmlIgnoresSpace(h1: string, h2: string)
    requires QuietMarkup(h1) && QuietMarkup(h2)
    requires DeleteSpace(h1) == DeleteSpace(h2)
    ensures CleanHtml(h1) == CleanHtml(h2)
  {
    StripQuietMarkup(h1);
    StripQuietMarkup(h2);
  }

  /** Markup scrubbing depends on the input only through the first removal pass. */
  lemma CleanHtmlAfterReadyData(h1: string, h2: string)
    requires Apply(ReadyDataAttr, h1) == Apply(ReadyDataAttr, h2)
    ensures CleanHtml(h1) == CleanHtml(h2)
  {
  }

  /**
   * A Ready.ai data attribute leaves no trace in the scrubbed markup: inserted
   * where no other data attribute reaches across it, it is removed whole.
   */
  lemma CleanHtmlDropsReadyData(a: string, name: string, value: string, b: string)
    requires !HasChar(name, '=') && !HasChar(value, '"')
    requires NoMatchBefore(ReadyDataAttr, a + ReadyDataText(name, value) + b, |a|)
    requires NoMatchBefore(ReadyDataAttr, a + b, |a|)
    ensures CleanHtml(a + ReadyDataText(name, value) + b) == CleanHtml(a + b)
  {
    ReadyDataMatch(name, value, b);
    ApplyDropsMatch(ReadyDataAttr, a, ReadyDataText(name, value), b);
    CleanHtmlAfterReadyData(a + ReadyDataText(name, value) + b, a + b);
  }

  /** Once the earlier passes find nothing, scrubbing depends only on the id pass. */
  lemma CleanHtmlAfterNumericId(h1: string, h2: string)
    requires Inert(ReadyDataAttr, h1) && Inert(ReadyDataAttr, h2)
    requires Apply(NumericId, h1) == Apply(NumericId, h2)
    ensures CleanHtml(h1) == CleanHtml(h2)
  {
    ApplyInert(ReadyDataAttr, h1);
    ApplyInert(ReadyDataAttr, h2);
  }

  /**
   * An `id` holding ten or more digits in a row (a timestamp) leaves no trace
   * in the scrubbed markup.
   */
  lemma CleanHtmlDropsNumericId(a: string, value: string, b: string)
    requires !HasChar(value, '"') && HasDigitRun(value, 10)
    requires Inert(ReadyDataAttr, a + IdText(value) + b) && Inert(ReadyDataAttr, a + b)
    requires NoMatchBefore(NumericId, a + IdText(value) + b, |a|)
    requires NoMatchBefore(NumericId, a + b, |a|)
    ensures CleanHtml(a + IdText(value) + b) == CleanHtml(a + b)
  {
    NumericIdMatch(value, b);
    ApplyDropsMatch(NumericId, a, IdText(value), b);
    CleanHtmlAfterNumericId(a + IdText(value) + b, a + b);
  }

  lemma CleanHtmlAfterTransform(h1: string, h2: string)
    requires Inert(ReadyDataAttr, h1) && Inert(ReadyDataAttr, h2)
    requires Inert(NumericId, h1) && Inert(NumericId, h2)
    requires Apply(TransformStyle, h1) == Apply(TransformStyle, h2)
    ensures CleanHtml(h1) == CleanHtml(h2)
  {
    ApplyInert(ReadyDataAttr, h1);
    ApplyInert(ReadyDataAttr, h2);
    ApplyInert(NumericId, h1);
    ApplyInert(NumericId, h2);
  }

  /** An inline style mentioning `transform` leaves no trace in the scrubbed markup. */
  lemma CleanHtmlDropsTransform(a: string, value: string, b: string)
    requires !HasChar(value, '"') && Contains(Lower(value), "transform")
    requires Inert(ReadyDataAttr, a + StyleText(value) + b) && Inert(ReadyDataAttr, a + b)
    requires Inert(NumericId, a + StyleText(value) + b) && Inert(NumericId, a + b)
    requires NoMatchBefore(TransformStyle, a + StyleText(value) + b, |a|)
    requires NoMatchBefore(TransformStyle, a + b, |a|)
    ensures CleanHtml(a + StyleText(value) + b) == CleanHtml(a + b)
  {
    TransformMatch(value, b);
    ApplyDropsMatch(TransformStyle, a, StyleText(value), b);
    CleanHtmlAfterTransform(a + StyleText(value) + b, a + b);
  }

  lemma CleanHtmlAfterComment(h1: string, h2: string)
    requires Inert(ReadyDataAttr, h1) && Inert(ReadyDataAttr, h2)
    requires Inert(NumericId, h1) && Inert(NumericId, h2)
    requires Inert(TransformStyle, h1) && Inert(TransformStyle, h2)
    requires Apply(HtmlComment, h1) == Apply(HtmlComment, h2)
    ensures CleanHtml(h1) == CleanHtml(h2)
  {
    ApplyInert(ReadyDataAttr, h1);
    ApplyInert(ReadyDataAttr, h2);
    ApplyInert(NumericId, h1);
    ApplyInert(NumericId, h2);
    ApplyInert(TransformStyle, h1);
    ApplyInert(TransformStyle, h2);
  }

  /** A comment leaves no trace in the scrubbed markup. */
  lemma CleanHtmlDropsComment(a: string, body: string, b: string)
    requires !HasChar(body, '>')
    requires Inert(ReadyDataAttr, a + HtmlCommentText(body) + b) && Inert(ReadyDataAttr, a + b)
    requires Inert(NumericId, a + HtmlCommentText(body) + b) && Inert(NumericId, a + b)
    requires Inert(TransformStyle, a + HtmlCommentText(body) + b) && Inert(TransformStyle, a + b)
    requires NoMatchBefore(HtmlComment, a + HtmlCommentText(body) + b, |a|)
    requires NoMatchBefore(HtmlComment, a + b, |a|)
    ensures CleanHtml(a + HtmlCommentText(body) + b) == CleanHtml(a + b)
  {
    HtmlCommentMatch(body, b);
    ApplyDropsMatch(HtmlComment, a, HtmlCommentText(body), b);
    CleanHtmlAfterComment(a + HtmlCommentText(body) + b, a + b);
  }

  /**
   * Entities are decoded one kind after another, so an escaped ampersand
   * followed by an entity name is decoded twice: `&amp;lt;` becomes `<`, while
   * `&amp;nbsp;` stays `&nbsp;` because spaces are decoded first.
   */
  lemma DecodeEntitiesInSequence()
    ensures DecodeEntities("&amp;lt;") == "<"
    ensures DecodeEntities("&amp;nbsp;") == "&nbsp;"
  {
    DecodeEscapedLt("&amp;lt;");
    DecodeEscapedNbsp("&amp;nbsp;");
  }

  lemma DecodeEscapedLt(s: string)
    requires s == "&amp;lt;"
    ensures DecodeEntities(s) == "<"
  {
    SecondCharDiffers(s, "&nbsp;");
    assert s[1..] == "amp;lt;";
    EntityKept(s, "&nbsp;", " ");
    assert s[..5] == "&amp;" && s[5..] == "lt;";
    EntityReplaced(s, "&amp;", "&");
    var t := "&lt;";
    assert "&" + s[5..] == t;
    assert t[..4] == "&lt;" && t[4..] == "";
    EntityReplaced(t, "&lt;", "<");
    assert "<" + t[4..] == "<";
    EntityAbsent("<", "&gt;", ">");
    EntityAbsent("<", "&quot;", "\"");
  }

  lemma DecodeEscapedNbsp(s: string)
    requires s == "&amp;nbsp;"
    ensures DecodeEntities(s) == "&nbsp;"
  {
    SecondCharDiffers(s, "&nbsp;");
    assert s[1..] == "amp;nbsp;";
    EntityKept(s, "&nbsp;", " ");
    assert s[..5] == "&amp;" && s[5..] == "nbsp;";
    EntityReplaced(s, "&amp;", "&");
    var u := "&nbsp;";
    assert u[1..] == "nbsp;";
    SecondCharDiffers(u, "&lt;");
    EntityKept(u, "&lt;", "<");
    SecondCharDiffers(u, "&gt;");
    EntityKept(u, "&gt;", ">");
    SecondCharDiffers(u, "&quot;");
    EntityKept(u, "&quot;", "\"");
  }

  lemma SecondCharDiffers(s: string, p: string)
    requires |s| >= 2 && |p| >= 2 && s[1] != p[1]
    ensures !IsPrefix(p, s)
  {
  }

  lemma EntityAbsent(s: string, p: string, r: string)
    requires |p| > 0 && p[0] == '&' && !HasChar(s, '&')
    ensures ReplaceAll(s, p, r) == s
  {
    AmpersandLeadAbsent(s, p);
    ReplaceAllAbsent(s, p, r);
  }

  /** An entity that does not start the text, in a text whose only `&` is its first character, is left alone. */
  lemma EntityKept(s: string, p: string, r: string)
    requires |p| > 0 && p[0] == '&' && |s| > 0 && !IsPrefix(p, s) && !HasChar(s[1..], '&')
    ensures ReplaceAll(s, p, r) == s
  {
    EntityAbsent(s[1..], p, r);
    assert [s[0]] + s[1..] == s;
  }

  lemma EntityReplaced(s: string, p: string, r: string)
    requires |p| > 0 && p[0] == '&' && IsPrefix(p, s) && !HasChar(s[|p|..], '&')
    ensures ReplaceAll(s, p, r) == r + s[|p|..]
  {
    EntityAbsent(s[|p|..], p, r);
  }

  /** Letters outside every pattern's lead character. */
  predicate Plain(c: char) {
    IsAlnum(c) && LowerChar(c) !in {'d', 'i', 's'}
  }

  lemma PlainChar(c: char)
    requires Plain(c)
    ensures LowerChar(c) !in {'d', 'i', 's', '<'} && !IsSpace(c) && c != '&'
  { }

  /**
   * A space between two plain characters is deleted, not kept:
   * `cleanHtml("a b") == cleanHtml("ab") == "ab"`.
   */
  lemma CleanHtmlDeletesInnerSpace(a: char, b: char)
    requires Plain(a) && Plain(b)
    ensures CleanHtml([a, ' ', b]) == CleanHtml([a, b]) == [a, b]
  {
    SpacedPairQuiet(a, b);
    CleanHtmlIgnoresSpace([a, ' ', b], [a, b]);
    PlainPairClean(a, b);
  }

  lemma SpacedPairQuiet(a: char, b: char)
    requires Plain(a) && Plain(b)
    ensures QuietMarkup([a, ' ', b]) && QuietMarkup([a, b])
    ensures DeleteSpace([a, ' ', b]) == DeleteSpace([a, b])
  {
    var s1, s2 := [a, ' ', b], [a, b];
    PlainChar(a);
    PlainChar(b);
    QuietWithoutLeads(s1);
    QuietWithoutLeads(s2);
    assert DeleteSpace(s1[2..]) == s2[1..];
    assert DeleteSpace(s1) == s2;
  }

  lemma PlainPairClean(a: char, b: char)
    requires Plain(a) && Plain(b)
    ensures CleanHtml([a, b]) == [a, b]
  {
    var s2 := [a, b];
    PlainChar(a);
    PlainChar(b);
    QuietWithoutLeads(s2);
    assert NoSpace(s2);
    assert forall i :: 0 <= i < |s2| ==> s2[i] != '&';
    CleanHtmlFixpoint(s2);
  }

  // ---------------------------------------------------------------------------
  // Stylesheet scrubbing
  // ---------------------------------------------------------------------------

  /** The three removal patterns of the stylesheet scrubber, in source order. */
  function StripCssNoise(css: string): string {
    Apply(NumberedCustomProperty, Apply(Keyframes, Apply(CssComment, css)))
  }

  /** The colour and brace rewrites, applied once white space is gone. */
  function NormalizeCss(css: string): (r: string)
    ensures NoSpace(css) ==> NoSpace(r)
  {
    Apply(SemicolonBeforeBrace, Apply(LongHex, Apply(ShortHex, css)))
  }

  /**
   * `cleanCssForHashing`: removes comments, `@keyframes` blocks and custom
   * properties whose name holds `-<digits>`, deletes white space, expands
   * three-digit hex colours, lower-cases six-digit ones, drops a `;` right
   * before `}` and trims. The result holds no white space at all.
   */
  function CleanCss(css: string): (r: string)
    ensures NoSpace(r)
  {
    var r := NormalizeCss(DeleteSpace(StripCssNoise(css)));
    TrimNoSpace(r);
    Trim(r)
  }

  lemma ShortHexStep(x: char, y: char, z: char)
    requires IsHex(x) && IsHex(y) && IsHex(z)
    ensures Apply(ShortHex, ['#', x, y, z]) == ['#', x, x, y, y, z, z]
  {
    var s := ['#', x, y, z];
    assert BoundaryAt(s, 4);
    assert Step(ShortHex, s) == Some((4, ['#', x, x, y, y, z, z]));
    assert s[4..] == [];
  }

  lemma LongHexStep(e: string)
    requires |e| == 7 && e[0] == '#' && forall i :: 1 <= i < 7 ==> IsHex(e[i])
    ensures Apply(LongHex, e) == "#" + Lower(e[1..7])
  {
    assert BoundaryAt(e, 7);
    assert Step(LongHex, e) == Some((7, "#" + Lower(e[1..7])));
    assert e[7..] == [];
  }

  /** Styles with none of the three removal patterns' lead characters are left alone. */
  lemma StripCssWithoutLeads(css: string)
    requires forall i :: 0 <= i < |css| ==> LowerChar(css[i]) !in {'/', '@', '-'}
    ensures StripCssNoise(css) == css
  {
    InertWithoutLead(CssComment, css);
    InertWithoutLead(Keyframes, css);
    InertWithoutLead(NumberedCustomProperty, css);
    ApplyInert(CssComment, css);
    ApplyInert(Keyframes, css);
    ApplyInert(NumberedCustomProperty, css);
  }

  lemma HexNotCssLead(c: char)
    requires c == '#' || IsHex(c)
    ensures LowerChar(c) !in {'/', '@', '-'} && !IsSpace(c)
  { }

  lemma ShortHexIsQuiet(x: char, y: char, z: char)
    requires IsHex(x) && IsHex(y) && IsHex(z)
    ensures DeleteSpace(StripCssNoise(['#', x, y, z])) == ['#', x, y, z]
  {
    var s := ['#', x, y, z];
    forall i | 0 <= i < |s| ensures LowerChar(s[i]) !in {'/', '@', '-'} && !IsSpace(s[i]) {
      HexNotCssLead(s[i]);
    }
    StripCssWithoutLeads(s);
  }

  lemma NormalizeShortHex(x: char, y: char, z: char)
    requires IsHex(x) && IsHex(y) && IsHex(z)
    ensures NormalizeCss(['#', x, y, z])
            == ['#', LowerChar(x), LowerChar(x), LowerChar(y), LowerChar(y), LowerChar(z), LowerChar(z)]
  {
    var e := ['#', x, x, y, y, z, z];
    ShortHexStep(x, y, z);
    LongHexStep(e);
    assert e[1..7] == [x, x, y, y, z, z];
    LowerDoubled(x, y, z);
    LoweredHexInert(LowerChar(x), LowerChar(y), LowerChar(z));
  }

  lemma LowerDoubled(x: char, y: char, z: char)
    ensures "#" + Lower([x, x, y, y, z, z])
         == ['#', LowerChar(x), LowerChar(x), LowerChar(y), LowerChar(y), LowerChar(z), LowerChar(z)]
  {
    var t := [x, x, y, y, z, z];
    var l := "#" + Lower(t);
    forall i | 1 <= i < 7 ensures l[i] == LowerChar(t[i - 1]) { }
  }

  /** A `#` and six characters other than `;` are left alone by the brace rule. */
  lemma LoweredHexInert(a: char, b: char, c: char)
    requires LowerChar(a) != ';' && LowerChar(b) != ';' && LowerChar(c) != ';'
    ensures Apply(SemicolonBeforeBrace, ['#', a, a, b, b, c, c]) == ['#', a, a, b, b, c, c]
  {
    var l := ['#', a, a, b, b, c, c];
    InertWithoutLead(SemicolonBeforeBrace, l);
    ApplyInert(SemicolonBeforeBrace, l);
  }

  /** A three-digit colour is doubled digit by digit, then lower-cased. */
  lemma CleanCssExpandsShortHex(x: char, y: char, z: char)
    requires IsHex(x) && IsHex(y) && IsHex(z)
    ensures CleanCss(['#', x, y, z])
            == ['#', LowerChar(x), LowerChar(x), LowerChar(y), LowerChar(y), LowerChar(z), LowerChar(z)]
  {
    ShortHexIsQuiet(x, y, z);
    NormalizeShortHex(x, y, z);
    TrimUnchanged(['#', LowerChar(x), LowerChar(x), LowerChar(y), LowerChar(y), LowerChar(z), LowerChar(z)]);
  }

  /** Every character of `s` is other than white space, and lower-cased lies outside `cs`. */
  predicate Avoids(s: string, cs: set<char>) {
    forall i :: 0 <= i < |s| ==> !IsSpace(s[i]) && LowerChar(s[i]) !in cs
  }

  /** The lead characters of the stylesheet patterns. */
  const CssLeads: set<char> := {'/', '@', '-', '#', ';'}

  lemma AvoidsJoin(a: string, m: string, b: string, cs: set<char>)
    requires Avoids(a, cs) && Avoids(m, cs) && Avoids(b, cs)
    ensures Avoids(a + m + b, cs)
  {
    var s := a + m + b;
    forall i | 0 <= i < |s| ensures !IsSpace(s[i]) && LowerChar(s[i]) !in cs {
      if i < |a| {
        assert s[i] == a[i];
      } else if i < |a| + |m| {
        assert s[i] == m[i - |a|];
      } else {
        assert s[i] == b[i - |a| - |m|];
      }
    }
  }

  lemma AvoidsFewer(s: string, cs: set<char>, ds: set<char>)
    requires Avoids(s, cs) && ds <= cs
    ensures Avoids(s, ds)
  {
  }

  /** A string avoiding a rule's lead character holds no match of it. */
  lemma AvoidsInert(rule: Rule, s: string, cs: set<char>)
    requires Avoids(s, cs) && Lead(rule) in cs
    ensures Inert(rule, s)
  {
    InertWithoutLead(rule, s);
  }

  /** Styles in which none of the six stylesheet patterns match. */
  predicate QuietCss(css: string) {
    Inert(CssComment, css) && Inert(Keyframes, css) && Inert(NumberedCustomProperty, css)
    && Inert(ShortHex, css) && Inert(LongHex, css) && Inert(SemicolonBeforeBrace, css)
  }

  /** Styles with no white space and none of the patterns are already clean. */
  lemma CleanCssFixpoint(css: string)
    requires QuietCss(css) && NoSpace(css)
    ensures CleanCss(css) == css
  {
    ApplyInert(CssComment, css);
    ApplyInert(Keyframes, css);
    ApplyInert(NumberedCustomProperty, css);
    ApplyInert(ShortHex, css);
    ApplyInert(LongHex, css);
    ApplyInert(SemicolonBeforeBrace, css);
    TrimUnchanged(css);
  }

  /** Stylesheet scrubbing depends on the input only through its text after the removals, white space deleted. */
  lemma CleanCssByStripped(c1: string, c2: string)
    requires DeleteSpace(StripCssNoise(c1)) == DeleteSpace(StripCssNoise(c2))
    ensures CleanCss(c1) == CleanCss(c2)
  {
  }

  /**
   * White space is deleted rather than collapsed: styles free of the removal
   * patterns that differ only in white space scrub to the same text.
   */
  lemma CleanCssIgnoresSpace(c1: string, c2: string)
    requires Inert(CssComment, c1) && Inert(Keyframes, c1) && Inert(NumberedCustomProperty, c1)
    requires Inert(CssComment, c2) && Inert(Keyframes, c2) && Inert(NumberedCustomProperty, c2)
    requires DeleteSpace(c1) == DeleteSpace(c2)
    ensures CleanCss(c1) == CleanCss(c2)
  {
    ApplyInert(CssComment, c1);
    ApplyInert(Keyframes, c1);
    ApplyInert(NumberedCustomProperty, c1);
    ApplyInert(CssComment, c2);
    ApplyInert(Keyframes, c2);
    ApplyInert(NumberedCustomProperty, c2);
    CleanCssByStripped(c1, c2);
  }

  /** A stylesheet comment `/*<body>*/`. */
  function CssCommentText(body: string): string {
    "/*" + body + "*/"
  }

  /** A comment whose body holds no `/` is matched up to its own terminator. */
  lemma CssCommentMatch(body: string, b: string)
    requires !HasChar(body, '/')
    ensures Step(CssComment, CssCommentText(body) + b) == Some((|CssCommentText(body)|, ""))
  {
    var s := CssCommentText(body) + b;
    var e := 2 + |body|;
    assert IsPrefix("/*", s) by {
      assert s[..2] == "/*";
    }
    assert s[e..e + 2] == "*/";
    forall j | 2 <= j < e
      ensures !OccursAt(s, "*/", j)
    {
      CssCommentOpenAt(body, b, j);
    }
    IndexOfStringAt(s, "*/", 2, e);
  }

  lemma CssCommentOpenAt(body: string, b: string, j: nat)
    requires !HasChar(body, '/') && 2 <= j < 2 + |body|
    ensures !OccursAt(CssCommentText(body) + b, "*/", j)
  {
    var s := CssCommentText(body) + b;
    assert s[j..j + 2][1] == s[j + 1];
    if j + 1 < 2 + |body| {
      assert s[j + 1] == body[j - 1];
    } else {
      assert s[j + 1] == '*';
    }
  }

  lemma CleanCssAfterComment(c1: string, c2: string)
    requires Apply(CssComment, c1) == Apply(CssComment, c2)
    ensures CleanCss(c1) == CleanCss(c2)
  {
  }

  /** A stylesheet comment leaves no trace in the scrubbed styles. */
  lemma CleanCssDropsComment(a: string, body: string, b: string)
    requires !HasChar(body, '/')
    requires NoMatchBefore(CssComment, a + CssCommentText(body) + b, |a|)
    requires NoMatchBefore(CssComment, a + b, |a|)
    ensures CleanCss(a + CssCommentText(body) + b) == CleanCss(a + b)
  {
    CssCommentMatch(body, b);
    ApplyDropsMatch(CssComment, a, CssCommentText(body), b);
    CleanCssAfterComment(a + CssCommentText(body) + b, a + b);
  }

  /** Styles holding no lead character of the removal patterns and no white space come through to the rewrites as they are. */
  lemma CssStripsToItself(s: string)
    requires Avoids(s, {'/', '@', '-'})
    ensures DeleteSpace(StripCssNoise(s)) == s
  {
    StripCssWithoutLeads(s);
  }

  /** The step of the brace rule on `;}` and what follows. */
  lemma SemicolonMatch(b: string)
    ensures Step(SemicolonBeforeBrace, ";}" + b) == Some((2, "}"))
  {
    var s := ";}" + b;
    assert s[0] == ';' && s[1] == '}';
  }

  /**
   * A `;` right before a closing brace is dropped, wherever it sits: around it,
   * text free of white space and of every pattern's lead character comes
   * through unchanged.
   */
  lemma CleanCssDropsSemicolon(a: string, b: string)
    requires Avoids(a, CssLeads) && Avoids(b, CssLeads)
    ensures CleanCss(a + ";}" + b) == a + "}" + b
  {
    SemicolonColourless(a, b);
    SemicolonDropped(a, b);
    TrimUnchanged(a + "}" + b);
    CleanCssOfColourless(a + ";}" + b);
  }

  /** Styles that come through the removals unchanged and hold no colour are only brace-rewritten. */
  lemma CleanCssOfColourless(s: string)
    requires DeleteSpace(StripCssNoise(s)) == s && Inert(ShortHex, s) && Inert(LongHex, s)
    ensures CleanCss(s) == Trim(Apply(SemicolonBeforeBrace, s))
  {
    ApplyInert(ShortHex, s);
    ApplyInert(LongHex, s);
  }

  lemma SemicolonColourless(a: string, b: string)
    requires Avoids(a, CssLeads) && Avoids(b, CssLeads)
    ensures DeleteSpace(StripCssNoise(a + ";}" + b)) == a + ";}" + b
    ensures Inert(ShortHex, a + ";}" + b) && Inert(LongHex, a + ";}" + b)
  {
    var s := a + ";}" + b;
    var ds := {'/', '@', '-', '#'};
    assert Avoids(";}", ds);
    AvoidsFewer(a, CssLeads, ds);
    AvoidsFewer(b, CssLeads, ds);
    AvoidsJoin(a, ";}", b, ds);
    AvoidsFewer(s, ds, {'/', '@', '-'});
    CssStripsToItself(s);
    AvoidsInert(ShortHex, s, ds);
    AvoidsInert(LongHex, s, ds);
  }

  lemma SemicolonDropped(a: string, b: string)
    requires Avoids(a, CssLeads) && Avoids(b, CssLeads)
    ensures Apply(SemicolonBeforeBrace, a + ";}" + b) == a + "}" + b
  {
    SemicolonMatch(b);
    NoMatchBeforeWithoutLead(SemicolonBeforeBrace, a, ";}" + b);
    assert a + ";}" + b == a + (";}" + b);
    ApplyAtMatch(SemicolonBeforeBrace, a, ";}", b, "}");
    AvoidsInert(SemicolonBeforeBrace, b, CssLeads);
    ApplyInert(SemicolonBeforeBrace, b);
  }

  /** `b` starts with something other than a word character, so a colour before it ends at a `\b`. */
  predicate EndsWord(b: string) {
    |b| == 0 || !IsWordChar(b[0])
  }

  /**
   * A three-digit colour is doubled and lower-cased wherever it sits: around
   * it, text free of white space and of every pattern's lead character, the
   * colour ending at a word boundary, comes through unchanged.
   */
  lemma CleanCssExpandsShortHexInContext(a: string, x: char, y: char, z: char, b: string)
    requires IsHex(x) && IsHex(y) && IsHex(z)
    requires Avoids(a, CssLeads) && Avoids(b, CssLeads) && EndsWord(b)
    ensures CleanCss(a + ['#', x, y, z] + b)
            == a + ['#', LowerChar(x), LowerChar(x), LowerChar(y), LowerChar(y), LowerChar(z), LowerChar(z)] + b
  {
    var m := ['#', x, y, z];
    var e := ['#', x, x, y, y, z, z];
    var l := ['#', LowerChar(x), LowerChar(x), LowerChar(y), LowerChar(y), LowerChar(z), LowerChar(z)];
    ShortHexStripped(a, x, y, z, b);
    ShortHexInContext(a, x, y, z, b);
    LongHexInContext(a, x, y, z, b);
    LoweredHexUntouched(a, x, y, z, b);
    TrimUnchanged(a + l + b);
    CleanCssOfColours(a + m + b, a + e + b, a + l + b);
  }

  lemma CleanCssOfColours(s: string, e: string, l: string)
    requires DeleteSpace(StripCssNoise(s)) == s
    requires Apply(ShortHex, s) == e && Apply(LongHex, e) == l && Apply(SemicolonBeforeBrace, l) == l
    requires Trim(l) == l
    ensures CleanCss(s) == l
  {
  }

  lemma ShortHexStripped(a: string, x: char, y: char, z: char, b: string)
    requires IsHex(x) && IsHex(y) && IsHex(z)
    requires Avoids(a, CssLeads) && Avoids(b, CssLeads)
    ensures DeleteSpace(StripCssNoise(a + ['#', x, y, z] + b)) == a + ['#', x, y, z] + b
  {
    var m := ['#', x, y, z];
    var ds := {'/', '@', '-'};
    HexNotCssLead(x);
    HexNotCssLead(y);
    HexNotCssLead(z);
    assert Avoids(m, ds);
    AvoidsFewer(a, CssLeads, ds);
    AvoidsFewer(b, CssLeads, ds);
    AvoidsJoin(a, m, b, ds);
    CssStripsToItself(a + m + b);
  }

  lemma ShortHexInContext(a: string, x: char, y: char, z: char, b: string)
    requires IsHex(x) && IsHex(y) && IsHex(z)
    requires Avoids(a, CssLeads) && Avoids(b, CssLeads) && EndsWord(b)
    ensures Apply(ShortHex, a + ['#', x, y, z] + b) == a + ['#', x, x, y, y, z, z] + b
  {
    var m := ['#', x, y, z];
    var t := m + b;
    assert t[..4] == m && t[4..] == b;
    assert BoundaryAt(t, 4);
    assert Step(ShortHex, t) == Some((4, ['#', x, x, y, y, z, z]));
    NoMatchBeforeWithoutLead(ShortHex, a, t);
    assert a + m + b == a + t;
    ApplyAtMatch(ShortHex, a, m, b, ['#', x, x, y, y, z, z]);
    AvoidsInert(ShortHex, b, CssLeads);
    ApplyInert(ShortHex, b);
  }

  lemma LongHexInContext(a: string, x: char, y: char, z: char, b: string)
    requires IsHex(x) && IsHex(y) && IsHex(z)
    requires Avoids(a, CssLeads) && Avoids(b, CssLeads) && EndsWord(b)
    ensures Apply(LongHex, a + ['#', x, x, y, y, z, z] + b)
            == a + ['#', LowerChar(x), LowerChar(x), LowerChar(y), LowerChar(y), LowerChar(z), LowerChar(z)] + b
  {
    var e := ['#', x, x, y, y, z, z];
    var t := e + b;
    assert t[..7] == e && t[7..] == b && t[1..7] == e[1..7] == [x, x, y, y, z, z];
    assert BoundaryAt(t, 7);
    assert Step(LongHex, t) == Some((7, "#" + Lower([x, x, y, y, z, z])));
    LowerDoubled(x, y, z);
    NoMatchBeforeWithoutLead(LongHex, a, t);
    assert a + e + b == a + t;
    ApplyAtMatch(LongHex, a, e, b, "#" + Lower([x, x, y, y, z, z]));
    AvoidsInert(LongHex, b, CssLeads);
    ApplyInert(LongHex, b);
  }

  lemma LoweredHexUntouched(a: string, x: char, y: char, z: char, b: string)
    requires IsHex(x) && IsHex(y) && IsHex(z)
    requires Avoids(a, CssLeads) && Avoids(b, CssLeads)
    ensures var l := ['#', LowerChar(x), LowerChar(x), LowerChar(y), LowerChar(y), LowerChar(z), LowerChar(z)];
            Apply(SemicolonBeforeBrace, a + l + b) == a + l + b
  {
    var l := ['#', LowerChar(x), LowerChar(x), LowerChar(y), LowerChar(y), LowerChar(z), LowerChar(z)];
    HexCharNoSpace(x);
    HexCharNoSpace(y);
    HexCharNoSpace(z);
    assert Avoids(l, {';'});
    AvoidsFewer(a, CssLeads, {';'});
    AvoidsFewer(b, CssLeads, {';'});
    AvoidsJoin(a, l, b, {';'});
    AvoidsInert(SemicolonBeforeBrace, a + l + b, {';'});
    ApplyInert(SemicolonBeforeBrace, a + l + b);
  }

  // ---------------------------------------------------------------------------
  // Fingerprints
  // ---------------------------------------------------------------------------

  /** `generateSiteHash`: the digest of the scrubbed markup followed by the scrubbed styles. */
  function SiteHash(md5: Md5, html: string, css: string): (r: string)
    ensures |r| == 32
  {
    var t := CleanHtml(html) + CleanCss(css);
    assert |md5(t)| == 32;
    md5(t)
  }

  /**
   * The fingerprint the change check actually stores and compares
   * (scripts/ready-ai/scraper.ts): the digest of the raw markup and styles.
   */
  function ChangeHash(md5: Md5, html: string, css: string): (r: string)
    ensures |r| == 32
  {
    md5(html + css)
  }

  /** The site fingerprint depends on the scrubbed texts only through their concatenation. */
  lemma SiteHashByCleanText(md5: Md5, h1: string, c1: string, h2: string, c2: string)
    requires CleanHtml(h1) + CleanCss(c1) == CleanHtml(h2) + CleanCss(c2)
    ensures SiteHash(md5, h1, c1) == SiteHash(md5, h2, c2)
  {
  }

  /** Markup free of removal patterns that differs only in white space has the same fingerprint. */
  lemma SiteHashIgnoresSpace(md5: Md5, h1: string, h2: string, css: string)
    requires QuietMarkup(h1) && QuietMarkup(h2)
    requires DeleteSpace(h1) == DeleteSpace(h2)
    ensures SiteHash(md5, h1, css) == SiteHash(md5, h2, css)
  {
    CleanHtmlIgnoresSpace(h1, h2);
  }

  /** Inserting a Ready.ai data attribute does not change the fingerprint. */
  lemma SiteHashIgnoresReadyData(md5: Md5, a: string, name: string, value: string, b: string, css: string)
    requires !HasChar(name, '=') && !HasChar(value, '"')
    requires NoMatchBefore(ReadyDataAttr, a + ReadyDataText(name, value) + b, |a|)
    requires NoMatchBefore(ReadyDataAttr, a + b, |a|)
    ensures SiteHash(md5, a + ReadyDataText(name, value) + b, css) == SiteHash(md5, a + b, css)
  {
    CleanHtmlDropsReadyData(a, name, value, b);
  }

  /** Inserting an `id` that holds a timestamp does not change the fingerprint. */
  lemma SiteHashIgnoresNumericId(md5: Md5, a: string, value: string, b: string, css: string)
    requires !HasChar(value, '"') && HasDigitRun(value, 10)
    requires Inert(ReadyDataAttr, a + IdText(value) + b) && Inert(ReadyDataAttr, a + b)
    requires NoMatchBefore(NumericId, a + IdText(value) + b, |a|)
    requires NoMatchBefore(NumericId, a + b, |a|)
    ensures SiteHash(md5, a + IdText(value) + b, css) == SiteHash(md5, a + b, css)
  {
    CleanHtmlDropsNumericId(a, value, b);
  }

  /** Inserting an inline style that mentions `transform` does not change the fingerprint. */
  lemma SiteHashIgnoresTransform(md5: Md5, a: string, value: string, b: string, css: string)
    requires !HasChar(value, '"') && Contains(Lower(value), "transform")
    requires Inert(ReadyDataAttr, a + StyleText(value) + b) && Inert(ReadyDataAttr, a + b)
    requires Inert(NumericId, a + StyleText(value) + b) && Inert(NumericId, a + b)
    requires NoMatchBefore(TransformStyle, a + StyleText(value) + b, |a|)
    requires NoMatchBefore(TransformStyle, a + b, |a|)
    ensures SiteHash(md5, a + StyleText(value) + b, css) == SiteHash(md5, a + b, css)
  {
    CleanHtmlDropsTransform(a, value, b);
  }

  /** Inserting a markup comment does not change the fingerprint. */
  lemma SiteHashIgnoresComment(md5: Md5, a: string, body: string, b: string, css: string)
    requires !HasChar(body, '>')
    requires Inert(ReadyDataAttr, a + HtmlCommentText(body) + b) && Inert(ReadyDataAttr, a + b)
    requires Inert(NumericId, a + HtmlCommentText(body) + b) && Inert(NumericId, a + b)
    requires Inert(TransformStyle, a + HtmlCommentText(body) + b) && Inert(TransformStyle, a + b)
    requires NoMatchBefore(HtmlComment, a + HtmlCommentText(body) + b, |a|)
    requires NoMatchBefore(HtmlComment, a + b, |a|)
    ensures SiteHash(md5, a + HtmlCommentText(body) + b, css) == SiteHash(md5, a + b, css)
  {
    CleanHtmlDropsComment(a, body, b);
  }

  /** Inserting a stylesheet comment does not change the fingerprint. */
  lemma SiteHashIgnoresCssComment(md5: Md5, html: string, a: string, body: string, b: string)
    requires !HasChar(body, '/')
    requires NoMatchBefore(CssComment, a + CssCommentText(body) + b, |a|)
    requires NoMatchBefore(CssComment, a + b, |a|)
    ensures SiteHash(md5, html, a + CssCommentText(body) + b) == SiteHash(md5, html, a + b)
  {
    CleanCssDropsComment(a, body, b);
  }

  // ---------------------------------------------------------------------------
  // Small helpers over digests
  // ---------------------------------------------------------------------------

  /** `hash.substring(0, length)`: a negative length counts as zero, a long one as the whole. */
  function ShortHash(hash: string, length: int): (r: string)
    ensures IsPrefix(r, hash)
    ensures |r| == if length <= 0 then 0 else if length >= |hash| then |hash| else length
  {
    if length <= 0 then "" else if length >= |hash| then hash else hash[..length]
  }

  /** The three outcomes `getHashDifference` reports. */
  datatype Difference = NotComparable | Unchanged | Differs(percent: nat) {
    /** The message the source returns. */
    function Message(): string {
      match this
      case NotComparable => "初回または比較不可"
      case Unchanged => "変更なし"
      case Differs(p) => NatToString(p) + "%の差分"
    }
  }

  /** The number of positions below `m` at which `a` and `b` differ, counted by a scan. */
  function MismatchCount(a: string, b: string, m: nat): (d: nat)
    requires m <= |a| && m <= |b|
    ensures d <= m
  {
    if m == 0 then 0
    else MismatchCount(a, b, m - 1) + (if a[m - 1] != b[m - 1] then 1 else 0)
  }

  /** The positions below `m` at which `a` and `b` differ. */
  function MismatchSet(a: string, b: string, m: nat): set<nat>
    requires m <= |a| && m <= |b|
  {
    set i: nat | i < m && a[i] != b[i]
  }

  /** The scan counts exactly the differing positions. */
  lemma {:induction false} MismatchCountIsSetSize(a: string, b: string, m: nat)
    requires m <= |a| && m <= |b|
    ensures MismatchCount(a, b, m) == |MismatchSet(a, b, m)|
  {
    if m > 0 {
      MismatchCountIsSetSize(a, b, m - 1);
      if a[m - 1] != b[m - 1] {
        assert MismatchSet(a, b, m) == MismatchSet(a, b, m - 1) + {m - 1};
      } else {
        assert MismatchSet(a, b, m) == MismatchSet(a, b, m - 1);
      }
    }
  }

  /** Agreement on the first `m` positions means no mismatch. */
  lemma {:induction false} MismatchCountZero(a: string, b: string, m: nat)
    requires m <= |a| && m <= |b|
    requires a[..m] == b[..m]
    ensures MismatchCount(a, b, m) == 0
  {
    if m > 0 {
      assert a[m - 1] == a[..m][m - 1];
      assert a[..m - 1] == a[..m][..m - 1];
      assert b[..m - 1] == b[..m][..m - 1];
      MismatchCountZero(a, b, m - 1);
    }
  }

  /** `Math.round(100 * d / m)` for naturals, halves rounding up. */
  function RoundedPercent(d: nat, m: nat): (p: nat)
    requires 0 < m && d <= m
    ensures p <= 100
    ensures 2 * m * p <= 200 * d + m < 2 * m * (p + 1)
  {
    var p := (200 * d + m) / (2 * m);
    DivisionBounds(200 * d + m, 2 * m);
    PercentAtMostHundred(d, m, p);
    p
  }

  lemma PercentAtMostHundred(d: nat, m: nat, p: nat)
    requires 0 < m && d <= m && 2 * m * p <= 200 * d + m
    ensures p <= 100
  {
    if p > 100 {
      MultiplyMonotone(2 * m, 101, p);
    }
  }

  lemma DivisionBounds(x: nat, y: nat)
    requires y > 0
    ensures y * (x / y) <= x < y * (x / y + 1)
  {
  }

  lemma MultiplyMonotone(a: nat, b: nat, c: nat)
    requires b <= c
    ensures a * b <= a * c
  {
  }

  /** Missing and empty hashes count as absent. */
  predicate Present(h: Option<string>) {
    h.Some? && h.value != ""
  }

  /**
   * `getHashDifference`: not comparable when either hash is absent or empty,
   * unchanged when they are equal, otherwise the rounded share of differing
   * positions among the first `min(|h1|, |h2|)`.
   */
  function HashDifference(h1: Option<string>, h2: Option<string>): (d: Difference)
    ensures d.NotComparable? <==> !Present(h1) || !Present(h2)
    ensures d.Unchanged? <==> Present(h1) && Present(h2) && h1 == h2
    ensures d.Differs? ==> d.percent <= 100
    ensures d.Differs? ==>
      var m := if |h1.value| < |h2.value| then |h1.value| else |h2.value|;
      2 * m * d.percent <= 200 * |MismatchSet(h1.value, h2.value, m)| + m < 2 * m * (d.percent + 1)
  {
    if !Present(h1) || !Present(h2) then NotComparable
    else if h1.value == h2.value then Unchanged
    else
      var a := h1.value;
      var b := h2.value;
      var m := if |a| < |b| then |a| else |b|;
      MismatchCountIsSetSize(a, b, m);
      Differs(RoundedPercent(MismatchCount(a, b, m), m))
  }

  /** A hash that is a proper prefix of the other is reported as a 0% difference. */
  lemma ProperPrefixReportsZero(a: string, b: string)
    requires a != "" && IsPrefix(a, b) && a != b
    ensures HashDifference(Some(a), Some(b)) == Differs(0)
  {
    assert b[..|a|] == a;
    assert a[..|a|] == a;
    MismatchCountZero(a, b, |a|);
  }

  // ---------------------------------------------------------------------------
  // Comparison with the stored capture and history statistics
  // ---------------------------------------------------------------------------

  /** `HashComparison` without its clock reading. */
  datatype Comparison = Comparison(previous: Option<string>, current: string, hasChanged: bool)

  /**
   * `compareWithPrevious`: `previous` is the hash of the loaded capture (`None`
   * when the load returned null); `failed` stands for an exception caught by the
   * handler, which reports a change without a previous hash.
   */
  function CompareWithPrevious(previous: Option<string>, current: string, failed: bool): (c: Comparison)
    ensures c.current == current
    ensures c.hasChanged <==> failed || previous != Some(current)
    ensures failed ==> c.previous == None
    ensures !failed ==> c.previous == previous
  {
    if failed then Comparison(None, current, true)
    else Comparison(previous, current, previous != Some(current))
  }

  /** One entry of the hash history: its folder name (or 'current') and its hash. */
  datatype HistoryEntry = HistoryEntry(timestamp: string, hash: string)

  datatype Statistics = Statistics(
    totalHashes: nat, uniqueHashes: nat, duplicateCount: int, mostRecentChange: Option<string>)

  function HashesOf(es: seq<HistoryEntry>): set<string> {
    set i | 0 <= i < |es| :: es[i].hash
  }

  lemma {:induction false} HashesOfSize(es: seq<HistoryEntry>)
    ensures |HashesOf(es)| <= |es|
  {
    if |es| > 0 {
      var init := es[..|es| - 1];
      HashesOfSize(init);
      assert HashesOf(es) == HashesOf(init) + {es[|es| - 1].hash} by {
        forall h | h in HashesOf(es)
          ensures h in HashesOf(init) + {es[|es| - 1].hash}
        {
          var i :| 0 <= i < |es| && es[i].hash == h;
          if i < |es| - 1 {
            assert init[i] == es[i];
          }
        }
      }
    }
  }

  /** A change between positions `i - 1` and `i`. */
  predicate ChangeAt(es: seq<HistoryEntry>, i: int) {
    1 <= i < |es| && es[i - 1].hash != es[i].hash
  }

  /** The first `i >= from` with a change, scanning forwards. */
  function FirstChange(es: seq<HistoryEntry>, from: nat): (r: Option<nat>)
    requires from >= 1
    ensures r.Some? ==> from <= r.value && ChangeAt(es, r.value)
                        && forall j :: from <= j < r.value ==> !ChangeAt(es, j)
    ensures r.None? ==> forall j :: from <= j ==> !ChangeAt(es, j)
    decreases |es| - from
  {
    if from >= |es| then None
    else if es[from - 1].hash != es[from].hash then Some(from)
    else FirstChange(es, from + 1)
  }

  /**
   * The fold of `getHashStatistics` over the history list (current capture
   * first): counts, duplicates, and the timestamp of the entry just before the
   * first change, if there is one.
   */
  function HashStatistics(es: seq<HistoryEntry>): (st: Statistics)
    ensures st.totalHashes == |es| && st.uniqueHashes == |HashesOf(es)|
    ensures st.duplicateCount == st.totalHashes - st.uniqueHashes >= 0
    ensures st.mostRecentChange.None? <==> forall i :: !ChangeAt(es, i)
    ensures st.mostRecentChange.Some? ==>
      exists i :: ChangeAt(es, i) && (forall j :: 1 <= j < i ==> !ChangeAt(es, j))
                  && st.mostRecentChange.value == es[i - 1].timestamp
  {
    HashesOfSize(es);
    var unique := |HashesOf(es)|;
    var change := match FirstChange(es, 1)
      case Some(i) => Some(es[i - 1].timestamp)
      case None => None;
    Statistics(|es|, unique, |es| - unique, change)
  }

  /**
   * `getHashHistory(limit)`: the first `limit` history folders whose capture
   * loads, in list order, preceded by the current capture when it loads.
   * `load` stands for reading a capture's stored hash (`None` when absent).
   */
  function HashHistory(folders: seq<string>, load: string -> Option<string>,
                       current: Option<string>, limit: nat): (es: seq<HistoryEntry>)
    ensures current.Some? ==> |es| > 0 && es[0] == HistoryEntry("current", current.value)
    ensures |es| <= |folders| + 1
    ensures forall e :: e in es && e.timestamp != "current" ==> e.timestamp in folders
    ensures forall e :: e in es && e.timestamp != "current" ==> load(e.timestamp) == Some(e.hash)
    ensures forall i :: 0 <= i < |folders| && i < limit && load(folders[i]).Some? ==>
      HistoryEntry(folders[i], load(folders[i]).value) in es
    ensures es == (if current.Some? then [HistoryEntry("current", current.value)] else [])
                  + LoadedEntries(folders[..if limit < |folders| then limit else |folders|], load)
  {
    var taken := folders[..if limit < |folders| then limit else |folders|];
    var loaded := LoadedEntries(taken, load);
    assert forall e :: e in loaded ==> e.timestamp in folders;
    assert forall i :: 0 <= i < |folders| && i < limit ==> folders[i] == taken[i];
    if current.Some? then [HistoryEntry("current", current.value)] + loaded else loaded
  }

  /** Whether each folder's capture loads, position by position. */
  function Loads(fs: seq<string>, load: string -> Option<string>): (bs: seq<bool>)
    ensures |bs| == |fs| && forall i :: 0 <= i < |fs| ==> bs[i] == load(fs[i]).Some?
  {
    seq(|fs|, i requires 0 <= i < |fs| => load(fs[i]).Some?)
  }

  /**
   * The folders of `fs` whose capture loads, with their hashes: one entry per
   * loading position, in increasing position order.
   */
  function LoadedEntries(fs: seq<string>, load: string -> Option<string>): (es: seq<HistoryEntry>)
    ensures |es| <= |fs|
    ensures forall e :: e in es ==> e.timestamp in fs && load(e.timestamp) == Some(e.hash)
    ensures forall f :: f in fs && load(f).Some? ==> HistoryEntry(f, load(f).value) in es
    ensures var ps := Positions(Loads(fs, load));
      |es| == |ps| && forall k :: 0 <= k < |ps| ==> es[k] == HistoryEntry(fs[ps[k]], load(fs[ps[k]]).value)
  {
    if |fs| == 0 then []
    else
      var n := |fs| - 1;
      var bs := Loads(fs, load);
      assert bs[..n] == Loads(fs[..n], load);
      assert Positions(bs) == if bs[n] then Positions(bs[..n]) + [n] else Positions(bs[..n]);
      assert forall i :: 0 <= i < n ==> fs[..n][i] == fs[i];
      assert forall f :: f in fs ==> f in fs[..n] || f == fs[n];
      var rest := LoadedEntries(fs[..n], load);
      match load(fs[n])
      case Some(h) => rest + [HistoryEntry(fs[n], h)]
      case None => rest
  }

  /**
   * `checkForDuplicateHash`: the hash is already the current capture's, or
   * that of one of the first fifty history folders whose capture loads.
   */
  function IsDuplicateHash(folders: seq<string>, load: string -> Option<string>,
                           current: Option<string>, hash: string): (r: bool)
    ensures r <==> (current == Some(hash) ||
                    exists i :: 0 <= i < |folders| && i < 50 && load(folders[i]) == Some(hash))
  {
    HistoryHolds(folders, load, current, 50, hash);
    InHistory(HashHistory(folders, load, current, 50), hash)
  }

  /** Some entry of `es` carries `hash`. */
  predicate InHistory(es: seq<HistoryEntry>, hash: string) {
    exists i | 0 <= i < |es| :: es[i].hash == hash
  }

  /** `hash` is the current capture's, or that of a loading folder within the first `limit`. */
  predicate HeldWithin(folders: seq<string>, load: string -> Option<string>,
                       current: Option<string>, limit: nat, hash: string) {
    current == Some(hash) || exists i :: 0 <= i < |folders| && i < limit && load(folders[i]) == Some(hash)
  }

  /** Some history entry carries `hash` exactly when the current capture or a folder within the limit does. */
  lemma HistoryHolds(folders: seq<string>, load: string -> Option<string>,
                     current: Option<string>, limit: nat, hash: string)
    ensures InHistory(HashHistory(folders, load, current, limit), hash) <==> HeldWithin(folders, load, current, limit, hash)
  {
    if InHistory(HashHistory(folders, load, current, limit), hash) {
      HistoryHoldsSound(folders, load, current, limit, hash);
    }
    if HeldWithin(folders, load, current, limit, hash) {
      HistoryHoldsComplete(folders, load, current, limit, hash);
    }
  }

  lemma HistoryHoldsSound(folders: seq<string>, load: string -> Option<string>,
                          current: Option<string>, limit: nat, hash: string)
    requires InHistory(HashHistory(folders, load, current, limit), hash)
    ensures HeldWithin(folders, load, current, limit, hash)
  {
    var es := HashHistory(folders, load, current, limit);
    var i :| 0 <= i < |es| && es[i].hash == hash;
    HistoryEntrySource(folders, load, current, limit, i);
  }

  lemma HistoryHoldsComplete(folders: seq<string>, load: string -> Option<string>,
                             current: Option<string>, limit: nat, hash: string)
    requires HeldWithin(folders, load, current, limit, hash)
    ensures InHistory(HashHistory(folders, load, current, limit), hash)
  {
    if current == Some(hash) {
      assert HashHistory(folders, load, current, limit)[0].hash == hash;
    } else {
      var i :| 0 <= i < |folders| && i < limit && load(folders[i]) == Some(hash);
      HistoryHasFolder(folders, load, current, limit, i);
    }
  }

  /** A loading folder within the limit has its entry in the history. */
  lemma HistoryHasFolder(folders: seq<string>, load: string -> Option<string>,
                         current: Option<string>, limit: nat, i: nat)
    requires i < |folders| && i < limit && load(folders[i]).Some?
    ensures InHistory(HashHistory(folders, load, current, limit), load(folders[i]).value)
  {
    var es := HashHistory(folders, load, current, limit);
    var e := HistoryEntry(folders[i], load(folders[i]).value);
    assert e in es;
    var k :| 0 <= k < |es| && es[k] == e;
    assert es[k].hash == e.hash;
  }

  /** Each history entry holds the current hash or the hash of a folder within the limit. */
  lemma HistoryEntrySource(folders: seq<string>, load: string -> Option<string>,
                           current: Option<string>, limit: nat, i: nat)
    requires i < |HashHistory(folders, load, current, limit)|
    ensures var e := HashHistory(folders, load, current, limit)[i];
      || current == Some(e.hash)
      || exists j :: 0 <= j < |folders| && j < limit && load(folders[j]) == Some(e.hash)
  {
    var es := HashHistory(folders, load, current, limit);
    var m := if limit < |folders| then limit else |folders|;
    var head := if current.Some? then [HistoryEntry("current", current.value)] else [];
    var loaded := LoadedEntries(folders[..m], load);
    if i >= |head| {
      var k := i - |head|;
      assert es[i] == loaded[k];
      var j := Positions(Loads(folders[..m], load))[k];
      assert folders[..m][j] == folders[j];
      assert load(folders[j]) == Some(es[i].hash);
    }
  }
}
