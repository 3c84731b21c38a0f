/**
 * The component converter of scripts/ready-ai/converter.ts: prop extraction
 * from the component's HTML, the Props interface and destructuring lines, the
 * Astro template fill, the batch conversion and the dependency-import pass.
 *
 * The HTML library's parser and serialiser are parameters (`parse`, `render`);
 * in between, the document is a tree of elements and text nodes on which the
 * converter's selector-driven rewrites are written out.
 */
module Converter {
  import opened Common
  import opened Strings
  import opened Config
  import opened Dicts
  import opened Parser
  import opened Css

  // ---------------------------------------------------------------------------
  // camelCase
  // ---------------------------------------------------------------------------

  /** The characters the regular-expression `.` does not match. */
  predicate IsLineTerminator(c: char) {
    c == '\n' || c == '\r' || c == '\U{2028}' || c == '\U{2029}'
  }

  predicate IsSeparator(c: char) { c == '-' || c == '_' }

  /**
   * `toCamelCase`: every `-` or `_` followed by a character other than a line
   * terminator is dropped and the character upper-cased, scanning left to
   * right without overlap.
   */
  function ToCamel(s: string): (r: string)
    ensures |r| <= |s|
    decreases |s|
  {
    if |s| == 0 then ""
    else if |s| >= 2 && IsSeparator(s[0]) && !IsLineTerminator(s[1]) then [UpperChar(s[1])] + ToCamel(s[2..])
    else [s[0]] + ToCamel(s[1..])
  }

  predicate NoSeparators(s: string) {
    forall i :: 0 <= i < |s| ==> !IsSeparator(s[i])
  }

  /** A key without `-` or `_`, such as every key the parser makes, is its own camelCase. */
  lemma {:induction false} ToCamelPlain(s: string)
    requires NoSeparators(s)
    ensures ToCamel(s) == s
    decreases |s|
  {
    if |s| > 0 {
      assert NoSeparators(s[1..]) by {
        forall i | 0 <= i < |s| - 1 ensures !IsSeparator(s[1..][i]) { assert s[1..][i] == s[i + 1]; }
      }
      ToCamelPlain(s[1..]);
      assert [s[0]] + s[1..] == s;
    }
  }

  /** The separated spelling of a camelCase name: `sep` and the lower-case letter before each capital. */
  function Separated(s: string, sep: char): (r: string)
    ensures |r| >= |s|
  {
    if |s| == 0 then ""
    else if IsUpper(s[0]) then [sep, LowerChar(s[0])] + Separated(s[1..], sep)
    else [s[0]] + Separated(s[1..], sep)
  }

  /** camelCase undoes kebab-case and snake_case: `hero-title` and `hero_title` become `heroTitle`. */
  lemma {:induction false} ToCamelSeparated(s: string, sep: char)
    requires NoSeparators(s) && IsSeparator(sep)
    ensures ToCamel(Separated(s, sep)) == s
    decreases |s|
  {
    if |s| > 0 {
      assert NoSeparators(s[1..]) by {
        forall i | 0 <= i < |s| - 1 ensures !IsSeparator(s[1..][i]) { assert s[1..][i] == s[i + 1]; }
      }
      ToCamelSeparated(s[1..], sep);
      var t := Separated(s[1..], sep);
      if IsUpper(s[0]) {
        var u := [sep, LowerChar(s[0])] + t;
        assert u[2..] == t;
        assert UpperChar(LowerChar(s[0])) == s[0];
      } else {
        var u := [s[0]] + t;
        assert u[1..] == t;
      }
      assert [s[0]] + s[1..] == s;
    }
  }

  // ---------------------------------------------------------------------------
  // Prop types, optionality and defaults
  // ---------------------------------------------------------------------------

  /** `inferType`: the TypeScript type written for a prop value. */
  function InferType(v: Value): (t: string)
    ensures t in {"string", "number", "boolean", "string[]"}
    ensures t == "number" <==> v.Num?
    ensures t == "boolean" <==> v.Bool?
    ensures t == "string[]" <==> v.Arr?
  {
    match v
    case Num(_) => "number"
    case Bool(_) => "boolean"
    case Arr(_) => "string[]"
    case _ => "string"
  }

  /** `shouldBeOptional`: `Alt` props and empty, null or undefined values are optional. */
  predicate ShouldBeOptional(key: string, v: Value) {
    IsSuffix("Alt", key) || v == Str("") || v == Null || v == Undefined
  }

  /** `String(n)` for an integer. */
  function IntToString(n: int): (r: string)
    ensures |r| > 0
  {
    if n < 0 then "-" + NatToString(-n) else NatToString(n)
  }

  /**
   * What a single escape sequence of a double-quoted JavaScript string
   * literal stands for; `None` for the numeric and Unicode escapes and the
   * carriage-return continuation, which are not modelled.
   */
  function EscapeValue(c: char): Option<string> {
    if c == 'n' then Some("\n")
    else if c == 'r' then Some("\r")
    else if c == 't' then Some("\t")
    else if c == 'b' then Some("\U{0008}")
    else if c == 'f' then Some("\U{000C}")
    else if c == 'v' then Some("\U{000B}")
    else if c == '\n' || c == '\U{2028}' || c == '\U{2029}' then Some("")
    else if IsDigit(c) || c == 'x' || c == 'u' || c == '\r' then None
    else Some([c])
  }

  /**
   * The value of a double-quoted JavaScript string literal, given the text
   * after its opening quote: `None` when the literal is not terminated, ends
   * before the text does, or holds a raw line break.
   */
  function LiteralValue(t: string): (r: Option<string>)
    decreases |t|
  {
    if |t| == 0 then None
    else if t[0] == '"' then (if |t| == 1 then Some("") else None)
    else if t[0] == '\n' || t[0] == '\r' then None
    else if t[0] == '\\' then
      if |t| == 1 then None
      else match (EscapeValue(t[1]), LiteralValue(t[2..]))
        case (Some(e), Some(rest)) => Some(e + rest)
        case _ => None
    else match LiteralValue(t[1..])
      case Some(rest) => Some([t[0]] + rest)
      case None => None
  }

  /** `getDefaultValue` on a string as written: only `"` is escaped. */
  function DefaultLiteralAsWritten(s: string): string {
    "\"" + ReplaceAll(s, "\"", "\\\"") + "\""
  }

  /** A value ending in a backslash yields a literal whose closing quote is escaped. */
  lemma DefaultLiteralAsWrittenUnterminated()
    ensures DefaultLiteralAsWritten("a\\") == "\"a\\\""
    ensures LiteralValue(DefaultLiteralAsWritten("a\\")[1..]) == None
  {
    var q, e := "\"", "\\\"";
    assert "\\"[..1][0] != q[0] && "\\"[1..] == "";
    assert ReplaceAll("\\", q, e) == "\\" + ReplaceAll("", q, e);
    assert !IsPrefix(q, "a\\") && "a\\"[1..] == "\\";
    assert ReplaceAll("a\\", q, e) == "a" + ReplaceAll("\\", q, e);
    var t := "a\\\"";
    assert t[1..][2..] == "";
    assert LiteralValue(t[1..]) == None;
  }

  /** One character as it is written inside a double-quoted literal. */
  function EscapeChar(c: char): (r: string)
    ensures 1 <= |r| <= 2
  {
    if c == '"' then "\\\""
    else if c == '\\' then "\\\\"
    else if c == '\n' then "\\n"
    else if c == '\r' then "\\r"
    else [c]
  }

  function Escape(s: string): string {
    if |s| == 0 then "" else EscapeChar(s[0]) + Escape(s[1..])
  }

  /** The string default, escaping backslashes and line breaks as well as quotes. */
  function DefaultLiteral(s: string): string {
    "\"" + Escape(s) + "\""
  }

  /** The default literal denotes exactly the prop's value. */
  lemma {:induction false} DefaultLiteralValue(s: string)
    ensures LiteralValue(DefaultLiteral(s)[1..]) == Some(s)
  {
    EscapeDecodes(s);
    assert DefaultLiteral(s)[1..] == Escape(s) + "\"";
  }

  lemma {:induction false} EscapeDecodes(s: string)
    ensures LiteralValue(Escape(s) + "\"") == Some(s)
    decreases |s|
  {
    if |s| == 0 {
      assert Escape(s) + "\"" == "\"";
    } else {
      var rest := Escape(s[1..]) + "\"";
      EscapeDecodes(s[1..]);
      assert Escape(s) + "\"" == EscapeChar(s[0]) + rest;
      EscapeCharDecodes(s[0], rest, s[1..]);
      assert [s[0]] + s[1..] == s;
    }
  }

  /** An escaped character in front of a literal's remainder decodes to that character. */
  lemma EscapeCharDecodes(c: char, rest: string, v: string)
    requires LiteralValue(rest) == Some(v)
    ensures LiteralValue(EscapeChar(c) + rest) == Some([c] + v)
  {
    var t := EscapeChar(c) + rest;
    if |EscapeChar(c)| == 2 {
      assert t[2..] == rest;
    } else {
      assert t[1..] == rest;
    }
  }

  /** Without backslashes or line breaks the code as written already produces the right literal. */
  lemma {:induction false} DefaultLiteralAgrees(s: string)
    requires forall i :: 0 <= i < |s| ==> s[i] != '\\' && s[i] != '\n' && s[i] != '\r'
    ensures DefaultLiteralAsWritten(s) == DefaultLiteral(s)
  {
    EscapeQuotesOnly(s);
  }

  lemma {:induction false} EscapeQuotesOnly(s: string)
    requires forall i :: 0 <= i < |s| ==> s[i] != '\\' && s[i] != '\n' && s[i] != '\r'
    ensures ReplaceAll(s, "\"", "\\\"") == Escape(s)
    decreases |s|
  {
    if |s| > 0 {
      assert forall i :: 0 <= i < |s| - 1 ==> s[1..][i] == s[i + 1];
      EscapeQuotesOnly(s[1..]);
      assert s[|"\""|..] == s[1..];
    }
  }

  /** `getDefaultValue`: strings as literals, numbers and booleans as text, nothing otherwise. */
  function DefaultValue(v: Value): (r: Option<string>)
    ensures r.Some? <==> v.Str? || v.Num? || v.Bool?
    ensures v.Str? ==> r == Some(DefaultLiteral(v.s))
  {
    match v
    case Str(s) => Some(DefaultLiteral(s))
    case Num(n) => Some(IntToString(n))
    case Bool(b) => Some(if b then "true" else "false")
    case _ => None
  }

  // ---------------------------------------------------------------------------
  // The Props interface and destructuring
  // ---------------------------------------------------------------------------

  /** One member line of the Props interface. */
  function InterfaceLine(key: string, v: Value): string {
    "  " + key + (if ShouldBeOptional(key, v) then "?" else "") + ": " + InferType(v) + ";"
  }

  function InterfaceLines(props: Dict<Value>): (lines: seq<string>)
    ensures |lines| == |props|
    ensures forall i :: 0 <= i < |props| ==> lines[i] == InterfaceLine(props[i].0, props[i].1)
  {
    if |props| == 0 then [] else [InterfaceLine(props[0].0, props[0].1)] + InterfaceLines(props[1..])
  }

  /** `generatePropsInterface`. */
  function Interface(props: Dict<Value>): string {
    if |props| == 0 then "" else Join(InterfaceLines(props), "\n")
  }

  predicate KeysOnOneLine(props: Dict<Value>) {
    forall i :: 0 <= i < |props| ==> !HasChar(props[i].0, '\n')
  }

  /** A member line has a line break only where its key has one. */
  lemma InterfaceLineOneLine(key: string, v: Value)
    requires !HasChar(key, '\n')
    ensures !HasChar(InterfaceLine(key, v), '\n')
  {
    var opt := if ShouldBeOptional(key, v) then "?" else "";
    var ty := InferType(v);
    assert !HasChar(opt, '\n') && !HasChar(ty, '\n') && !HasChar("  ", '\n');
    assert !HasChar(": ", '\n') && !HasChar(";", '\n');
    HasCharConcat("  ", key, '\n');
    HasCharConcat("  " + key, opt, '\n');
    HasCharConcat("  " + key + opt, ": ", '\n');
    HasCharConcat("  " + key + opt + ": ", ty, '\n');
    HasCharConcat("  " + key + opt + ": " + ty, ";", '\n');
  }

  /** Reading the interface back line by line gives one member line per prop, in prop order. */
  lemma InterfaceLinesBack(props: Dict<Value>)
    requires |props| > 0 && KeysOnOneLine(props)
    ensures Split(Interface(props), '\n') == InterfaceLines(props)
  {
    var lines := InterfaceLines(props);
    forall k | 0 <= k < |lines| ensures !HasChar(lines[k], '\n') {
      InterfaceLineOneLine(props[k].0, props[k].1);
    }
    SplitJoin(lines, '\n');
  }

  function DestructureItem(key: string, v: Value): string {
    match DefaultValue(v)
    case Some(d) => key + " = " + d
    case None => key
  }

  function DestructureItems(props: Dict<Value>): (items: seq<string>)
    ensures |items| == |props|
    ensures forall i :: 0 <= i < |props| ==> items[i] == DestructureItem(props[i].0, props[i].1)
  {
    if |props| == 0 then [] else [DestructureItem(props[0].0, props[0].1)] + DestructureItems(props[1..])
  }

  /** `generatePropsDestructure`. */
  function Destructure(props: Dict<Value>): string {
    if |props| == 0 then "" else Join(DestructureItems(props), ", ")
  }

  /** A string prop's destructuring item reads back its key and its value. */
  lemma DestructureItemOfString(key: string, s: string)
    ensures IsPrefix(key + " = ", DestructureItem(key, Str(s)))
    ensures LiteralValue(DestructureItem(key, Str(s))[|key| + 4..]) == Some(s)
  {
    var item := DestructureItem(key, Str(s));
    assert item == key + " = " + DefaultLiteral(s);
    assert item[..|key| + 3] == key + " = ";
    assert item[|key| + 4..] == DefaultLiteral(s)[1..];
    DefaultLiteralValue(s);
  }

  // ---------------------------------------------------------------------------
  // The template fill
  // ---------------------------------------------------------------------------

  /** The four `.replace` calls on the template, each replacing the first occurrence of its slot. */
  function FillTemplate(iface: string, destructure: string, html: string, styles: string): string {
    ReplaceFirst(ReplaceFirst(ReplaceFirst(ReplaceFirst(AstroTemplate, InterfaceSlot, iface),
      DestructureSlot, destructure), HtmlSlot, html), StylesSlot, styles)
  }

  /** None of the four slot markers occurs in `s`. */
  predicate SlotFree(s: string) {
    !Contains(s, InterfaceSlot) && !Contains(s, DestructureSlot)
    && !Contains(s, HtmlSlot) && !Contains(s, StylesSlot)
  }

  lemma SlotFreeByUnderscore(s: string)
    requires '_' !in s
    ensures SlotFree(s)
  {
    NoCharNoContains(s, InterfaceSlot, '_');
    NoCharNoContains(s, DestructureSlot, '_');
    NoCharNoContains(s, HtmlSlot, '_');
    NoCharNoContains(s, StylesSlot, '_');
  }

  /** The template text around the slots holds no slot marker. */
  lemma TemplatePiecesSlotFree()
    ensures SlotFree(TemplateHead) && SlotFree(TemplateAfterInterface)
    ensures SlotFree(TemplateAfterDestructure) && SlotFree(TemplateAfterHtml)
  {
    PieceSlotFree(TemplateHead);
    PieceSlotFree(TemplateAfterInterface);
    PieceSlotFree(TemplateAfterDestructure);
    PieceSlotFree(TemplateAfterHtml);
  }

  /** A piece of the template around the slots holds no slot marker. */
  lemma PieceSlotFree(s: string)
    requires s == TemplateHead || s == TemplateAfterInterface
          || s == TemplateAfterDestructure || s == TemplateAfterHtml
    ensures SlotFree(s)
  {
    if s == TemplateHead {
      SlotFreeByUnderscore(TemplateHead);
    } else if s == TemplateAfterInterface {
      SlotFreeByUnderscore(TemplateAfterInterface);
    } else if s == TemplateAfterDestructure {
      SlotFreeByUnderscore(TemplateAfterDestructure);
    } else {
      SlotFreeByUnderscore(TemplateAfterHtml);
    }
  }

  /** The template text meets every slot at a blank. */
  lemma TemplatePiecesBlank()
    ensures |TemplateHead| > 0 && Blank(TemplateHead[|TemplateHead| - 1])
    ensures |TemplateAfterInterface| > 0 && Blank(TemplateAfterInterface[0])
            && Blank(TemplateAfterInterface[|TemplateAfterInterface| - 1])
    ensures |TemplateAfterDestructure| > 0 && Blank(TemplateAfterDestructure[0])
            && Blank(TemplateAfterDestructure[|TemplateAfterDestructure| - 1])
    ensures |TemplateAfterHtml| > 0 && Blank(TemplateAfterHtml[0])
            && Blank(TemplateAfterHtml[|TemplateAfterHtml| - 1])
  {
  }

  /** Gluing two slot-free strings at a space or a line break makes no slot marker. */
  lemma SlotFreeConcat(x: string, y: string)
    requires SlotFree(x) && SlotFree(y)
    requires (|x| > 0 && Blank(x[|x| - 1])) || (|y| > 0 && Blank(y[0]))
    ensures SlotFree(x + y)
  {
    SlotsUnblank();
    NotContainsConcat(x, y, InterfaceSlot);
    NotContainsConcat(x, y, DestructureSlot);
    NotContainsConcat(x, y, HtmlSlot);
    NotContainsConcat(x, y, StylesSlot);
  }

  /** One fill step: the slot right after a slot-free prefix ending in a space or line break. */
  lemma FillStep(a: string, p: string, b: string, r: string)
    requires !Contains(a, p) && |a| > 0 && a[|a| - 1] !in p
    ensures ReplaceFirst(a + p + b, p, r) == a + r + b
  {
    FirstAfter(a, p, b);
    ReplaceFirstAt(a + p + b, p, r, |a|);
    assert (a + p + b)[..|a|] == a;
    assert (a + p + b)[|a| + |p|..] == b;
  }

  predicate Blank(c: char) { c == ' ' || c == '\n' }

  /** The slot markers are free of blanks. */
  lemma SlotsUnblank()
    ensures forall c :: c in InterfaceSlot ==> !Blank(c)
    ensures forall c :: c in DestructureSlot ==> !Blank(c)
    ensures forall c :: c in HtmlSlot ==> !Blank(c)
    ensures forall c :: c in StylesSlot ==> !Blank(c)
  {
  }

  lemma Regroup(a: string, x: string, b: string, p: string, c: string)
    ensures a + x + (b + p + c) == a + x + b + p + c
  {
  }

  /** A filled value between two slot-free pieces that meet it at blanks leaves a slot-free prefix. */
  lemma FillPrefix(a: string, v: string, b: string)
    requires SlotFree(a) && SlotFree(v) && SlotFree(b)
    requires |a| > 0 && Blank(a[|a| - 1]) && |b| > 0 && Blank(b[0]) && Blank(b[|b| - 1])
    ensures SlotFree(a + v + b) && Blank((a + v + b)[|a + v + b| - 1])
  {
    SlotFreeConcat(a, v);
    SlotFreeConcat(a + v, b);
  }

  /** A slot-free prefix ending in a blank: the slot after it is the one replaced. */
  lemma FillAfter(a: string, p: string, b: string, r: string)
    requires SlotFree(a) && |a| > 0 && Blank(a[|a| - 1])
    requires p == InterfaceSlot || p == DestructureSlot || p == HtmlSlot || p == StylesSlot
    ensures ReplaceFirst(a + p + b, p, r) == a + r + b
  {
    SlotsUnblank();
    FillStep(a, p, b, r);
  }

  /**
   * The fill on any template of the same shape: slot-free text pieces that
   * meet each value at a blank.
   */
  lemma FillChain(h: string, ai: string, ad: string, ah: string, t: string,
                  iface: string, destructure: string, html: string, styles: string)
    requires SlotFree(h) && SlotFree(ai) && SlotFree(ad) && SlotFree(ah)
    requires SlotFree(iface) && SlotFree(destructure) && SlotFree(html)
    requires |h| > 0 && Blank(h[|h| - 1])
    requires |ai| > 0 && Blank(ai[0]) && Blank(ai[|ai| - 1])
    requires |ad| > 0 && Blank(ad[0]) && Blank(ad[|ad| - 1])
    requires |ah| > 0 && Blank(ah[0]) && Blank(ah[|ah| - 1])
    ensures ReplaceFirst(ReplaceFirst(ReplaceFirst(ReplaceFirst(
              h + (InterfaceSlot + (ai + DestructureSlot + (ad + HtmlSlot + (ah + StylesSlot + t)))),
              InterfaceSlot, iface), DestructureSlot, destructure), HtmlSlot, html), StylesSlot, styles)
            == h + iface + ai + destructure + ad + html + ah + styles + t
  {
    var r3 := ah + StylesSlot + t;
    var r2 := ad + HtmlSlot + r3;
    var r1 := ai + DestructureSlot + r2;
    assert h + (InterfaceSlot + r1) == h + InterfaceSlot + r1;
    FillAfter(h, InterfaceSlot, r1, iface);
    var a1 := h + iface + ai;
    FillPrefix(h, iface, ai);
    Regroup(h, iface, ai, DestructureSlot, r2);
    FillAfter(a1, DestructureSlot, r2, destructure);
    var a2 := a1 + destructure + ad;
    FillPrefix(a1, destructure, ad);
    Regroup(a1, destructure, ad, HtmlSlot, r3);
    FillAfter(a2, HtmlSlot, r3, html);
    var a3 := a2 + html + ah;
    FillPrefix(a2, html, ah);
    Regroup(a2, html, ah, StylesSlot, t);
    FillAfter(a3, StylesSlot, t, styles);
  }

  /**
   * When the interface, destructuring and HTML hold no slot marker, each value
   * lands in its own slot: the component is the template text with the four
   * values in place.
   */
  lemma FillTemplateInPlace(iface: string, destructure: string, html: string, styles: string)
    requires SlotFree(iface) && SlotFree(destructure) && SlotFree(html)
    ensures FillTemplate(iface, destructure, html, styles)
            == TemplateHead + iface + TemplateAfterInterface + destructure + TemplateAfterDestructure
               + html + TemplateAfterHtml + styles + TemplateTail
  {
    TemplatePiecesSlotFree();
    TemplatePiecesBlank();
    FillChain(TemplateHead, TemplateAfterInterface, TemplateAfterDestructure, TemplateAfterHtml, TemplateTail,
              iface, destructure, html, styles);
  }

  lemma PrefixExtends(pre: string, s: string, x: string)
    requires IsPrefix(pre, s)
    ensures IsPrefix(pre, s + x)
  {
    assert (s + x)[..|pre|] == s[..|pre|];
  }

  /** Whatever the values, the filled component still opens with the frontmatter fence. */
  lemma FillTemplateFence(iface: string, destructure: string, html: string, styles: string)
    ensures IsPrefix("---\n", FillTemplate(iface, destructure, html, styles))
  {
    var fence := "---\n";
    PrefixExtends(fence, TemplateHead, InterfaceSlot + (TemplateAfterInterface + DestructureSlot
      + (TemplateAfterDestructure + HtmlSlot + (TemplateAfterHtml + StylesSlot + TemplateTail))));
    var s1 := ReplaceFirst(AstroTemplate, InterfaceSlot, iface);
    ReplaceFirstKeepsPrefix(AstroTemplate, InterfaceSlot, iface, fence);
    var s2 := ReplaceFirst(s1, DestructureSlot, destructure);
    ReplaceFirstKeepsPrefix(s1, DestructureSlot, destructure, fence);
    var s3 := ReplaceFirst(s2, HtmlSlot, html);
    ReplaceFirstKeepsPrefix(s2, HtmlSlot, html, fence);
    ReplaceFirstKeepsPrefix(s3, StylesSlot, styles, fence);
  }

  /**
   * The four `.replace` calls as JavaScript runs them: each value is a
   * replacement string, so its `$$`, `$&`, `` $` `` and `$'` are expanded.
   */
  function FillTemplateAsWritten(iface: string, destructure: string, html: string, styles: string): string {
    ReplacePattern(ReplacePattern(ReplacePattern(ReplacePattern(AstroTemplate, InterfaceSlot, iface),
      DestructureSlot, destructure), HtmlSlot, html), StylesSlot, styles)
  }

  /** Values without `$` are taken literally, and the fill as written is the intended one. */
  lemma FillTemplateAsWrittenLiteral(iface: string, destructure: string, html: string, styles: string)
    requires '$' !in iface && '$' !in destructure && '$' !in html && '$' !in styles
    ensures FillTemplateAsWritten(iface, destructure, html, styles) == FillTemplate(iface, destructure, html, styles)
  {
    var s1 := ReplaceFirst(AstroTemplate, InterfaceSlot, iface);
    ReplacePatternLiteral(AstroTemplate, InterfaceSlot, iface);
    var s2 := ReplaceFirst(s1, DestructureSlot, destructure);
    ReplacePatternLiteral(s1, DestructureSlot, destructure);
    var s3 := ReplaceFirst(s2, HtmlSlot, html);
    ReplacePatternLiteral(s2, HtmlSlot, html);
    ReplacePatternLiteral(s3, StylesSlot, styles);
  }

  /** The template text after the destructuring slot, before any later slot is filled. */
  const DestructureAfter: string := TemplateAfterDestructure + HtmlSlot + (TemplateAfterHtml + StylesSlot + TemplateTail)

  /**
   * As written, the destructuring slot receives the expansion of the
   * destructuring, with `` $` `` standing for the filled front of the template
   * and `$'` for the rest of it, when the other values hold no `$`.
   */
  lemma FillTemplateAsWrittenExpands(iface: string, destructure: string, html: string, styles: string)
    requires SlotFree(iface)
    requires '$' !in iface && '$' !in html && '$' !in styles
    ensures FillTemplateAsWritten(iface, destructure, html, styles)
            == FillTemplate(iface, Substitution(destructure, DestructureSlot,
                                                TemplateHead + iface + TemplateAfterInterface, DestructureAfter),
                            html, styles)
  {
    var a1 := TemplateHead + iface + TemplateAfterInterface;
    var s1 := a1 + DestructureSlot + DestructureAfter;
    InterfaceFilled(iface);
    var sub := Substitution(destructure, DestructureSlot, a1, DestructureAfter);
    DestructureFilled(a1, destructure);
    var s2 := ReplaceFirst(s1, DestructureSlot, sub);
    assert ReplacePattern(s1, DestructureSlot, destructure) == s2;
    var s3 := ReplaceFirst(s2, HtmlSlot, html);
    ReplacePatternLiteral(s2, HtmlSlot, html);
    ReplacePatternLiteral(s3, StylesSlot, styles);
    calc {
      FillTemplateAsWritten(iface, destructure, html, styles);
      ReplacePattern(ReplacePattern(ReplacePattern(s1, DestructureSlot, destructure), HtmlSlot, html), StylesSlot, styles);
      ReplaceFirst(s3, StylesSlot, styles);
      FillTemplate(iface, sub, html, styles);
    }
  }

  /** As written, the destructuring slot after a filled front receives the expansion. */
  lemma DestructureFilled(a1: string, destructure: string)
    requires FirstOccurrence(a1 + DestructureSlot + DestructureAfter, DestructureSlot, |a1|)
    ensures var s1 := a1 + DestructureSlot + DestructureAfter;
            ReplacePattern(s1, DestructureSlot, destructure)
            == ReplaceFirst(s1, DestructureSlot, Substitution(destructure, DestructureSlot, a1, DestructureAfter))
  {
    var s1 := a1 + DestructureSlot + DestructureAfter;
    assert s1[..|a1|] == a1 && s1[|a1| + |DestructureSlot|..] == DestructureAfter;
    ReplacePatternAsFirst(s1, DestructureSlot, destructure, |a1|);
  }

  /**
   * Both fills put an interface without `$` or slot marker in its slot, and the
   * destructuring slot is then the first one left.
   */
  lemma InterfaceFilled(iface: string)
    requires SlotFree(iface) && '$' !in iface
    ensures var s1 := TemplateHead + iface + TemplateAfterInterface + DestructureSlot + DestructureAfter;
            && ReplacePattern(AstroTemplate, InterfaceSlot, iface) == s1
            && ReplaceFirst(AstroTemplate, InterfaceSlot, iface) == s1
            && FirstOccurrence(s1, DestructureSlot, |TemplateHead + iface + TemplateAfterInterface|)
  {
    var r1 := TemplateAfterInterface + DestructureSlot + DestructureAfter;
    assert AstroTemplate == TemplateHead + InterfaceSlot + r1;
    TemplatePiecesSlotFree();
    TemplatePiecesBlank();
    FillAfter(TemplateHead, InterfaceSlot, r1, iface);
    ReplacePatternLiteral(AstroTemplate, InterfaceSlot, iface);
    var a1 := TemplateHead + iface + TemplateAfterInterface;
    Regroup(TemplateHead, iface, TemplateAfterInterface, DestructureSlot, DestructureAfter);
    FillPrefix(TemplateHead, iface, TemplateAfterInterface);
    SlotsUnblank();
    FirstAfter(a1, DestructureSlot, DestructureAfter);
  }

  /** A string default whose page text is `$$$`, as `Converter.Destructure` writes it. */
  const DollarDefault: string := "text = \"$$$\""

  /** The expansion of `DollarDefault`, wherever it lands. */
  lemma DollarDefaultExpansion(before: string, after: string)
    ensures Substitution(DollarDefault, DestructureSlot, before, after) == "text = \"$$\""
  {
    var lead, tail := "text = \"", "$$$\"";
    assert DollarDefault == lead + tail;
    assert '$' !in lead;
    SubstitutionLiteralPrefix(lead, tail, DestructureSlot, before, after);
    SubstitutionDollars(DestructureSlot, before, after);
    var x := Substitution(tail, DestructureSlot, before, after);
    assert Substitution(DollarDefault, DestructureSlot, before, after) == lead + x;
    assert x == "$$\"";
  }

  /** The in-place text of a fill whose only non-empty value is the destructuring. */
  function DestructureOnly(destructure: string): string {
    TemplateHead + TemplateAfterInterface + destructure + TemplateAfterDestructure + TemplateAfterHtml + TemplateTail
  }

  /**
   * The page text `$$$` loses a dollar: the program writes `text = "$$"` where
   * the intended fill writes the destructuring unchanged.
   */
  lemma DollarDefaultCollapses()
    ensures FillTemplateAsWritten("", DollarDefault, "", "") == DestructureOnly("text = \"$$\"")
    ensures FillTemplate("", DollarDefault, "", "") == DestructureOnly(DollarDefault)
    ensures FillTemplateAsWritten("", DollarDefault, "", "") != FillTemplate("", DollarDefault, "", "")
  {
    DollarFills("text = \"$$\"");
    DollarFills(DollarDefault);
    SlotFreeByUnderscore("");
    FillTemplateAsWrittenExpands("", DollarDefault, "", "");
    DollarDefaultExpansion(TemplateHead + "" + TemplateAfterInterface, DestructureAfter);
    assert |DestructureOnly("text = \"$$\"")| != |DestructureOnly(DollarDefault)|;
  }

  /** The intended fill of a destructuring without `_` alone. */
  lemma DollarFills(destructure: string)
    requires '_' !in destructure
    ensures FillTemplate("", destructure, "", "") == DestructureOnly(destructure)
  {
    SlotFreeByUnderscore("");
    SlotFreeByUnderscore(destructure);
    FillTemplateInPlace("", destructure, "", "");
  }

  // ---------------------------------------------------------------------------
  // The document
  // ---------------------------------------------------------------------------

  /** A parsed HTML document: elements with their attributes in order, and text. */
  datatype Node = ElementNode(name: string, attrs: Dict<string>, children: seq<Node>) | TextNode(text: string)

  /** `$(element).text()`: the text below a node, in document order. */
  function TextOf(n: Node): string
    decreases n, 1
  {
    match n
    case TextNode(t) => t
    case ElementNode(_, _, children) => TextsOf(children)
  }

  function TextsOf(ns: seq<Node>): string
    decreases ns, 0
  {
    if |ns| == 0 then "" else TextOf(ns[0]) + TextsOf(ns[1..])
  }

  /** The elements of a forest in document order, each with its name and attributes. */
  function Elements(ns: seq<Node>): seq<(string, Dict<string>)>
    decreases ns, 0
  {
    if |ns| == 0 then [] else ElementsOf(ns[0]) + Elements(ns[1..])
  }

  function ElementsOf(n: Node): seq<(string, Dict<string>)>
    decreases n, 1
  {
    match n
    case TextNode(_) => []
    case ElementNode(name, attrs, children) => [(name, attrs)] + Elements(children)
  }

  /** The text placeholder `{prop}` the converter writes in place of a value. */
  function Placeholder(prop: string): string { "{" + prop + "}" }

  // ---------------------------------------------------------------------------
  // Text rewriting
  // ---------------------------------------------------------------------------

  /** An element named `tag` whose trimmed text is `value`. */
  predicate TextMatch(n: Node, tag: string, value: string) {
    n.ElementNode? && n.name == tag && Trim(TextsOf(n.children)) == value
  }

  /**
   * `$(tag).each(...)` with the text test: an element whose trimmed text is the
   * value has its content replaced by the placeholder text. Its descendants
   * leave the document with it, so the scan only goes on below elements it
   * leaves alone.
   */
  function RewriteText(n: Node, tag: string, value: string, prop: string): Node
    decreases n, 1
  {
    match n
    case TextNode(_) => n
    case ElementNode(name, attrs, children) =>
      if TextMatch(n, tag, value) then ElementNode(name, attrs, [TextNode(Placeholder(prop))])
      else ElementNode(name, attrs, RewriteTexts(children, tag, value, prop))
  }

  function RewriteTexts(ns: seq<Node>, tag: string, value: string, prop: string): (r: seq<Node>)
    ensures |r| == |ns|
    decreases ns, 0
  {
    if |ns| == 0 then [] else [RewriteText(ns[0], tag, value, prop)] + RewriteTexts(ns[1..], tag, value, prop)
  }

  /** Some element of the forest passes the text test. */
  predicate AnyTextMatch(ns: seq<Node>, tag: string, value: string)
    decreases ns, 0
  {
    |ns| > 0 && (AnyTextMatchIn(ns[0], tag, value) || AnyTextMatch(ns[1..], tag, value))
  }

  predicate AnyTextMatchIn(n: Node, tag: string, value: string)
    decreases n, 1
  {
    n.ElementNode? && (TextMatch(n, tag, value) || AnyTextMatch(n.children, tag, value))
  }

  /** Where no element passes the text test, the rewrite changes nothing. */
  lemma {:induction false} RewriteTextsInert(ns: seq<Node>, tag: string, value: string, prop: string)
    requires !AnyTextMatch(ns, tag, value)
    ensures RewriteTexts(ns, tag, value, prop) == ns
    decreases ns, 0
  {
    if |ns| > 0 {
      RewriteTextInert(ns[0], tag, value, prop);
      RewriteTextsInert(ns[1..], tag, value, prop);
      assert [ns[0]] + ns[1..] == ns;
    }
  }

  lemma {:induction false} RewriteTextInert(n: Node, tag: string, value: string, prop: string)
    requires !AnyTextMatchIn(n, tag, value)
    ensures RewriteText(n, tag, value, prop) == n
    decreases n, 1
  {
    if n.ElementNode? {
      RewriteTextsInert(n.children, tag, value, prop);
    }
  }

  /** After the rewrite, an element of the forest's top level passes the text test only with the placeholder as its value. */
  lemma {:induction false} RewriteTextHits(n: Node, tag: string, value: string, prop: string)
    requires TextMatch(n, tag, value)
    ensures TextOf(RewriteText(n, tag, value, prop)) == Placeholder(prop)
    ensures TextMatch(RewriteText(n, tag, value, prop), tag, value) <==> Trim(Placeholder(prop)) == value
  {
    var r := RewriteText(n, tag, value, prop);
    assert TextsOf(r.children) == TextOf(TextNode(Placeholder(prop))) + TextsOf([]);
  }

  // ---------------------------------------------------------------------------
  // Attribute rewriting
  // ---------------------------------------------------------------------------

  /** `tag[attr="value"]`. */
  datatype AttrSelector = AttrSelector(tag: string, attr: string, value: string) {
    predicate Selects(name: string, attrs: Dict<string>) {
      name == tag && Get(attrs, attr) == Some(value)
    }
  }

  /** `.attr(target, newValue)` on one element: assigned when the selector selects it. */
  function UpdateElement(e: (string, Dict<string>), sel: AttrSelector, target: string, newValue: string): (string, Dict<string>) {
    (e.0, if sel.Selects(e.0, e.1) then Put(e.1, target, newValue) else e.1)
  }

  function UpdateElements(es: seq<(string, Dict<string>)>, sel: AttrSelector, target: string, newValue: string): (r: seq<(string, Dict<string>)>)
    ensures |r| == |es|
    ensures forall i :: 0 <= i < |es| ==> r[i] == UpdateElement(es[i], sel, target, newValue)
  {
    if |es| == 0 then [] else [UpdateElement(es[0], sel, target, newValue)] + UpdateElements(es[1..], sel, target, newValue)
  }

  /** `$(selector).attr(target, newValue)` on the whole document. */
  function SetAttr(n: Node, sel: AttrSelector, target: string, newValue: string): Node
    decreases n, 1
  {
    match n
    case TextNode(_) => n
    case ElementNode(name, attrs, children) =>
      ElementNode(name, if sel.Selects(name, attrs) then Put(attrs, target, newValue) else attrs,
                  SetAttrs(children, sel, target, newValue))
  }

  function SetAttrs(ns: seq<Node>, sel: AttrSelector, target: string, newValue: string): (r: seq<Node>)
    ensures |r| == |ns|
    decreases ns, 0
  {
    if |ns| == 0 then [] else [SetAttr(ns[0], sel, target, newValue)] + SetAttrs(ns[1..], sel, target, newValue)
  }

  /**
   * Every selected element, wherever it sits, gets the attribute assigned,
   * and every other element keeps its attributes: element by element in
   * document order.
   */
  lemma {:induction false} SetAttrsElements(ns: seq<Node>, sel: AttrSelector, target: string, newValue: string)
    ensures Elements(SetAttrs(ns, sel, target, newValue)) == UpdateElements(Elements(ns), sel, target, newValue)
    decreases ns, 0
  {
    if |ns| > 0 {
      SetAttrElements(ns[0], sel, target, newValue);
      SetAttrsElements(ns[1..], sel, target, newValue);
      UpdateElementsConcat(ElementsOf(ns[0]), Elements(ns[1..]), sel, target, newValue);
    }
  }

  lemma {:induction false} SetAttrElements(n: Node, sel: AttrSelector, target: string, newValue: string)
    ensures ElementsOf(SetAttr(n, sel, target, newValue)) == UpdateElements(ElementsOf(n), sel, target, newValue)
    decreases n, 1
  {
    if n.ElementNode? {
      SetAttrsElements(n.children, sel, target, newValue);
      UpdateElementsConcat([(n.name, n.attrs)], Elements(n.children), sel, target, newValue);
    }
  }

  lemma UpdateElementsConcat(a: seq<(string, Dict<string>)>, b: seq<(string, Dict<string>)>,
                             sel: AttrSelector, target: string, newValue: string)
    ensures UpdateElements(a + b, sel, target, newValue)
            == UpdateElements(a, sel, target, newValue) + UpdateElements(b, sel, target, newValue)
  {
  }

  /** Assigning attributes leaves the text alone. */
  lemma {:induction false} SetAttrsText(ns: seq<Node>, sel: AttrSelector, target: string, newValue: string)
    ensures TextsOf(SetAttrs(ns, sel, target, newValue)) == TextsOf(ns)
    decreases ns, 0
  {
    if |ns| > 0 {
      var r := SetAttrs(ns, sel, target, newValue);
      assert r[0] == SetAttr(ns[0], sel, target, newValue) && r[1..] == SetAttrs(ns[1..], sel, target, newValue);
      if ns[0].ElementNode? {
        SetAttrsText(ns[0].children, sel, target, newValue);
      }
      SetAttrsText(ns[1..], sel, target, newValue);
    }
  }

  // ---------------------------------------------------------------------------
  // convertHtmlToAstro
  // ---------------------------------------------------------------------------

  /** The document and the prop record while the groups of props are worked through. */
  datatype Draft = Draft(doc: seq<Node>, props: Dict<Value>)

  /**
   * The message of the selector engine when an attribute value closes the
   * quotes of its selector early; its wording is the engine's and not modelled.
   */
  const SelectorError: string := "invalid attribute selector"

  predicate QuoteFree(s: string) { '"' !in s }

  predicate AllQuoteFree(vs: seq<string>) {
    forall i :: 0 <= i < |vs| ==> QuoteFree(vs[i])
  }

  lemma AllQuoteFreeConcat(a: seq<string>, b: seq<string>)
    ensures AllQuoteFree(a + b) <==> AllQuoteFree(a) && AllQuoteFree(b)
  {
    if AllQuoteFree(a + b) {
      assert forall i :: 0 <= i < |a| ==> a[i] == (a + b)[i];
      assert forall i :: 0 <= i < |b| ==> b[i] == (a + b)[|a| + i];
    }
  }

  /** One change the conversion makes to the document: a text rewrite or an attribute assignment. */
  datatype Edit =
    | Retext(tag: string, value: string, prop: string)
    | Reattr(sel: AttrSelector, target: string, newValue: string)

  function ApplyEdit(ns: seq<Node>, e: Edit): seq<Node> {
    match e
    case Retext(tag, value, prop) => RewriteTexts(ns, tag, value, prop)
    case Reattr(sel, target, newValue) => SetAttrs(ns, sel, target, newValue)
  }

  /** The edits made one after another, in order. */
  function ApplyEdits(ns: seq<Node>, es: seq<Edit>): seq<Node>
    decreases |es|
  {
    if |es| == 0 then ns else ApplyEdits(ApplyEdit(ns, es[0]), es[1..])
  }

  lemma {:induction false} ApplyEditsConcat(ns: seq<Node>, a: seq<Edit>, b: seq<Edit>)
    ensures ApplyEdits(ns, a + b) == ApplyEdits(ApplyEdits(ns, a), b)
    decreases |a|
  {
    if |a| == 0 {
      assert a + b == b;
    } else {
      ApplyEditsCons(ns, a[0], a[1..] + b);
      assert [a[0]] + (a[1..] + b) == a + b;
      ApplyEditsConcat(ApplyEdit(ns, a[0]), a[1..], b);
    }
  }

  lemma ApplyEditsCons(ns: seq<Node>, e: Edit, rest: seq<Edit>)
    ensures ApplyEdits(ns, [e] + rest) == ApplyEdits(ApplyEdit(ns, e), rest)
  {
    assert ([e] + rest)[0] == e && ([e] + rest)[1..] == rest;
  }

  /** The edits of the text group: the placeholder for each key that names a tag. */
  function TextEdits(entries: Dict<string>): seq<Edit>
    decreases |entries|
  {
    if |entries| == 0 then []
    else
      var (key, value) := entries[0];
      match TagOfKey(key)
      case Some(t) => [Retext(t.Name(), value, ToCamel(key))] + TextEdits(entries[1..])
      case None => TextEdits(entries[1..])
  }

  /** The edits of one image source under `prop`: its own, then its alternative text's when present. */
  function ImageEntryEdits(prop: string, value: string, alt: Option<string>): seq<Edit> {
    [Reattr(AttrSelector("img", "src", value), "src", Placeholder(prop))]
    + (if alt.Some? then [Reattr(AttrSelector("img", "src", Placeholder(prop)), "alt", Placeholder(prop + "Alt"))] else [])
  }

  /** The edits of the image group, entry by entry; the `Alt` companions make none of their own. */
  function ImageEdits(entries: Dict<string>, images: Dict<string>): seq<Edit>
    decreases |entries|
  {
    if |entries| == 0 then []
    else if IsSuffix("Alt", entries[0].0) then ImageEdits(entries[1..], images)
    else ImageEntryEdits(ToCamel(entries[0].0), entries[0].1, AltOf(images, entries[0].0)) + ImageEdits(entries[1..], images)
  }

  /** The edits of the link group: each target except the `Text` companions. */
  function LinkEdits(entries: Dict<string>): seq<Edit>
    decreases |entries|
  {
    if |entries| == 0 then []
    else if IsSuffix("Text", entries[0].0) then LinkEdits(entries[1..])
    else [Reattr(AttrSelector("a", "href", entries[0].1), "href", Placeholder(ToCamel(entries[0].0)))] + LinkEdits(entries[1..])
  }

  /** Every edit `convertHtmlToAstro` makes to the document, group by group and in entry order. */
  function Edits(p: Props): seq<Edit> {
    var images := p.images.GetOr([]);
    TextEdits(p.text.GetOr([])) + ImageEdits(images, images) + LinkEdits(p.links.GetOr([]))
  }

  /** The assignments of the text group: each value under its camelCase key. */
  function PropsFromText(entries: Dict<string>): (a: Dict<Value>)
    ensures |a| == |entries|
    ensures forall i :: 0 <= i < |entries| ==> a[i] == (ToCamel(entries[i].0), Str(entries[i].1))
  {
    if |entries| == 0 then [] else [(ToCamel(entries[0].0), Str(entries[0].1))] + PropsFromText(entries[1..])
  }

  /** The text group: each entry becomes a prop, and its elements' text the placeholder. */
  function TextPass(d: Draft, entries: Dict<string>): (r: Draft)
    ensures r.props == PutAll(d.props, PropsFromText(entries))
    ensures r.doc == ApplyEdits(d.doc, TextEdits(entries))
    decreases |entries|
  {
    if |entries| == 0 then d
    else
      var (key, value) := entries[0];
      var prop := ToCamel(key);
      var doc := match TagOfKey(key)
        case Some(t) => RewriteTexts(d.doc, t.Name(), value, prop)
        case None => d.doc;
      TextPass(Draft(doc, Put(d.props, prop, Str(value))), entries[1..])
  }

  /** `images[key + 'Alt']` when it is a non-empty string. */
  function AltOf(images: Dict<string>, key: string): (r: Option<string>)
    ensures r.Some? ==> r.value != "" && Get(images, key + "Alt") == r
  {
    match Get(images, key + "Alt")
    case Some(alt) => if alt != "" then Some(alt) else None
    case None => None
  }

  /** The assignments of one image source under `prop`: the source, and its alternative text when present. */
  function ImageEntryProps(prop: string, value: string, alt: Option<string>): Dict<Value> {
    [(prop, Str(value))] + (match alt case Some(a) => [(prop + "Alt", Str(a))] case None => [])
  }

  /** The assignments of the image group: each source, and its alternative text when present. */
  function PropsFromImages(entries: Dict<string>, images: Dict<string>): Dict<Value>
    decreases |entries|
  {
    if |entries| == 0 then []
    else if IsSuffix("Alt", entries[0].0) then PropsFromImages(entries[1..], images)
    else ImageEntryProps(ToCamel(entries[0].0), entries[0].1, AltOf(images, entries[0].0)) + PropsFromImages(entries[1..], images)
  }

  /** The attribute values one image source quotes in its selectors: the source, then its placeholder when an alternative text follows. */
  function ImageEntryValues(prop: string, value: string, alt: Option<string>): seq<string> {
    [value] + (if alt.Some? then [Placeholder(prop)] else [])
  }

  /** The attribute values the image group quotes in its selectors, in order. */
  function ImageSelectorValues(entries: Dict<string>, images: Dict<string>): seq<string>
    decreases |entries|
  {
    if |entries| == 0 then []
    else if IsSuffix("Alt", entries[0].0) then ImageSelectorValues(entries[1..], images)
    else ImageEntryValues(ToCamel(entries[0].0), entries[0].1, AltOf(images, entries[0].0)) + ImageSelectorValues(entries[1..], images)
  }

  /**
   * One image source under `prop`: it becomes a prop and the matching `img`
   * sources the placeholder; a non-empty alternative text becomes a prop too,
   * set on the `img` elements that now carry the placeholder.
   */
  function ImageEntry(d: Draft, prop: string, value: string, alt: Option<string>): (r: Result<Draft>)
    ensures r.Success? <==> AllQuoteFree(ImageEntryValues(prop, value, alt))
    ensures r.Failure? ==> r.error == SelectorError
    ensures r.Success? ==> r.value.props == PutAll(d.props, ImageEntryProps(prop, value, alt))
    ensures r.Success? ==> r.value.doc == ApplyEdits(d.doc, ImageEntryEdits(prop, value, alt))
  {
    var e1 := Reattr(AttrSelector("img", "src", value), "src", Placeholder(prop));
    assert ImageEntryValues(prop, value, alt)[0] == value;
    if !QuoteFree(value) then Failure(SelectorError)
    else
      var d1 := Draft(ApplyEdit(d.doc, e1), Put(d.props, prop, Str(value)));
      match alt
      case None =>
        assert ImageEntryValues(prop, value, alt) == [value];
        assert ImageEntryEdits(prop, value, alt) == [e1] + [];
        ApplyEditsCons(d.doc, e1, []);
        PutAllOne(d.props, prop, Str(value));
        Success(d1)
      case Some(a) =>
        var e2 := Reattr(AttrSelector("img", "src", Placeholder(prop)), "alt", Placeholder(prop + "Alt"));
        assert ImageEntryValues(prop, value, alt) == [value, Placeholder(prop)];
        if !QuoteFree(Placeholder(prop)) then
          assert ImageEntryValues(prop, value, alt)[1] == Placeholder(prop);
          Failure(SelectorError)
        else
          assert ImageEntryEdits(prop, value, alt) == [e1] + [e2];
          ApplyEditsCons(d.doc, e1, [e2]);
          ApplyEditsCons(d1.doc, e2, []);
          assert [e2] + [] == [e2];
          PutAllPair(d.props, prop, Str(value), prop + "Alt", Str(a));
          Success(Draft(ApplyEdit(d1.doc, e2), Put(d1.props, prop + "Alt", Str(a))))
  }

  /** The image group: source by source; the `Alt` companions are read only through their sources. */
  function ImagePass(d: Draft, entries: Dict<string>, images: Dict<string>): (r: Result<Draft>)
    ensures r.Success? <==> AllQuoteFree(ImageSelectorValues(entries, images))
    ensures r.Failure? ==> r.error == SelectorError
    ensures r.Success? ==> r.value.props == PutAll(d.props, PropsFromImages(entries, images))
    ensures r.Success? ==> r.value.doc == ApplyEdits(d.doc, ImageEdits(entries, images))
    decreases |entries|
  {
    if |entries| == 0 then Success(d)
    else
      var (key, value) := entries[0];
      if IsSuffix("Alt", key) then ImagePass(d, entries[1..], images)
      else
        AllQuoteFreeConcat(ImageEntryValues(ToCamel(key), value, AltOf(images, key)), ImageSelectorValues(entries[1..], images));
        match ImageEntry(d, ToCamel(key), value, AltOf(images, key))
        case Failure(e) => Failure(e)
        case Success(d1) =>
          var r := ImagePass(d1, entries[1..], images);
          if r.Success? then
            PutAllConcat(d.props, ImageEntryProps(ToCamel(key), value, AltOf(images, key)), PropsFromImages(entries[1..], images));
            ApplyEditsConcat(d.doc, ImageEntryEdits(ToCamel(key), value, AltOf(images, key)), ImageEdits(entries[1..], images));
            r
          else r
  }

  /** The assignments of the link group: each target except the `Text` companions. */
  function PropsFromLinks(entries: Dict<string>): Dict<Value>
    decreases |entries|
  {
    if |entries| == 0 then []
    else if IsSuffix("Text", entries[0].0) then PropsFromLinks(entries[1..])
    else [(ToCamel(entries[0].0), Str(entries[0].1))] + PropsFromLinks(entries[1..])
  }

  function LinkSelectorValues(entries: Dict<string>): seq<string>
    decreases |entries|
  {
    if |entries| == 0 then []
    else if IsSuffix("Text", entries[0].0) then LinkSelectorValues(entries[1..])
    else [entries[0].1] + LinkSelectorValues(entries[1..])
  }

  /** The link group: each target becomes a prop and the matching `a` targets the placeholder. */
  function LinkPass(d: Draft, entries: Dict<string>): (r: Result<Draft>)
    ensures r.Success? <==> AllQuoteFree(LinkSelectorValues(entries))
    ensures r.Failure? ==> r.error == SelectorError
    ensures r.Success? ==> r.value.props == PutAll(d.props, PropsFromLinks(entries))
    ensures r.Success? ==> r.value.doc == ApplyEdits(d.doc, LinkEdits(entries))
    decreases |entries|
  {
    if |entries| == 0 then Success(d)
    else
      var (key, value) := entries[0];
      if IsSuffix("Text", key) then LinkPass(d, entries[1..])
      else
        if !QuoteFree(value) then
          assert LinkSelectorValues(entries)[0] == value;
          Failure(SelectorError)
        else
          AllQuoteFreeConcat([value], LinkSelectorValues(entries[1..]));
          var prop := ToCamel(key);
          var doc := SetAttrs(d.doc, AttrSelector("a", "href", value), "href", Placeholder(prop));
          LinkPass(Draft(doc, Put(d.props, prop, Str(value))), entries[1..])
  }

  /** The assignments of the custom group: each value under its camelCase key. */
  function PropsFromCustom(entries: Dict<Value>): (a: Dict<Value>)
    ensures |a| == |entries|
    ensures forall i :: 0 <= i < |entries| ==> a[i] == (ToCamel(entries[i].0), entries[i].1)
  {
    if |entries| == 0 then [] else [(ToCamel(entries[0].0), entries[0].1)] + PropsFromCustom(entries[1..])
  }

  /** Every assignment `convertHtmlToAstro` makes, group by group and in entry order. */
  function Assignments(p: Props): Dict<Value> {
    var images := p.images.GetOr([]);
    PropsFromText(p.text.GetOr([])) + PropsFromImages(images, images)
    + PropsFromLinks(p.links.GetOr([])) + PropsFromCustom(p.custom.GetOr([]))
  }

  /** Every attribute value quoted in a selector. */
  function SelectorValues(p: Props): seq<string> {
    var images := p.images.GetOr([]);
    ImageSelectorValues(images, images) + LinkSelectorValues(p.links.GetOr([]))
  }

  /**
   * `convertHtmlToAstro` on the parsed document: fails exactly when a quoted
   * selector value holds a `"`, and otherwise yields the rewritten document
   * and the record the assignments build.
   */
  function ConvertHtml(doc: seq<Node>, p: Props): (r: Result<Draft>)
    ensures r.Success? <==> AllQuoteFree(SelectorValues(p))
    ensures r.Failure? ==> r.error == SelectorError
    ensures r.Success? ==> r.value.props == PutAll([], Assignments(p))
    ensures r.Success? ==> r.value.doc == ApplyEdits(doc, Edits(p))
  {
    var images := p.images.GetOr([]);
    var links := p.links.GetOr([]);
    var text := PropsFromText(p.text.GetOr([]));
    var fromImages := PropsFromImages(images, images);
    var fromLinks := PropsFromLinks(links);
    var custom := PropsFromCustom(p.custom.GetOr([]));
    AllQuoteFreeConcat(ImageSelectorValues(images, images), LinkSelectorValues(links));
    var d1 := TextPass(Draft(doc, []), p.text.GetOr([]));
    match ImagePass(d1, images, images)
    case Failure(e) => Failure(e)
    case Success(d2) =>
      match LinkPass(d2, links)
      case Failure(e) => Failure(e)
      case Success(d3) =>
        PutAllConcat([], text, fromImages);
        PutAllConcat([], text + fromImages, fromLinks);
        PutAllConcat([], text + fromImages + fromLinks, custom);
        ApplyEditsConcat(doc, TextEdits(p.text.GetOr([])), ImageEdits(images, images));
        ApplyEditsConcat(doc, TextEdits(p.text.GetOr([])) + ImageEdits(images, images), LinkEdits(links));
        Success(Draft(d3.doc, PutAll(d3.props, custom)))
  }

  /** Last writer wins: each prop holds the value of the last assignment to its key. */
  lemma ConvertHtmlPropValues(doc: seq<Node>, p: Props, key: string)
    requires ConvertHtml(doc, p).Success?
    ensures Get(ConvertHtml(doc, p).value.props, key) == LastValue(Assignments(p), key)
  {
    PutAllGet([], Assignments(p), key);
  }

  /** Every edit assigns an attribute: none rewrites text. */
  predicate AttrEditsOnly(es: seq<Edit>) {
    forall i :: 0 <= i < |es| ==> es[i].Reattr?
  }

  lemma AttrEditsOnlyConcat(a: seq<Edit>, b: seq<Edit>)
    requires AttrEditsOnly(a) && AttrEditsOnly(b)
    ensures AttrEditsOnly(a + b)
  {
    assert forall i :: 0 <= i < |a + b| ==> (a + b)[i] == if i < |a| then a[i] else b[i - |a|];
  }

  lemma {:induction false} ImageEditsAttrOnly(entries: Dict<string>, images: Dict<string>)
    ensures AttrEditsOnly(ImageEdits(entries, images))
    decreases |entries|
  {
    if |entries| > 0 {
      ImageEditsAttrOnly(entries[1..], images);
      if !IsSuffix("Alt", entries[0].0) {
        AttrEditsOnlyConcat(ImageEntryEdits(ToCamel(entries[0].0), entries[0].1, AltOf(images, entries[0].0)), ImageEdits(entries[1..], images));
      }
    }
  }

  lemma {:induction false} LinkEditsAttrOnly(entries: Dict<string>)
    ensures AttrEditsOnly(LinkEdits(entries))
    decreases |entries|
  {
    if |entries| > 0 {
      LinkEditsAttrOnly(entries[1..]);
      if !IsSuffix("Text", entries[0].0) {
        var e := Reattr(AttrSelector("a", "href", entries[0].1), "href", Placeholder(ToCamel(entries[0].0)));
        AttrEditsOnlyConcat([e], LinkEdits(entries[1..]));
      }
    }
  }

  /** Attribute assignments, however many, leave the document's text as it was. */
  lemma {:induction false} AttrEditsKeepText(ns: seq<Node>, es: seq<Edit>)
    requires AttrEditsOnly(es)
    ensures TextsOf(ApplyEdits(ns, es)) == TextsOf(ns)
    decreases |es|
  {
    if |es| > 0 {
      var e := es[0];
      SetAttrsText(ns, e.sel, e.target, e.newValue);
      assert AttrEditsOnly(es[1..]) by {
        assert forall i :: 0 <= i < |es[1..]| ==> es[1..][i] == es[i + 1];
      }
      AttrEditsKeepText(ApplyEdit(ns, e), es[1..]);
    }
  }

  /** Without text props, the conversion touches only attributes: the document's text comes out as it went in. */
  lemma ConvertHtmlKeepsTextWithoutTextProps(doc: seq<Node>, p: Props)
    requires p.text.GetOr([]) == []
    requires ConvertHtml(doc, p).Success?
    ensures TextsOf(ConvertHtml(doc, p).value.doc) == TextsOf(doc)
  {
    var images := p.images.GetOr([]);
    ImageEditsAttrOnly(images, images);
    LinkEditsAttrOnly(p.links.GetOr([]));
    AttrEditsOnlyConcat(ImageEdits(images, images), LinkEdits(p.links.GetOr([])));
    assert Edits(p) == ImageEdits(images, images) + LinkEdits(p.links.GetOr([]));
    AttrEditsKeepText(doc, Edits(p));
  }

  // ---------------------------------------------------------------------------
  // convertToAstroComponent and convertAllComponents
  // ---------------------------------------------------------------------------

  /** `ConversionResult`. */
  datatype ConversionResult = ConversionResult(
    astroComponent: string, styles: string, filename: string, success: bool, error: Option<string>)

  /**
   * `convertToAstroComponent`: the converted HTML, props and styles filled into
   * the template on success; empty text and the error when a selector fails.
   * `parse` and `render` stand for the HTML library's loader and serialiser.
   */
  function ConvertComponent(c: Component, parse: string -> seq<Node>, render: seq<Node> -> string): (r: ConversionResult)
    ensures r.filename == c.name
    ensures r.success <==> AllQuoteFree(SelectorValues(c.props))
    ensures r.success ==> r.styles == ConvertCss(c.styles) && r.error.None? && IsPrefix("---\n", r.astroComponent)
    ensures !r.success ==> r.astroComponent == "" && r.styles == "" && r.error == Some(SelectorError)
  {
    match ConvertHtml(parse(c.html), c.props)
    case Failure(e) => ConversionResult("", "", c.name, false, Some(e))
    case Success(d) =>
      var styles := ConvertCss(c.styles);
      var iface, destructure, html := Interface(d.props), Destructure(d.props), render(d.doc);
      FillTemplateFence(iface, destructure, html, styles);
      ConversionResult(FillTemplate(iface, destructure, html, styles), styles, c.name, true, None)
  }

  /**
   * A converted component reads as the template with the props interface, the
   * destructuring, the HTML and the converted styles in their slots, as long as
   * none of the first three holds a slot marker.
   */
  lemma ConvertComponentInPlace(c: Component, parse: string -> seq<Node>, render: seq<Node> -> string)
    requires ConvertHtml(parse(c.html), c.props).Success?
    requires var d := ConvertHtml(parse(c.html), c.props).value;
             SlotFree(Interface(d.props)) && SlotFree(Destructure(d.props)) && SlotFree(render(d.doc))
    ensures var d := ConvertHtml(parse(c.html), c.props).value;
            var props := PutAll([], Assignments(c.props));
            ConvertComponent(c, parse, render).astroComponent
            == TemplateHead + Interface(props) + TemplateAfterInterface + Destructure(props)
               + TemplateAfterDestructure + render(d.doc) + TemplateAfterHtml + ConvertCss(c.styles) + TemplateTail
  {
    var d := ConvertHtml(parse(c.html), c.props).value;
    FillTemplateInPlace(Interface(d.props), Destructure(d.props), render(d.doc), ConvertCss(c.styles));
  }

  /** `convertAllComponents`: one result per component, in order. */
  function ConvertAll(cs: seq<Component>, parse: string -> seq<Node>, render: seq<Node> -> string): (r: seq<ConversionResult>)
    ensures |r| == |cs|
    ensures forall i :: 0 <= i < |cs| ==> r[i] == ConvertComponent(cs[i], parse, render)
  {
    if |cs| == 0 then [] else [ConvertComponent(cs[0], parse, render)] + ConvertAll(cs[1..], parse, render)
  }

  /** The number of successful results, as the batch summary reports it. */
  function SuccessCount(rs: seq<ConversionResult>): (n: nat)
    ensures n <= |rs|
  {
    if |rs| == 0 then 0 else (if rs[0].success then 1 else 0) + SuccessCount(rs[1..])
  }

  /** A batch with no component failing reports every component as a success. */
  lemma {:induction false} ConvertAllSucceeds(cs: seq<Component>, parse: string -> seq<Node>, render: seq<Node> -> string)
    requires forall i :: 0 <= i < |cs| ==> AllQuoteFree(SelectorValues(cs[i].props))
    ensures SuccessCount(ConvertAll(cs, parse, render)) == |cs|
  {
    if |cs| > 0 {
      var r := ConvertAll(cs, parse, render);
      assert r[1..] == ConvertAll(cs[1..], parse, render);
      ConvertAllSucceeds(cs[1..], parse, render);
    }
  }

  // ---------------------------------------------------------------------------
  // resolveDependencies
  // ---------------------------------------------------------------------------

  /** `new RegExp('<' + name + '[^>]*>').test(s)`: `<name` with a `>` somewhere after it. */
  predicate UsesComponent(s: string, name: string) {
    exists i | 0 <= i <= |s| :: UsesAt(s, name, i)
  }

  /** `<name` starts at `i` and a `>` follows it. */
  predicate UsesAt(s: string, name: string, i: int) {
    0 <= i <= |s| && OccursAt(s, "<" + name, i) && HasChar(s[i + |name| + 1..], '>')
  }

  function ImportLine(name: string): string {
    "import " + name + " from './" + name + ".astro';\n"
  }

  /**
   * The `forEach` over all results for the component named `self`: each other
   * successful component it uses gets its import line right after the first
   * `---\n`, ahead of the imports added before it.
   */
  function AddImports(astro: string, self: string, others: seq<ConversionResult>): string
    decreases |others|
  {
    if |others| == 0 then astro
    else AddImports(AddImport(astro, self, others[0]), self, others[1..])
  }

  /** One iteration: the import line of `o` goes after the first fence when `o` is another used success. */
  function AddImport(astro: string, self: string, o: ConversionResult): string {
    if o.filename != self && o.success && UsesComponent(astro, o.filename)
    then ReplaceFirst(astro, "---\n", "---\n" + ImportLine(o.filename))
    else astro
  }

  function Resolve(r: ConversionResult, all: seq<ConversionResult>): ConversionResult {
    if !r.success then r else r.(astroComponent := AddImports(r.astroComponent, r.filename, all))
  }

  /** `resolveDependencies`: only the component text of successful results changes. */
  function ResolveDependencies(results: seq<ConversionResult>): (r: seq<ConversionResult>)
    ensures |r| == |results|
    ensures forall i :: 0 <= i < |results| ==>
              && r[i].styles == results[i].styles && r[i].filename == results[i].filename
              && r[i].success == results[i].success && r[i].error == results[i].error
              && (!results[i].success ==> r[i] == results[i])
  {
    ResolveEach(results, results)
  }

  /** Results that succeed and fail in the same places have the same number of successes. */
  lemma {:induction false} SuccessCountSameFlags(a: seq<ConversionResult>, b: seq<ConversionResult>)
    requires |a| == |b| && forall i :: 0 <= i < |a| ==> a[i].success == b[i].success
    ensures SuccessCount(a) == SuccessCount(b)
  {
    if |a| > 0 {
      assert forall i :: 0 <= i < |a[1..]| ==> a[1..][i].success == b[1..][i].success by {
        forall i | 0 <= i < |a[1..]| ensures a[1..][i].success == b[1..][i].success {
          assert a[1..][i] == a[i + 1] && b[1..][i] == b[i + 1];
        }
      }
      SuccessCountSameFlags(a[1..], b[1..]);
    }
  }

  /** Resolving imports keeps the number of successes of the batch. */
  lemma ResolveKeepsSuccessCount(results: seq<ConversionResult>)
    ensures SuccessCount(ResolveDependencies(results)) == SuccessCount(results)
  {
    SuccessCountSameFlags(ResolveDependencies(results), results);
  }

  function ResolveEach(rs: seq<ConversionResult>, all: seq<ConversionResult>): (r: seq<ConversionResult>)
    ensures |r| == |rs|
    ensures forall i :: 0 <= i < |rs| ==> r[i] == Resolve(rs[i], all)
  {
    if |rs| == 0 then [] else [Resolve(rs[0], all)] + ResolveEach(rs[1..], all)
  }

  /** The names of the other successful components that `rest` uses, in result order. */
  function UsedNames(others: seq<ConversionResult>, self: string, rest: string): (names: seq<string>)
    ensures forall n :: n in names <==>
              exists o :: o in others && o.filename == n && n != self && o.success && UsesComponent(rest, n)
    decreases |others|
  {
    if |others| == 0 then []
    else
      var o := others[0];
      var tail := UsedNames(others[1..], self, rest);
      assert forall x :: x in others <==> x == o || x in others[1..] by {
        assert others == [o] + others[1..];
      }
      if o.filename != self && o.success && UsesComponent(rest, o.filename) then [o.filename] + tail else tail
  }

  /** The import lines for `names`, the last name first. */
  function ImportBlock(names: seq<string>): string {
    if |names| == 0 then "" else ImportBlock(names[1..]) + ImportLine(names[0])
  }

  /** A prefix without `<` changes nothing about which components a text uses. */
  lemma UsesComponentAfter(x: string, rest: string, name: string)
    requires !HasChar(x, '<')
    ensures UsesComponent(x + rest, name) <==> UsesComponent(rest, name)
  {
    if UsesComponent(x + rest, name) {
      var i :| UsesAt(x + rest, name, i);
      UsesAtUnshift(x, rest, name, i);
    }
    if UsesComponent(rest, name) {
      var j :| UsesAt(rest, name, j);
      UsesAtShift(x, rest, name, j);
    }
  }

  lemma UsesAtShift(x: string, rest: string, name: string, j: int)
    requires UsesAt(rest, name, j)
    ensures UsesAt(x + rest, name, |x| + j)
  {
    var s := x + rest;
    var p := "<" + name;
    assert s[|x| + j..|x| + j + |p|] == rest[j..j + |p|];
    assert s[|x| + j + |name| + 1..] == rest[j + |name| + 1..];
  }

  lemma UsesAtUnshift(x: string, rest: string, name: string, i: int)
    requires !HasChar(x, '<') && UsesAt(x + rest, name, i)
    ensures i >= |x| && UsesAt(rest, name, i - |x|)
  {
    var s := x + rest;
    var p := "<" + name;
    assert s[i] == s[i..i + |p|][0] == p[0] == '<';
    assert rest[i - |x|..i - |x| + |p|] == s[i..i + |p|];
    assert rest[i - |x| + |name| + 1..] == s[i + |name| + 1..];
  }

  lemma ImportLineNoAngle(name: string)
    requires !HasChar(name, '<')
    ensures !HasChar(ImportLine(name), '<')
  {
    HasCharConcat("import ", name, '<');
    HasCharConcat("import " + name, " from './", '<');
    HasCharConcat("import " + name + " from './", name, '<');
    HasCharConcat("import " + name + " from './" + name, ".astro';\n", '<');
  }

  /**
   * For a component text opening with the fence, the imports of the used
   * components land right after it, the last one found first, and the rest of
   * the text is untouched.
   */
  lemma {:induction false} AddImportsSpec(block: string, rest: string, self: string, others: seq<ConversionResult>)
    requires !HasChar(block, '<')
    requires forall k :: 0 <= k < |others| ==> !HasChar(others[k].filename, '<')
    ensures AddImports("---\n" + block + rest, self, others)
            == "---\n" + ImportBlock(UsedNames(others, self, rest)) + block + rest
    decreases |others|
  {
    if |others| > 0 {
      var o := others[0];
      var block' := AddImportStep(block, rest, self, o);
      AddImportsSpec(block', rest, self, others[1..]);
      var tail := ImportBlock(UsedNames(others[1..], self, rest));
      if o.filename != self && o.success && UsesComponent(rest, o.filename) {
        assert UsedNames(others, self, rest) == [o.filename] + UsedNames(others[1..], self, rest);
        ImportsRegroup(tail, ImportLine(o.filename), block, rest);
      } else {
        assert UsedNames(others, self, rest) == UsedNames(others[1..], self, rest);
      }
    }
  }

  /**
   * One iteration on a text opening with the fence: a used component's import
   * joins the block after the fence, and the block stays free of `<`.
   */
  lemma AddImportStep(block: string, rest: string, self: string, o: ConversionResult) returns (block': string)
    requires !HasChar(block, '<') && !HasChar(o.filename, '<')
    ensures block' == if o.filename != self && o.success && UsesComponent(rest, o.filename)
                      then ImportLine(o.filename) + block else block
    ensures !HasChar(block', '<')
    ensures AddImport("---\n" + block + rest, self, o) == "---\n" + block' + rest
  {
    HasCharConcat("---\n", block, '<');
    UsesComponentAfter("---\n" + block, rest, o.filename);
    if o.filename != self && o.success && UsesComponent(rest, o.filename) {
      var line := ImportLine(o.filename);
      ImportLineNoAngle(o.filename);
      HasCharConcat(line, block, '<');
      ReplaceFirstAtStart("---\n", block + rest, "---\n" + line);
      assert "---\n" + block + rest == "---\n" + (block + rest);
      assert "---\n" + line + (block + rest) == "---\n" + (line + block) + rest;
      block' := line + block;
    } else {
      block' := block;
    }
  }

  lemma ImportsRegroup(tail: string, line: string, block: string, rest: string)
    ensures "---\n" + tail + (line + block) + rest == "---\n" + (tail + line) + block + rest
  {
  }

  /**
   * A successful component opening with the fence gains exactly the imports of
   * the other successful components it uses, in reverse result order, right
   * after the fence.
   */
  lemma ResolveDependenciesSpec(results: seq<ConversionResult>, i: nat, rest: string)
    requires i < |results| && results[i].success
    requires results[i].astroComponent == "---\n" + rest
    requires forall k :: 0 <= k < |results| ==> !HasChar(results[k].filename, '<')
    ensures ResolveDependencies(results)[i].astroComponent
            == "---\n" + ImportBlock(UsedNames(results, results[i].filename, rest)) + rest
  {
    var r := ResolveDependencies(results);
    assert r[i] == Resolve(results[i], results);
    AddImportsAfterFence(rest, results[i].filename, results);
  }

  /** The imports land right after the fence of a text that opens with it. */
  lemma AddImportsAfterFence(rest: string, self: string, others: seq<ConversionResult>)
    requires forall k :: 0 <= k < |others| ==> !HasChar(others[k].filename, '<')
    ensures AddImports("---\n" + rest, self, others)
            == "---\n" + ImportBlock(UsedNames(others, self, rest)) + rest
  {
    var block := ImportBlock(UsedNames(others, self, rest));
    AddImportsSpec("", rest, self, others);
    DropEmpty("---\n", rest);
    DropEmpty("---\n" + block, rest);
  }

  lemma DropEmpty(a: string, b: string)
    ensures a + "" + b == a + b
  {
  }
}
