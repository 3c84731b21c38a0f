/**
 * The universal parser of the VibeSurfer experiments: a registry of per-tool
 * parsers (only Ready.ai output is understood, by reusing the Ready.ai section
 * parser), the accessibility and performance heuristics every parsed
 * component is enriched with, and the exporter that writes components out as
 * React or Astro source files.
 */
module Universal {
  import opened Common
  import opened Strings
  import Parser
  import Meta

  // ---------------------------------------------------------------------------
  // Data model
  // ---------------------------------------------------------------------------

  /** `CodeGenTool`. */
  datatype Tool = ReadyAi | V0 | Bolt | Cursor | Uizard | Custom {
    function Name(): string {
      match this
      case ReadyAi => "ready-ai"
      case V0 => "v0"
      case Bolt => "bolt"
      case Cursor => "cursor"
      case Uizard => "uizard"
      case Custom => "custom"
    }

    /** The tools with a registered parser. */
    predicate Registered() {
      !(this.Uizard? || this.Custom?)
    }
  }

  /** The `framework` of component metadata and of an export format. */
  datatype Framework = React | Vue | Astro | Svelte | Html {
    function Name(): string {
      match this
      case React => "react"
      case Vue => "vue"
      case Astro => "astro"
      case Svelte => "svelte"
      case Html => "html"
    }

    /** The frameworks the exporter can write components for. */
    predicate Exportable() {
      this.React? || this.Astro?
    }
  }

  datatype Styling = Tailwind | CssModules | StyledComponents | Unocss

  /** `ComponentContent`; of the props object only its keys are ever read. */
  datatype Content = Content(html: string, css: string, propKeys: seq<string>, dependencies: seq<string>)

  /** `AccessibilityScore`. */
  datatype Accessibility = Accessibility(score: int, issues: seq<string>, suggestions: seq<string>)

  /** `PerformanceScore`; the render time is held as an exact quotient. */
  datatype Performance = Performance(score: int, bundleSize: nat, renderTime: real)

  /** `ComponentMetadata`. */
  datatype Metadata = Metadata(
    framework: Option<Framework>, styling: Option<Styling>, responsive: bool,
    accessibility: Accessibility, performance: Performance)

  /** `UniversalComponent`; `kind` is the `type` string, the confidence in tenths. */
  datatype UniversalComponent = UniversalComponent(
    id: string, name: string, kind: string, source: Tool, content: Content, metadata: Metadata, confidence: nat)

  // ---------------------------------------------------------------------------
  // Accessibility
  // ---------------------------------------------------------------------------

  const MissingAlt := "画像にalt属性がありません"
  const MissingAria := "ARIA属性が不足している可能性があります"
  const SuggestionPrefix := "改善案: "

  /** The points each known issue costs. */
  function Penalty(issues: seq<string>): int {
    if |issues| == 0 then 0
    else (if issues[0] == MissingAlt then 20 else if issues[0] == MissingAria then 15 else 0) + Penalty(issues[1..])
  }

  /** `issues.map(issue => `改善案: ${issue}`)`. */
  function Suggestions(issues: seq<string>): (r: seq<string>)
    ensures |r| == |issues|
    ensures forall i :: 0 <= i < |issues| ==> r[i] == SuggestionPrefix + issues[i]
  {
    if |issues| == 0 then [] else [SuggestionPrefix + issues[0]] + Suggestions(issues[1..])
  }

  function Max(a: int, b: int): int {
    if a < b then b else a
  }

  /**
   * `analyzeAccessibility`: one issue for markup without `alt=` and one for
   * markup without `aria-`, in that order; each costs its points, and every
   * issue gets a suggestion.
   */
  function AnalyzeAccessibility(html: string): (a: Accessibility)
    ensures MissingAlt in a.issues <==> !Contains(html, "alt=")
    ensures MissingAria in a.issues <==> !Contains(html, "aria-")
    ensures forall i :: 0 <= i < |a.issues| ==> a.issues[i] == MissingAlt || a.issues[i] == MissingAria
    ensures forall i, j :: 0 <= i < j < |a.issues| ==> a.issues[i] == MissingAlt && a.issues[j] == MissingAria
    ensures a.score == 100 - Penalty(a.issues)
    ensures |a.suggestions| == |a.issues|
    ensures forall i :: 0 <= i < |a.issues| ==> a.suggestions[i] == SuggestionPrefix + a.issues[i]
  {
    var alt := if !Contains(html, "alt=") then [MissingAlt] else [];
    var aria := if !Contains(html, "aria-") then [MissingAria] else [];
    var score := 100 - (if alt == [] then 0 else 20) - (if aria == [] then 0 else 15);
    PenaltyOfIssues(alt, aria);
    Accessibility(Max(0, score), alt + aria, Suggestions(alt + aria))
  }

  lemma PenaltyOfIssues(alt: seq<string>, aria: seq<string>)
    requires alt == [] || alt == [MissingAlt]
    requires aria == [] || aria == [MissingAria]
    ensures Penalty(alt + aria) == (if alt == [] then 0 else 20) + (if aria == [] then 0 else 15)
  {
    assert MissingAlt != MissingAria;
    assert Penalty(aria) == (if aria == [] then 0 else 15) by {
      if aria != [] { assert aria[1..] == []; }
    }
    if alt != [] {
      assert (alt + aria)[1..] == aria;
    } else {
      assert alt + aria == aria;
    }
  }

  /** The accessibility score takes one of four values, fixed by which attributes the markup has. */
  lemma AccessibilityScores(html: string)
    ensures var s := AnalyzeAccessibility(html).score;
      && (s == 100 <==> Contains(html, "alt=") && Contains(html, "aria-"))
      && (s == 85 <==> Contains(html, "alt=") && !Contains(html, "aria-"))
      && (s == 80 <==> !Contains(html, "alt=") && Contains(html, "aria-"))
      && (s == 65 <==> !Contains(html, "alt=") && !Contains(html, "aria-"))
  {
    var a := AnalyzeAccessibility(html);
    assert MissingAlt != MissingAria;
    if !Contains(html, "alt=") && !Contains(html, "aria-") {
      assert a.issues == [MissingAlt, MissingAria];
    } else if !Contains(html, "alt=") {
      assert a.issues == [MissingAlt];
    } else if !Contains(html, "aria-") {
      assert a.issues == [MissingAria];
    } else {
      assert a.issues == [];
    }
  }

  // ---------------------------------------------------------------------------
  // Performance
  // ---------------------------------------------------------------------------

  /**
   * `analyzePerformance`: the bundle size is the markup's and the style
   * sheet's length in UTF-16 code units; past 5000 it costs 15 points, past
   * 10000 another 30. The render time is the bundle size over 1000.
   */
  function AnalyzePerformance(html: string, css: string): (p: Performance)
    ensures p.bundleSize == Meta.Utf16Length(html) + Meta.Utf16Length(css)
    ensures p.score == 100 <==> p.bundleSize <= 5000
    ensures p.score == 85 <==> 5000 < p.bundleSize <= 10000
    ensures p.score == 55 <==> 10000 < p.bundleSize
    ensures p.renderTime == p.bundleSize as real / 1000.0
  {
    var size := Meta.Utf16Length(html) + Meta.Utf16Length(css);
    var score := 100 - (if size > 10000 then 30 else 0) - (if size > 5000 then 15 else 0);
    Performance(Max(0, score), size, size as real / 1000.0)
  }

  /** A bigger bundle never scores better, and never renders faster. */
  lemma PerformanceMonotone(h1: string, c1: string, h2: string, c2: string)
    requires Meta.Utf16Length(h1) + Meta.Utf16Length(c1) <= Meta.Utf16Length(h2) + Meta.Utf16Length(c2)
    ensures AnalyzePerformance(h2, c2).score <= AnalyzePerformance(h1, c1).score
    ensures AnalyzePerformance(h1, c1).renderTime <= AnalyzePerformance(h2, c2).renderTime
  {
  }

  // ---------------------------------------------------------------------------
  // Parsing
  // ---------------------------------------------------------------------------

  /**
   * `enrichComponent`: the component with its source set to the tool and its
   * two scores computed; nothing else changes.
   */
  function Enrich(c: UniversalComponent, tool: Tool): (r: UniversalComponent)
    ensures r.source == tool
    ensures r.(source := c.source, metadata := c.metadata) == c
    ensures r.metadata.(accessibility := c.metadata.accessibility, performance := c.metadata.performance) == c.metadata
    ensures r.metadata.accessibility == AnalyzeAccessibility(c.content.html)
    ensures r.metadata.performance == AnalyzePerformance(c.content.html, c.content.css)
  {
    c.(source := tool,
       metadata := c.metadata.(accessibility := AnalyzeAccessibility(c.content.html),
                               performance := AnalyzePerformance(c.content.html, c.content.css)))
  }

  /** Enriching twice with the same tool is enriching once. */
  lemma EnrichIdempotent(c: UniversalComponent, tool: Tool)
    ensures Enrich(Enrich(c, tool), tool) == Enrich(c, tool)
  {
  }

  /** `ready-ai-${Date.now()}-${index}`. */
  function ComponentId(stamp: nat, index: nat): string {
    "ready-ai-" + NatToString(stamp) + "-" + NatToString(index)
  }

  lemma DigitsHaveNoDash(s: string)
    requires AllDigits(s)
    ensures !HasChar(s, '-')
  {
  }

  /** An identifier splits on `-` into `ready`, `ai`, the clock reading and the index. */
  lemma ComponentIdPieces(stamp: nat, index: nat)
    ensures Split(ComponentId(stamp, index), '-') == ["ready", "ai", NatToString(stamp), NatToString(index)]
  {
    var d1, d2 := NatToString(stamp), NatToString(index);
    assert !HasChar("ready", '-') by {
      forall i | 0 <= i < 5 ensures "ready"[i] != '-' { }
    }
    assert !HasChar("ai", '-') by {
      forall i | 0 <= i < 2 ensures "ai"[i] != '-' { }
    }
    DigitsHaveNoDash(d1);
    DigitsHaveNoDash(d2);
    var tail := d1 + ['-'] + d2;
    SplitNoSeparator(d2, '-');
    SplitAfterPiece(d1, '-', d2);
    SplitAfterPiece("ai", '-', tail);
    SplitAfterPiece("ready", '-', "ai" + ['-'] + tail);
    assert ComponentId(stamp, index) == "ready" + ['-'] + ("ai" + ['-'] + tail);
  }

  /** An identifier determines the clock reading and the index it was made from. */
  lemma ComponentIdInjective(s1: nat, i1: nat, s2: nat, i2: nat)
    requires ComponentId(s1, i1) == ComponentId(s2, i2)
    ensures s1 == s2 && i1 == i2
  {
    ComponentIdPieces(s1, i1);
    ComponentIdPieces(s2, i2);
    NatToStringInjective(s1, s2);
    NatToStringInjective(i1, i2);
  }

  /** `Object.keys(comp.props)`: the prop groups present, in the order the parser adds them. */
  function PropKeys(p: Parser.Props): (ks: seq<string>)
    ensures "text" in ks <==> p.text.Some?
    ensures "images" in ks <==> p.images.Some?
    ensures "links" in ks <==> p.links.Some?
    ensures "custom" in ks <==> p.custom.Some?
    ensures |ks| <= 4
  {
    (if p.text.Some? then ["text"] else [])
    + (if p.images.Some? then ["images"] else [])
    + (if p.links.Some? then ["links"] else [])
    + (if p.custom.Some? then ["custom"] else [])
  }

  /** The universal form of one Ready.ai section, before enrichment. */
  function FromReadyAi(comp: Parser.Component, index: nat, stamp: nat): UniversalComponent {
    UniversalComponent(
      ComponentId(stamp, index), comp.name, comp.kind.Name(), ReadyAi,
      Content(comp.html, Join(comp.styles, "\n"), PropKeys(comp.props), []),
      Metadata(Some(Astro), Some(Unocss), true, Accessibility(0, [], []), Performance(0, 0, 0.0)),
      comp.confidence)
  }

  /** `components.map((comp, index) => …)`, reading the clock once per component. */
  function ReadyAiComponents(comps: seq<Parser.Component>, clock: nat -> nat): (us: seq<UniversalComponent>)
    ensures |us| == |comps|
    ensures forall i :: 0 <= i < |comps| ==> us[i] == FromReadyAi(comps[i], i, clock(i))
  {
    seq(|comps|, i requires 0 <= i < |comps| => FromReadyAi(comps[i], i, clock(i)))
  }

  /** The enriched universal component `u` carries the Ready.ai section `comp`. */
  predicate Carries(u: UniversalComponent, comp: Parser.Component) {
    && u.name == comp.name && u.kind == comp.kind.Name() && u.source == ReadyAi
    && u.content == Content(comp.html, Join(comp.styles, "\n"), PropKeys(comp.props), [])
    && u.confidence == comp.confidence
    && u.metadata.framework == Some(Astro) && u.metadata.styling == Some(Unocss) && u.metadata.responsive
    && u.metadata.accessibility == AnalyzeAccessibility(comp.html)
    && u.metadata.performance == AnalyzePerformance(comp.html, Join(comp.styles, "\n"))
  }

  /** An enriched Ready.ai section carries the section and its identifier. */
  lemma EnrichCarries(comp: Parser.Component, index: nat, stamp: nat)
    ensures Carries(Enrich(FromReadyAi(comp, index, stamp), ReadyAi), comp)
    ensures Enrich(FromReadyAi(comp, index, stamp), ReadyAi).id == ComponentId(stamp, index)
  {
  }

  function EnrichAll(us: seq<UniversalComponent>, tool: Tool): (r: seq<UniversalComponent>)
    ensures |r| == |us|
    ensures forall i :: 0 <= i < |us| ==> r[i] == Enrich(us[i], tool)
  {
    if |us| == 0 then [] else [Enrich(us[0], tool)] + EnrichAll(us[1..], tool)
  }

  /**
   * `UniversalParser.parse`: an unregistered tool is an error; the v0, Bolt
   * and Cursor parsers find nothing; the Ready.ai parser runs the section
   * parser on the content with no style sheet and turns every section into
   * an enriched universal component. `sections` is that parser,
   * `parseHtmlContent` (`Parser.IdentifyComponents` over the loaded
   * document); `clock(i)` is the `Date.now()` reading taken for the i-th
   * section.
   */
  function Parse(tool: Tool, content: string, sections: (string, string) -> seq<Parser.Component>, clock: nat -> nat)
    : (r: Result<seq<UniversalComponent>>)
    ensures r.Failure? <==> !tool.Registered()
    ensures r.Failure? ==> r.error == "Unsupported tool: " + tool.Name()
    ensures r.Success? && !tool.ReadyAi? ==> r.value == []
    ensures tool.ReadyAi? ==>
      var comps := sections(content, "");
      && r.Success? && |r.value| == |comps|
      && forall i :: 0 <= i < |comps| ==> Carries(r.value[i], comps[i]) && r.value[i].id == ComponentId(clock(i), i)
  {
    match tool
    case Uizard => Failure("Unsupported tool: " + tool.Name())
    case Custom => Failure("Unsupported tool: " + tool.Name())
    case ReadyAi =>
      var comps := sections(content, "");
      var us := EnrichAll(ReadyAiComponents(comps, clock), ReadyAi);
      assert forall i :: 0 <= i < |comps| ==> Carries(us[i], comps[i]) && us[i].id == ComponentId(clock(i), i) by {
        forall i | 0 <= i < |comps| ensures Carries(us[i], comps[i]) && us[i].id == ComponentId(clock(i), i) {
          EnrichCarries(comps[i], i, clock(i));
        }
      }
      Success(us)
    case _ => Success([])
  }

  /** Whatever the clock reads, the components of one parse have distinct identifiers. */
  lemma ParseIdsDistinct(content: string, sections: (string, string) -> seq<Parser.Component>, clock: nat -> nat, i: nat, j: nat)
    requires var r := Parse(ReadyAi, content, sections, clock); r.Success? && i < j < |r.value|
    ensures var r := Parse(ReadyAi, content, sections, clock); r.value[i].id != r.value[j].id
  {
    var r := Parse(ReadyAi, content, sections, clock);
    if r.value[i].id == r.value[j].id {
      ComponentIdInjective(clock(i), i, clock(j), j);
    }
  }

  /** The section parser the Ready.ai branch calls: `parseHtmlContent` over the loaded document. */
  function ReadyAiSections(load: string -> seq<Parser.Element>, matches: Parser.Matcher): (string, string) -> seq<Parser.Component> {
    (html, css) => Parser.IdentifyComponents(load(html), matches, css)
  }

  /**
   * With the section parser in place, a Ready.ai parse yields one universal
   * component per section found in the content, in order; since no style
   * sheet is passed, none carries style text.
   */
  lemma ParseReadyAi(content: string, load: string -> seq<Parser.Element>, matches: Parser.Matcher, clock: nat -> nat)
    ensures var comps := Parser.IdentifyComponents(load(content), matches, "");
      var r := Parse(ReadyAi, content, ReadyAiSections(load, matches), clock);
      && r.Success? && |r.value| == |comps|
      && forall i :: 0 <= i < |comps| ==> Carries(r.value[i], comps[i]) && r.value[i].content.css == ""
  {
    var sections := ReadyAiSections(load, matches);
    Parser.IdentifyComponentsUnstyled(load(content), matches);
    assert sections(content, "") == Parser.IdentifyComponents(load(content), matches, "");
    ParseUnstyled(content, sections, clock);
  }

  /** Sections without style rules give universal components without style text. */
  lemma ParseUnstyled(content: string, sections: (string, string) -> seq<Parser.Component>, clock: nat -> nat)
    requires forall c :: c in sections(content, "") ==> c.styles == []
    ensures var comps, r := sections(content, ""), Parse(ReadyAi, content, sections, clock);
      forall i :: 0 <= i < |comps| ==> r.value[i].content.css == ""
  {
    var comps := sections(content, "");
    forall i | 0 <= i < |comps| ensures Parse(ReadyAi, content, sections, clock).value[i].content.css == "" {
      assert comps[i] in comps;
    }
  }

  // ---------------------------------------------------------------------------
  // Export
  // ---------------------------------------------------------------------------

  /** `ExportFormat`; an absent `typescript` flag behaves as `false` everywhere it is read. */
  datatype ExportFormat = ExportFormat(framework: Framework, styling: Styling, typescript: bool)

  datatype FileKind = ComponentFile | StyleFile | ConfigFile | TypeFile

  datatype ExportFile = ExportFile(path: string, content: string, kind: FileKind)

  datatype ExportResult = ExportResult(files: seq<ExportFile>, dependencies: seq<string>, instructions: seq<string>)

  const InterfaceOpen := "interface Props {"

  function PropLine(key: string): string {
    "  " + key + ": string;"
  }

  function PropLines(keys: seq<string>): (lines: seq<string>)
    ensures |lines| == |keys|
    ensures forall i :: 0 <= i < |keys| ==> lines[i] == PropLine(keys[i])
  {
    if |keys| == 0 then [] else [PropLine(keys[0])] + PropLines(keys[1..])
  }

  /**
   * `generatePropsInterface`: nothing without TypeScript or without props,
   * otherwise an interface declaring every key as a string.
   */
  function PropsInterface(keys: seq<string>, typescript: bool): (r: string)
    ensures r == "" <==> !typescript || |keys| == 0
  {
    if !typescript || |keys| == 0 then ""
    else Framed(InterfaceOpen, PropLines(keys), "}")
  }

  /** Lines between an opening and a closing line, each ended by a line break. */
  function Framed(open: string, lines: seq<string>, close: string): string {
    open + "\n" + Join(lines, "\n") + "\n" + close + "\n"
  }

  lemma PropLineOneLine(key: string)
    requires !HasChar(key, '\n')
    ensures !HasChar(PropLine(key), '\n')
  {
    assert !HasChar("  ", '\n') && !HasChar(": string;", '\n');
    HasCharConcat("  ", key, '\n');
    HasCharConcat("  " + key, ": string;", '\n');
  }

  /** Joining a framed list of lines: the frame's lines around the join of the inner ones. */
  lemma JoinFramed(open: string, lines: seq<string>, close: string)
    requires |lines| > 0
    ensures Join([open] + lines + [close, ""], "\n") == Framed(open, lines, close)
  {
    JoinFramedBy(open, lines, close, "\n");
  }

  lemma JoinFramedBy(open: string, lines: seq<string>, close: string, sep: string)
    requires |lines| > 0
    ensures Join([open] + lines + [close, ""], sep) == open + sep + Join(lines, sep) + sep + close + sep
  {
    var head := [open] + lines;
    var inner := Join(lines, sep);
    JoinAppend([open], lines, sep);
    assert Join(head, sep) == open + sep + inner;
    JoinAppend(head, [close, ""], sep);
    assert Join([close, ""], sep) == close + sep + "";
    assert Join(head + [close, ""], sep) == (open + sep + inner) + sep + (close + sep + "");
  }

  lemma FrameOneLine()
    ensures !HasChar(InterfaceOpen, '\n') && !HasChar("}", '\n')
  {
    forall i | 0 <= i < |InterfaceOpen| ensures InterfaceOpen[i] != '\n' { }
  }

  lemma PropLinesOneLine(keys: seq<string>)
    requires forall i :: 0 <= i < |keys| ==> !HasChar(keys[i], '\n')
    ensures OneLineEach(PropLines(keys))
  {
    forall k | 0 <= k < |PropLines(keys)| ensures !HasChar(PropLines(keys)[k], '\n') {
      PropLineOneLine(keys[k]);
    }
  }

  /**
   * Read back line by line, the interface is its opening line, one
   * declaration per key in key order, and the closing brace.
   */
  lemma PropsInterfaceLines(keys: seq<string>)
    requires |keys| > 0
    requires forall i :: 0 <= i < |keys| ==> !HasChar(keys[i], '\n')
    ensures Split(PropsInterface(keys, true), '\n') == [InterfaceOpen] + PropLines(keys) + ["}", ""]
  {
    InterfaceSplit(keys);
  }

  lemma InterfaceSplit(keys: seq<string>)
    requires |keys| > 0
    requires forall i :: 0 <= i < |keys| ==> !HasChar(keys[i], '\n')
    ensures Split(Framed(InterfaceOpen, PropLines(keys), "}"), '\n') == [InterfaceOpen] + PropLines(keys) + ["}", ""]
  {
    PropLinesOneLine(keys);
    InterfaceLinesOf(PropLines(keys));
  }

  /** No line holds a line break. */
  predicate OneLineEach(lines: seq<string>) {
    forall k :: 0 <= k < |lines| ==> !HasChar(lines[k], '\n')
  }

  lemma InterfaceLinesOf(lines: seq<string>)
    requires |lines| > 0
    requires OneLineEach(lines)
    ensures Split(Framed(InterfaceOpen, lines, "}"), '\n') == [InterfaceOpen] + lines + ["}", ""]
  {
    FrameOneLine();
    SplitFramed(InterfaceOpen, lines, "}");
  }

  /** Splitting a framed join of separator-free lines gives the lines back, frame included. */
  lemma SplitFramed(open: string, lines: seq<string>, close: string)
    requires |lines| > 0
    requires !HasChar(open, '\n') && !HasChar(close, '\n')
    requires forall k :: 0 <= k < |lines| ==> !HasChar(lines[k], '\n')
    ensures Split(Framed(open, lines, close), '\n') == [open] + lines + [close, ""]
  {
    FramedOneLine(open, lines, close, '\n');
    SplitJoin([open] + lines + [close, ""], '\n');
    JoinFramed(open, lines, close);
  }

  lemma FramedOneLine(open: string, lines: seq<string>, close: string, sep: char)
    requires !HasChar(open, sep) && !HasChar(close, sep)
    requires forall k :: 0 <= k < |lines| ==> !HasChar(lines[k], sep)
    ensures var parts := [open] + lines + [close, ""]; forall k :: 0 <= k < |parts| ==> !HasChar(parts[k], sep)
  {
    var head := [open] + lines;
    var tail := [close, ""];
    var parts := head + tail;
    forall k | 0 <= k < |parts| ensures !HasChar(parts[k], sep) {
      if k == 0 {
        assert parts[k] == open;
      } else if k <= |lines| {
        assert parts[k] == lines[k - 1];
      } else {
        assert parts[k] == tail[k - |head|];
        assert |tail[1]| == 0;
      }
    }
  }

  /** `html.replace(/class=/g, 'className=')`. */
  function ReactMarkup(html: string): string {
    ReplaceAll(html, "class=", "className=")
  }

  /** The rewrite keeps the first character: the pattern and its replacement both begin with `c`. */
  lemma ReactMarkupHead(s: string)
    requires |s| > 0
    ensures |ReactMarkup(s)| > 0 && ReactMarkup(s)[0] == s[0]
  {
  }

  /** A prefix of the rewrite free of `c` is a prefix of the markup itself. */
  lemma {:induction false} ReactMarkupPrefix(s: string, w: string)
    requires IsPrefix(w, ReactMarkup(s)) && 'c' !in w
    ensures IsPrefix(w, s)
    decreases |w|
  {
    if |w| > 0 {
      ReactMarkupHead(s);
      assert !IsPrefix("class=", s);
      assert ReactMarkup(s) == [s[0]] + ReactMarkup(s[1..]);
      assert IsPrefix(w[1..], ReactMarkup(s[1..]));
      ReactMarkupPrefix(s[1..], w[1..]);
    }
  }

  /** Markup that never says `className=` is restored by the reverse rewrite. */
  lemma {:induction false} ReactMarkupReversible(html: string)
    requires !Contains(html, "className=")
    ensures ReplaceAll(ReactMarkup(html), "className=", "class=") == html
    decreases |html|
  {
    if |html| > 0 {
      if IsPrefix("class=", html) {
        var rest := html[6..];
        assert !Contains(rest, "className=") by {
          if Contains(rest, "className=") { ContainsSuffix(html, 6, "className="); }
        }
        ReactMarkupReversible(rest);
        var out := "className=" + ReactMarkup(rest);
        assert ReactMarkup(html) == out;
        assert IsPrefix("className=", out);
        assert out[10..] == ReactMarkup(rest);
      } else {
        var rest := html[1..];
        assert !Contains(rest, "className=") by {
          if Contains(rest, "className=") { ContainsSuffix(html, 1, "className="); }
        }
        ReactMarkupReversible(rest);
        var out := [html[0]] + ReactMarkup(rest);
        assert ReactMarkup(html) == out;
        if IsPrefix("className=", out) {
          assert IsPrefix("lassName=", ReactMarkup(rest)) by {
            assert out[1..10] == ReactMarkup(rest)[..9];
          }
          ReactMarkupPrefix(rest, "lassName=");
          assert html[..10] == [html[0]] + rest[..9];
          OccursAtPrefix(html, "className=");
          assert false;
        }
        assert out[1..] == ReactMarkup(rest);
        assert [html[0]] + rest == html;
      }
    }
  }

  /**
   * `generateReact`: the interface when typed, the function header, and the
   * rewritten markup closing the file, with nothing else between them.
   */
  function GenerateReact(c: UniversalComponent, typescript: bool): (r: string)
    ensures IsSuffix(ReactMarkup(c.content.html) + "\n  );\n}", r)
    ensures typescript ==> IsPrefix(PropsInterface(c.content.propKeys, true) + "\nexport default function ", r)
    ensures !typescript ==> IsPrefix("\nexport default function " + c.name + "(props) {", r)
    ensures var head := (if typescript then PropsInterface(c.content.propKeys, true) else "")
                        + "\nexport default function " + c.name
                        + (if typescript then "(props: Props)" else "(props)") + " {\n  return (\n    ";
      IsPrefix(head, r) && |r| == |head| + |ReactMarkup(c.content.html) + "\n  );\n}"|
  {
    var head := (if typescript then PropsInterface(c.content.propKeys, true) else "")
                + "\nexport default function " + c.name
                + (if typescript then "(props: Props)" else "(props)") + " {\n  return (\n    ";
    var tail := ReactMarkup(c.content.html) + "\n  );\n}";
    Ends(head, "", tail);
    assert head + "" + tail == head + tail;
    ReactHead(c, typescript, head);
    PrefixTrans((if typescript then PropsInterface(c.content.propKeys, true) + "\nexport default function "
                 else "\nexport default function " + c.name + "(props) {"), head, head + tail);
    head + tail
  }

  /** The opening the header starts with, in each case. */
  lemma ReactHead(c: UniversalComponent, typescript: bool, head: string)
    requires head == (if typescript then PropsInterface(c.content.propKeys, true) else "")
                     + "\nexport default function " + c.name
                     + (if typescript then "(props: Props)" else "(props)") + " {\n  return (\n    "
    ensures typescript ==> IsPrefix(PropsInterface(c.content.propKeys, true) + "\nexport default function ", head)
    ensures !typescript ==> IsPrefix("\nexport default function " + c.name + "(props) {", head)
  {
    var a := (if typescript then PropsInterface(c.content.propKeys, true) else "") + "\nexport default function ";
    var b := a + c.name;
    var d := b + (if typescript then "(props: Props)" else "(props)");
    assert head == d + " {\n  return (\n    ";
    PrefixConcat(a, c.name);
    PrefixConcat(b, if typescript then "(props: Props)" else "(props)");
    PrefixConcat(d, " {\n  return (\n    ");
    PrefixTrans(b, d, head);
    if typescript {
      PrefixTrans(a, b, head);
    } else {
      assert d + " {" == "\nexport default function " + c.name + "(props) {";
      PrefixConcat(d + " {", "\n  return (\n    ");
      assert head == d + " {" + "\n  return (\n    ";
    }
  }

  /**
   * `generateAstro`: front matter holding the interface and the destructured
   * props, then the markup verbatim.
   */
  function GenerateAstro(c: UniversalComponent): (r: string)
    ensures IsPrefix("---\n" + PropsInterface(c.content.propKeys, true), r)
    ensures IsSuffix("\n---\n\n" + c.content.html, r)
    ensures var head := "---\n" + PropsInterface(c.content.propKeys, true)
                        + "\n\nconst { " + Join(c.content.propKeys, ", ") + " } = Astro.props;\n---\n\n";
      IsPrefix(head, r) && |r| == |head| + |c.content.html|
  {
    var opening := "---\n" + PropsInterface(c.content.propKeys, true);
    var destructure := "\n\nconst { " + Join(c.content.propKeys, ", ") + " } = Astro.props;";
    var closing := "\n---\n\n" + c.content.html;
    Ends(opening, destructure, closing);
    Ends(opening + destructure + "\n---\n\n", "", c.content.html);
    opening + destructure + closing
  }

  function Extension(f: Framework): string {
    if f.Astro? then "astro" else "tsx"
  }

  /** `generateComponent`: a React or Astro file named after the component; any other framework throws. */
  function GenerateComponent(c: UniversalComponent, format: ExportFormat): (r: Result<ExportFile>)
    ensures r.Failure? <==> !format.framework.Exportable()
    ensures r.Failure? ==> r.error == "Unsupported framework: " + format.framework.Name()
    ensures r.Success? ==> r.value.path == c.name + "." + Extension(format.framework) && r.value.kind == ComponentFile
    ensures r.Success? && format.framework.React? ==> r.value.content == GenerateReact(c, format.typescript)
    ensures r.Success? && format.framework.Astro? ==> r.value.content == GenerateAstro(c)
  {
    match format.framework
    case React => Success(ExportFile(c.name + "." + Extension(format.framework), GenerateReact(c, format.typescript), ComponentFile))
    case Astro => Success(ExportFile(c.name + "." + Extension(format.framework), GenerateAstro(c), ComponentFile))
    case _ => Failure("Unsupported framework: " + format.framework.Name())
  }

  /** The export loop: one file per component, stopping at the first that throws. */
  function GenerateAll(cs: seq<UniversalComponent>, format: ExportFormat): (r: Result<seq<ExportFile>>)
    ensures r.Failure? <==> |cs| > 0 && !format.framework.Exportable()
    ensures r.Failure? ==> r.error == "Unsupported framework: " + format.framework.Name()
    ensures r.Success? ==> |r.value| == |cs|
    ensures r.Success? ==> forall i :: 0 <= i < |cs| ==> Success(r.value[i]) == GenerateComponent(cs[i], format)
  {
    if |cs| == 0 then Success([])
    else
      match GenerateComponent(cs[0], format)
      case Failure(e) => Failure(e)
      case Success(file) =>
        match GenerateAll(cs[1..], format)
        case Failure(e) => Failure(e)
        case Success(files) => Success([file] + files)
  }

  function FrameworkDependencies(f: Framework): seq<string> {
    match f
    case React => ["react", "@types/react"]
    case Vue => ["vue"]
    case Astro => ["astro"]
    case Svelte => ["svelte"]
    case Html => []
  }

  function StylingDependencies(s: Styling): seq<string> {
    match s
    case Tailwind => ["tailwindcss"]
    case Unocss => ["@unocss/webpack"]
    case _ => []
  }

  /**
   * `UniversalParser.export`: one component file per component, in order,
   * the framework's and the styling's packages, and no instructions.
   */
  function Export(cs: seq<UniversalComponent>, format: ExportFormat): (r: Result<ExportResult>)
    ensures r.Failure? <==> |cs| > 0 && !format.framework.Exportable()
    ensures r.Failure? ==> r.error == "Unsupported framework: " + format.framework.Name()
    ensures r.Success? ==>
      && |r.value.files| == |cs|
      && (forall i :: 0 <= i < |cs| ==> Success(r.value.files[i]) == GenerateComponent(cs[i], format))
      && r.value.dependencies == FrameworkDependencies(format.framework) + StylingDependencies(format.styling)
      && r.value.instructions == []
  {
    match GenerateAll(cs, format)
    case Failure(e) => Failure(e)
    case Success(files) =>
      Success(ExportResult(files, FrameworkDependencies(format.framework) + StylingDependencies(format.styling), []))
  }

  /** Components with distinct names are exported to distinct paths. */
  lemma ExportPathsDistinct(cs: seq<UniversalComponent>, format: ExportFormat, i: nat, j: nat)
    requires Export(cs, format).Success? && i < j < |cs|
    requires cs[i].name != cs[j].name
    ensures Export(cs, format).value.files[i].path != Export(cs, format).value.files[j].path
  {
    var files := Export(cs, format).value.files;
    assert Success(files[i]) == GenerateComponent(cs[i], format);
    assert Success(files[j]) == GenerateComponent(cs[j], format);
    if files[i].path == files[j].path {
      SuffixCancel(cs[i].name + ".", cs[j].name + ".", Extension(format.framework));
      SuffixCancel(cs[i].name, cs[j].name, ".");
    }
  }

  lemma SuffixCancel(a: string, b: string, ext: string)
    requires a + ext == b + ext
    ensures a == b
  {
    assert a == (a + ext)[..|a|];
    assert b == (b + ext)[..|b|];
  }

  /** The package list names the framework exactly when it is React, Vue, Astro or Svelte. */
  lemma ExportNamesFramework(cs: seq<UniversalComponent>, format: ExportFormat)
    requires Export(cs, format).Success?
    ensures format.framework.Name() in Export(cs, format).value.dependencies <==> !format.framework.Html?
  {
    var deps := Export(cs, format).value.dependencies;
    if format.framework.Html? {
      assert deps == StylingDependencies(format.styling);
      assert forall k :: 0 <= k < |deps| ==> deps[k] != "html";
    } else {
      assert deps[0] == format.framework.Name();
    }
  }
}
