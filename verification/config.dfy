/**
 * The constant tables of scripts/ready-ai/config.ts and the per-type tables
 * that scripts/ready-ai/parser.ts keeps inline: component selectors, base
 * names, semantic tags, keywords, the CSS value mapping and the Astro template.
 */
module Config {
  import opened Strings

  /**
   * The component types the parser emits. The six typed ones come from the
   * selector table; `Section` is given to leftover sections.
   */
  datatype ComponentType = Header | Hero | Features | Testimonials | Cta | Footer | Section {
    /** The type's name as the parser writes it. */
    function Name(): string {
      match this
      case Header => "header"
      case Hero => "hero"
      case Features => "features"
      case Testimonials => "testimonials"
      case Cta => "cta"
      case Footer => "footer"
      case Section => "section"
    }
  }

  /** The key order of the selector table, which is the order types are identified in. */
  const TypedOrder: seq<ComponentType> := [Header, Hero, Features, Testimonials, Cta, Footer]

  /** The selectors tried for each type, in order; none for leftover sections. */
  function Patterns(t: ComponentType): seq<string> {
    match t
    case Header => ["header", "nav", ".navbar", ".header"]
    case Hero => [".hero", ".landing", ".banner", "section:first-child"]
    case Features => [".features", ".services", ".benefits", ".advantages"]
    case Testimonials => [".testimonials", ".reviews", ".feedback"]
    case Cta => [".cta", ".call-to-action", ".action"]
    case Footer => ["footer", ".footer"]
    case Section => []
  }

  /** The selector of the leftover-section pass. */
  const OtherSectionsSelector: string := "section, div[class*=\"section\"], .container > div"

  /** The first part of a component name; types without an entry fall back to 'Section'. */
  function BaseName(t: ComponentType): string {
    match t
    case Header => "Header"
    case Hero => "Hero"
    case Features => "Features"
    case Testimonials => "Testimonials"
    case Cta => "CallToAction"
    case Footer => "Footer"
    case Section => "Section"
  }

  /** Tags that earn a type the semantic bonus; leftover sections have no entry. */
  function SemanticTags(t: ComponentType): seq<string> {
    match t
    case Header => ["header", "nav"]
    case Hero => ["section", "main"]
    case Features => ["section", "div"]
    case Testimonials => ["section", "div"]
    case Cta => ["section", "div"]
    case Footer => ["footer"]
    case Section => []
  }

  /** Keywords searched for in the lower-cased class and id text. */
  function TypeKeywords(t: ComponentType): seq<string> {
    match t
    case Header => ["header", "nav", "navigation", "top"]
    case Hero => ["hero", "banner", "landing", "main"]
    case Features => ["features", "services", "benefits"]
    case Testimonials => ["testimonials", "reviews", "feedback"]
    case Cta => ["cta", "call-to-action", "action", "button"]
    case Footer => ["footer", "bottom"]
    case Section => []
  }

  /** The colour table: a hex literal and its UnoCSS colour name. */
  const ColorMap: seq<(string, string)> := [
    ("#667eea", "blue-500"),
    ("#764ba2", "purple-600"),
    ("#f093fb", "pink-400"),
    ("#f5f7fa", "gray-50"),
    ("#c3cfe2", "gray-300")
  ]

  /** The spacing table: a pixel literal and its spacing step. */
  const SpacingMap: seq<(string, string)> := [
    ("10px", "2.5"),
    ("20px", "5"),
    ("40px", "10"),
    ("80px", "20")
  ]

  /** The font-size table: a pixel size and its utility class. */
  const FontSizeMap: seq<(string, string)> := [
    ("14px", "text-sm"),
    ("16px", "text-base"),
    ("18px", "text-lg"),
    ("24px", "text-xl"),
    ("32px", "text-2xl"),
    ("48px", "text-4xl")
  ]

  const InterfaceSlot: string := "{{PROPS_INTERFACE}}"
  const DestructureSlot: string := "{{PROPS_DESTRUCTURE}}"
  const HtmlSlot: string := "{{COMPONENT_HTML}}"
  const StylesSlot: string := "{{COMPONENT_STYLES}}"

  /** The text around the four slots of the Astro component template. */
  const TemplateHead: string := "---\nexport interface Props {\n  "
  const TemplateAfterInterface: string := "\n}\n\nconst { "
  const TemplateAfterDestructure: string := " } = Astro.props;\n---\n\n"
  const TemplateAfterHtml: string := "\n\n<style>\n"
  const TemplateTail: string := "\n</style>\n"

  /** The Astro component template. */
  const AstroTemplate: string :=
    TemplateHead + (InterfaceSlot + (TemplateAfterInterface + DestructureSlot
    + (TemplateAfterDestructure + HtmlSlot + (TemplateAfterHtml + StylesSlot + TemplateTail))))
}
