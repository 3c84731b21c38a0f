/**
 * Component identification of scripts/ready-ai/parser.ts.
 *
 * The page is a document-ordered sequence of element records holding what the
 * parser reads of each element through its HTML library: tag, id and class
 * attributes, text, serialised markup, and the text elements, images and links
 * below it. Selectors are opaque: `matches(selector, i)` says whether the
 * element at document index `i` is selected.
 */
module Parser {
  import opened Common
  import opened Strings
  import opened Config
  import opened Dicts
  import Meta

  // ---------------------------------------------------------------------------
  // Element records
  // ---------------------------------------------------------------------------

  /** The tags of `h1, h2, h3, h4, h5, h6, p, span, a`. */
  datatype TextTag = H1 | H2 | H3 | H4 | H5 | H6 | P | Span | A {
    function Name(): (n: string)
      ensures |n| > 0 && !IsDigit(n[0])
    {
      match this
      case H1 => "h1" case H2 => "h2" case H3 => "h3" case H4 => "h4" case H5 => "h5" case H6 => "h6"
      case P => "p" case Span => "span" case A => "a"
    }
  }

  /** A descendant matched by the text selector, with its (untrimmed) text. */
  datatype TextElement = TextElement(tag: TextTag, text: string)

  /**
   * A descendant `img` with its `src` and `alt` attributes, and whether it
   * lies inside one of the element's text elements.
   */
  datatype Image = Image(src: Option<string>, alt: Option<string>, inText: bool)

  /** A descendant `a[href]` with its `href` attribute and its (untrimmed) text. */
  datatype Link = Link(href: string, text: string)

  /**
   * An element as the parser reads it: `text` is its whole text, `looseText`
   * the part of it outside its text elements, and `hasAnchor` whether any `a`
   * lies below it.
   */
  datatype Element = Element(
    tag: string,
    id: Option<string>,
    classAttr: Option<string>,
    text: string,
    markup: string,
    textElements: seq<TextElement>,
    images: seq<Image>,
    links: seq<Link>,
    hasAnchor: bool,
    looseText: string)

  /** A custom prop value, of any JSON-like kind. */
  datatype Value = Str(s: string) | Num(n: int) | Bool(b: bool) | Arr(items: seq<Value>) | Null | Undefined | Other

  /** `ComponentProps`: four optional groups of props. */
  datatype Props = Props(
    text: Option<Dict<string>>,
    images: Option<Dict<string>>,
    links: Option<Dict<string>>,
    custom: Option<Dict<Value>>)

  /** `ParsedComponent`, with the confidence in tenths. */
  datatype Component = Component(
    name: string, kind: ComponentType, html: string, styles: seq<string>, props: Props, confidence: nat)

  // ---------------------------------------------------------------------------
  // Prop keys
  // ---------------------------------------------------------------------------

  /** `${index > 0 ? index : ''}`. */
  function IndexSuffix(i: nat): (r: string)
    ensures AllDigits(r)
    ensures r == "" <==> i == 0
  {
    if i > 0 then NatToString(i) else ""
  }

  lemma IndexSuffixInjective(i: nat, j: nat)
    requires IndexSuffix(i) == IndexSuffix(j)
    ensures i == j
  {
    if i > 0 && j > 0 {
      NatToStringInjective(i, j);
    }
  }

  /**
   * The tag named at the start of a text prop key, `/^(h[1-6]|p|span|a)/`; the
   * converter uses it to find the elements a text prop came from.
   */
  function TagOfKey(key: string): Option<TextTag> {
    if |key| >= 2 && key[0] == 'h' && '1' <= key[1] <= '6' then
      Some(match key[1] case '1' => H1 case '2' => H2 case '3' => H3 case '4' => H4 case '5' => H5 case _ => H6)
    else if |key| >= 1 && key[0] == 'p' then Some(P)
    else if IsPrefix("span", key) then Some(Span)
    else if |key| >= 1 && key[0] == 'a' then Some(A)
    else None
  }

  /** The key of the text element at index `i`. */
  function TextKey(tag: TextTag, i: nat): string {
    tag.Name() + IndexSuffix(i)
  }

  /** The converter reads back the tag the parser put in a text key. */
  lemma TagOfTextKey(tag: TextTag, i: nat)
    ensures TagOfKey(TextKey(tag, i)) == Some(tag)
  {
    var k := TextKey(tag, i);
    var s := IndexSuffix(i);
    assert k[..|tag.Name()|] == tag.Name();
    if |s| > 0 {
      assert k[|tag.Name()|] == s[0];
      assert IsDigit(k[|tag.Name()|]);
    }
  }

  /** Text keys of different indices differ, whatever their tags. */
  lemma TextKeyInjective(t1: TextTag, i: nat, t2: TextTag, j: nat)
    requires TextKey(t1, i) == TextKey(t2, j)
    ensures t1 == t2 && i == j
  {
    TagOfTextKey(t1, i);
    TagOfTextKey(t2, j);
    var n := t1.Name();
    assert TextKey(t1, i)[|n|..] == IndexSuffix(i);
    assert TextKey(t2, j)[|n|..] == IndexSuffix(j);
    IndexSuffixInjective(i, j);
  }

  /** `base + index` and `base + index + companion` keys. */
  function IndexedKey(base: string, i: nat): string {
    base + IndexSuffix(i)
  }

  /** A companion suffix no indexed key can end with. */
  predicate CompanionFor(base: string, companion: string) {
    |base| > 0 && |companion| > 0 && !IsDigit(companion[|companion| - 1])
    && base[|base| - 1] != companion[|companion| - 1]
  }

  lemma IndexedKeyInjective(base: string, i: nat, j: nat)
    requires IndexedKey(base, i) == IndexedKey(base, j)
    ensures i == j
  {
    assert IndexedKey(base, i)[|base|..] == IndexSuffix(i);
    assert IndexedKey(base, j)[|base|..] == IndexSuffix(j);
    IndexSuffixInjective(i, j);
  }

  lemma IndexedKeyNotCompanion(base: string, companion: string, i: nat, j: nat)
    requires CompanionFor(base, companion)
    ensures IndexedKey(base, i) != IndexedKey(base, j) + companion
  {
    var k := IndexedKey(base, i);
    var s := IndexSuffix(i);
    if |s| > 0 {
      assert k[|k| - 1] == s[|s| - 1];
    } else {
      assert k == base;
    }
    var c := IndexedKey(base, j) + companion;
    assert c[|c| - 1] == companion[|companion| - 1];
  }

  // ---------------------------------------------------------------------------
  // Prop extraction
  // ---------------------------------------------------------------------------

  /**
   * `if (value) record[key] = value` for each assignment in order: the entries
   * with a non-empty value.
   */
  function NonEmpty(entries: Dict<string>): (d: Dict<string>)
    ensures |d| <= |entries|
    ensures forall e :: e in d <==> e in entries && e.1 != ""
    ensures DistinctKeys(entries) ==> DistinctKeys(d)
  {
    if |entries| == 0 then []
    else
      var rest := NonEmpty(entries[1..]);
      if entries[0].1 == "" then rest
      else
        NonEmptyFresh(entries, rest);
        [entries[0]] + rest
  }

  lemma NonEmptyFresh(entries: Dict<string>, rest: Dict<string>)
    requires |entries| > 0
    requires forall e :: e in rest ==> e in entries[1..]
    requires DistinctKeys(entries) ==> DistinctKeys(rest)
    ensures DistinctKeys(entries) ==> DistinctKeys([entries[0]] + rest)
  {
    if DistinctKeys(entries) {
      forall j | 0 <= j < |rest|
        ensures entries[0].0 != rest[j].0
      {
        assert rest[j] in entries[1..];
        var i :| 0 <= i < |entries| - 1 && entries[1..][i] == rest[j];
        assert entries[i + 1] == rest[j];
      }
      DistinctConcat([entries[0]], rest);
    }
  }

  /** The text assignments, one per selected text element, empty or not. */
  function TextAssignments(es: seq<TextElement>): (a: Dict<string>)
    ensures |a| == |es|
    ensures forall i :: 0 <= i < |es| ==> a[i] == (TextKey(es[i].tag, i), Trim(es[i].text))
    ensures DistinctKeys(a)
  {
    var a := seq(|es|, i requires 0 <= i < |es| => (TextKey(es[i].tag, i), Trim(es[i].text)));
    TextKeysDistinct(a, es);
    a
  }

  /** Keys carrying different indices differ. */
  lemma TextKeysDistinct(a: Dict<string>, es: seq<TextElement>)
    requires |a| == |es|
    requires forall i :: 0 <= i < |es| ==> a[i].0 == TextKey(es[i].tag, i)
    ensures DistinctKeys(a)
  {
    forall i, j | 0 <= i < j < |a|
      ensures a[i].0 != a[j].0
    {
      if a[i].0 == a[j].0 {
        TextKeyInjective(es[i].tag, i, es[j].tag, j);
      }
    }
  }

  /**
   * The image or link assignments: item `i` assigns `base + index` its main
   * value, then `base + index + companion` its second value, the latter only
   * when the main value is non-empty (written as an empty value otherwise).
   */
  function PairAssignments(base: string, companion: string, items: seq<(string, string)>): (a: Dict<string>)
    requires CompanionFor(base, companion)
    ensures PairsAt(a, base, companion, items)
    ensures DistinctKeys(a)
  {
    if |items| == 0 then []
    else
      var n := |items| - 1;
      var prev := PairAssignments(base, companion, items[..n]);
      var main := (IndexedKey(base, n), items[n].0);
      var second := (IndexedKey(base, n) + companion, if items[n].0 != "" then items[n].1 else "");
      PairsDistinct(prev, n, base, companion, main, second);
      PairsExtend(prev, base, companion, items);
      prev + [main, second]
  }

  /** Item `i` of `items` is assigned at `2 * i` and `2 * i + 1` of `a`. */
  predicate PairsAt(a: Dict<string>, base: string, companion: string, items: seq<(string, string)>) {
    && |a| == 2 * |items|
    && forall i :: 0 <= i < |items| ==>
         && a[2 * i] == (IndexedKey(base, i), items[i].0)
         && a[2 * i + 1] == (IndexedKey(base, i) + companion, if items[i].0 != "" then items[i].1 else "")
  }

  /** Appending the last item's two entries to the assignments of the others. */
  lemma PairsExtend(prev: Dict<string>, base: string, companion: string, items: seq<(string, string)>)
    requires |items| > 0 && PairsAt(prev, base, companion, items[..|items| - 1])
    ensures var n := |items| - 1;
      PairsAt(prev + [(IndexedKey(base, n), items[n].0),
                      (IndexedKey(base, n) + companion, if items[n].0 != "" then items[n].1 else "")],
              base, companion, items)
  {
    var n := |items| - 1;
    var a := prev + [(IndexedKey(base, n), items[n].0),
                     (IndexedKey(base, n) + companion, if items[n].0 != "" then items[n].1 else "")];
    assert |a| == 2 * |items|;
    forall i | 0 <= i < |items|
      ensures a[2 * i] == (IndexedKey(base, i), items[i].0)
      ensures a[2 * i + 1] == (IndexedKey(base, i) + companion, if items[i].0 != "" then items[i].1 else "")
    {
      if i < n {
        assert items[..n][i] == items[i];
        assert a[2 * i] == prev[2 * i] && a[2 * i + 1] == prev[2 * i + 1];
      } else {
        assert 2 * i == |prev|;
      }
    }
  }

  /** The two entries of item `n` add keys that no earlier item used. */
  lemma PairsDistinct(prev: Dict<string>, n: nat, base: string, companion: string,
                      main: (string, string), second: (string, string))
    requires CompanionFor(base, companion)
    requires |prev| == 2 * n && DistinctKeys(prev)
    requires forall i :: 0 <= i < n ==>
               prev[2 * i].0 == IndexedKey(base, i) && prev[2 * i + 1].0 == IndexedKey(base, i) + companion
    requires main.0 == IndexedKey(base, n) && second.0 == IndexedKey(base, n) + companion
    ensures DistinctKeys(prev + [main, second])
  {
    var b := [main, second];
    forall k, l | 0 <= k < |prev| && 0 <= l < |b|
      ensures prev[k].0 != b[l].0
    {
      var i := k / 2;
      assert k == 2 * i || k == 2 * i + 1;
      assert i < n;
      PairKeysDiffer(base, companion, i, n, prev[k].0, b[l].0);
    }
    IndexedKeyNotCompanion(base, companion, n, n);
    DistinctConcat(prev, b);
  }

  /** A companion key strips back to its indexed key. */
  lemma CompanionInjective(base: string, companion: string, i: nat, j: nat)
    requires IndexedKey(base, i) + companion == IndexedKey(base, j) + companion
    ensures i == j
  {
    var a := IndexedKey(base, i) + companion;
    assert IndexedKey(base, i) == a[..|a| - |companion|];
    assert IndexedKey(base, j) == a[..|a| - |companion|];
    IndexedKeyInjective(base, i, j);
  }

  /** Keys of two different indices differ, companion or not. */
  lemma PairKeysDiffer(base: string, companion: string, n: nat, i: nat, k1: string, k2: string)
    requires CompanionFor(base, companion) && n != i
    requires k1 == IndexedKey(base, n) || k1 == IndexedKey(base, n) + companion
    requires k2 == IndexedKey(base, i) || k2 == IndexedKey(base, i) + companion
    ensures k1 != k2
  {
    IndexedKeyNotCompanion(base, companion, i, n);
    IndexedKeyNotCompanion(base, companion, n, i);
    if k1 == k2 {
      if k1 == IndexedKey(base, n) && k2 == IndexedKey(base, i) {
        IndexedKeyInjective(base, n, i);
      } else if k1 == IndexedKey(base, n) + companion && k2 == IndexedKey(base, i) + companion {
        CompanionInjective(base, companion, n, i);
      }
    }
  }

  /** `(src || '', alt || '')` for each image. */
  function ImagePairs(images: seq<Image>): (ps: seq<(string, string)>)
    ensures |ps| == |images|
    ensures forall i :: 0 <= i < |images| ==> ps[i] == (images[i].src.GetOr(""), images[i].alt.GetOr(""))
  {
    seq(|images|, i requires 0 <= i < |images| => (images[i].src.GetOr(""), images[i].alt.GetOr("")))
  }

  /** `(href, trimmed text)` for each link. */
  function LinkPairs(links: seq<Link>): (ps: seq<(string, string)>)
    ensures |ps| == |links|
    ensures forall i :: 0 <= i < |links| ==> ps[i] == (links[i].href, Trim(links[i].text))
  {
    seq(|links|, i requires 0 <= i < |links| => (links[i].href, Trim(links[i].text)))
  }

  /**
   * `extractComponentProps`: a group exists exactly when its selection is
   * non-empty; since no key is assigned twice, each group holds exactly the
   * assignments with a non-empty value, in the order they were made.
   */
  function ExtractProps(el: Element): (p: Props)
    ensures p.text.Some? <==> |el.textElements| > 0
    ensures p.images.Some? <==> |el.images| > 0
    ensures p.links.Some? <==> |el.links| > 0
    ensures p.custom.None?
    ensures p.text.Some? ==> p.text.value == NonEmpty(TextAssignments(el.textElements))
    ensures p.images.Some? ==> p.images.value == NonEmpty(PairAssignments("image", "Alt", ImagePairs(el.images)))
    ensures p.links.Some? ==> p.links.value == NonEmpty(PairAssignments("link", "Text", LinkPairs(el.links)))
  {
    PropCompanions();
    Props(TextGroup(el.textElements), ImageGroup(el.images), LinkGroup(el.links), None)
  }

  /** The text group: present exactly when some text element is selected. */
  function TextGroup(es: seq<TextElement>): (g: Option<Dict<string>>)
    ensures g.Some? <==> |es| > 0
    ensures g.Some? ==> g.value == NonEmpty(TextAssignments(es))
  {
    Group(TextAssignments(es), |es| > 0)
  }

  /** The image group: present exactly when some image is selected. */
  function ImageGroup(images: seq<Image>): (g: Option<Dict<string>>)
    ensures g.Some? <==> |images| > 0
    ensures CompanionFor("image", "Alt")
    ensures g.Some? ==> g.value == NonEmpty(PairAssignments("image", "Alt", ImagePairs(images)))
  {
    PropCompanions();
    Group(PairAssignments("image", "Alt", ImagePairs(images)), |images| > 0)
  }

  /** The link group: present exactly when some link is selected. */
  function LinkGroup(links: seq<Link>): (g: Option<Dict<string>>)
    ensures g.Some? <==> |links| > 0
    ensures CompanionFor("link", "Text")
    ensures g.Some? ==> g.value == NonEmpty(PairAssignments("link", "Text", LinkPairs(links)))
  {
    PropCompanions();
    Group(PairAssignments("link", "Text", LinkPairs(links)), |links| > 0)
  }

  /** `imageAlt` and `linkText` are companions no indexed image or link key can end with. */
  lemma PropCompanions()
    ensures CompanionFor("image", "Alt") && CompanionFor("link", "Text")
  {
  }

  /**
   * One group of props: when its selection is non-empty, a fresh record
   * receives the assignments with a non-empty value; none of them overwrites
   * another, since no key repeats.
   */
  function Group(assignments: Dict<string>, selected: bool): (g: Option<Dict<string>>)
    requires DistinctKeys(assignments)
    ensures g.Some? <==> selected
    ensures g.Some? ==> g.value == NonEmpty(assignments) && DistinctKeys(g.value)
  {
    var kept := NonEmpty(assignments);
    PutAllFresh([], kept);
    if selected then Some(PutAll([], kept)) else None
  }

  /**
   * Text props are keyed by tag and the element's index among all selected
   * text elements: exactly the elements with non-empty trimmed text appear.
   */
  lemma TextProps(el: Element, key: string, value: string)
    requires |el.textElements| > 0
    ensures (key, value) in ExtractProps(el).text.value <==>
      exists i :: 0 <= i < |el.textElements| && value == Trim(el.textElements[i].text) != ""
        && key == TextKey(el.textElements[i].tag, i)
    ensures DistinctKeys(ExtractProps(el).text.value)
  {
    TextEntries(TextAssignments(el.textElements), el.textElements, key, value);
  }

  /** An entry survives the empty-value filter exactly when some element assigned it. */
  lemma {:induction false} TextEntries(a: Dict<string>, es: seq<TextElement>, key: string, value: string)
    requires |a| == |es|
    requires forall i :: 0 <= i < |es| ==> a[i] == (TextKey(es[i].tag, i), Trim(es[i].text))
    ensures (key, value) in NonEmpty(a) <==>
      exists i :: 0 <= i < |es| && value == Trim(es[i].text) != "" && key == TextKey(es[i].tag, i)
  {
    if (key, value) in NonEmpty(a) {
      var i :| 0 <= i < |a| && a[i] == (key, value);
      assert value == Trim(es[i].text) != "" && key == TextKey(es[i].tag, i);
    }
  }

  /**
   * Item `i` has its main entry exactly when its main value is non-empty, and
   * its companion entry exactly when both values are.
   */
  lemma PairProps(base: string, companion: string, items: seq<(string, string)>, i: nat)
    requires CompanionFor(base, companion) && i < |items|
    ensures var d := NonEmpty(PairAssignments(base, companion, items));
      && ((IndexedKey(base, i), items[i].0) in d <==> items[i].0 != "")
      && ((IndexedKey(base, i) + companion, items[i].1) in d <==> items[i].0 != "" && items[i].1 != "")
  {
    PairEntries(PairAssignments(base, companion, items), base, companion, items, i);
  }

  /** The two entries of item `i`, in assignments with distinct keys. */
  lemma PairEntries(a: Dict<string>, base: string, companion: string, items: seq<(string, string)>, i: nat)
    requires PairsAt(a, base, companion, items) && DistinctKeys(a) && i < |items|
    ensures (IndexedKey(base, i), items[i].0) in NonEmpty(a) <==> items[i].0 != ""
    ensures (IndexedKey(base, i) + companion, items[i].1) in NonEmpty(a) <==> items[i].0 != "" && items[i].1 != ""
  {
    assert a[2 * i] == (IndexedKey(base, i), items[i].0);
    CompanionEntry(a, 2 * i + 1, items[i].0, items[i].1);
  }

  /** In a record with distinct keys, the entry at `k` is the only one with its key. */
  lemma CompanionEntry(a: Dict<string>, k: nat, main: string, second: string)
    requires DistinctKeys(a) && k < |a|
    requires a[k].1 == if main != "" then second else ""
    ensures (a[k].0, second) in NonEmpty(a) <==> main != "" && second != ""
  {
    if (a[k].0, second) in a {
      var j :| 0 <= j < |a| && a[j] == (a[k].0, second);
      assert j == k;
    }
  }

  /**
   * Image props: `image<i>` holds a non-empty src, and `image<i>Alt` a
   * non-empty alt, the latter only next to a src.
   */
  lemma ImageProps(el: Element, i: nat)
    requires i < |el.images|
    ensures |el.images| > 0
    ensures var d := ExtractProps(el).images.value;
      && ((IndexedKey("image", i), el.images[i].src.GetOr("")) in d <==> el.images[i].src.GetOr("") != "")
      && ((IndexedKey("image", i) + "Alt", el.images[i].alt.GetOr("")) in d
          <==> el.images[i].src.GetOr("") != "" && el.images[i].alt.GetOr("") != "")
  {
    PairProps("image", "Alt", ImagePairs(el.images), i);
  }

  /**
   * Link props: `link<i>` holds a non-empty href, and `link<i>Text` the
   * non-empty trimmed text, the latter only next to an href.
   */
  lemma LinkProps(el: Element, i: nat)
    requires i < |el.links|
    ensures |el.links| > 0
    ensures var d := ExtractProps(el).links.value;
      && ((IndexedKey("link", i), el.links[i].href) in d <==> el.links[i].href != "")
      && ((IndexedKey("link", i) + "Text", Trim(el.links[i].text)) in d
          <==> el.links[i].href != "" && Trim(el.links[i].text) != "")
  {
    var ps := LinkPairs(el.links);
    PairProps("link", "Text", ps, i);
  }

  // ---------------------------------------------------------------------------
  // Extraction as written
  // ---------------------------------------------------------------------------

  /**
   * The images the program's image pass reaches. `cheerio.load(node)` moves
   * `node` under a new document, detaching it from the page, and the text
   * pass loads every text element first: an image inside one of them is no
   * longer below the component when the image pass searches it.
   */
  function LooseImages(images: seq<Image>): (r: seq<Image>)
    ensures |r| <= |images|
    ensures forall i :: 0 <= i < |r| ==> r[i] in images && !r[i].inText
    ensures forall i :: 0 <= i < |images| && !images[i].inText ==> images[i] in r
  {
    if |images| == 0 then []
    else (if images[0].inText then [] else [images[0]]) + LooseImages(images[1..])
  }

  /**
   * `extractComponentProps` as written, on an element no earlier extraction
   * has touched: the text group as intended, images only from outside the
   * text elements, and never a link group, because the text pass has
   * detached every `a` before `find('a[href]')` runs.
   */
  function ExtractPropsAsWritten(el: Element): (p: Props)
    ensures p.text == ExtractProps(el).text
    ensures p.images.Some? <==> exists i :: 0 <= i < |el.images| && !el.images[i].inText
    ensures p.images.Some? ==>
      p.images.value == NonEmpty(PairAssignments("image", "Alt", ImagePairs(LooseImages(el.images))))
    ensures p.links.None? && p.custom.None?
  {
    var loose := LooseImages(el.images);
    var e := el.(images := loose, links := []);
    assert e.textElements == el.textElements;
    assert |loose| > 0 <==> exists i :: 0 <= i < |el.images| && !el.images[i].inText by {
      if |loose| > 0 {
        var i :| 0 <= i < |el.images| && el.images[i] == loose[0];
      }
    }
    ExtractProps(e)
  }

  // ---------------------------------------------------------------------------
  // Names
  // ---------------------------------------------------------------------------

  /** The filtered, capitalised name part of an attribute value, or "" when nothing is left. */
  function NamePart(s: string): (r: string)
    ensures r == "" <==> FilterAlnum(s) == ""
    ensures forall i :: 0 <= i < |r| ==> IsAlnum(r[i])
  {
    Capitalize(FilterAlnum(s))
  }

  /**
   * `generateComponentName`: the type's base name followed by the filtered id,
   * or else the filtered first space-separated class token, capitalised.
   */
  function ComponentName(kind: ComponentType, id: Option<string>, classAttr: Option<string>): (name: string)
    ensures IsPrefix(BaseName(kind), name)
    ensures forall i :: |BaseName(kind)| <= i < |name| ==> IsAlnum(name[i])
  {
    var base := BaseName(kind);
    var fromId := if id.Some? && id.value != "" then NamePart(id.value) else "";
    var fromClass := if classAttr.Some? && classAttr.value != "" then NamePart(Split(classAttr.value, ' ')[0]) else "";
    if fromId != "" then base + fromId
    else if fromClass != "" then base + fromClass
    else base
  }

  /** The id wins over the class; the class's first token counts only when the id leaves nothing. */
  lemma ComponentNameChoice(kind: ComponentType, id: Option<string>, classAttr: Option<string>)
    ensures id.Some? && FilterAlnum(id.value) != "" ==>
      ComponentName(kind, id, classAttr) == BaseName(kind) + Capitalize(FilterAlnum(id.value))
    ensures ((id.None? || FilterAlnum(id.value) == "") && classAttr.Some?
             && FilterAlnum(Split(classAttr.value, ' ')[0]) != "") ==>
      ComponentName(kind, id, classAttr) == BaseName(kind) + Capitalize(FilterAlnum(Split(classAttr.value, ' ')[0]))
    ensures ((id.None? || FilterAlnum(id.value) == "")
             && (classAttr.None? || FilterAlnum(Split(classAttr.value, ' ')[0]) == "")) ==>
      ComponentName(kind, id, classAttr) == BaseName(kind)
  {
    if id.Some? && id.value == "" {
      assert FilterAlnum(id.value) == "";
    }
    if classAttr.Some? && classAttr.value == "" {
      assert Split(classAttr.value, ' ') == [""];
    }
  }

  /** A hero `<section class="hero">` without an id is named `HeroHero`. */
  lemma HeroHeroName()
    ensures ComponentName(Hero, None, Some("hero")) == "HeroHero"
  {
    var h := "hero";
    assert !HasChar(h, ' ') && forall i :: 0 <= i < |h| ==> IsAlnum(h[i]);
    SplitNoSeparator(h, ' ');
    assert NamePart(Split(h, ' ')[0]) == "Hero";
  }

  // ---------------------------------------------------------------------------
  // Related styles
  // ---------------------------------------------------------------------------

  /** `attr('class')?.split(' ') || []`: an empty class attribute gives one empty token. */
  function ClassTokens(classAttr: Option<string>): seq<string> {
    match classAttr
    case None => []
    case Some(c) => Split(c, ' ')
  }

  /** A rule belongs to the element when it mentions `.token` for a class token or `#id`. */
  predicate RelatedRule(rule: string, tokens: seq<string>, id: Option<string>) {
    (exists k | 0 <= k < |tokens| :: Contains(rule, "." + tokens[k]))
    || (id.Some? && id.value != "" && Contains(rule, "#" + id.value))
  }

  /** The test a closed rule must pass to be kept: it mentions a class token or the id. */
  function RelatedTo(tokens: seq<string>, id: Option<string>): string -> bool {
    rule => RelatedRule(rule, tokens, id)
  }

  /** What a trimmed stylesheet line does to the rule being collected. */
  datatype LineKind = Opens | Closes | Continues

  /** A line holding '{' opens a rule, even when it also holds '}'; one holding only '}' closes it. */
  function KindOf(t: string): LineKind {
    if Contains(t, "{") then Opens else if Contains(t, "}") then Closes else Continues
  }

  /** The number of closing lines. */
  function CountClosing(ts: seq<string>): (n: nat)
    ensures n <= |ts|
  {
    if |ts| == 0 then 0
    else CountClosing(ts[..|ts| - 1]) + (if KindOf(ts[|ts| - 1]) == Closes then 1 else 0)
  }

  /** The index of the last line that opens or closes a rule, if any. */
  function LastMarker(ts: seq<string>): (r: Option<nat>)
    ensures r.Some? ==> r.value < |ts| && KindOf(ts[r.value]) != Continues
    ensures r.Some? ==> forall m :: r.value < m < |ts| ==> KindOf(ts[m]) == Continues
    ensures r.None? ==> forall m :: 0 <= m < |ts| ==> KindOf(ts[m]) == Continues
  {
    if |ts| == 0 then None
    else if KindOf(ts[|ts| - 1]) != Continues then Some(|ts| - 1)
    else LastMarker(ts[..|ts| - 1])
  }

  /** After the lines `ts`, a rule is open when the last opening or closing line opens one. */
  predicate IsOpen(ts: seq<string>) {
    var k := LastMarker(ts);
    k.Some? && KindOf(ts[k.value]) == Opens
  }

  /**
   * The text of the rule open after the lines `ts`: its opening line and every
   * line after it, joined by single spaces; empty when no rule is open.
   */
  function OpenRule(ts: seq<string>): string {
    if IsOpen(ts) then Join(ts[LastMarker(ts).value..], " ") else ""
  }

  /**
   * One rule per closing line, in order: the text of the rule open just before
   * that line, a space, and the closing line. Lines between a closing line and
   * the next opening line belong to no rule.
   */
  function ClosedRules(ts: seq<string>): (rules: seq<string>)
    ensures |rules| == CountClosing(ts)
  {
    if |ts| == 0 then []
    else
      var init, last := ts[..|ts| - 1], ts[|ts| - 1];
      ClosedRules(init) + (if KindOf(last) == Closes then [OpenRule(init) + " " + last] else [])
  }

  /** The rules `keep` accepts, each passed through `shape`, in order. */
  function Kept(rules: seq<string>, keep: string -> bool, shape: string -> string): (r: seq<string>)
    ensures |r| <= |rules|
  {
    if |rules| == 0 then []
    else
      var last := rules[|rules| - 1];
      Kept(rules[..|rules| - 1], keep, shape) + (if keep(last) then [shape(last)] else [])
  }

  /** A text is kept exactly when it is the shaped form of a rule `keep` accepts. */
  lemma {:induction false} KeptMembers(rules: seq<string>, keep: string -> bool, shape: string -> string, style: string)
    ensures style in Kept(rules, keep, shape) <==> exists j :: 0 <= j < |rules| && keep(rules[j]) && style == shape(rules[j])
  {
    if |rules| > 0 {
      var init, last := rules[..|rules| - 1], rules[|rules| - 1];
      KeptMembers(init, keep, shape, style);
      var r0 := Kept(init, keep, shape);
      assert Kept(rules, keep, shape) == r0 + (if keep(last) then [shape(last)] else []);
      if exists j :: 0 <= j < |rules| && keep(rules[j]) && style == shape(rules[j]) {
        var j :| 0 <= j < |rules| && keep(rules[j]) && style == shape(rules[j]);
        if j < |init| {
          assert init[j] == rules[j];
        }
      }
      if style in r0 {
        var j :| 0 <= j < |init| && keep(init[j]) && style == shape(init[j]);
        assert init[j] == rules[j];
      }
    }
  }

  /** The scanner state: the rule being collected, whether a rule is open, and the kept rules. */
  datatype ScanState = ScanState(current: string, inRule: bool, kept: seq<string>)

  /** One iteration of the line loop, on a trimmed line. */
  function ScanLine(st: ScanState, t: string, keep: string -> bool): (r: ScanState)
    ensures |r.kept| == |st.kept| + (if KindOf(t) == Closes && keep(st.current + " " + t) then 1 else 0)
    ensures r.kept[..|st.kept|] == st.kept
    ensures |r.kept| > |st.kept| ==> r.kept[|st.kept|] == Trim(st.current + " " + t)
  {
    if Contains(t, "{") then ScanState(t, true, st.kept)
    else if Contains(t, "}") then ScanState("", false, CloseRule(st.kept, st.current + " " + t, keep))
    else if st.inRule then ScanState(st.current + " " + t, true, st.kept)
    else st
  }

  /** The kept rules once `rule` is closed: it is kept, trimmed, when `keep` accepts it. */
  function CloseRule(kept: seq<string>, rule: string, keep: string -> bool): (r: seq<string>)
    ensures |r| == |kept| + (if keep(rule) then 1 else 0)
    ensures r[..|kept|] == kept
    ensures |r| > |kept| ==> r[|kept|] == Trim(rule)
  {
    if keep(rule) then kept + [Trim(rule)] else kept
  }

  /** The line loop over the trimmed lines, one iteration per line. */
  function ScanLines(ts: seq<string>, keep: string -> bool): ScanState {
    if |ts| == 0 then ScanState("", false, [])
    else ScanLine(ScanLines(ts[..|ts| - 1], keep), ts[|ts| - 1], keep)
  }

  /**
   * After any prefix of the stylesheet the loop's state is described without
   * the loop: the open rule's text, whether one is open, and the accepted
   * closed rules so far.
   */
  lemma {:induction false} ScanLinesState(ts: seq<string>, keep: string -> bool)
    ensures ScanLines(ts, keep).current == OpenRule(ts)
    ensures ScanLines(ts, keep).inRule == IsOpen(ts)
    ensures ScanLines(ts, keep).kept == Kept(ClosedRules(ts), keep, Trim)
  {
    if |ts| > 0 {
      var init, last := ts[..|ts| - 1], ts[|ts| - 1];
      ScanLinesState(init, keep);
      ScanLineState(init, last, keep, ScanLines(init, keep));
      assert ts == init + [last];
    }
  }

  /** The induction step of `ScanLinesState`, with the state before the line abstracted. */
  lemma ScanLineState(init: seq<string>, last: string, keep: string -> bool, prev: ScanState)
    requires prev.current == OpenRule(init) && prev.inRule == IsOpen(init)
    requires prev.kept == Kept(ClosedRules(init), keep, Trim)
    ensures var st, ts := ScanLine(prev, last, keep), init + [last];
      && st.current == OpenRule(ts) && st.inRule == IsOpen(ts)
      && st.kept == Kept(ClosedRules(ts), keep, Trim)
  {
    var ts := init + [last];
    assert ts[..|ts| - 1] == init && ts[|ts| - 1] == last;
    var rules := ClosedRules(init);
    match KindOf(last)
    case Opens =>
      assert LastMarker(ts) == Some(|init|);
      assert ts[|init|..] == [last];
      assert ClosedRules(ts) == rules + [] == rules;
    case Closes =>
      var rule := OpenRule(init) + " " + last;
      assert ClosedRules(ts) == rules + [rule];
      assert (rules + [rule])[..|rules|] == rules;
    case Continues =>
      assert ClosedRules(ts) == rules + [] == rules;
      assert LastMarker(ts) == LastMarker(init);
      if IsOpen(init) {
        var i := LastMarker(init).value;
        assert ts[i] == init[i];
        OpenRuleGrows(init, last, i);
      }
  }

  /** A line that neither opens nor closes extends the open rule by a space and its text. */
  lemma OpenRuleGrows(init: seq<string>, last: string, i: nat)
    requires i < |init|
    ensures Join((init + [last])[i..], " ") == Join(init[i..], " ") + " " + last
  {
    assert (init + [last])[i..] == init[i..] + [last];
    JoinAppend(init[i..], [last], " ");
  }

  /** The stylesheet's lines, each trimmed. */
  function CssLines(css: string): seq<string> {
    TrimAll(Split(css, '\n'))
  }

  /**
   * `extractRelatedStyles`: the rules, collected line by line, that mention one
   * of the element's class tokens or its id, trimmed, in the order they are
   * closed.
   */
  function RelatedStyles(classAttr: Option<string>, id: Option<string>, css: string): (styles: seq<string>)
    ensures styles == Kept(ClosedRules(CssLines(css)), RelatedTo(ClassTokens(classAttr), id), Trim)
    ensures |styles| <= CountClosing(CssLines(css))
  {
    var keep := RelatedTo(ClassTokens(classAttr), id);
    ScanLinesState(CssLines(css), keep);
    ScanLines(CssLines(css), keep).kept
  }

  /**
   * Of the closed rules, a style is kept exactly when some rule mentions a
   * class token or the id and trims to it.
   */
  lemma RelatedMembers(rules: seq<string>, tokens: seq<string>, id: Option<string>, style: string)
    ensures style in Kept(rules, RelatedTo(tokens, id), Trim) <==>
      exists j :: 0 <= j < |rules| && RelatedRule(rules[j], tokens, id) && style == Trim(rules[j])
  {
    var keep := RelatedTo(tokens, id);
    KeptMembers(rules, keep, Trim, style);
    if style in Kept(rules, keep, Trim) {
      var j :| 0 <= j < |rules| && keep(rules[j]) && style == Trim(rules[j]);
      assert RelatedRule(rules[j], tokens, id);
    }
    if exists j :: 0 <= j < |rules| && RelatedRule(rules[j], tokens, id) && style == Trim(rules[j]) {
      var j :| 0 <= j < |rules| && RelatedRule(rules[j], tokens, id) && style == Trim(rules[j]);
      assert keep(rules[j]);
    }
  }

  /** No stylesheet text, no styles: leftover sections are built this way. */
  lemma RelatedStylesOfEmpty(classAttr: Option<string>, id: Option<string>)
    ensures RelatedStyles(classAttr, id, "") == []
  {
    TrimUnchanged("");
    assert !Contains("", "{") && !Contains("", "}");
    assert KindOf(Trim("")) == Continues;
    NoClosingLine("");
    var keep := RelatedTo(ClassTokens(classAttr), id);
    assert RelatedStyles(classAttr, id, "") == Kept([], keep, Trim);
  }

  /** A single line that does not close a rule closes none. */
  lemma NoClosingLine(line: string)
    requires KindOf(Trim(line)) != Closes && !HasChar(line, '\n')
    ensures ClosedRules(CssLines(line)) == []
  {
    SplitNoSeparator(line, '\n');
    var ts := CssLines(line);
    assert ts == [Trim(line)];
    assert ts[..0] == [];
  }

  /** A rule written on one line is opened but never closed by that line. */
  lemma OneLineRuleIsDropped(line: string, classAttr: Option<string>, id: Option<string>)
    requires !HasChar(line, '\n')
    requires Contains(Trim(line), "{")
    ensures RelatedStyles(classAttr, id, line) == []
  {
    NoClosingLine(line);
  }

  // ---------------------------------------------------------------------------
  // Confidence
  // ---------------------------------------------------------------------------

  /** The number of keywords of `kind` occurring in `text`. */
  function KeywordHits(keywords: seq<string>, text: string): (n: nat)
    ensures n <= |keywords|
  {
    if |keywords| == 0 then 0
    else (if Contains(text, keywords[0]) then 1 else 0) + KeywordHits(keywords[1..], text)
  }

  /** The bonuses, in tenths, before the cap. */
  function ConfidenceSum(el: Element, kind: ComponentType): nat {
    var semantic := if Lower(el.tag) in SemanticTags(kind) then 3 else 0;
    var classText := Lower(el.classAttr.GetOr("") + " " + el.id.GetOr(""));
    var keywords := KeywordHits(TypeKeywords(kind), classText);
    var text := if Meta.Utf16Length(Trim(el.text)) > 10 then 1 else 0;
    var image := if |el.images| > 0 && kind == Hero then 1 else 0;
    var link := if el.hasAnchor && (kind == Header || kind == Footer) then 1 else 0;
    5 + semantic + keywords + text + image + link
  }

  /** `calculateConfidence` in tenths: the bonuses over a base of 5, capped at 10. */
  function Confidence(el: Element, kind: ComponentType): (c: nat)
    ensures 5 <= c <= 10
    ensures c == 5 <==> ConfidenceSum(el, kind) == 5
    ensures Lower(el.tag) in SemanticTags(kind) ==> c >= 8
  {
    var s := ConfidenceSum(el, kind);
    if s < 10 then s else 10
  }

  /** A leftover section earns only the text bonus: exactly 0.6. */
  lemma SectionConfidence(el: Element)
    requires Meta.Utf16Length(Trim(el.text)) > 10
    ensures Confidence(el, Section) == 6
  {
  }

  /**
   * `calculateConfidence` as written: it runs after the props were
   * extracted, when the text elements and every image it could reach are
   * detached, so only the loose text counts and no image or link bonus is
   * ever granted.
   */
  function ConfidenceAsWritten(el: Element, kind: ComponentType): (c: nat)
    ensures var sum := 5 + (if Lower(el.tag) in SemanticTags(kind) then 3 else 0)
                     + KeywordHits(TypeKeywords(kind), Lower(el.classAttr.GetOr("") + " " + el.id.GetOr("")))
                     + (if Meta.Utf16Length(Trim(el.looseText)) > 10 then 1 else 0);
      c == if sum < 10 then sum else 10
  {
    Confidence(el.(text := el.looseText, images := [], hasAnchor := false), kind)
  }

  /** Elements that agree on tag, id, class and loose text score alike as written, whatever their images and links. */
  lemma ConfidenceAsWrittenIgnoresMedia(a: Element, b: Element, kind: ComponentType)
    requires a.tag == b.tag && a.id == b.id && a.classAttr == b.classAttr && a.looseText == b.looseText
    ensures ConfidenceAsWritten(a, kind) == ConfidenceAsWritten(b, kind)
  {
  }

  /**
   * A leftover section whose text all sits in text elements scores 0.5 as
   * written, where the intended score is the 0.6 of `SectionConfidence`.
   */
  lemma SectionConfidenceAsWritten(el: Element)
    requires Meta.Utf16Length(Trim(el.looseText)) <= 10
    ensures ConfidenceAsWritten(el, Section) == 5
  {
  }

  // ---------------------------------------------------------------------------
  // Components
  // ---------------------------------------------------------------------------

  /** `createComponentFromElement`: nothing for blank markup. */
  function CreateComponent(el: Element, kind: ComponentType, css: string): (c: Option<Component>)
    ensures c.None? <==> Trim(el.markup) == ""
    ensures c.Some? ==> c.value.kind == kind && c.value.html == el.markup
    ensures c.Some? ==> IsPrefix(BaseName(kind), c.value.name) && 5 <= c.value.confidence <= 10
    ensures c.Some? ==> c.value.styles == RelatedStyles(el.classAttr, el.id, css) && c.value.props == ExtractProps(el)
  {
    if Trim(el.markup) == "" then None
    else Some(Component(
      ComponentName(kind, el.id, el.classAttr), kind, el.markup,
      RelatedStyles(el.classAttr, el.id, css), ExtractProps(el), Confidence(el, kind)))
  }

  /**
   * `createComponentFromElement` as written, on an element no earlier
   * extraction has touched: the intended component with the props and the
   * confidence the detaching extraction leaves.
   */
  function CreateComponentAsWritten(el: Element, kind: ComponentType, css: string): (c: Option<Component>)
    ensures c.None? <==> CreateComponent(el, kind, css).None?
    ensures c.Some? ==> c.value == CreateComponent(el, kind, css).value.(
      props := ExtractPropsAsWritten(el), confidence := ConfidenceAsWritten(el, kind))
  {
    match CreateComponent(el, kind, css)
    case None => None
    case Some(x) => Some(x.(props := ExtractPropsAsWritten(el), confidence := ConfidenceAsWritten(el, kind)))
  }

  /** `<header><a href="/">Home</a></header>`. */
  const HomeHeader: Element := Element(
    "header", None, None, "Home", "<header><a href=\"/\">Home</a></header>",
    [TextElement(A, "Home")], [], [Link("/", "Home")], true, "")

  /**
   * On `<header><a href="/">Home</a></header>` the intended extraction yields
   * the link `/` and scores 0.9; the program keeps the same text prop, yields
   * no link group and scores 0.8.
   */
  lemma HeaderLinkLost()
    ensures ExtractProps(HomeHeader).links.Some? && ("link", "/") in ExtractProps(HomeHeader).links.value
    ensures ExtractPropsAsWritten(HomeHeader).links.None?
    ensures ExtractPropsAsWritten(HomeHeader).text == ExtractProps(HomeHeader).text
    ensures Confidence(HomeHeader, Header) == 9 && ConfidenceAsWritten(HomeHeader, Header) == 8
  {
    assert HomeHeader.links[0].href == "/";
    LinkProps(HomeHeader, 0);
    assert IndexedKey("link", 0) == "link";
    HomeHeaderScores();
  }

  /** The two scores of `HomeHeader`: the semantic tag and, when intended, the link. */
  lemma HomeHeaderScores()
    ensures Confidence(HomeHeader, Header) == 9 && ConfidenceAsWritten(HomeHeader, Header) == 8
  {
    HomeHeaderParts();
    HeaderLinkBonusLost(HomeHeader);
  }

  /**
   * A `header` element holding a link, with no keyword in its class or id
   * and little text, scores 0.9 as intended and 0.8 as written.
   */
  lemma HeaderLinkBonusLost(el: Element)
    requires Lower(el.tag) in SemanticTags(Header) && el.hasAnchor
    requires Lower(el.classAttr.GetOr("") + " " + el.id.GetOr("")) == " "
    requires KeywordHits(TypeKeywords(Header), " ") == 0
    requires Meta.Utf16Length(Trim(el.text)) <= 10 && Meta.Utf16Length(Trim(el.looseText)) <= 10
    ensures Confidence(el, Header) == 9 && ConfidenceAsWritten(el, Header) == 8
  {
  }

  /** The pieces the scores of `HomeHeader` are made of. */
  lemma HomeHeaderParts()
    ensures Lower(HomeHeader.tag) in SemanticTags(Header)
    ensures Lower(HomeHeader.classAttr.GetOr("") + " " + HomeHeader.id.GetOr("")) == " "
    ensures KeywordHits(TypeKeywords(Header), " ") == 0
    ensures Meta.Utf16Length(Trim(HomeHeader.text)) == 4 && Meta.Utf16Length(Trim(HomeHeader.looseText)) == 0
  {
    HomeHeaderTag();
    HomeHeaderText();
    HomeHeaderKeywords();
    HomeHeaderLoose();
  }

  lemma HomeHeaderKeywords()
    ensures Lower(HomeHeader.classAttr.GetOr("") + " " + HomeHeader.id.GetOr("")) == " "
    ensures KeywordHits(TypeKeywords(Header), " ") == 0
  {
  }

  lemma HomeHeaderLoose()
    ensures Meta.Utf16Length(Trim(HomeHeader.looseText)) == 0
  {
  }

  lemma HomeHeaderTag()
    ensures Lower(HomeHeader.tag) in SemanticTags(Header)
  {
    assert HomeHeader.tag == "header";
    assert Lower("header") == "header";
    assert SemanticTags(Header)[0] == "header";
  }

  lemma HomeHeaderText()
    ensures Meta.Utf16Length(Trim(HomeHeader.text)) == 4
  {
    TrimUnchanged("Home");
  }

  /** The selector semantics: whether the element at a document index is selected. */
  type Matcher = (string, nat) -> bool

  /** `$(selector)`: the selected document indices, in document order. */
  function Select(doc: seq<Element>, matches: Matcher, selector: string, from: nat): (r: seq<nat>)
    ensures forall k :: 0 <= k < |r| ==> from <= r[k] < |doc| && matches(selector, r[k])
    ensures forall i :: from <= i < |doc| && matches(selector, i) ==> i in r
    ensures forall k, l :: 0 <= k < l < |r| ==> r[k] < r[l]
    decreases |doc| - from
  {
    if from >= |doc| then []
    else if matches(selector, from) then [from] + Select(doc, matches, selector, from + 1)
    else Select(doc, matches, selector, from + 1)
  }

  /** The first selector of `sels` that selects something. */
  function FirstMatching(doc: seq<Element>, matches: Matcher, sels: seq<string>): (r: Option<nat>)
    ensures r.Some? ==> r.value < |sels| && Select(doc, matches, sels[r.value], 0) != []
    ensures r.Some? ==> forall k :: 0 <= k < r.value ==> Select(doc, matches, sels[k], 0) == []
    ensures r.None? ==> forall k :: 0 <= k < |sels| ==> Select(doc, matches, sels[k], 0) == []
  {
    var hits := seq(|sels|, k requires 0 <= k < |sels| => Select(doc, matches, sels[k], 0) != []);
    assert forall k :: 0 <= k < |sels| ==> (hits[k] <==> Select(doc, matches, sels[k], 0) != []);
    FirstTrue(hits)
  }

  /** The components built from the elements at `indices`, blank ones dropped. */
  function Build(doc: seq<Element>, indices: seq<nat>, kind: ComponentType, css: string): (cs: seq<Component>)
    requires forall k :: 0 <= k < |indices| ==> indices[k] < |doc|
  {
    Somes(Candidates(doc, indices, kind, css))
  }

  /** The options `Build` collects, one per selected element. */
  function Candidates(doc: seq<Element>, indices: seq<nat>, kind: ComponentType, css: string): (os: seq<Option<Component>>)
    requires forall k :: 0 <= k < |indices| ==> indices[k] < |doc|
    ensures |os| == |indices|
    ensures forall k :: 0 <= k < |indices| ==> os[k] == CreateComponent(doc[indices[k]], kind, css)
  {
    seq(|indices|, k requires 0 <= k < |indices| => CreateComponent(doc[indices[k]], kind, css))
  }

  /** Every candidate has the type being identified. */
  lemma BuildKinds(doc: seq<Element>, indices: seq<nat>, kind: ComponentType, css: string)
    requires forall k :: 0 <= k < |indices| ==> indices[k] < |doc|
    ensures |Build(doc, indices, kind, css)| <= |indices|
    ensures forall c :: c in Build(doc, indices, kind, css) ==> c.kind == kind
  {
    var os := Candidates(doc, indices, kind, css);
    assert Build(doc, indices, kind, css) == Somes(os);
    SomesOfKind(os, kind);
  }

  /** Collecting the present candidates keeps only components of the one type they all have. */
  lemma SomesOfKind(os: seq<Option<Component>>, kind: ComponentType)
    requires forall k :: 0 <= k < |os| && os[k].Some? ==> os[k].value.kind == kind
    ensures forall c :: c in Somes(os) ==> c.kind == kind
  {
    forall c | c in Somes(os) ensures c.kind == kind {
      var k :| 0 <= k < |os| && os[k] == Some(c);
    }
  }

  /**
   * Every selected element yields a candidate unless its markup is blank, and
   * a blank one is dropped without stopping the others.
   */
  lemma BuildComplete(doc: seq<Element>, indices: seq<nat>, kind: ComponentType, css: string)
    requires forall k :: 0 <= k < |indices| ==> indices[k] < |doc|
    ensures forall k :: 0 <= k < |indices| && Trim(doc[indices[k]].markup) != "" ==>
              CreateComponent(doc[indices[k]], kind, css).value in Build(doc, indices, kind, css)
    ensures (forall k :: 0 <= k < |indices| ==> Trim(doc[indices[k]].markup) != "") ==>
              |Build(doc, indices, kind, css)| == |indices|
  {
    var os := Candidates(doc, indices, kind, css);
    assert Build(doc, indices, kind, css) == Somes(os);
  }

  /**
   * The candidates come out in selection order, one per non-blank selected
   * element, repeats included.
   */
  lemma BuildInOrder(doc: seq<Element>, indices: seq<nat>, kind: ComponentType, css: string)
    requires forall k :: 0 <= k < |indices| ==> indices[k] < |doc|
    ensures var ps := Positions(Present(Candidates(doc, indices, kind, css)));
              var cs := Build(doc, indices, kind, css);
              |cs| == |ps| && forall k :: 0 <= k < |ps| ==> cs[k] == CreateComponent(doc[indices[ps[k]]], kind, css).value
  {
    var os := Candidates(doc, indices, kind, css);
    assert Build(doc, indices, kind, css) == Somes(os);
  }

  /** The candidates of one type: every element of its first selector that selects anything. */
  function TypedComponents(doc: seq<Element>, matches: Matcher, kind: ComponentType, css: string): (cs: seq<Component>)
    ensures forall c :: c in cs ==> c.kind == kind
    ensures FirstMatching(doc, matches, Patterns(kind)).None? ==> cs == []
  {
    match FirstMatching(doc, matches, Patterns(kind))
    case None => []
    case Some(k) =>
      var selected := Select(doc, matches, Patterns(kind)[k], 0);
      BuildKinds(doc, selected, kind, css);
      Build(doc, selected, kind, css)
  }

  /**
   * Only the first selector of a type that selects anything is used, and every
   * element it selects with non-blank markup becomes a candidate.
   */
  lemma TypedComponentsComplete(doc: seq<Element>, matches: Matcher, kind: ComponentType, css: string, i: nat)
    requires FirstMatching(doc, matches, Patterns(kind)).Some?
    requires var k := FirstMatching(doc, matches, Patterns(kind)).value;
      i < |doc| && matches(Patterns(kind)[k], i) && Trim(doc[i].markup) != ""
    ensures CreateComponent(doc[i], kind, css).value in TypedComponents(doc, matches, kind, css)
  {
    var k := FirstMatching(doc, matches, Patterns(kind)).value;
    var selected := Select(doc, matches, Patterns(kind)[k], 0);
    BuildComplete(doc, selected, kind, css);
    var p :| 0 <= p < |selected| && selected[p] == i;
  }

  /** A type's position in identification order; leftover sections come last. */
  function Rank(t: ComponentType): (r: nat)
    ensures r <= 6
  {
    match t
    case Header => 0 case Hero => 1 case Features => 2 case Testimonials => 3
    case Cta => 4 case Footer => 5 case Section => 6
  }

  /** The components' types never go back in identification order. */
  predicate RankSorted(cs: seq<Component>) {
    forall j, l :: 0 <= j < l < |cs| ==> Rank(cs[j].kind) <= Rank(cs[l].kind)
  }

  lemma RankSortedConcat(a: seq<Component>, b: seq<Component>, r: nat)
    requires RankSorted(a) && RankSorted(b)
    requires forall c :: c in a ==> Rank(c.kind) <= r
    requires forall c :: c in b ==> Rank(c.kind) >= r
    ensures RankSorted(a + b)
  {
    forall j, l | 0 <= j < l < |a + b|
      ensures Rank((a + b)[j].kind) <= Rank((a + b)[l].kind)
    {
      if l < |a| {
        assert (a + b)[j] == a[j] && (a + b)[l] == a[l];
      } else if j >= |a| {
        assert (a + b)[j] == b[j - |a|] && (a + b)[l] == b[l - |a|];
      } else {
        assert (a + b)[j] == a[j] && (a + b)[l] == b[l - |a|];
        assert a[j] in a && b[l - |a|] in b;
      }
    }
  }

  /** Types listed in strictly increasing identification order. */
  predicate StrictlyRanked(kinds: seq<ComponentType>) {
    forall j, l :: 0 <= j < l < |kinds| ==> Rank(kinds[j]) < Rank(kinds[l])
  }

  lemma RankedTail(kinds: seq<ComponentType>, rest: seq<Component>)
    requires |kinds| > 0 && StrictlyRanked(kinds)
    requires forall c :: c in rest ==> c.kind in kinds[1..]
    ensures forall c :: c in rest ==> Rank(c.kind) >= Rank(kinds[0])
  {
    forall c | c in rest ensures Rank(c.kind) >= Rank(kinds[0]) {
      var l :| 0 <= l < |kinds| - 1 && kinds[1..][l] == c.kind;
      assert kinds[l + 1] == c.kind;
    }
  }

  /** The typed candidates of the types in `kinds`, grouped in that order. */
  function AllTyped(doc: seq<Element>, matches: Matcher, kinds: seq<ComponentType>, css: string): (cs: seq<Component>)
    requires StrictlyRanked(kinds)
    ensures forall c :: c in cs ==> c.kind in kinds
    ensures RankSorted(cs)
  {
    if |kinds| == 0 then []
    else
      StrictlyRankedTail(kinds);
      var first := TypedComponents(doc, matches, kinds[0], css);
      var rest := AllTyped(doc, matches, kinds[1..], css);
      TypedStep(kinds, first, rest);
      first + rest
  }

  lemma StrictlyRankedTail(kinds: seq<ComponentType>)
    requires |kinds| > 0 && StrictlyRanked(kinds)
    ensures StrictlyRanked(kinds[1..])
  {
    forall j, l | 0 <= j < l < |kinds| - 1 ensures Rank(kinds[1..][j]) < Rank(kinds[1..][l]) {
      assert kinds[1..][j] == kinds[j + 1] && kinds[1..][l] == kinds[l + 1];
    }
  }

  /** Putting the candidates of the first type before those of the later ones keeps the order. */
  lemma TypedStep(kinds: seq<ComponentType>, first: seq<Component>, rest: seq<Component>)
    requires |kinds| > 0 && StrictlyRanked(kinds)
    requires forall c :: c in first ==> c.kind == kinds[0]
    requires forall c :: c in rest ==> c.kind in kinds[1..]
    requires RankSorted(rest)
    ensures forall c :: c in first + rest ==> c.kind in kinds
    ensures RankSorted(first + rest)
  {
    RankedTail(kinds, rest);
    forall j, l | 0 <= j < l < |first| ensures Rank(first[j].kind) <= Rank(first[l].kind) {
      assert first[j] in first && first[l] in first;
    }
    RankSortedConcat(first, rest, Rank(kinds[0]));
    assert kinds[0] in kinds;
    assert forall t :: t in kinds[1..] ==> t in kinds;
  }

  /**
   * One element of the leftover pass: a section, built without stylesheet
   * text, when its markup is non-blank and not taken and its trimmed text is
   * longer than fifty characters.
   */
  function Leftover(el: Element, taken: set<string>): (c: Option<Component>)
    ensures c.Some? <==> Trim(el.markup) != "" && el.markup !in taken && Meta.Utf16Length(Trim(el.text)) > 50
    ensures c.Some? ==>
              && c.value.kind == Section && c.value.html == el.markup
              && c.value.styles == [] && c.value.confidence == 6
  {
    if el.markup != "" && el.markup !in taken && Meta.Utf16Length(Trim(el.text)) > 50 then
      RelatedStylesOfEmpty(el.classAttr, el.id);
      SectionConfidence(el);
      CreateComponent(el, Section, "")
    else None
  }

  /**
   * `identifyOtherSections`: the leftover sections of the selected elements, in
   * selection order. The taken set stays as given, so equal markup selected
   * twice yields two sections.
   */
  function Leftovers(doc: seq<Element>, indices: seq<nat>, taken: set<string>): (cs: seq<Component>)
    requires forall k :: 0 <= k < |indices| ==> indices[k] < |doc|
  {
    Somes(LeftoverCandidates(doc, indices, taken))
  }

  /** The options the leftover pass collects, one per selected element. */
  function LeftoverCandidates(doc: seq<Element>, indices: seq<nat>, taken: set<string>): (os: seq<Option<Component>>)
    requires forall k :: 0 <= k < |indices| ==> indices[k] < |doc|
    ensures |os| == |indices|
    ensures forall k :: 0 <= k < |indices| ==> os[k] == Leftover(doc[indices[k]], taken)
  {
    seq(|indices|, k requires 0 <= k < |indices| => Leftover(doc[indices[k]], taken))
  }

  /** Each leftover section is an unstyled section at confidence 0.6 whose markup is not taken. */
  lemma LeftoverShape(doc: seq<Element>, indices: seq<nat>, taken: set<string>)
    requires forall k :: 0 <= k < |indices| ==> indices[k] < |doc|
    ensures |Leftovers(doc, indices, taken)| <= |indices|
    ensures forall c :: c in Leftovers(doc, indices, taken) ==>
              c.kind == Section && c.styles == [] && c.confidence == 6 && c.html !in taken
  {
    var os := LeftoverCandidates(doc, indices, taken);
    assert Leftovers(doc, indices, taken) == Somes(os);
    SomesAreSections(os, taken);
  }

  lemma SomesAreSections(os: seq<Option<Component>>, taken: set<string>)
    requires forall k :: 0 <= k < |os| && os[k].Some? ==>
      os[k].value.kind == Section && os[k].value.styles == [] && os[k].value.confidence == 6 && os[k].value.html !in taken
    ensures forall c :: c in Somes(os) ==> c.kind == Section && c.styles == [] && c.confidence == 6 && c.html !in taken
  {
    forall c | c in Somes(os) ensures c.kind == Section && c.styles == [] && c.confidence == 6 && c.html !in taken {
      var k :| 0 <= k < |os| && os[k] == Some(c);
    }
  }

  /** Every selected element that qualifies becomes a leftover section. */
  lemma LeftoverComplete(doc: seq<Element>, indices: seq<nat>, taken: set<string>)
    requires forall k :: 0 <= k < |indices| ==> indices[k] < |doc|
    ensures forall k :: 0 <= k < |indices| && Leftover(doc[indices[k]], taken).Some? ==>
              Leftover(doc[indices[k]], taken).value in Leftovers(doc, indices, taken)
  {
    assert Leftovers(doc, indices, taken) == Somes(LeftoverCandidates(doc, indices, taken));
  }

  /** The leftover sections come out in selection order, repeats included. */
  lemma LeftoversInOrder(doc: seq<Element>, indices: seq<nat>, taken: set<string>)
    requires forall k :: 0 <= k < |indices| ==> indices[k] < |doc|
    ensures var ps := Positions(Present(LeftoverCandidates(doc, indices, taken)));
              var cs := Leftovers(doc, indices, taken);
              |cs| == |ps| && forall k :: 0 <= k < |ps| ==> cs[k] == Leftover(doc[indices[ps[k]]], taken).value
  {
    assert Leftovers(doc, indices, taken) == Somes(LeftoverCandidates(doc, indices, taken));
  }

  function Markups(cs: seq<Component>): set<string> {
    set c | c in cs :: c.html
  }

  /** Typed candidates come first; the sections after them have markup no typed candidate has. */
  predicate GroupedAt(cs: seq<Component>, n: int) {
    && 0 <= n <= |cs|
    && (forall k :: 0 <= k < n ==> cs[k].kind in TypedOrder)
    && (forall k :: n <= k < |cs| ==> cs[k].kind == Section && cs[k].html !in Markups(cs[..n]))
  }

  /** The identification order lists the types by rank, each once. */
  lemma TypedOrderRanked()
    ensures StrictlyRanked(TypedOrder)
  {
    forall i | 0 <= i < |TypedOrder| ensures Rank(TypedOrder[i]) == i { }
  }

  /** `identifyComponents`: typed candidates in type order, then leftover sections. */
  function IdentifyComponents(doc: seq<Element>, matches: Matcher, css: string): seq<Component> {
    TypedOrderRanked();
    var typed := AllTyped(doc, matches, TypedOrder, css);
    typed + Leftovers(doc, Select(doc, matches, OtherSectionsSelector, 0), Markups(typed))
  }

  /** Leftover sections rank after every typed candidate. */
  lemma TypedThenLeftoversSorted(typed: seq<Component>, others: seq<Component>)
    requires RankSorted(typed)
    requires forall c :: c in others ==> c.kind == Section
    ensures RankSorted(typed + others)
  {
    forall j, l | 0 <= j < l < |others| ensures Rank(others[j].kind) <= Rank(others[l].kind) {
      assert others[j] in others && others[l] in others;
    }
    RankSortedConcat(typed, others, 6);
  }

  /** The output is grouped by type in identification order, leftover sections last. */
  lemma IdentifyComponentsSorted(doc: seq<Element>, matches: Matcher, css: string)
    ensures RankSorted(IdentifyComponents(doc, matches, css))
  {
    TypedOrderRanked();
    var typed := AllTyped(doc, matches, TypedOrder, css);
    var selected := Select(doc, matches, OtherSectionsSelector, 0);
    var others := Leftovers(doc, selected, Markups(typed));
    LeftoverShape(doc, selected, Markups(typed));
    TypedThenLeftoversSorted(typed, others);
  }

  /** Typed candidates come first, and no leftover section repeats the markup of one. */
  lemma IdentifyComponentsGrouped(doc: seq<Element>, matches: Matcher, css: string)
    ensures exists n :: GroupedAt(IdentifyComponents(doc, matches, css), n)
  {
    TypedOrderRanked();
    var typed := AllTyped(doc, matches, TypedOrder, css);
    var selected := Select(doc, matches, OtherSectionsSelector, 0);
    var others := Leftovers(doc, selected, Markups(typed));
    LeftoverShape(doc, selected, Markups(typed));
    GroupedConcat(typed, others);
    assert GroupedAt(IdentifyComponents(doc, matches, css), |typed|);
  }

  lemma GroupedConcat(typed: seq<Component>, others: seq<Component>)
    requires forall c :: c in typed ==> c.kind in TypedOrder
    requires forall c :: c in others ==> c.kind == Section && c.html !in Markups(typed)
    ensures GroupedAt(typed + others, |typed|)
  {
    var cs := typed + others;
    assert cs[..|typed|] == typed;
    forall k | 0 <= k < |typed| ensures cs[k].kind in TypedOrder {
      assert cs[k] == typed[k] && typed[k] in typed;
    }
    forall k | |typed| <= k < |cs| ensures cs[k].kind == Section && cs[k].html !in Markups(cs[..|typed|]) {
      assert cs[k] == others[k - |typed|] && others[k - |typed|] in others;
    }
  }

  /** With no style sheet text, no component carries a style rule. */
  lemma IdentifyComponentsUnstyled(doc: seq<Element>, matches: Matcher)
    ensures forall c :: c in IdentifyComponents(doc, matches, "") ==> c.styles == []
  {
    TypedOrderRanked();
    var typed := AllTyped(doc, matches, TypedOrder, "");
    var selected := Select(doc, matches, OtherSectionsSelector, 0);
    AllTypedUnstyled(doc, matches, TypedOrder);
    LeftoverShape(doc, selected, Markups(typed));
  }

  lemma {:induction false} AllTypedUnstyled(doc: seq<Element>, matches: Matcher, kinds: seq<ComponentType>)
    requires StrictlyRanked(kinds)
    ensures forall c :: c in AllTyped(doc, matches, kinds, "") ==> c.styles == []
  {
    if |kinds| > 0 {
      StrictlyRankedTail(kinds);
      AllTypedUnstyled(doc, matches, kinds[1..]);
      match FirstMatching(doc, matches, Patterns(kinds[0]))
      case None =>
      case Some(k) => BuildUnstyled(doc, Select(doc, matches, Patterns(kinds[0])[k], 0), kinds[0]);
    }
  }

  lemma BuildUnstyled(doc: seq<Element>, indices: seq<nat>, kind: ComponentType)
    requires forall k :: 0 <= k < |indices| ==> indices[k] < |doc|
    ensures forall c :: c in Build(doc, indices, kind, "") ==> c.styles == []
  {
    var os := Candidates(doc, indices, kind, "");
    assert Build(doc, indices, kind, "") == Somes(os);
    forall c: Component | c in Somes(os) ensures c.styles == [] {
      var k :| 0 <= k < |os| && os[k] == Some(c);
      CreateUnstyled(doc[indices[k]], kind, os[k]);
    }
  }

  lemma CreateUnstyled(el: Element, kind: ComponentType, o: Option<Component>)
    requires o == CreateComponent(el, kind, "") && o.Some?
    ensures o.value.styles == []
  {
    RelatedStylesOfEmpty(el.classAttr, el.id);
  }
}
