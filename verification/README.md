# agiletec: the Ready.ai → Astro sync pipeline, in Dafny

This project models the site-sync core of the agiletec repository. That core is the script that scrapes a page built with the Ready.ai builder, decides whether the page changed, and splits the page into typed sections. It then turns each section into an Astro component with UnoCSS-style comments and files everything under a scraped-data store with a rotating history. The model also covers the small helpers around it:

- the universal parser prototype;
- the error middleware and the public `create-channel` route of the Slack Connect bot;
- the `.env` guard script.

Each source file is one module:

| module | models |
|---|---|
| `Hash` | scripts/utils/hash.ts: markup and stylesheet scrubbing for fingerprints, the site fingerprint, short hashes, hash difference, history, duplicates and statistics |
| `Parser` | scripts/ready-ai/parser.ts: identification of typed sections and leftover sections, names, related style rules, props, confidence |
| `Css` | the CSS rewrites of scripts/ready-ai/converter.ts (colours, spacing, font sizes, flexbox, grid, gradients) |
| `Converter` | the rest of scripts/ready-ai/converter.ts: the HTML rewrite, the props interface and destructuring, the template fill, batch conversion, import resolution |
| `Store` | scripts/utils/file-manager.ts: save, rotate into history, load, list, clean up, record conversions, measure storage, format sizes |
| `Sync` | scripts/ready-ai/main.ts, plus `checkForChanges` and `getPreviousHash` of scripts/ready-ai/scraper.ts |
| `Universal` | vibesurfer-experiments/universal-parser.ts |
| `Contact` | slack-connect-bot/src/routes/public.ts |
| `Errors` | slack-connect-bot/src/middleware/error.ts |
| `EnvCheck` | slack-connect-bot/scripts/check-env.js |
| `Config` | the constant tables of scripts/ready-ai/config.ts |

Supporting modules:

| module | provides |
|---|---|
| `Meta` | the `JSON.stringify(…, null, 2)` layout of the capture record and its reading back |
| `Time` | UTC instants, `toISOString` and the history folder names |
| `Strings` | the JavaScript string operations the code uses |
| `Dicts` | insertion-ordered JavaScript objects |
| `Common` | `Option` and `Result` |

Everything the program gets from outside becomes a parameter of the operation that uses it:

- the MD5 implementation;
- the HTML library's reading of a page and its selector engine;
- the component serialiser;
- the clock;
- the two scrapes;
- the Slack and secret-store replies.

The file system is a value: a `Store` of four directories. A sync run is a pure function from the store, the flags and such a `World` to the store it leaves, the trace of the steps it took and its exit code.

Where the code and its design notes disagree, the model follows the code:

- The scrubbers delete white space rather than collapse it. The `pattern === /\s+/g` test compares two distinct regular-expression objects, so it is always false (hash.ts:91, 124).
- The change check compares MD5 digests of the raw markup and styles (scraper.ts:72-75). It does not use the scrubbed site fingerprint of hash.ts.
- The grid table's `gap: 20px` entry never fires (`Css.GapTwentyNeverReachesGrid`).

The places where the code is evidently wrong are logged under "## Findings". Both the as-written and the corrected behaviour are modelled. The pipeline uses the corrected one.

## Model

| member | source | states |
|---|---|---|
| Hash.CleanHtml | scripts/utils/hash.ts:73-103 | the scrubbed markup holds no white space but plain spaces, and none at either end |
| Hash.CleanHtmlFixpoint | scripts/utils/hash.ts:77-102 | markup without white space, without `&` and without any removal pattern is already clean |
| Hash.CleanHtmlIgnoresSpace | scripts/utils/hash.ts:87-91 | white space is deleted, not collapsed: pattern-free markups that differ only in white space scrub alike |
| Hash.CleanHtmlDeletesInnerSpace | scripts/utils/hash.ts:87-91 | `a b` and `ab` scrub to the same `ab` |
| Hash.CleanHtmlDropsReadyData | scripts/utils/hash.ts:79 | a `data-ready-…="…"` attribute inserted anywhere leaves no trace in the scrubbed markup |
| Hash.CleanHtmlDropsNumericId | scripts/utils/hash.ts:81 | an `id` whose value holds ten or more digits in a row leaves no trace |
| Hash.CleanHtmlDropsTransform | scripts/utils/hash.ts:83 | a `style` mentioning `transform`, in any letter case, leaves no trace |
| Hash.CleanHtmlDropsComment | scripts/utils/hash.ts:85 | a markup comment leaves no trace |
| Hash.DecodeEntitiesInSequence | scripts/utils/hash.ts:95-100 | entities are decoded one kind after another: `&amp;lt;` becomes `<` while `&amp;nbsp;` stays `&nbsp;` |
| Hash.Apply | scripts/utils/hash.ts:90-92 | applied to text without white space, a global removal pattern gives text without white space |
| Hash.ApplyDropsMatch | scripts/utils/hash.ts:90-92 | a match of a global pattern, inserted where nothing reaches across it, is removed whole |
| Hash.ApplyInert | scripts/utils/hash.ts:90-92 | a pattern that matches nowhere leaves the text as it is |
| Hash.CleanCss | scripts/utils/hash.ts:108-142 | the scrubbed styles hold no white space |
| Hash.CleanCssFixpoint | scripts/utils/hash.ts:112-141 | styles without white space and without any pattern are already clean |
| Hash.CleanCssIgnoresSpace | scripts/utils/hash.ts:120-125 | styles free of the removal patterns that differ only in white space scrub alike |
| Hash.CleanCssDropsComment | scripts/utils/hash.ts:114 | a stylesheet comment leaves no trace |
| Hash.CleanCssDropsSemicolon | scripts/utils/hash.ts:139 | between text that no other step touches, `;}` becomes `}` and nothing else changes |
| Hash.CleanCssExpandsShortHex | scripts/utils/hash.ts:130-134 | `#abc` becomes `#aabbcc`, lower-cased |
| Hash.CleanCssExpandsShortHexInContext | scripts/utils/hash.ts:130-134 | a three-digit colour at a word boundary is doubled and lower-cased in any surrounding text |
| Hash.SiteHash | scripts/utils/hash.ts:24-30 | the site fingerprint is a 32-character digest |
| Hash.SiteHashByCleanText | scripts/utils/hash.ts:24-30 | the fingerprint depends on the input only through the scrubbed markup followed by the scrubbed styles |
| Hash.SiteHashIgnoresSpace | scripts/utils/hash.ts:24-30 | re-indenting pattern-free markup keeps the fingerprint |
| Hash.SiteHashIgnoresReadyData | scripts/utils/hash.ts:24-30 | inserting a Ready.ai data attribute keeps the fingerprint |
| Hash.SiteHashIgnoresNumericId | scripts/utils/hash.ts:24-30 | inserting a timestamp id keeps the fingerprint |
| Hash.SiteHashIgnoresTransform | scripts/utils/hash.ts:24-30 | inserting a transform style keeps the fingerprint |
| Hash.SiteHashIgnoresComment | scripts/utils/hash.ts:24-30 | inserting a markup comment keeps the fingerprint |
| Hash.SiteHashIgnoresCssComment | scripts/utils/hash.ts:24-30 | inserting a stylesheet comment keeps the fingerprint |
| Hash.ChangeHash | scripts/ready-ai/scraper.ts:72-75 | the change fingerprint is a 32-character digest of the raw markup and styles |
| Hash.ShortHash | scripts/utils/hash.ts:147-149 | a prefix of the hash whose length is the requested one, clamped to between 0 and the hash's length |
| Hash.MismatchCountIsSetSize | scripts/utils/hash.ts:164-171 | the loop counts exactly the positions below the shorter length where the hashes differ |
| Hash.RoundedPercent | scripts/utils/hash.ts:173 | the nearest whole percentage, a half rounding up, never above 100 |
| Hash.HashDifference | scripts/utils/hash.ts:154-175 | not comparable exactly when a hash is missing or empty; unchanged exactly when they are equal; otherwise the rounded share of differing positions |
| Hash.ProperPrefixReportsZero | scripts/utils/hash.ts:165-173 | a hash that is a proper prefix of the other is reported as 0% different |
| Hash.CompareWithPrevious | scripts/utils/hash.ts:35-67 | a change is reported exactly when loading failed or the previous hash differs from the current one; a failed load reports no previous hash |
| Hash.HashHistory | scripts/utils/hash.ts:180-220 | the current capture first when it loads, then exactly the loading folders among the first `limit`, in list order; folders past the limit never appear |
| Hash.LoadedEntries | scripts/utils/hash.ts:190-201 | one entry per folder whose capture loads, with the hash it loads, in the folders' order |
| Hash.IsDuplicateHash | scripts/utils/hash.ts:180-237 | true exactly when the hash is the current capture's or that of one of the first 50 history folders |
| Hash.HistoryHolds | scripts/utils/hash.ts:180-237 | some entry of a history carries a hash exactly when the current capture or a loading folder within the limit does |
| Hash.HashStatistics | scripts/utils/hash.ts:242-279 | totals, unique count and duplicates; the most recent change is the timestamp just before the first adjacent pair with different hashes, and is absent exactly when there is none |
| Parser.TagOfTextKey | scripts/ready-ai/converter.ts:138-144 | the converter reads back the tag the parser put into a text key |
| Parser.TextKeyInjective | scripts/ready-ai/parser.ts:237 | text keys of different tags or indices differ |
| Parser.ExtractProps | scripts/ready-ai/parser.ts:222-298 | a prop group exists exactly when its selection is non-empty, and holds the non-empty assignments of that selection |
| Parser.TextProps | scripts/ready-ai/parser.ts:227-244 | a text entry exists exactly when the element at that index has non-empty trimmed text; keys are distinct |
| Parser.ImageProps | scripts/ready-ai/parser.ts:247-267 | `image<i>` exactly when the src is non-empty; `image<i>Alt` exactly when both the src and the alt are |
| Parser.LinkProps | scripts/ready-ai/parser.ts:270-290 | `link<i>` exactly when the href is non-empty; `link<i>Text` exactly when the href and the trimmed text are |
| Parser.LooseImages | scripts/ready-ai/parser.ts:227-252 | exactly the images outside the element's text elements, the ones the image search still reaches |
| Parser.ExtractPropsAsWritten | scripts/ready-ai/parser.ts:222-298 | as the program runs: the intended text group, images only from outside text elements, and never a link group |
| Parser.ComponentName | scripts/ready-ai/parser.ts:142-174 | the name is the type's base name followed only by ASCII letters and digits |
| Parser.ComponentNameChoice | scripts/ready-ai/parser.ts:142-174 | the filtered id wins; otherwise the filtered first class token; otherwise the bare base name |
| Parser.HeroHeroName | scripts/ready-ai/parser.ts:142-174 | a hero `section` with class `hero` and no id is named `HeroHero` |
| Parser.ClosedRules | scripts/ready-ai/parser.ts:188-214 | one rule per closing line |
| Parser.ScanLinesState | scripts/ready-ai/parser.ts:185-214 | after any prefix of the stylesheet, the loop's state equals the loop-free description: open rule, open flag, and the kept closed rules |
| Parser.RelatedStyles | scripts/ready-ai/parser.ts:179-217 | the related styles are the trimmed closed rules that mention a class token or the id, in closing order |
| Parser.RelatedMembers | scripts/ready-ai/parser.ts:200-206 | a style is kept exactly when some closed rule mentions a class token or the id and trims to it |
| Parser.RelatedStylesOfEmpty | scripts/ready-ai/parser.ts:179-217 | an empty stylesheet gives no styles |
| Parser.OneLineRuleIsDropped | scripts/ready-ai/parser.ts:191-199 | a rule written on one line is opened but never closed, so it is never kept |
| Parser.KeywordHits | scripts/ready-ai/parser.ts:322-330 | at most one hit per keyword |
| Parser.Confidence | scripts/ready-ai/parser.ts:303-353 | between 0.5 and 1.0; exactly 0.5 when no bonus applies; at least 0.8 for the type's semantic tag |
| Parser.SectionConfidence | scripts/ready-ai/parser.ts:344-376 | a leftover section with more than 10 UTF-16 units of text scores exactly 0.6 |
| Parser.ConfidenceAsWritten | scripts/ready-ai/parser.ts:116-119 | as the program scores after extraction: the tag, keyword and loose-text bonuses only, capped at 1.0 |
| Parser.ConfidenceAsWrittenIgnoresMedia | scripts/ready-ai/parser.ts:343-350 | as written, the score does not depend on the element's images, links or text inside text elements |
| Parser.SectionConfidenceAsWritten | scripts/ready-ai/parser.ts:343-376 | as written, a leftover whose loose text has at most 10 units scores 0.5 |
| Parser.CreateComponent | scripts/ready-ai/parser.ts:96-137 | nothing exactly for blank markup; otherwise the component of that type and markup, with its name, related styles, props and a confidence between 0.5 and 1.0 |
| Parser.CreateComponentAsWritten | scripts/ready-ai/parser.ts:96-137 | as the program runs on an untouched element: the intended component with the as-written props and confidence |
| Parser.HeaderLinkLost | scripts/ready-ai/parser.ts:227-290 | on `<header><a href="/">Home</a></header>` the intended props hold the link and score 0.9; as written there is no link group and the score is 0.8 |
| Parser.HeaderLinkBonusLost | scripts/ready-ai/parser.ts:303-350 | a header with a link, no keyword and little text scores 0.9 as intended and 0.8 as written |
| Parser.Select | scripts/ready-ai/parser.ts:68 | exactly the matching document indices, in increasing order |
| Parser.BuildComplete | scripts/ready-ai/parser.ts:71-78 | every selected element with non-blank markup becomes a candidate; with no blank element there is exactly one candidate per element |
| Parser.BuildInOrder | scripts/ready-ai/parser.ts:71-78 | the candidates of one selector are the selected elements' components in document order, one per non-blank position, repeats included |
| Common.Somes | scripts/ready-ai/parser.ts:71-78 | the pushed values are exactly the present ones, one per present position and in increasing position order |
| Parser.TypedComponentsComplete | scripts/ready-ai/parser.ts:66-84 | every non-blank element picked by the first selector of the type that selects anything becomes a candidate of that type |
| Parser.Leftover | scripts/ready-ai/parser.ts:358-383 | a leftover section exactly for non-blank, untaken markup with more than 50 UTF-16 units of trimmed text; it is an unstyled section at 0.6 |
| Parser.LeftoverShape | scripts/ready-ai/parser.ts:358-383 | every leftover is an unstyled section at 0.6 whose markup no typed candidate took |
| Parser.LeftoverComplete | scripts/ready-ai/parser.ts:358-383 | every qualifying element becomes a leftover section |
| Parser.LeftoversInOrder | scripts/ready-ai/parser.ts:364-379 | the leftover sections are the qualifying selected elements' sections in selection order, one per qualifying position, repeats included |
| Parser.IdentifyComponentsSorted | scripts/ready-ai/parser.ts:62-91 | the output is grouped by type in table order, leftover sections last |
| Parser.IdentifyComponentsGrouped | scripts/ready-ai/parser.ts:62-91 | typed candidates come first, and no leftover repeats the markup of one |
| Parser.IdentifyComponentsUnstyled | scripts/ready-ai/parser.ts:62-91 | without stylesheet text no component carries a style rule |
| Css.ReplaceAllEliminates | scripts/ready-ai/converter.ts:205-206 | after a global replacement whose replacement avoids its pattern, the pattern is gone |
| Css.ReplaceEachIdempotent | scripts/ready-ai/converter.ts:205-207 | applying a self-avoiding table twice is applying it once |
| Css.FlexboxIdempotent | scripts/ready-ai/converter.ts:193-210 | the flexbox rewrite is idempotent |
| Css.GridIdempotent | scripts/ready-ai/converter.ts:215-230 | the grid rewrite is idempotent |
| Css.LowerReplaceAllFolded | scripts/ready-ai/converter.ts:157-158 | the case-insensitive replacement is the literal one on the lower-cased text |
| Css.ColorsClear | scripts/ready-ai/converter.ts:156-159 | after the colour step, no colour of the table is left in any letter case |
| Css.ColorsIdempotent | scripts/ready-ai/converter.ts:156-159 | the colour step is idempotent |
| Css.SpacingIdempotent | scripts/ready-ai/converter.ts:162-165 | the spacing step is idempotent |
| Css.FontStepSpec | scripts/ready-ai/converter.ts:168-175 | a rule without the declaration is unchanged; otherwise exactly its leftmost occurrence becomes the class comment |
| Css.MatchCallOf | scripts/ready-ai/converter.ts:237 | text of the form `background:` white space `linear-gradient(` params `)` is matched with exactly that white space and those params |
| Css.GradientDeclaration | scripts/ready-ai/converter.ts:235-257 | a gradient declaration is replaced and scanning resumes after it |
| Css.GradientInert | scripts/ready-ai/converter.ts:235-257 | without `background:` the gradient step changes nothing |
| Css.GradientSkips | scripts/ready-ai/converter.ts:239 | where no declaration starts, one character is copied and the scan moves on |
| Css.ConvertRules | scripts/ready-ai/converter.ts:152-185 | one converted rule per style, in order |
| Css.ConvertRuleInert | scripts/ready-ai/converter.ts:152-185 | a rule holding nothing any step looks for comes out unchanged |
| Css.ConvertCssInert | scripts/ready-ai/converter.ts:149-188 | inert rules come out joined by blank lines |
| Css.GapTwentyNeverReachesGrid | scripts/ready-ai/converter.ts:162-221 | by the time the grid step runs, no `gap: 20px` is left |
| Converter.ToCamelPlain | scripts/ready-ai/converter.ts:346-348 | a key without `-` or `_` is its own camelCase |
| Converter.ToCamelSeparated | scripts/ready-ai/converter.ts:346-348 | camelCase undoes kebab-case and snake_case |
| Converter.InferType | scripts/ready-ai/converter.ts:300-314 | `number`, `boolean` and `string[]` exactly for numbers, booleans and arrays; `string` otherwise |
| Converter.ToCamel | scripts/ready-ai/converter.ts:346-348 | camelCase never lengthens a key |
| Converter.DefaultLiteralAsWrittenUnterminated | scripts/ready-ai/converter.ts:332-335 | as written, a value ending in a backslash yields a literal that does not read back |
| Converter.DefaultLiteralValue | scripts/ready-ai/converter.ts:332-335 | the corrected literal reads back as exactly the prop's value |
| Converter.DefaultLiteralAgrees | scripts/ready-ai/converter.ts:332-335 | without backslashes or line breaks, the code as written already produces the corrected literal |
| Converter.DefaultValue | scripts/ready-ai/converter.ts:332-341 | a default exactly for strings, numbers and booleans; a string's default is the literal that reads back as it |
| Converter.InterfaceLineOneLine | scripts/ready-ai/converter.ts:269-273 | a member line breaks only where its key does |
| Converter.InterfaceLinesBack | scripts/ready-ai/converter.ts:262-276 | split at line breaks, the interface gives back one member line per prop, in prop order |
| Converter.DestructureItemOfString | scripts/ready-ai/converter.ts:289-292 | a string prop's destructuring item reads back its key and its value |
| Converter.FillTemplateInPlace | scripts/ready-ai/converter.ts:23-27 | when no value holds a slot marker, each lands in its own slot |
| Converter.FillTemplateFence | scripts/ready-ai/converter.ts:23-27 | whatever the values, the component opens with the front-matter fence |
| Strings.Substitution | scripts/ready-ai/converter.ts:23-27 | the replacement text `.replace` builds from a replacement string: without `$` it is the string itself |
| Strings.SubstitutionDollars | scripts/ready-ai/converter.ts:23-27 | `$$$"` expands to `$$"` |
| Strings.SubstitutionMatched | scripts/ready-ai/converter.ts:23-27 | `$&` expands to the matched text, so the slot marker is written back |
| Strings.SubstitutionLiteralPrefix | scripts/ready-ai/converter.ts:23-27 | a leading piece without `$` is copied unchanged |
| Strings.ReplacePatternLiteral | scripts/ready-ai/converter.ts:23-27 | with a replacement without `$`, the program's `.replace` is the literal first-occurrence replacement |
| Strings.ReplacePatternAt | scripts/ready-ai/converter.ts:23-27 | the leftmost occurrence gives way to the expansion, with the text before and after it as context |
| Strings.ReplacePatternAsFirst | scripts/ready-ai/converter.ts:23-27 | the program's `.replace` is the literal replacement of the expanded text |
| Converter.FillTemplateAsWrittenLiteral | scripts/ready-ai/converter.ts:23-27 | when no value holds `$`, the program's fill is the intended literal fill |
| Converter.FillTemplateAsWrittenExpands | scripts/ready-ai/converter.ts:23-27 | as written, the destructuring slot receives the expansion of the destructuring, the other values holding no `$` |
| Converter.DollarDefaultCollapses | scripts/ready-ai/converter.ts:23-27 | the page text `$$$` gives `text = "$$"` as written and `text = "$$$"` as intended, so the two fills differ |
| Converter.RewriteTextHits | scripts/ready-ai/converter.ts:76-84 | a matching element's text becomes the placeholder |
| Converter.RewriteTextsInert | scripts/ready-ai/converter.ts:76-84 | where no element matches, the text rewrite changes nothing |
| Converter.SetAttrsElements | scripts/ready-ai/converter.ts:93-117 | every selected element, at any depth, gets the attribute, and every other element keeps its attributes |
| Converter.SetAttrsText | scripts/ready-ai/converter.ts:93-117 | assigning attributes leaves all text alone |
| Converter.TextPass | scripts/ready-ai/converter.ts:70-86 | each text entry becomes a camelCase prop and its elements' text the placeholder |
| Converter.ImageEntry | scripts/ready-ai/converter.ts:89-107 | one image source becomes a prop and its `img` sources the placeholder; a non-empty alt becomes a prop and the alt placeholder; fails exactly on a quoted value holding `"` |
| Converter.ImagePass | scripts/ready-ai/converter.ts:89-107 | the image group, source by source, with the same failure condition |
| Converter.LinkPass | scripts/ready-ai/converter.ts:110-120 | each link target becomes a prop and its `a` targets the placeholder |
| Converter.ConvertHtml | scripts/ready-ai/converter.ts:62-133 | fails exactly when a quoted selector value holds `"`; otherwise the props are the assignments in group order and the document is the one the edits produce |
| Converter.ConvertHtmlPropValues | scripts/ready-ai/converter.ts:62-133 | last writer wins: each prop holds the value of the last assignment to its key |
| Converter.ConvertHtmlKeepsTextWithoutTextProps | scripts/ready-ai/converter.ts:89-120 | without text props only attributes change: the document's text is unchanged |
| Converter.ConvertComponent | scripts/ready-ai/converter.ts:9-57 | success exactly when no selector value holds `"`, with converted styles and a fenced component; on failure empty text and the error; the filename is always the component's name |
| Converter.ConvertComponentInPlace | scripts/ready-ai/converter.ts:14-41 | a converted component is the template with the interface, destructuring, markup and styles in their slots |
| Converter.ConvertAll | scripts/ready-ai/converter.ts:353-369 | one result per component, in order |
| Converter.ConvertAllSucceeds | scripts/ready-ai/converter.ts:353-369 | with no quote in any selector value, every component succeeds |
| Converter.ResolveDependencies | scripts/ready-ai/converter.ts:374-400 | only the component text of successes changes; failures come back as they were |
| Converter.ResolveKeepsSuccessCount | scripts/ready-ai/converter.ts:374-400 | resolution keeps the number of successes |
| Converter.ResolveDependenciesSpec | scripts/ready-ai/converter.ts:374-400 | a fenced success gains exactly the imports of the other successes it uses, the last found first, right after the fence |
| Converter.AddImportsSpec | scripts/ready-ai/converter.ts:382-393 | after the fence and ahead of the existing text go the imports of every other successful result whose component the text uses, the last one found first |
| Converter.AddImportsAfterFence | scripts/ready-ai/converter.ts:389-390 | the imports land right after the fence |
| Meta.Utf16Length | scripts/utils/file-manager.ts:47-48 | `.length` counts UTF-16 units: between one and two per character |
| Meta.Utf16LengthBmp | scripts/utils/file-manager.ts:47-48 | the unit count equals the character count exactly for Basic Multilingual Plane text |
| Meta.ReadCharsEscape | scripts/utils/file-manager.ts:43-49 | a string literal as `JSON.stringify` writes it reads back as the string |
| Meta.DecodeEncode | scripts/utils/file-manager.ts:43-49 | parsing the record text a save writes gives back the record |
| Time.ParseIsoString | scripts/utils/file-manager.ts:219 | `new Date(t.toISOString())` is `t` |
| Time.IsoString | scripts/utils/file-manager.ts:44 | `toISOString` of a date in years 0 to 9999 is 24 characters |
| Time.ParseIso | scripts/utils/file-manager.ts:219 | whatever the reading of a text yields is a valid date |
| Time.FolderName | scripts/utils/file-manager.ts:86-87 | a folder name is 24 characters with no `:` or `.` |
| Time.FolderNameOrder | scripts/utils/file-manager.ts:86-87 | folder names sort as strings exactly as their instants sort in time |
| Time.FolderDateOfName | scripts/utils/file-manager.ts:86-87 | the intended name-to-date step reads a folder name back as its instant |
| Time.RestoreAsWritten | scripts/utils/file-manager.ts:274 | as written, the reconstruction keeps the length and leaves no `-` |
| Time.RestoreAsWrittenNeverParses | scripts/utils/file-manager.ts:274-275 | as written, the reconstructed text is never a valid ISO date |
| Time.MillisOrder | scripts/utils/file-manager.ts:277 | comparing dates by milliseconds is comparing them in time |
| Store.MetadataOf | scripts/utils/file-manager.ts:43-49 | the timestamp reads back as the capture's instant; the URL and hash are the capture's; the sizes are the UTF-16 lengths of the HTML and CSS |
| Store.CurrentFolder | scripts/utils/file-manager.ts:82-87 | a folder only when `current` holds a record; its name is 24 characters |
| Store.Rotate | scripts/utils/file-manager.ts:72-117 | only `current` and `history` change; without a readable record nothing changes |
| Store.ArchiveMoves | scripts/utils/file-manager.ts:94-105 | each capture file moves into the folder, `current` keeps its other files, and no other history entry changes |
| Store.RotateOtherFolders | scripts/utils/file-manager.ts:72-117 | every history entry but the capture's own folder stays as it was |
| Store.SaveScrapedData | scripts/utils/file-manager.ts:10-67 | the history is the rotated one; the processed and component folders are untouched |
| Store.SaveGet | scripts/utils/file-manager.ts:25-52 | after a save `current` holds the page, the styles, the hash and the encoded record, and nothing else in it changed |
| Store.SavedFolder | scripts/utils/file-manager.ts:43-87 | the record a save writes names the folder its capture will be rotated into |
| Store.LoadScrapedData | scripts/utils/file-manager.ts:193-230 | a named folder that is missing loads nothing; the latest capture loads only when `current` has a record |
| Store.LoadAfterSave | scripts/utils/file-manager.ts:193-230 | loading right after a save gives back the capture, its hash trimmed |
| Store.LoadArchived | scripts/utils/file-manager.ts:72-230 | after the next save, the previous capture loads from its history folder |
| Store.SaveTwice | scripts/utils/file-manager.ts:10-117 | two saves in a row keep the first capture loadable by its folder name |
| Store.HistoryList | scripts/utils/file-manager.ts:235-258 | a descending rearrangement of the folder names |
| Store.HistoryListMember | scripts/utils/file-manager.ts:241-246 | every history folder is listed once, and nothing else |
| Store.HistoryNewestFirst | scripts/utils/file-manager.ts:245-246 | folders named after instants are listed newest first |
| Store.ExpiredFolderName | scripts/utils/file-manager.ts:274-277 | with the intended age test, a folder named after `t` is expired exactly when `t` is before the cutoff |
| Store.PruneGet | scripts/utils/file-manager.ts:271-289 | a picked folder is gone after pruning; every other entry stays as it was |
| Store.PruneCount | scripts/utils/file-manager.ts:269-296 | the count returned is the number of folders that went |
| Store.Cleanup | scripts/utils/file-manager.ts:263-304 | the corrected cleanup touches only the history |
| Store.CleanupEffect | scripts/utils/file-manager.ts:263-304 | corrected: a history entry goes exactly when it is an expired, removable folder; the count is the number that went |
| Store.CleanupAsWritten | scripts/utils/file-manager.ts:263-304 | cleanup as written touches only the history |
| Store.CleanupAsWrittenKeepsAll | scripts/utils/file-manager.ts:274-277 | as written, a history of program-named folders loses nothing, and zero is reported |
| Store.CleanupAsWrittenMissesOldFolder | scripts/utils/file-manager.ts:274-277 | a folder older than the retention period is deleted by the corrected cleanup and kept by the written one |
| Store.SaveConversionResult | scripts/utils/file-manager.ts:122-174 | `current` and `history` are untouched; a failed conversion leaves the components alone |
| Store.SaveConversionResultGet | scripts/utils/file-manager.ts:134-158 | the processed record holds the text; the component file exactly on success; the style file on success with styles; nothing else changes |
| Store.Utf8Length | scripts/utils/file-manager.ts:365-387 | a file takes one to four bytes per character |
| Store.StorageUsage | scripts/utils/file-manager.ts:325-360 | the total is the sum of the three directory sizes |
| Store.RotateKeepsBytes | scripts/utils/file-manager.ts:72-117 | rotation into a new folder loses no bytes |
| Store.UnitFor | scripts/utils/file-manager.ts:310-317 | the largest unit up to gigabytes that the size reaches |
| Store.Tenths | scripts/utils/file-manager.ts:319 | the nearest tenth of the scaled size, a tie going up |
| Store.FormatFileSize | scripts/utils/file-manager.ts:309-320 | the rounded size in its unit, then a space and the unit's name |
| Sync.Capture | scripts/ready-ai/scraper.ts:72-83 | the capture carries the page, the styles, the scrape time, the configured address and a digest |
| Sync.PreviousHash | scripts/ready-ai/scraper.ts:155-178 | a previous hash exactly when `current` has `hash.txt` |
| Sync.CheckForChanges | scripts/ready-ai/scraper.ts:118-150 | fails exactly when the scrape fails; otherwise the capture is saved, and a change is reported exactly when the saved hash differs from the new one |
| Sync.CheckFirstRun | scripts/ready-ai/scraper.ts:118-150 | a store never written reports a change |
| Sync.CheckAgainUnchanged | scripts/ready-ai/scraper.ts:118-150 | checking again against the same markup and styles reports no change |
| Sync.CheckAgainChanged | scripts/ready-ai/scraper.ts:118-150 | a page with a different fingerprint reports a change |
| Sync.SaveAll | scripts/ready-ai/main.ts:104-108 | saving the successes touches neither `current` nor `history` |
| Sync.SaveAllWritten | scripts/ready-ai/main.ts:104-108 | with distinct names, each success's component file holds its text |
| Sync.SaveAllUntouched | scripts/ready-ai/main.ts:104-108 | a component file no result is named after keeps its content |
| Sync.MaybeCleanup | scripts/ready-ai/main.ts:132-137 | a cleanup count exactly when cleanup is not skipped; only the history can change |
| Sync.Process | scripts/ready-ai/main.ts:70-137 | processing starts by parsing, exits 0 and leaves `current` alone |
| Sync.Main | scripts/ready-ai/main.ts:15-155 | a run starts by measuring storage and exits with 0 or 1 |
| Sync.MainCheckFails | scripts/ready-ai/main.ts:51-154 | a failed check leaves the store alone, records only the measurement, and exits 1 |
| Sync.MainStopsAfterCheck | scripts/ready-ai/main.ts:53-59 | without a change and without `--force-sync`, the run stops after the first scrape |
| Sync.MainExit | scripts/ready-ai/main.ts:146-154 | exit 1 exactly when a scrape the run attempted failed |
| Sync.MainScrapes | scripts/ready-ai/main.ts:51-67 | zero, one or two scrapes, as the check and the sync decide |
| Sync.MainCounts | scripts/ready-ai/main.ts:70-137 | one parse exactly when the run syncs; one conversion and one resolution exactly when it also finds components outside a dry run; one save per success; one cleanup unless skipped |
| Sync.MainOrder | scripts/ready-ai/main.ts:70-137 | parse before conversion before resolution before every save before cleanup |
| Sync.MainKeepsCapture | scripts/ready-ai/main.ts:53-59 | a run that stops after the check leaves its capture as the latest |
| Sync.MainLoadsLatest | scripts/ready-ai/main.ts:67 | a run that syncs leaves the second capture as the latest |
| Sync.MainArchivesFirst | scripts/ready-ai/main.ts:51-67 | a run that syncs without cleaning up keeps the first capture loadable from its history folder |
| Sync.MainWritesComponents | scripts/ready-ai/main.ts:98-108 | a converting run leaves each success, under a distinct name, in the components folder |
| Sync.MainNoConversion | scripts/ready-ai/main.ts:72-95 | a run that does not convert leaves the component and processed folders alone |
| Sync.WiredResults | scripts/ready-ai/main.ts:70-101 | over the real stages, the components are those identified in the second capture, and resolution keeps the success count |
| Sync.MainSavesEveryComponent | scripts/ready-ai/main.ts:98-108 | over the real stages, with no quote in any selector value, every component is saved |
| Universal.AnalyzeAccessibility | vibesurfer-experiments/universal-parser.ts:108-129 | an issue for missing `alt=` and for missing `aria-`, exactly then and in that order; score 100 minus the penalties; one suggestion per issue |
| Universal.AccessibilityScores | vibesurfer-experiments/universal-parser.ts:108-129 | the score is 100, 85, 80 or 65, exactly as the two attributes are present |
| Universal.AnalyzePerformance | vibesurfer-experiments/universal-parser.ts:131-146 | bundle size in UTF-16 units; score 100 up to 5000, 85 up to 10000, 55 beyond; render time the bundle size over 1000 |
| Universal.PerformanceMonotone | vibesurfer-experiments/universal-parser.ts:131-146 | a bigger bundle never scores better and never has a shorter render time |
| Universal.Enrich | vibesurfer-experiments/universal-parser.ts:93-106 | the source becomes the tool and both scores are computed; nothing else changes |
| Universal.EnrichIdempotent | vibesurfer-experiments/universal-parser.ts:93-106 | enriching twice is enriching once |
| Universal.ComponentIdInjective | vibesurfer-experiments/universal-parser.ts:199 | an identifier determines its clock reading and its index |
| Universal.ReadyAiComponents | vibesurfer-experiments/universal-parser.ts:198-217 | one universal component per section, in order |
| Universal.Parse | vibesurfer-experiments/universal-parser.ts:69-77 | an unregistered tool fails with its name; v0, Bolt and Cursor give nothing; Ready.ai gives one enriched component per section |
| Universal.ParseReadyAi | vibesurfer-experiments/universal-parser.ts:190-217 | with the section parser in place, one component per identified section, without styles |
| Universal.ParseIdsDistinct | vibesurfer-experiments/universal-parser.ts:198-199 | the components of one parse have distinct identifiers |
| Universal.ParseUnstyled | vibesurfer-experiments/universal-parser.ts:205 | sections without style rules give components without style text |
| Universal.PropsInterface | vibesurfer-experiments/universal-parser.ts:353-358 | empty exactly without TypeScript or without props |
| Universal.PropsInterfaceLines | vibesurfer-experiments/universal-parser.ts:353-358 | split at line breaks, the interface is its opening line, one declaration per key in order, and the closing brace |
| Universal.ReactMarkupReversible | vibesurfer-experiments/universal-parser.ts:335 | markup that never says `className=` is restored by the reverse rewrite |
| Universal.GenerateReact | vibesurfer-experiments/universal-parser.ts:328-338 | exactly the interface when typed, the function header with `props: Props` or `props`, the `return (` line, then the rewritten markup and the closing lines |
| Universal.GenerateAstro | vibesurfer-experiments/universal-parser.ts:340-351 | exactly the front matter with the interface and the `const { keys } = Astro.props;` line, then the markup verbatim |
| Universal.GenerateComponent | vibesurfer-experiments/universal-parser.ts:304-326 | React and Astro files named after the component; any other framework fails with its name |
| Universal.GenerateAll | vibesurfer-experiments/universal-parser.ts:270-273 | one file per component, in order, failing exactly when there is a component and the framework cannot be emitted |
| Universal.Export | vibesurfer-experiments/universal-parser.ts:262-302 | fails exactly with components and a framework it cannot emit; otherwise one file per component in order, the framework's and the styling's packages, and no instructions |
| Universal.ExportPathsDistinct | vibesurfer-experiments/universal-parser.ts:321-325 | components with distinct names get distinct paths |
| Universal.ExportNamesFramework | vibesurfer-experiments/universal-parser.ts:276-289 | the packages name the framework exactly for React, Vue, Astro and Svelte |
| Contact.DateStampShape | slack-connect-bot/src/routes/public.ts:64 | the date stamp is eight digits |
| Contact.DateStamp | slack-connect-bot/src/routes/public.ts:64 | the date part of the ISO string without its dashes is the zero-padded year, month and day |
| Contact.CompanyPart | slack-connect-bot/src/routes/public.ts:65-67 | `guest` without a company; otherwise the first 20 of the allowed characters, or all of them when fewer survive |
| Contact.ChannelNameParts | slack-connect-bot/src/routes/public.ts:68-70 | the name is `connect-`, the company part's ASCII letters and digits lower-cased, `-` and the date; the 80 cut never applies |
| Contact.ChannelNameShape | slack-connect-bot/src/routes/public.ts:64-70 | the name starts with `connect-`, holds only `[a-z0-9-]` and is at most 37 characters |
| Contact.ChannelNameGuest | slack-connect-bot/src/routes/public.ts:65-68 | without a company, the guest channel of the day |
| Contact.ChannelNameDropsJapanese | slack-connect-bot/src/routes/public.ts:65-70 | a company name without ASCII letters or digits leaves an empty company part |
| Contact.ChannelNameKeepsAscii | slack-connect-bot/src/routes/public.ts:65-70 | a short ASCII company name appears lower-cased |
| Contact.TypeLabel | slack-connect-bot/src/routes/public.ts:166-176 | consultation and partnership get their labels exactly for those types; everything else is general |
| Contact.FindSecret | slack-connect-bot/src/routes/public.ts:50-51 | a value exactly when some secret has the key, and it is the value of such a secret |
| Contact.RejectsIffUnreachable | slack-connect-bot/src/routes/public.ts:37-39 | a readable request gets 400 exactly when it has no email, company or name |
| Contact.SucceedsOnlyWhenCreated | slack-connect-bot/src/routes/public.ts:30-164 | the status is 200, 400 or 500; success exactly at 200, and only with a reachable visitor, a bot token and a channel Slack created under the derived name |
| Errors.ValidationError | slack-connect-bot/src/middleware/error.ts:47-52 | the error carries its message and the validation name |
| Errors.UnauthorizedError | slack-connect-bot/src/middleware/error.ts:54-59 | default message `Unauthorized` |
| Errors.NotFoundError | slack-connect-bot/src/middleware/error.ts:61-66 | default message `Not Found` |
| Errors.HandleError | slack-connect-bot/src/middleware/error.ts:4-45 | a reply exactly when the route threw; statuses are 400, 401, 404 or 500 |
| Errors.StatusRules | slack-connect-bot/src/middleware/error.ts:15-43 | each status exactly under its rule, in the handler's order; 400 and 404 keep the message |
| Errors.NonErrorIsGeneric | slack-connect-bot/src/middleware/error.ts:39-43 | a thrown non-`Error` gets the generic 500 |
| Errors.ValidationWins | slack-connect-bot/src/middleware/error.ts:17-22 | a validation error gets 400 whatever its message |
| Errors.DefaultMessagesClassify | slack-connect-bot/src/middleware/error.ts:24-36 | the default messages of the two other classes give 401 and 404 |
| Errors.CustomMessageIsGeneric | slack-connect-bot/src/middleware/error.ts:24-36 | classes are told apart by message: without either keyword they end as 500 |
| EnvCheck.FlaggedIgnoresCase | slack-connect-bot/scripts/check-env.js:16-31 | names that differ only in letter case are flagged alike |
| EnvCheck.FlaggedHoldsEnv | slack-connect-bot/scripts/check-env.js:21-31 | every lower-cased name the rules flag holds `env` |
| EnvCheck.WithoutEnvNotFlagged | slack-connect-bot/scripts/check-env.js:21-31 | a name without `env` in any case is never flagged |
| EnvCheck.EnvrcFlagged | slack-connect-bot/scripts/check-env.js:28-31 | `.envrc` is caught by the dot-file rule |
| EnvCheck.CheckEnvScriptNotFlagged | slack-connect-bot/scripts/check-env.js:28-31 | the guard's own file is exempt |
| EnvCheck.EnvironmentSourceNotFlagged | slack-connect-bot/scripts/check-env.js:21-31 | `environment.ts` holds `env` but is not flagged |
| EnvCheck.BareCheckEnvFlagged | slack-connect-bot/scripts/check-env.js:26 | a bare `check-env` is caught by the `-env` suffix rule |
| EnvCheck.Matching | slack-connect-bot/scripts/check-env.js:13-39 | exactly the names the test accepts, each at its listing position, in listing order |
| EnvCheck.Offending | slack-connect-bot/scripts/check-env.js:13-39 | exactly the flagged names that exist, in listing order |
| EnvCheck.MatchingEmpty | slack-connect-bot/scripts/check-env.js:15-39 | nothing is found exactly when the test accepts no listed name |
| EnvCheck.OffendingEmpty | slack-connect-bot/scripts/check-env.js:15-39 | nothing is reported exactly when no listed name is both flagged and present |
| EnvCheck.Scan | slack-connect-bot/scripts/check-env.js:13-55 | the flagged names that exist, in listing order; exit 1 exactly when there is one |

## Left out

- The HTML library (cheerio) is left out. Its reading of a page (`cheerio.load`, `$.html`) and its selector engine are parameters of the operations that use them. Elements are identified by their document-order index.
- Parser.IdentifyComponents reads every component from the page as it was loaded. In the program, `cheerio.load(node)` moves each node it is given into a new document, so every extraction detaches the component's text elements and images from the page (see "## Findings"). Later components, and the leftover sections of parser.ts:358-383, then see less text, other markup and fewer props. That effect across components is not modelled.
- Parser.ExtractProps follows the intended extraction, reading every selection from the element as it stands. As written, the image pass misses images inside text elements and the link pass finds nothing; `Parser.ExtractPropsAsWritten` states that behaviour.
- Parser.TextProps holds for the first extraction from an element. A text element that an earlier component's extraction already detached is no longer found by the program.
- Parser.ImageProps counts images inside text elements, which the program's image pass no longer reaches (`Parser.LooseImages`).
- Parser.LinkProps states link props the program never writes, because its text pass detaches every `a` first.
- Parser.Confidence reads the whole text and grants the image and link bonuses. The program scores after extraction, on the loose text only and without those bonuses (`Parser.ConfidenceAsWritten`).
- Parser.SectionConfidence gives 0.6. The program gives 0.5 to a leftover whose text sits in text elements (`Parser.SectionConfidenceAsWritten`).
- Parser.CreateComponent builds the intended props and confidence. `Parser.CreateComponentAsWritten` is the program's component for an element no earlier extraction touched.
- Parser.Leftover reads the unchanged page for its 50-unit test and its score. In the program the test reads the page after the typed components' extractions, and the score reads it after the section's own.
- Parser.LeftoverShape states 0.6 for every leftover section. As written the score is 0.5 when the loose text has at most 10 units.
- `removeReadyAiElements` (scripts/ready-ai/parser.ts:39-57) is part of that opaque reading of the page, `World.load`. Its removals are not modelled separately.
- Converter.ConvertHtml: the selector engine's failure is modelled as "a quoted attribute value holds `"`". The real engine accepts some such values, such as an escaped `\"`, and reads others as a selector list that matches more elements. Its exact grammar is left out. Backslashes are part of that grammar: the engine unescapes `\` inside a quoted value and rejects a value ending in `\`, and the model treats `\` as an ordinary character. The same failure condition is stated by `Converter.ImageEntry`, `Converter.ImagePass`, `Converter.ConvertComponent` and `Converter.ConvertAllSucceeds`.
- Parser.CreateComponent: the `catch` that turns an exception into `null` (parser.ts:130-136) is not modelled, because the modelled steps never throw. The same holds for the `catch` of the Ready.ai parser in universal-parser.ts:218-221.
- MD5 is a parameter whose results are 32 characters long. Its algorithm is not modelled.
- The file system is a value of four directories. Each directory maps names to file contents, and `history` maps names to folders of files. The following are left out, because the pipeline neither creates nor reads any of them:
  - nested directories other than history folders;
  - permissions;
  - write failures;
  - directory creation.
- Store.StorageUsage: sizes are the UTF-8 byte counts of the stored texts. `stat` and the recursion of `getDirectorySize` into deeper directories are left out, together with nested directories.
- The clock is a parameter: the scrape time, and the one `now` of a run.
- Store.Cleanup: the cutoff is `now` minus `retentionDays` fixed 24-hour days. The source steps the local calendar back with `setDate` (file-manager.ts:267), which differs by an hour across a daylight-saving change. Local time zones are not modelled.
- Store.CleanupAsWritten: `new Date(text)` is modelled as strict parsing of the `toISOString` layout. The JavaScript engine also accepts other layouts, such as a bare year like `2020`. A folder with such a name would be deleted by the program once it is past retention. `Store.CleanupAsWrittenKeepsAll` is therefore stated only for histories whose folders are all named the way the program names them.
- Time.IsoString: only years 0 to 9999 are modelled. `toISOString` writes other years with a sign and six digits.
- Meta.Decode: `JSON.parse` is modelled only for the record layout that `JSON.stringify(…, null, 2)` writes. Any other text reads as "no record". A hand-edited record with other spacing or member order would load in the program but not in the model.
- Converter.FillTemplateInPlace states the intended literal fill (`Converter.FillTemplate`). The program's `.replace` calls at converter.ts:23-27 take the values as replacement strings and expand `$$`, `$&`, `` $` `` and `$'` in them (see "## Findings"). For page text `$$$` the program writes `text = "$$"` (`Converter.DollarDefaultCollapses`). The in-place text holds as written only when no value holds `$` (`Converter.FillTemplateAsWrittenLiteral`).
- Converter.ConvertComponentInPlace is stated for that intended fill too. As written, a `$` pattern in the destructuring, the markup or the styles is expanded before it lands in its slot. The expansion is stated for the destructuring alone (`Converter.FillTemplateAsWrittenExpands`). For the markup and the styles it is left out.
- The pipeline's other `.replace` calls are modelled as literal replacement. Their replacements are fixed table text, component names of letters and digits, or replacement functions. The capture patterns at file-manager.ts:274 and hash.ts:136-137 write each match back unchanged.
- Parser.Confidence: the score is held in tenths as a natural number; the source adds floats such as 0.3 and 0.1. The rounding of those float sums is not modelled.
- Converter.InferType: numbers are held as integers. Fractions, NaN and the infinities, and how `toString` writes them, are left out.
- Hash.HashDifference: the percentage is rounded exactly, a half going up. The source rounds the float `diffCount / minLength * 100`, which can fall just below a half. For 29 differences over 200 positions JavaScript gives 14 and the model 15. The two agree on 32-character digests, the only hashes the program compares.
- Converter.ToCamel: only ASCII letters are upper-cased. `toUpperCase` also maps other letters; for example the key `a-é` becomes `aÉ` in JavaScript and `aé` here. The parser's keys are ASCII.
- Strings.Lower lower-cases ASCII letters only. `toLowerCase` maps other characters too, some of them to ASCII: U+212A KELVIN SIGN becomes `k`.
- EnvCheck.Flagged uses that ASCII lower-casing. The program exempts `.chec` + U+212A + `-env.js` as `check-env`; the model flags it through its leading `.`.
- Parser.ConfidenceSum uses that ASCII lower-casing too. A class `feedbac` + U+212A earns the testimonials keyword bonus in the program but not in the model.
- Strings.LexLess compares code points, whereas `sort()` compares UTF-16 units. The two agree on the ASCII folder names `HistoryList` sorts.
- Universal.AnalyzePerformance: the render time is the exact quotient of the bundle size by 1000, not the nearest double that JavaScript's division gives.
- Store.FormatFileSize: `toFixed(1)` is modelled on the exact quotient, not on the float that `size /= 1024` produces.
- Sync.SaveAll: the successes are saved one after another, with one clock reading for the run. The source starts all saves at once with `Promise.all` (main.ts:104-108), and each save reads the clock itself (file-manager.ts:134). Two results with the same name, which the parser can produce, may therefore interleave in the program, and their `processed` stamps may differ.
- Sync.MaybeCleanup runs the corrected cleanup (`Store.Cleanup`), not the one as written. See "## Findings".
- Converter.DefaultValue writes the corrected string literal, not the quote-only escape as written. See "## Findings".
- Converter.DestructureItemOfString: its read-back holds for the corrected literal the model writes. With the program's quote-only escape it holds only for values without `\`, line feed or carriage return (`Converter.DefaultLiteralAgrees`).
- Sync.Main: a run fails only when a scrape fails. Exceptions from the file system or the HTML library inside `main` (main.ts:146-154) are not modelled. The scrape's own error messages (timeout or network) are an opaque failure.
- The scraper's browser session (puppeteer, scraper.ts:1-113) is left out. A scrape is a page or an error handed to the run.
- `analyzeComponentDependencies` (parser.ts:388-410) is not modelled, because nothing in the pipeline calls it.
- Keyframes blocks and numbered custom properties in the stylesheet scrubber are modelled as removal steps, but no lemma is stated about them.
- The two unit rewrites of hash.ts:136-137 replace each match with itself, so the model leaves them out.
- Hash.HashHistory: entries omit the `shortHash` field, which is `Hash.ShortHash` of the entry's hash at length 8.
- Hash.HashHistory and Hash.HashStatistics: the `catch` paths that log and return an empty result are not modelled, because the model's loads do not throw.
- Contact.FindSecret states that the value belongs to some secret with the key; that it is the first such secret (`find`) is in its body but not in its contract.
- The following parts of the Slack route are left out:
  - the Slack and secret-store calls: `createChannel` is a parameter, and the follow-up `fetch` calls are reduced to whether they throw;
  - the initial message text;
  - the invitation;
  - CORS.
- Logging, the `--verbose` flag, the command-line parsing, and the run duration are left out. The flags are a record.
- The command-line demonstration at the end of universal-parser.ts (lines 361-390) and the console output of check-env.js are left out.

## Findings

| source | as written | input that shows it | evidently intended | confidence | as-written member | corrected member |
|---|---|---|---|---|---|---|
| scripts/utils/file-manager.ts:274-277 | the folder name has every `-` turned into `:`. The date part becomes `2024:01:01`, `new Date` gives an Invalid Date, and the comparison is false. No folder the program made is ever deleted, and 0 is returned | a history folder `2024-01-01T00-00-00-000Z`, a cleanup with 1-day retention two days later | read the folder name back as the instant it was made from, and delete the folders older than the cutoff | not executed | Store.CleanupAsWritten, Store.CleanupAsWrittenMissesOldFolder, Store.CleanupAsWrittenKeepsAll, Time.RestoreAsWrittenNeverParses | Store.Cleanup, Store.CleanupEffect, Time.FolderDateOfName |
| scripts/ready-ai/converter.ts:332-335 | a string default escapes only `"`. A value ending in `\` gives `"a\"`, whose closing quote is escaped, and a value with a line break gives a literal broken across lines | the string prop `a\` | a literal that reads back as the prop's value, with `\`, line feed and carriage return escaped as well | not executed | Converter.DefaultLiteralAsWritten, Converter.DefaultLiteralAsWrittenUnterminated | Converter.DefaultLiteral, Converter.DefaultLiteralValue, Converter.DefaultValue |
| scripts/ready-ai/parser.ts:227-290 | each `cheerio.load(node)` moves the node into a new document, detaching it from the page. The text pass loads every `h1`–`h6`, `p`, `span` and `a` first. The image search then misses images inside them, the `a[href]` search finds nothing, and `calculateConfidence` (parser.ts:119) sees no image, no link and none of the text inside text elements | `<header><a href="/">Home</a></header>` gives the text prop `a`, no link group and confidence 0.8 | extract every image and link of the element, and score the element as it was | not executed | Parser.ExtractPropsAsWritten, Parser.LooseImages, Parser.ConfidenceAsWritten, Parser.CreateComponentAsWritten, Parser.HeaderLinkLost, Parser.SectionConfidenceAsWritten | Parser.ExtractProps, Parser.LinkProps, Parser.ImageProps, Parser.Confidence, Parser.CreateComponent |
| scripts/ready-ai/converter.ts:23-27 | the props interface, destructuring, converted markup and converted styles are passed to `.replace` as replacement strings. JavaScript expands `$$`, `$&`, `` $` `` and `$'` in them, so page text with a `$` pattern is rewritten, and `$&` writes the slot marker back | a text prop whose page text is `$$$` gives the default `text = "$$"` | insert each value as it is | not executed | Converter.FillTemplateAsWritten, Converter.FillTemplateAsWrittenExpands, Converter.DollarDefaultCollapses, Strings.ReplacePattern, Strings.Substitution | Converter.FillTemplate, Converter.FillTemplateInPlace, Converter.FillTemplateAsWrittenLiteral |
