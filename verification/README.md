# HaskellRef: a verified model of the Haskell reference component

This project models `components/HaskellRef.tsx` of the Nacre documentation
site in Dafny. The component renders reference entries for Haskell
definitions. The model covers:

- **the signature highlighter** `highlightHaskell`. It makes one left-to-right
  scan with a combined regular expression. The four alternatives are, in
  order: reserved words between word boundaries, operators, capitalised
  names, and quoted literals. The text between matches becomes plain spans.
- **`getSignature`**, which builds the one-line signature of a value,
  function, type, newtype, data declaration or type class.
- **`hasDetails`**, the header badges, and the seven gated sections of the
  details panel.
- **the per-entry `expanded` state** and the Expand/Collapse button.
- **`HaskellRefList`**: kind counts, the filter bar, toggling and clearing
  kind filters, the filtered list, and the "Showing n of m items" line.

Modules, one per file:

| file | module | what it holds |
|---|---|---|
| `options.dfy` | `Options` | optional values, and JavaScript truthiness of optional text and lists |
| `rules.dfy` | `Rules` | the four alternatives of the expression, ECMAScript `\b`, and the order in which the alternatives are tried |
| `verdicts.dfy` | `Verdicts` | what the expression matches at one position, read off the characters there |
| `tokenizer.dfy` | `Tokenizer` | the scan as a function, and the `exec` loop as a method |
| `tokenizer_spec.dfy` | `TokenizerSpec` | the tokenization predicate, its uniqueness, and the characterisation of the output |
| `tokenizer_examples.dfy` | `TokenizerExamples` | worked inputs |
| `strings.dfy` | `Strings` | `join` and its inverse |
| `defs.dfy` | `Defs` | the definition records |
| `signature.dfy` | `Signatures` | `getSignature` |
| `details.dfy` | `Details` | `hasDetails`, the badges, and the panel |
| `entry.dfy` | `Entries` | one entry and its expanded state |
| `ref_list.dfy` | `RefList` | the filterable list |

Behaviour of the code that the model follows and makes explicit:

- **The empty input is highlighted as one empty plain span.** The scan
  produces nothing, and `[code]` is returned.
- **`params: []` on a type leaves a trailing space in the signature.** The
  empty array is truthy, so `' ' + ''` is appended; an absent `params` adds
  nothing.
- **A class without parameters gets a doubled space before `where`.**
- **An entry can show an Expand button over an empty panel.** This happens
  when its only details are `since`, `deprecated`, or constructors on a
  plain `type`. `hasDetails` counts these, but the panel shows none of them.
- **`\b` treats only `[A-Za-z0-9_]` as word characters.** A capitalised name
  therefore never ends in a prime: `Foo'` highlights as `Foo`, followed by a
  plain or quoted `'`.

## Model

| member | source | states |
|---|---|---|
| Rules.FirstKeyword | components/HaskellRef.tsx:89 | The first reserved word, in the regex's order, that occurs at the position and ends at a word boundary; when there is none, every reserved word found there lacks the closing boundary. |
| Rules.KeywordIndex | components/HaskellRef.tsx:89 | The keyword alternative needs a boundary before the word and one after it; without a match, no reserved word sits between two boundaries there. |
| Rules.MatchKeyword | components/HaskellRef.tsx:89 | A keyword match is at least two characters long, lies inside the input, and is bounded by word boundaries on both sides. |
| Rules.KeywordMatchIsUnique | components/HaskellRef.tsx:89 | Any reserved word between two boundaries is the one matched, so the alternation order never lets `in` split `instance`. |
| Rules.FirstOperator | components/HaskellRef.tsx:89 | The first operator in the regex's order that occurs at the position; when there is none, no operator occurs there. |
| Rules.OperatorIndex | components/HaskellRef.tsx:89 | The operator alternative matches exactly when one of the eight operators occurs at the position. |
| Rules.MatchOperator | components/HaskellRef.tsx:89 | An operator match consumes one or two characters inside the input. |
| Rules.OperatorMatchIsUnique | components/HaskellRef.tsx:89 | No operator is a prefix of another, so the operator occurring at a position is the one matched and `->` is never split. |
| Rules.DropPrimes | components/HaskellRef.tsx:89 | Backtracking over trailing primes: everything dropped is a prime, and the kept part does not end in one. |
| Rules.TypeNameEnd | components/HaskellRef.tsx:89 | The run without its trailing primes ends at a word boundary, and no longer run ends at one: this is the backtracking point of the trailing `\b`. |
| Rules.MatchTypeName | components/HaskellRef.tsx:89 | Matches exactly at an upper-case letter after a boundary; consumes name characters up to the last word character, ends at a boundary, and no longer stretch would. |
| Rules.NextQuote | components/HaskellRef.tsx:89 | The first prime at or after the index, with no prime before it; when there is none, the rest of the input has no prime. |
| Rules.MatchQuoted | components/HaskellRef.tsx:89 | Matches exactly at a prime that has another prime after it; consumes up to and including the next prime, with no prime in between. |
| Rules.RuleMatchBounds | components/HaskellRef.tsx:89 | What any alternative consumes is non-empty and inside the input, and `Plain` never matches. |
| Rules.FirstMatch | components/HaskellRef.tsx:89 | The first alternative in the list that matches gives a non-empty, classified match inside the input. |
| Rules.RuleMatchIsShaped | components/HaskellRef.tsx:89 | Matched text has its kind's shape: a reserved word, an operator, a capitalised name without a trailing prime, or primes around prime-free text. |
| Rules.MatchAt | components/HaskellRef.tsx:89 | One `exec` attempt at a position yields a classified, non-empty match inside the input, or nothing. |
| Rules.MatchAtPriority | components/HaskellRef.tsx:89 | Keyword beats operator, operator beats type name, type name beats quoted, and the position is unmatched exactly when all four fail. |
| Rules.MatchAtIsRuleMatch | components/HaskellRef.tsx:89 | The match found at a position is exactly the winning alternative's own match. |
| Rules.MatchAtIsShaped | components/HaskellRef.tsx:97-126 | Every span the highlighter classifies has the shape of its kind. |
| Verdicts.NoKeywordAt | components/HaskellRef.tsx:89 | No keyword starts where no lower-case letter stands. |
| Verdicts.NoOperatorAt | components/HaskellRef.tsx:89 | No operator starts at a character that begins none, or at a `:`, `-`, `=` or `<` not followed by the character completing its operator, so `--`, `<>`, `:>` and `=-` start none. |
| Verdicts.OperatorAt | components/HaskellRef.tsx:89 | An operator occurring at a position is what the whole expression matches there. |
| Verdicts.KeywordAt | components/HaskellRef.tsx:89 | A reserved word between two boundaries is what the whole expression matches there. |
| Verdicts.TypeNameAt | components/HaskellRef.tsx:89 | A capital at a boundary, then word characters, then only primes, is matched as a type name without the primes. |
| Verdicts.QuotedAt | components/HaskellRef.tsx:89 | A prime, prime-free text and a prime make one quoted match. |
| Verdicts.NoMatchAt | components/HaskellRef.tsx:89 | When neither a keyword, an operator, a capital at a boundary nor a closed quote starts at a position, nothing matches there. |
| Verdicts.QuietRun | components/HaskellRef.tsx:89 | Nothing matches anywhere in a stretch of spaces, digits, brackets and the like. |
| Tokenizer.TableFrom | components/HaskellRef.tsx:91 | The expression's verdicts at each position from i on: one per position, each match classified, non-empty and inside the input. |
| Tokenizer.TableFromAt | components/HaskellRef.tsx:91 | Each table entry is the expression's verdict at that position. |
| Tokenizer.PlainBefore | components/HaskellRef.tsx:93-95 | The text between the previous match and this one becomes at most one span: a non-empty plain span holding exactly that text. |
| Tokenizer.Scan | components/HaskellRef.tsx:91-134 | The spans of the scan cover exactly the remaining input, and there are none only when nothing remains. |
| Tokenizer.Highlight | components/HaskellRef.tsx:84-137 | The texts of the output spans concatenate back to the input; there is always at least one span; the empty input gives one empty plain span. |
| Tokenizer.ScanSkips | components/HaskellRef.tsx:91 | Positions where nothing matches do not change the scan. |
| Tokenizer.Exec | components/HaskellRef.tsx:91 | `exec` with `lastIndex` set finds the first matching position at or after it, or reports that none remains. |
| Tokenizer.Emit | components/HaskellRef.tsx:93-128 | One loop turn emits the gap and the match, and moves `lastIndex` strictly forward. |
| Tokenizer.HighlightHaskell | components/HaskellRef.tsx:84-137 | The loop as written, including the final remainder and the `[code]` fallback, computes exactly `Highlight`, and the spans concatenate back to the input. |
| TokenizerSpec.ScanTokenizes | components/HaskellRef.tsx:91-134 | The scan's output is a tokenization of what remains. Every classified span is the expression's match at its start. Every plain span is a maximal unmatched stretch, never next to another plain span. |
| TokenizerSpec.TokenizesUnique | components/HaskellRef.tsx:91-134 | At most one sequence of spans is such a tokenization. |
| TokenizerSpec.PlainRunEnds | components/HaskellRef.tsx:93-95 | A plain span ends exactly at the next match or at the end of the input. |
| TokenizerSpec.HighlightTokenizes | components/HaskellRef.tsx:84-137 | For non-empty input, the output is a tokenization. |
| TokenizerSpec.HighlightTokenizesAny | components/HaskellRef.tsx:84-137 | Any non-empty input is tokenized by its highlighting; the empty input gives one empty plain span. |
| TokenizerSpec.HighlightIsTheTokenization | components/HaskellRef.tsx:84-137 | For non-empty input, a sequence of spans is the output if and only if it is a tokenization. |
| TokenizerSpec.TokenizesPositions | components/HaskellRef.tsx:91-134 | Each span of a tokenization, at its own offset, is the input's text there and has the tokenization's property. |
| TokenizerSpec.TokenizationSpanAt | components/HaskellRef.tsx:91-134 | Each span of a tokenization of the whole input is the input's text at its offset. A classified span is the expression's match there. A plain span covers only unmatched positions. |
| TokenizerSpec.HighlightSpansAtTheirPositions | components/HaskellRef.tsx:84-137 | Each output span, at its offset, is the input's text and has its kind's shape. A classified span is the match there. A plain span covers only unmatched positions and is not followed by another plain span. |
| TokenizerSpec.HighlightStartsWithMatch | components/HaskellRef.tsx:84-137 | When the expression matches at offset 0, the first span is that match. |
| TokenizerExamples.DataDeclHighlight | components/HaskellRef.tsx:84-137 | `data Foo = Bar { x :: Int }` highlights as the keyword, three type names, the `::` operator, and the plain text between them. |
| TokenizerExamples.InstanceIsOneKeyword | components/HaskellRef.tsx:89 | `instance` between boundaries is one keyword span. |
| TokenizerExamples.InsideIsPlain | components/HaskellRef.tsx:89 | Nothing matches anywhere inside the word `inside`. |
| TokenizerExamples.ArrowIsOneOperator | components/HaskellRef.tsx:89 | `->` is one two-character operator match. |
| TokenizerExamples.LoneSymbolIsPlain | components/HaskellRef.tsx:89 | A `-`, `=`, `<` or `:` that starts no two-character operator matches nothing. |
| TokenizerExamples.CommentDashesArePlain | components/HaskellRef.tsx:89 | The `--` of a Haskell comment matches nothing at either dash unless a `>` follows. |
| TokenizerExamples.UnclosedQuoteIsPlain | components/HaskellRef.tsx:89 | A prime with no later prime matches nothing. |
| TokenizerExamples.NoTypeNameInsideWord | components/HaskellRef.tsx:89 | A capital after a word character starts no type name. |
| TokenizerExamples.PrimedNameDropsPrime | components/HaskellRef.tsx:89 | `Foo'` is matched as the three-character type name `Foo`. |
| TokenizerExamples.QuotedLetterIsQuoted | components/HaskellRef.tsx:89 | `'a'` is one quoted match. |
| Strings.Join | components/HaskellRef.tsx:148 | Joining nothing gives the empty string. Otherwise the result starts with the first element and is as long as the elements plus one separator between each two. |
| Strings.Split | components/HaskellRef.tsx:148 | Splitting on a character always yields at least one piece. |
| Strings.JoinSplit | components/HaskellRef.tsx:148 | Joining the pieces of a split with the same character restores the string. |
| Strings.SplitJoin | components/HaskellRef.tsx:148 | Splitting a join of one or more pieces that do not contain the separator gives back the pieces. |
| Defs.KindsAndNames | components/HaskellRef.tsx:6-49 | The six kinds are all listed, each once, and their names tell them apart. |
| Defs.KindOf | components/HaskellRef.tsx:6-49 | The `kind` tag selects the record shape: value or function for a value record, type, newtype or data for a type record, class for a type class. |
| Signatures.ConstraintPrefix | components/HaskellRef.tsx:150 | The constraint prefix is empty exactly when the constraints are absent or empty. Otherwise it is `(`, the constraints joined by `, `, and `) => `. |
| Signatures.Signature | components/HaskellRef.tsx:140-153 | A value's signature is its own. Other signatures start with the kind's name and a space. A class signature ends in ` where`. The rest of a class signature is stated by `Signatures.ConstraintsInsertPrefix` and `Signatures.ClassSignatureWords`, the rest of a type's by `Signatures.TypeSignatureWords`. |
| Signatures.ConstraintsInsertPrefix | components/HaskellRef.tsx:150-151 | A class signature is its unconstrained signature with the constraint prefix inserted right after `class `. |
| Signatures.SplitParams | components/HaskellRef.tsx:148 | The space-joined parameters read back as the parameters, or as one empty word for none. |
| Signatures.TypeSignatureWords | components/HaskellRef.tsx:145-148 | A type's signature splits into its kind, its name and its parameters. An absent `params` adds nothing; an empty one adds an empty word, the trailing space. |
| Signatures.EmptyParamsLeaveTrailingSpace | components/HaskellRef.tsx:148 | `params: []` gives the no-params signature plus one trailing space, so the two differ. |
| Signatures.AbsentOrEmptyConstraints | components/HaskellRef.tsx:150 | Absent and empty constraints give the same class signature. |
| Signatures.ClassSignatureWords | components/HaskellRef.tsx:149-151 | Without constraints, a class signature splits into `class`, the name, the parameters (or one empty word for none), and `where`. |
| Signatures.KindNameParamsWords | components/HaskellRef.tsx:148 | `kind name params` splits into the kind, the name and the parameter words. |
| Signatures.ConstraintsShownIffPresent | components/HaskellRef.tsx:150-151 | The character after `class ` opens a parenthesis exactly when there are constraints. |
| Signatures.KeywordOf | components/HaskellRef.tsx:89 | The word that opens a type or class signature is one of the reserved words. |
| Signatures.SignatureOpensWithKeyword | components/HaskellRef.tsx:181 | The highlighted header of a type or class starts with its kind as a keyword span. |
| Details.HasDetails | components/HaskellRef.tsx:156-167 | An entry has details exactly when some property `hasDetails` reads is present and non-empty. An entry without details shows no header badge. |
| Details.HeaderBadges | components/HaskellRef.tsx:184-185 | The deprecated badge shows exactly when `deprecated` is truthy. The since badge shows exactly when `since` is, and carries the `since` text itself. When both show, the deprecated badge comes first. |
| Details.ShowConstructor | components/HaskellRef.tsx:226-246 | A constructor shows its name and its fields; its arguments appear exactly when the property is there. |
| Details.ConstructorArgsReadBack | components/HaskellRef.tsx:240-244 | The shown arguments split back into the constructor's arguments when there are some and none contains a space. |
| Details.ShowMethod | components/HaskellRef.tsx:270-283 | A method shows its name. Its signature is shown as the tokenization of the signature text (when there is any), which reads back as the signature. The default badge shows exactly when `default` is true, and the description exactly when it is truthy. |
| Details.ShowConstructors | components/HaskellRef.tsx:226-247 | One view per constructor, in order, each as `ShowConstructor` gives it. |
| Details.ShowMethods | components/HaskellRef.tsx:270-284 | One view per method, in order, each as `ShowMethod` gives it. |
| Details.ShowInstances | components/HaskellRef.tsx:255-260 | One highlighted line per instance, in order: each reads back as the instance text and, when that is not empty, is its tokenization. |
| Details.Candidates | components/HaskellRef.tsx:206-308 | The seven places of the panel, each holding a section only at its own place, and every section present displays the entry's own property. |
| Details.ModulePlace | components/HaskellRef.tsx:206-211 | The module section is there exactly when `module` is truthy, and shows that text. |
| Details.DescriptionPlace | components/HaskellRef.tsx:214-219 | The description section is there exactly when `description` is truthy, and shows that text. |
| Details.ConstructorsPlace | components/HaskellRef.tsx:222-249 | The constructors section is there exactly for a data or newtype declaration with constructors, and shows the view of each of its constructors. |
| Details.InstancesPlace | components/HaskellRef.tsx:252-263 | The instances section is there exactly for a type, newtype or data declaration with instances, and shows each of them highlighted. |
| Details.MethodsPlace | components/HaskellRef.tsx:266-286 | The methods section is there exactly for a type class with methods, and shows the view of each method. |
| Details.LawsPlace | components/HaskellRef.tsx:289-298 | The laws section is there exactly for a type class with laws, and shows them as they are. |
| Details.ExamplePlace | components/HaskellRef.tsx:301-308 | The example section is there exactly when `example` is truthy, and shows that text. |
| Details.PanelSections | components/HaskellRef.tsx:203-308 | Each section appears at most once, in the order module, description, constructors, instances, methods, laws, example, and each displays the entry's own property: its text as it is, or the views of its own list. |
| Details.PlaceShown | components/HaskellRef.tsx:203-308 | A place of the panel is shown exactly when its gate yields a section, and no place past the seventh ever is. |
| Details.SectionGates | components/HaskellRef.tsx:206-301 | Each section shows exactly when the component's gate for it holds. Constructors need data or newtype; instances need any type kind; methods and laws need a class. |
| Details.PanelEmptyIffNoGate | components/HaskellRef.tsx:203-308 | The panel is empty exactly when no section's gate holds. |
| Details.HasDetailsIffSomethingToShow | components/HaskellRef.tsx:156-167 | `hasDetails` holds exactly when the panel has a section, a header badge shows, or a plain `type` carries constructors. |
| Details.ExpandOverEmptyPanel | components/HaskellRef.tsx:156-167 | A definition whose only details are since, deprecated, or constructors on a plain `type` has details but an empty panel. |
| Entries.NewEntry | components/HaskellRef.tsx:170 | A mounted entry starts collapsed. |
| Entries.Click | components/HaskellRef.tsx:192 | A click flips `expanded` and keeps the definition. |
| Entries.ClickTwice | components/HaskellRef.tsx:192 | Two clicks restore the entry. |
| Entries.ClicksParity | components/HaskellRef.tsx:170-192 | After n clicks the definition is unchanged, and the entry is flipped exactly when n is odd. |
| Entries.Header | components/HaskellRef.tsx:180-182 | The header is the tokenization of the entry's signature (when it is not empty), reading back as the signature. |
| Entries.Render | components/HaskellRef.tsx:171-203 | The header reads back as the signature and is its tokenization. The button shows exactly when there are details, saying Collapse and with its arrow turned exactly when expanded. The panel shows exactly when expanded and there are details. |
| Entries.HeaderIgnoresExpanded | components/HaskellRef.tsx:176-187 | The kind, header, badges and presence of the button do not depend on `expanded`. |
| Entries.Entries | components/HaskellRef.tsx:413-415 | Every entry of a freshly shown list holds its own definition, collapsed. |
| Entries.ClickAt | components/HaskellRef.tsx:170-192 | A click on entry i flips that entry only; every other entry is unchanged. |
| Entries.ClicksAreIndependent | components/HaskellRef.tsx:170-192 | Clicks on two different entries commute, and two collapsed entries can both be expanded. |
| Entries.PanelAfterClicks | components/HaskellRef.tsx:170-203 | From a fresh entry with details, n clicks show the panel exactly when n is odd. Without details, neither button nor panel ever shows. |
| RefList.Count | components/HaskellRef.tsx:348-354 | A kind's count never exceeds the number of entries. |
| RefList.KindsOfExactly | components/HaskellRef.tsx:348-356 | The listed kinds are distinct. A kind is listed exactly when some entry has it, which is exactly when its count is positive. |
| RefList.CountSumStep | components/HaskellRef.tsx:350-352 | One more entry adds one to the count sum over distinct kinds that include its kind, and nothing otherwise. |
| RefList.CountSumAppend | components/HaskellRef.tsx:356 | Listing one more kind adds its count. |
| RefList.CountsAddUp | components/HaskellRef.tsx:348-356 | The counts of the listed kinds add up to the number of entries. |
| RefList.KindCounts | components/HaskellRef.tsx:348-356 | The counting loop yields the kinds in order of first appearance, a count for exactly those kinds, and each count is that kind's number of entries. |
| RefList.FilterBarIffMixedKinds | components/HaskellRef.tsx:381 | The filter bar shows exactly when two entries differ in kind. |
| RefList.FilterButtons | components/HaskellRef.tsx:384-391 | One button per listed kind, in order. It is active exactly when its kind is an active filter, and shows that kind's count. |
| RefList.ButtonTotalIsCountSum | components/HaskellRef.tsx:384-391 | The counts on the buttons are the counts of their kinds. |
| RefList.FilterButtonsAddUp | components/HaskellRef.tsx:384-391 | The counts on the filter buttons add up to the number of entries. |
| RefList.AtMostSixButtons | components/HaskellRef.tsx:356 | The filter bar has at most one button per kind, so at most six. |
| RefList.KeepKinds | components/HaskellRef.tsx:361 | The kept entries are no more than the entries, and every one has an active kind. |
| RefList.Filtered | components/HaskellRef.tsx:359-362 | The shown entries are no more than all of them; while a filter is active, each has an active kind. |
| RefList.KeepKindsCounts | components/HaskellRef.tsx:361 | Filtering keeps every entry of an active kind and drops every other. |
| RefList.FilteredCounts | components/HaskellRef.tsx:359-362 | With no filter, every kind keeps its count. With filters, active kinds keep their counts and the others drop to zero. |
| RefList.KeepKindsSplits | components/HaskellRef.tsx:361 | Filtering goes entry by entry and keeps the order: a concatenation filters part by part, and one entry stays exactly when its kind is active. |
| RefList.FilteredByNothing | components/HaskellRef.tsx:359-376 | After clearing, every entry shows. |
| RefList.KeepAllPresentKinds | components/HaskellRef.tsx:361 | Filtering on every kind present keeps every entry. |
| RefList.ToggleFilter | components/HaskellRef.tsx:364-374 | Toggling puts the kind in the set exactly when it was not there, and leaves every other kind as it was. |
| RefList.ToggleFilterLaws | components/HaskellRef.tsx:364-374 | Toggling a kind twice restores the filters, and toggles of two kinds commute. |
| RefList.ClearFilters | components/HaskellRef.tsx:376 | Clearing leaves no filter active. |
| RefList.ClearShown | components/HaskellRef.tsx:381-402 | The Clear button shows exactly when the filter bar does (more than one kind present) and some filter is active. |
| RefList.ResultsLine | components/HaskellRef.tsx:405-409 | The results line shows exactly while a filter is active. Its `n` is the number of entries the list shows, and its `m` is the number of entries. |
| RefList.ClearAndResults | components/HaskellRef.tsx:376-409 | Whenever the Clear button shows, so does the results line; after clearing, neither does. |
| RefList.CountSumCovers | components/HaskellRef.tsx:348-354 | Counting over distinct kinds that cover every entry counts each entry once. |
| RefList.ResultsShowActiveTotal | components/HaskellRef.tsx:384-409 | The `n` of the results line is the sum of the counts on the active filter buttons. |

## Left out

- The JSX markup, class names, colours, `kindColors`, and the `KindBadge`, `Badge` and `FilterButton` styling: presentation only. A view keeps the kind, texts and flags that the markup displays.
- React's state hooks, `useMemo` caching, re-rendering and element keys: state is modelled as explicit values and transitions.
- `description` is a React node in the component; it is modelled as optional text, truthy when present and non-empty.
- Strings are sequences of characters. UTF-16 surrogate pairs are not distinguished; all characters the expression tests are in the ASCII range.
- The active filters are a `Set<string>` in the component. They are modelled as a set of kinds, because the only way to add one is a button for a kind that is present.
- The rest of the repository (the code carousel, navigation and ligature toggles, the copy button, the showcase and layout files) is not part of this model.
- Each entry is keyed by its name and its index in the shown list. When the filters move an entry to another index, React remounts it collapsed. Keyed reconciliation is not modelled: `Entries.ClickAt` treats the list as fixed while it is clicked.
- Entries.Render: shows the panel as its list of sections, each holding the texts and item views it displays, not the markup around them.
