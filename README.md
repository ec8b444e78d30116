# wn3 in Dafny

wn3 turns web novels into e-books. It fetches the chapters of a novel one page at a time. A site-specific rule set (Reigokai, syosetu) cuts each page down to the chapter text, helped by per-book override rules written in a small sed-like language. A chapter builder turns the HTML into paragraphs of styled text. The chapters are rendered as XHTML or Markdown and packed into an EPUB 3 book. The output of `epubcheck` is read back to judge the book. A separate tool shrinks a failing page to a minimal regression test.

This project models that core in Dafny and proves properties of the model. Each module below models one source file or one small group of them; the support modules named after the list match no source file:

- **The rule language** (`SedLang`, `SedEval`, `SedApply`). Rules such as `d;div.note/Next Chapter/` are parsed and rendered back, with the round trip proved both ways. The match and delete predicates are stated over a document held as a node arena. The whole-document delete and substitute run in place on an `Html` class.
- **Overrides and URL selections** (`Overrides`, `UrlSel`). The URL-keyed tracker switches override choices on and off as pages are visited. The key rules decide the map form of a URL selection.
- **Page to chapter** (`Common`, `RulesetIl`, `Il`, `Syosetu`, `ChapterBuilder`, `Style`). This covers the recursive walk, the site rule sets with their note-stripping loops, the builder's style transitions and paragraphs, and the six-flag style algebra.
- **Rendering and packaging** (`Chapter`, `Nesting`, `Ser`, `HtmlWriter`, `XmlSink`, `Package`, `Book`). This covers the sizes and the two renderings of a chapter, the escapers with their decoders, the queued close tags of the XML writer, the package-document checks of the W3C EPUB 3.3 recommendation (section 5, "Package document"), chunking and the table of contents.
- **Codecs and small helpers** (`Lang`, `LangDe`, `Epubcheck`, `Image`, `GenCache`, `FetchCache`, `GenUtil`, `WnUtil`, `BookDef`).
- **The minimiser's validation side** (`Minimize`). This covers the case rules, the generated assertions, the test-name rule and the layout of the generated test file.

`Dom` (the parsed document), `Strings` (trimming, search and UTF-8 length from the Rust standard library), `Wrappers` (Option and Result) and `De` (serde's error kinds) support the others. `Nesting` is not a source file either: it holds the nesting analysis of the builder's style transitions and their corrected form (see "Findings").

The CSS-selector engine, the regular-expression engine and the HTML parser are foreign libraries. Each enters the model as a parameter: an `Engine` value of total functions. The exceptions are the scene-separator expressions of the two rule sets and the horizontal-rule expression `^[—–=-]+$` of src/common.rs (`Common.HrText`), which are written out.

Where files of the source disagree with each other, the model follows each file's own code, as noted under "Left out".

## Model

| member | source | states |
|---|---|---|
| SedLang.Equal | src/def/sed.rs:343-349 | two rules are equal exactly when operation, regex text and selector agree |
| SedLang.Scan | src/def/sed.rs:405-410 | a segment scan stops at the next unescaped `/` or the end, and fails on a trailing backslash |
| SedLang.BlankIffTrimEmpty | src/def/sed.rs:413 | a selector is blank exactly when trimming leaves nothing |
| SedLang.ScanClean | src/def/sed.rs:405-410 | a scan reads the same inside any slice that holds the segment |
| SedLang.ScanCleanAt | src/def/sed.rs:405-410 | what a scan passes over is a clean segment |
| SedLang.SelectorSeg | src/def/sed.rs:403-424 | a selector segment yields a selector, and a `/` after it leaves a regex to read |
| SedLang.RegexSeg | src/def/sed.rs:426-441 | a regex segment yields a regex and its closing `/` |
| SedLang.ScanLoop | src/def/sed.rs:405-410 | the character loop realises the scan |
| SedLang.SelectorPhase | src/def/sed.rs:403-424 | the selector phase of the loop realises the selector segment |
| SedLang.RegexPhase | src/def/sed.rs:426-441 | the regex phase of the loop realises the regex segment |
| SedLang.ReplacementPhase | src/def/sed.rs:443-457 | the replacement phase of the loop realises the replacement segment |
| SedLang.Parse | src/def/sed.rs:378-480 | the declarative `parse_sed`: the operation letter, then the selector, regex and replacement segments with their errors; SedLang.ParseSed, SedLang.ParseOk and SedLang.ParseDisplayIff state it |
| SedLang.ParseSed | src/def/sed.rs:378-480 | the imperative parser gives exactly the declarative parse, error cases included |
| SedLang.ScanInside | src/def/sed.rs:405-410 | a segment scans the same inside a longer rule |
| SedLang.CleanSegment | src/def/sed.rs:405-410 | a clean segment before a `/` or the end is read whole |
| SedLang.Display | src/def/sed.rs:482-508 | `Display` of a rule; SedLang.DisplayParts gives its parts and SedLang.ParseDisplay its round trip with the parser |
| SedLang.DisplayParts | src/def/sed.rs:482-508 | the display is the operation letter, `;selector`, `/regex/` and `replacement/` in that order, each only when present |
| SedLang.SelectorOf | src/def/sed.rs:403-424 | a clean, non-blank, parsable selector is read back from the display |
| SedLang.RegexOf | src/def/sed.rs:426-441 | a clean, non-empty, parsable regex is read back from the display |
| SedLang.ReplacementOf | src/def/sed.rs:443-457 | a clean replacement is read back from the display |
| SedLang.DisplayHead | src/def/sed.rs:380-396 | after the operation letter the display continues with `;` for a selector or `/` otherwise |
| SedLang.DisplayAfterOp | src/def/sed.rs:398-424 | parsing the display after the operation reaches the regex phase at the right place |
| SedLang.DisplaySelector | src/def/sed.rs:403-424 | the selector segment of the display is read back |
| SedLang.DisplayAfterSel | src/def/sed.rs:426-441 | parsing the display after the selector reaches the replacement phase at the right place |
| SedLang.DisplayAfterReg | src/def/sed.rs:443-479 | parsing the display after the regex gives the rule back |
| SedLang.ParseDisplay | src/def/sed.rs:482-508 | every well-formed rule parses back from its display |
| SedLang.SelectorSegOk | src/def/sed.rs:403-424 | an accepted selector is the clean, non-blank, parsable text up to the next `/` or the end |
| SedLang.RegexSegOk | src/def/sed.rs:426-441 | an accepted regex is the clean, non-empty, parsable text up to the next `/` |
| SedLang.ReplacementSegOk | src/def/sed.rs:443-457 | an accepted replacement is the clean text up to a following `/` |
| SedLang.AfterRegexOk | src/def/sed.rs:443-479 | a completed parse keeps the selector and regex read, `p` has a regex, and `s` has a regex and a clean replacement |
| SedLang.AfterSelectorOk | src/def/sed.rs:426-479 | a regex is read exactly when the selector was followed by `/`, and the rest of the display is a prefix of the input |
| SedLang.ParseFromSelOk | src/def/sed.rs:398-424 | a parse through the selector branch is a read from that position |
| SedLang.ParseFromSlashOk | src/def/sed.rs:426-441 | a parse through the regex branch is a read from that position |
| SedLang.ParseOk | src/def/sed.rs:378-480 | every parsed rule is well formed and its display is a prefix of the input |
| SedLang.ParseDisplayIff | src/def/sed.rs:482-508 | a rule parses back from its display exactly when it is well formed |
| SedLang.DisplayIdempotent | src/def/sed.rs:656-666 | displaying a parsed rule and parsing again gives the same rule |
| SedLang.DisplayIdempotentDelete | src/def/sed.rs:664 | the delete rule of the idempotence test parses to selector and regex |
| SedLang.DisplayIdempotentReplace | src/def/sed.rs:665 | the replace rule of the idempotence test parses to selector, regex and replacement |
| SedLang.ParseFailShort | src/def/sed.rs:602-614 | the short failure cases fail with the right error: empty, missing selector, missing regex end, bad separator |
| SedLang.ParseFailSegments | src/def/sed.rs:602-614 | empty regexes and empty selectors are refused |
| SedLang.ParseFailReplacement | src/def/sed.rs:602-614 | a substitution without a closing `/` after the replacement is refused |
| SedLang.ParseFailLate | src/def/sed.rs:602-614 | `p` without a regex is refused, and an unparsable regex is reported |
| SedLang.ParseSuccMatch | src/def/sed.rs:616-641 | the matcher cases parse to a regex, a selector and regex, or a selector |
| SedLang.ParseReplaceNoSelector | src/def/sed.rs:443-479 | a substitution without selector parses to its regex and replacement |
| SedLang.ScanPlain | src/def/sed.rs:405-410 | text with no slash or backslash is scanned to the end |
| SedLang.ParseSuccReplaceEmpty | src/def/sed.rs:616-641 | `s/.//` parses to an empty replacement |
| SedLang.ParseSuccReplaceDot | src/def/sed.rs:616-641 | `s/./foo/` parses |
| SedLang.ParseSuccReplaceStar | src/def/sed.rs:616-641 | `s/.*/foo/` parses |
| SedLang.ParseSuccReplaceAnchored | src/def/sed.rs:616-641 | `s/^.*$?/foo/` parses |
| SedLang.ParseSuccReplaceAnchoredEmpty | src/def/sed.rs:616-641 | `s/^.*$?//` parses |
| SedLang.ParseSuccDeleteRegex | src/def/sed.rs:616-641 | `d/./` parses to a regex delete |
| SedLang.ParseSuccDeleteBoth | src/def/sed.rs:616-641 | `d;div/./` parses to selector and regex |
| SedLang.ParseSuccDeleteSelector | src/def/sed.rs:616-641 | `d;div` parses to a selector delete |
| SedLang.ParseSuccPrintAll | src/def/sed.rs:616-641 | `P;div` parses |
| SedEval.NewMatcher | src/def/sed.rs:58-65 | a matcher parses exactly when the rule parses as a plain match; a parse error is passed on unchanged |
| SedEval.AnyMatch | src/def/sed.rs:141 | true exactly when some text node of the list matches the expression |
| SedEval.HasMatchingTextIff | src/def/sed.rs:172-174 | an element has matching text exactly when some text node below it matches |
| SedEval.IsCssMatch | src/def/sed.rs:185-190 | the selector matches the element, or there is none; used by SedEval.ShouldDeleteIff |
| SedEval.ShouldDelete | src/def/sed.rs:157-166 | `should_delete`; SedEval.ShouldDeleteIff states when it holds |
| SedEval.ShouldDeleteIff | src/def/sed.rs:157-190 | an element is deleted exactly when the rule is a delete, the selector (if any) matches it and the expression (if any) matches text below it |
| SedEval.Select | src/def/sed.rs:142 | the selection below an element holds exactly the selected strict descendants |
| SedEval.AnyElementText | src/def/sed.rs:143 | true exactly when some listed element has matching text below it |
| SedEval.ContainsMatch | src/def/sed.rs:133-146 | `contains_match`; SedEval.ContainsMatchIff states when it holds |
| SedEval.ContainsMatchIff | src/def/sed.rs:133-145 | a non-matcher never matches; otherwise a match is matching text, a selected descendant, or matching text under a selected descendant, by which parts the rule has |
| SedEval.SelectedTextIff | src/def/sed.rs:143 | matching text under the selection is matching text under some selected descendant |
| SedEval.SelectAll | src/def/sed.rs:322 | the document-wide selection holds exactly the selected elements |
| SedEval.FirstSelected | src/def/sed.rs:199-203 | the first selected node of a list, with none selected before it; none when no node is selected |
| SedEval.ParentCssMatch | src/def/sed.rs:192-210 | `parent_css_match` over the strict ancestors; SedEval.ParentCssMatchFound and SedEval.ParentCssMatchNone state what it returns |
| SedEval.ParentCssMatchFound | src/def/sed.rs:192-207 | a found match is a selected ancestor with no selected ancestor nearer to the element |
| SedEval.NearerUnselected | src/def/sed.rs:199-203 | an ancestor nearer than the first selected one is not selected |
| SedEval.ParentCssMatchNone | src/def/sed.rs:192-207 | without a selector the element itself is returned; with one, nothing is found exactly when no ancestor is selected |
| SedEval.ApplyText | src/def/sed.rs:212-227 | `apply_text`; SedEval.ApplyTextCases states its cases |
| SedEval.ApplyTextCases | src/def/sed.rs:209-225 | non-substitutions and non-matching text are returned unchanged; a matching substitution is the engine's replace-all; any change comes from a matching substitution |
| SedApply.PathStart | src/def/sed.rs:314-318 | an ancestor walk starts with nothing visited |
| SedApply.PathStep | src/def/sed.rs:314-318 | an ancestor walk step adds the current ancestor and stays on the chain |
| SedApply.PathBreak | src/def/sed.rs:315-317 | breaking at an already recorded ancestor loses none of the chain, because recorded sets are closed upward |
| SedApply.ClosureStep | src/def/sed.rs:312-319 | each text node adds its ancestor chain and keeps the set closed upward |
| SedApply.AncestorClosure | src/def/sed.rs:311-319 | the recorded set is exactly the ancestors of the matching text nodes |
| SedApply.MatchingTexts | src/def/sed.rs:303-310 | the collected ids are exactly the text nodes the expression matches |
| SedApply.AncestorsOfMatches | src/def/sed.rs:303-319 | the ancestors of the matches are exactly the nodes with matching text below them |
| SedApply.SelectIds | src/def/sed.rs:322 | the selected ids are exactly the elements the selector matches |
| SedApply.DeleteTargetsRegex | src/def/sed.rs:299-325 | with an expression, the targets are the selected elements with matching text below them |
| SedApply.DeleteTargetsNoRegex | src/def/sed.rs:326-333 | without an expression, the targets are the selected elements |
| SedApply.AnyIn | src/def/sed.rs:255 | true exactly when some listed ancestor was visited |
| SedApply.TextsBelow | src/def/sed.rs:258-264 | the collected ids are exactly the matching text nodes below the element |
| SedApply.CoveredStep | src/def/sed.rs:251-265 | a further selected element covers the text nodes below it |
| SedApply.CoveredSkip | src/def/sed.rs:255-257 | skipping an element under an already visited one loses no text node |
| SedApply.SelectedTexts | src/def/sed.rs:248-266 | the collected ids are exactly the matching text nodes under some selected element |
| SedApply.OutermostSelected | src/def/sed.rs:255-257 | every selected element lies under an outermost selected one |
| SedApply.SubTargetsOutermost | src/def/sed.rs:248-266 | the rewritten text nodes are exactly the matching ones under an outermost selected element |
| SedApply.DetachedFrame | src/def/sed.rs:323-333 | detaching keeps every node and its kind and clears the parent of exactly the detached ones |
| SedApply.DetachedAncestor | src/def/sed.rs:323-333 | detaching adds no ancestry |
| SedApply.DetachedCut | src/def/sed.rs:323-333 | a detached element and its subtree are cut off from every earlier node |
| SedApply.DetachedParentsBefore | src/def/sed.rs:336-339 | detaching keeps parents before children |
| SedApply.SubstitutedFrame | src/def/sed.rs:281-289 | rewriting keeps every parent and changes only the chosen text nodes, to the rewritten text |
| SedApply.SubstitutedShape | src/def/sed.rs:281-289 | rewriting does not change the shape of the tree |
| SedApply.FullStepNonDestructive | src/def/sed.rs:229-240 | non-destructive rules leave the document unchanged, and destructive ones keep its node count |
| SedApply.FullStepParentsBefore | src/def/sed.rs:229-240 | a full application keeps parents before children |
| SedApply.DeleteRegexOnlyPanics | src/def/sed.rs:321 | `d/./` parses, and it reaches the selector unwrap with no selector |
| SedApply.DetachedStep | src/def/sed.rs:323-325 | detaching one more id extends the detached set by one |
| SedApply.SubstitutedStep | src/def/sed.rs:281-289 | rewriting one more text node extends the rewritten set by one |
| SedApply.ApplyFullDeleteP | src/def/sed.rs:684 | `d;p` cuts the paragraph from the body and changes nothing else |
| SedApply.Html.Detach | src/def/sed.rs:324 | the node loses its parent and nothing else changes |
| SedApply.Html.DetachAll | src/def/sed.rs:323-325 | the document becomes the original with all the given ids detached |
| SedApply.Html.RewriteAll | src/def/sed.rs:281-289 | the document becomes the original with the given text nodes rewritten |
| SedApply.Html.ApplyDeletes | src/def/sed.rs:293-340 | the document becomes the original with the delete targets detached, including the expression-only case as intended |
| SedApply.Html.ApplySubs | src/def/sed.rs:243-290 | the document becomes the original with the substitution targets rewritten |
| SedApply.Html.ApplyFull | src/def/sed.rs:229-240 | the document becomes the full application of the rule |
| Overrides.Empty | src/overrides.rs:16-22 | the empty set of overrides is empty and has no rules |
| Overrides.FlattenMembers | src/overrides.rs:28-30 | a rule is among the replacers iff it is in one of the groups |
| Overrides.ReplacersOfEmpty | src/overrides.rs:24-30 | an empty override set has no replacers; the replacers are empty iff every group is |
| Overrides.FanOut | src/overrides.rs:95-107 | a list entry gives one single-URL choice per distinct URL; Overrides.ListFansOut states it |
| Overrides.AddEntry | src/overrides.rs:69-107 | one entry of the book's overrides added to the map; Overrides.RangeAndUrlKeys states its keys |
| Overrides.Build | src/overrides.rs:65-110 | the `unactivated` map of `new`; Overrides.BuildUnactivated states what it holds |
| Overrides.BuildUnactivated | src/overrides.rs:65-110 | every choice `new` builds waits under its start URL (a range with its title dropped) |
| Overrides.ListFansOut | src/overrides.rs:95-107 | a list fans out to exactly one single-URL choice per distinct URL, with the title and rules |
| Overrides.RangeAndUrlKeys | src/overrides.rs:69-94 | a range is keyed by its start without title; a URL by itself with its title |
| Overrides.FanOutList | src/overrides.rs:95-107 | the list loop computes exactly the fan-out of the distinct URLs |
| Overrides.OverrideTracker.constructor | src/overrides.rs:65-110 | new: unactivated is Build(overrides), nothing active, invariant holds |
| Overrides.OverrideTracker.WithUrl | src/overrides.rs:112-155 | new state given by Activated minus url; title is the last title of the ending choices; seds = ending groups in order then every remaining active group (as a bag) |
| Overrides.Activated | src/overrides.rs:115-124 | the active map once the choices switched on by the URL have moved; Overrides.PushAllHolds states it |
| Overrides.PushAllHolds | src/overrides.rs:115-124 | after activation a choice is active under k iff it was or it was switched on and retires at k |
| Overrides.ActiveAfter | src/overrides.rs:112-155 | after a visit every active choice is a range keyed by its end |
| Overrides.VisitLifecycle | src/overrides.rs:112-135 | a single URL contributes on its visit and is gone; a range ending there contributes; otherwise stays active at its end |
| Overrides.ActiveSurvives | src/overrides.rs:130-151 | an active range not ending at this URL remains active |
| Overrides.GroupsRemove | src/overrides.rs:141-153 | the bag of active groups does not depend on iteration order |
| Overrides.LastTitle | src/overrides.rs:130-134 | the title is some choice's title with no later one having a title; None iff none has |
| Overrides.PushRanges | src/overrides.rs:142-151 | appends each active range's rules in order |
| Overrides.CollectActive | src/overrides.rs:141-153 | collected groups are exactly the bag of all remaining active groups |
| UrlSel.AsSliceKeeps | src/def/urlsel.rs:15-21 | only a range has no slice; a list is determined by its slice; two non-range selections with equal slices are equal or are a url and the one-element list holding it |
| UrlSel.VisitStr | src/def/urlsel.rs:42-50 | a string selects exactly that one url |
| UrlSel.VisitSeq | src/def/urlsel.rs:52-64 | a sequence selects its urls as a list, in order |
| UrlSel.FieldOf | src/def/urlsel.rs:71-78 | a key is a field exactly when it is one of `start`, `end`, `url`, `urls`, named by it; any other key is an unknown field |
| UrlSel.VisitMap | src/def/urlsel.rs:66-140 | the visitor's loop gives the result of the declarative fold over the entries |
| UrlSel.StepOk | src/def/urlsel.rs:83-121 | one key is accepted exactly when it is new and compatible with the keys seen; a refusal is a duplicate field |
| UrlSel.WellTypedCons | src/def/urlsel.rs:83 | well-typed entries stay well typed after the first, whose key is a field |
| UrlSel.DistinctCons | src/def/urlsel.rs:83-121 | keys are distinct exactly when the first does not recur and the rest are distinct |
| UrlSel.FoldFromOk | src/def/urlsel.rs:83-122 | the loop succeeds exactly when the keys are distinct, new and jointly compatible; every failure is a duplicate field |
| UrlSel.FinishOk | src/def/urlsel.rs:123-139 | after the loop, a selection results exactly from the keys `start`+`end`, `url` or `urls` |
| UrlSel.VisitMapCharacterised | src/def/urlsel.rs:66-140 | a map parses exactly for distinct keys forming a range, a url or a list, to that kind; a lone `start` or `end` misses the other; an empty map is an invalid value; repeated or mixed keys are duplicates |
| UrlSel.RangeEitherOrder | src/def/urlsel.rs:205-217 | `start` and `end` give the same range in either order |
| BookDef.IsTodo | src/def.rs:73 | a field value still to be written; BookDef.IsTodoIff states when it holds |
| BookDef.IsTodoIff | src/def.rs:73 | a value is TODO exactly when it is the four letters t-o-d-o in any ASCII case |
| BookDef.Validate | src/def.rs:69-98 | validation always succeeds and warns exactly when the title, subtitle, author or translator is TODO in some language |
| WnUtil.Implies | src/util.rs:8-10 | `implies` is false only when the premise holds and the conclusion does not |
| WnUtil.ImpliesThen | src/util.rs:12-17 | the lazy form is true for a false premise and agrees with `implies` on the thunk's value |
| Common.DescendNode | src/common.rs:54-92 | the reference walk of `descend` over a node; Common.DescendInv, Common.DescendRestoresStyle and Common.DescendExtends state it |
| Common.Descend | src/common.rs:54-92 | the builder ends in the state of the reference walk `DescendNode` of the node |
| Common.DescendElement | src/common.rs:72-87 | an element other than `hr`, `br` and `script` walks its children with its style added, restores the previous span style, and a `p` then finishes the paragraph |
| Common.DescendAll | src/common.rs:80-82 | the children are walked one after another in document order |
| Common.AddBasic | src/common.rs:50-52 | a block is walked exactly like `descend` walks it |
| Common.DescendRestoresStyle | src/common.rs:73-86 | after any node the span style is the one it found, except after `hr` and `p`, whose paragraph finish leaves no style |
| Common.DescendInv | src/common.rs:54-92 | walking any node keeps the chapter builder's invariant (closed paragraphs, transitions matching the actual style, registered images) |
| Common.DescendChildrenInv | src/common.rs:80-82 | walking a run of children keeps the chapter builder's invariant |
| Common.DescendExtends | src/common.rs:54-92 | walking a node only appends to the completed paragraphs |
| Common.DescendChildrenExtends | src/common.rs:80-82 | walking a run of children only appends to the completed paragraphs |
| Common.ChildStyleFlags | src/common.rs:73-79 | children see italic added exactly for `i` and `em`, bold exactly for `b`, and no flag removed |
| Common.FirstText | src/common.rs:98 | there is a first text exactly when some text node lies below the element |
| Common.IsHr | src/common.rs:94-103 | an `hr` element is a rule; an element without text is a rule only if it is `hr` |
| Common.IsHrText | src/common.rs:98-101 | any other element is a rule exactly when its first text, trimmed, is one or more of em dash, en dash, `=` and `-` |
| Common.IsHrFirstTextOnly | src/common.rs:98-100 | only the tag name and the first text decide |
| Common.HrTextTests | src/common.rs:133-145 | the dash runs of the test are rules; `—Great Forest—` and the empty text are not |
| Common.HrTrimTest | src/common.rs:139 | trailing whitespace is trimmed before the dash test |
| Common.Parse | src/common.rs:29-39 | every error carries the `invalid chapter` context with the rule set's title; a chapter comes with the rule set's next link |
| Common.ParseBodySeesTitle | src/common.rs:31-36 | a body error is returned as is under the context, and otherwise the result is a chapter exactly when finishing the parsed builder succeeds |
| Common.ParseKeepsTitle | src/common.rs:30-38 | a body parser that keeps the title and id gives a chapter with the rule set's title and the given id |
| RulesetIl.SimpleExclude | src/rulesets/il.rs:56-76 | the method decides exactly exclusion: some override deletes the element, or it is page furniture |
| RulesetIl.NoOverridesExclusion | src/rulesets/il.rs:56-76 | with no overrides the exclusion is the older rule set's |
| RulesetIl.Kept | src/rulesets/il.rs:124-125 | the filtered paragraphs are no more than the selected ones |
| RulesetIl.KeptMembers | src/rulesets/il.rs:124-125 | the filter keeps exactly the selected paragraphs that are not excluded |
| RulesetIl.Filter | src/rulesets/il.rs:124-125 | the loop keeps exactly the filtered paragraphs |
| RulesetIl.FirstRule | src/rulesets/il.rs:137-151 | the first horizontal rule, with none before it, or the length when there is none |
| RulesetIl.StripPrefix | src/rulesets/il.rs:135-169 | the strip loop starts emission exactly at the cut |
| RulesetIl.FirstRuleAt | src/rulesets/il.rs:142 | a rule with none before it is the first rule |
| RulesetIl.NoRuleBefore | src/rulesets/il.rs:142 | with no rule in a prefix, the first rule lies after it |
| RulesetIl.EarlyRuleEndsNote | src/rulesets/il.rs:142-150 | a rule among the first ten paragraphs ends the note and is removed with it |
| RulesetIl.LateRuleResets | src/rulesets/il.rs:143-149 | a first rule at paragraph eleven to twenty-six resets the strip, so nothing is removed |
| RulesetIl.LongNoteResets | src/rulesets/il.rs:161-167 | twenty-six paragraphs without a rule reset the strip |
| RulesetIl.ShortPageWithoutRuleEmptied | src/rulesets/il.rs:137-169 | a short page with no rule loses every paragraph |
| RulesetIl.SponsoredThenRule | tests/generated/strip_sponsored_and_no_clip.rs:1-21 | a sponsor notice, a rule and one paragraph: the strip removes the first two, so only the text is emitted |
| RulesetIl.Body | src/rulesets/il.rs:130-170 | what is emitted is a list of elements of the page |
| RulesetIl.BodyIsSuffix | src/rulesets/il.rs:130-170 | the emitted paragraphs are always a suffix of the kept ones |
| RulesetIl.DiamondAt | src/rulesets/il.rs:41 | the first diamond, with no diamond before it |
| RulesetIl.ShapeCaptured | src/rulesets/il.rs:41 | text of the separator shape is matched with that capture |
| RulesetIl.SceneCaptureIff | src/rulesets/il.rs:41 | the separator expression captures `x` exactly when the text is a diamond, `x` without diamonds, then an optional diamond and spaces |
| RulesetIl.SceneCaptureTitled | src/rulesets/il.rs:41 | a lone diamond captures nothing, and a titled separator captures its title |
| RulesetIl.SceneCaptureRejects | src/rulesets/il.rs:41 | text after the closing diamond, or text not starting with one, is no separator |
| RulesetIl.EmitAllSnoc | src/rulesets/il.rs:171-182 | emitting one more paragraph follows the earlier ones |
| RulesetIl.Emit | src/rulesets/il.rs:171-182 | each paragraph becomes a scene separator with its trimmed capture, or is added as basic content |
| RulesetIl.EmitAllInv | src/rulesets/il.rs:171-182 | emission keeps the builder's invariant |
| RulesetIl.ParseBody | src/rulesets/il.rs:118-184 | no kept paragraph is an error that leaves the builder alone; otherwise the builder receives the body |
| Il.SimpleExcludedIff | src/il.rs:27-42 | an element is page furniture exactly when some selected descendant is a script, has a `sharedaddy` class, or holds text naming the next or previous chapter |
| Il.SimpleExclude | src/il.rs:27-42 | the loop over the selection decides exactly furniture |
| Il.Cut | src/il.rs:61-74 | the strip point is just past the first kept horizontal rule, or the end when there is none |
| Il.CutUnique | src/il.rs:61-74 | the strip point is unique |
| Il.StripPrefix | src/il.rs:62-74 | the strip loop consumes exactly up to the strip point |
| Il.Kept | src/il.rs:76-81 | the kept elements are no more than the selected ones |
| Il.KeptMembers | src/il.rs:76-79 | the kept elements are exactly the selected ones that are not furniture |
| Il.KeptSnoc | src/il.rs:76-81 | one more selected element is kept exactly when it is not furniture |
| Il.Emitted | src/il.rs:59-83 | what is emitted is a list of elements of the page |
| Il.AddBasicAllSnoc | src/il.rs:80 | emitting one more element descends into it after the earlier ones |
| Il.EmitKept | src/il.rs:76-81 | the builder receives every kept element in order |
| Il.ParseBody | src/il.rs:59-83 | no paragraphs is an error that leaves the builder alone; otherwise the builder receives the emitted elements |
| Il.NoNoteKeepsAll | src/il.rs:61 | without a note at the top every non-furniture paragraph is emitted |
| Il.NoteEndsAtRule | src/il.rs:61-74 | with a note, emission resumes after the first horizontal rule that is not furniture |
| Il.NoteWithoutRuleEmitsNothing | src/il.rs:61-74 | with a note and no such rule, nothing is emitted |
| Il.AddBasicAllInv | src/il.rs:80 | emitting elements keeps the builder's invariant |
| Syosetu.TitleFallback | src/rulesets/syosetu.rs:33-42 | the title is `〇〇話` when no title element with text is selected, and otherwise the first text node below the first title element (no earlier text node lies below it); a title other than `〇〇話` always comes from the page |
| Syosetu.NormalizeHref | src/rulesets/syosetu.rs:48-57 | the href made absolute; Syosetu.NormalizeHrefShape and Syosetu.NormalizeHrefIdempotent state it |
| Syosetu.NormalizeHrefShape | src/rulesets/syosetu.rs:48-57 | a link starting with `/` becomes an `https://` link ending in it; any other link is kept |
| Syosetu.NormalizeHrefIdempotent | src/rulesets/syosetu.rs:48-57 | normalising a normalised link changes nothing |
| Syosetu.NextChapterLink | src/rulesets/syosetu.rs:44-60 | a link exactly when the first next-page element has an `href`; the link ends with that `href`, is an `https://` address when it starts with `/`, and is the `href` itself otherwise |
| Syosetu.DiamondNotSpace | src/rulesets/syosetu.rs:25 | text holding a diamond is not all spaces |
| Syosetu.DiamondsOnlyExamples | src/rulesets/syosetu.rs:25 | diamonds, with spaces round them, match the separator expression; spaces between diamonds or empty text do not |
| Syosetu.Kept | src/rulesets/syosetu.rs:72-74 | the kept paragraphs are a list of elements, no more than the selected ones |
| Syosetu.EmitAllSnoc | src/rulesets/syosetu.rs:79-90 | emitting one more paragraph follows the earlier ones |
| Syosetu.AllTrueIff | src/rulesets/syosetu.rs:78-91 | the running flag is set exactly when every entry is |
| Syosetu.AllTrueSnoc | src/rulesets/syosetu.rs:78-91 | the running flag after one more paragraph |
| Syosetu.IsSceneSep | src/rulesets/syosetu.rs:80-84 | a paragraph is a scene separator when its first text is diamonds only; Syosetu.DiamondsOnlyExamples pins down the expression |
| Syosetu.SeparatorsHasText | src/rulesets/syosetu.rs:78-91 | every paragraph is a separator exactly when the body has no text |
| Syosetu.EmitParagraph | src/rulesets/syosetu.rs:80-89 | a separator paragraph adds a `◇` separator, any other is added as basic content; the result says which |
| Syosetu.Emit | src/rulesets/syosetu.rs:78-90 | the builder receives every paragraph in order, and the flag says the body has no text |
| Syosetu.Filter | src/rulesets/syosetu.rs:72-74 | the loop keeps exactly the paragraphs no override deletes |
| Syosetu.ParseBody | src/rulesets/syosetu.rs:66-93 | every kept paragraph is emitted, and the result is an error exactly when none of them has text |
| Syosetu.SeparatorsOnly | src/rulesets/syosetu.rs:85 | a body of separators only adds at least one completed element per separator |
| Syosetu.EmitAllInv | src/rulesets/syosetu.rs:79-90 | emission keeps the builder's invariant |
| ChapterBuilder.StyleAfterAppend | generate/src/chapter.rs:445-458 | the style a run of transitions leaves is computed piece by piece |
| ChapterBuilder.CloseThenOpenShape | generate/src/chapter.rs:448-455 | actualizing pushes at most a close then an open, never an empty one, and nothing exactly when both are empty |
| ChapterBuilder.StyleAfterOne | generate/src/chapter.rs:448-455 | a close removes its flags and an open adds its flags |
| ChapterBuilder.NoneNeutral | generate/src/chapter.rs:448-455 | an empty style changes nothing when added or removed |
| ChapterBuilder.CloseThenOpenStyle | generate/src/chapter.rs:448-455 | closing then opening leaves the old style minus the removals plus the additions |
| ChapterBuilder.Transitions | generate/src/chapter.rs:445-458 | the pushed transitions are non-empty, at most two, absent exactly when the styles agree, and take the written style to the desired one |
| ChapterBuilder.ActualizeWrites | generate/src/chapter.rs:445-458 | actualizing only appends at most two style changes to the open paragraph, none exactly when the written style is the desired one; the extended paragraph then produces the desired style, recorded as written, and nothing else changes |
| ChapterBuilder.ParagraphFinishStep | generate/src/chapter.rs:475-487 | `paragraph_finish` on the builder's state; ChapterBuilder.ParagraphFinishSpec and ChapterBuilder.ParagraphFinishInv state it |
| ChapterBuilder.AddSeparatorStep | generate/src/chapter.rs:489-494 | `add_separator`; ChapterBuilder.AddMajorSpec and ChapterBuilder.AddMajorInv state it |
| ChapterBuilder.AddSceneSepStep | generate/src/chapter.rs:496-501 | `add_scene_sep`; ChapterBuilder.AddMajorSpec and ChapterBuilder.AddMajorInv state it |
| ChapterBuilder.AddImageStep | generate/src/chapter.rs:503-510 | `add_image`; ChapterBuilder.AddMajorSpec and ChapterBuilder.AppendImageInv state it |
| ChapterBuilder.AddTextStep | generate/src/chapter.rs:563-567 | `add_text`; ChapterBuilder.AddTextSpec and ChapterBuilder.AddTextInv state it |
| ChapterBuilder.AddTextStyledStep | generate/src/chapter.rs:569-575 | `add_text_styled`; ChapterBuilder.AddTextSpec and ChapterBuilder.AddTextStyledInv state it |
| ChapterBuilder.FinishStep | generate/src/chapter.rs:577-597 | `finish`; ChapterBuilder.FinishErr, ChapterBuilder.FinishRenderable and ChapterBuilder.FinishClosed state it |
| ChapterBuilder.InitialInv | generate/src/chapter.rs:418-433 | a new builder satisfies the builder invariant |
| ChapterBuilder.ActualizeInv | generate/src/chapter.rs:445-458 | actualizing keeps the invariant: the written style is what the open paragraph's transitions produce |
| ChapterBuilder.ParagraphFinishInv | generate/src/chapter.rs:475-487 | finishing a paragraph keeps the invariant and leaves no open paragraph and no style |
| ChapterBuilder.ParagraphFinishSpec | generate/src/chapter.rs:475-487 | finishing closes the styles; it is a no-op besides the style reset when nothing was written, and otherwise appends the paragraph and resets the paragraph style |
| ChapterBuilder.AddMajorSpec | generate/src/chapter.rs:489-510 | a rule, a scene separator or an image is appended after the finished paragraph; an image is registered by its url |
| ChapterBuilder.AppendMajorInv | generate/src/chapter.rs:489-501 | appending a closed non-image element keeps the invariant |
| ChapterBuilder.AppendImageInv | generate/src/chapter.rs:503-510 | appending an image and registering it keeps the invariant |
| ChapterBuilder.AddMajorInv | generate/src/chapter.rs:489-510 | the three element adders keep the invariant |
| ChapterBuilder.AddTextSpec | generate/src/chapter.rs:563-575 | text is pushed after the transitions to the current style; styled text is written in its own style and leaves the current style unchanged |
| ChapterBuilder.StyleAfterText | generate/src/chapter.rs:563-567 | text does not change the written style |
| ChapterBuilder.AddTextInv | generate/src/chapter.rs:563-567 | adding text keeps the invariant |
| ChapterBuilder.AddTextStyledInv | generate/src/chapter.rs:569-575 | adding styled text keeps the invariant |
| ChapterBuilder.FinishErr | generate/src/chapter.rs:577-597 | finishing fails exactly when the title is missing, nothing was written or an image is unresolved, and the error then names a problem |
| ChapterBuilder.FinishRenderable | generate/src/chapter.rs:577-597 | a finished chapter is non-empty and every element renders, with its paragraphs' styles closed |
| ChapterBuilder.FinishClosed | generate/src/chapter.rs:577-597 | with the styles already closed, the open paragraph becomes the chapter's last element |
| ChapterBuilder.BoldTransitions | generate/src/chapter.rs:445-458 | equal styles need no transition; bold opens and closes by one transition |
| ChapterBuilder.MixedTransitions | generate/src/chapter.rs:445-458 | from bold-italic to bold closes italic only; between bold and italic the old flag closes before the new opens |
| ChapterBuilder.ItWorksBuild | generate/src/chapter.rs:601-613 | the builder calls of the `it_works` test give one paragraph with `world` in bold |
| ChapterBuilder.TransitionsBuild | generate/src/chapter.rs:637-656 | the builder calls of the `transitions` test give the element sequence behind `aaa<b><i>bbb</i>ccc</b><i>ddd</i><b>eeefff</b>ggghhh` |
| ChapterBuilder.MarkdownBuild | generate/src/chapter.rs:659-677 | the builder calls of the `markdown` test give three paragraphs, the `!` in bold |
| ChapterBuilder.ChapterBuilder.constructor | generate/src/chapter.rs:418-433 | a new builder is empty, titled by nothing and keeps the invariant |
| ChapterBuilder.ChapterBuilder.TitleSet | generate/src/chapter.rs:435-438 | only the title changes |
| ChapterBuilder.ChapterBuilder.PreserveLineFeeds | generate/src/chapter.rs:440-443 | only the line-feed flag changes |
| ChapterBuilder.ChapterBuilder.SpanStyleSet | generate/src/chapter.rs:460-463 | only the desired span style changes |
| ChapterBuilder.ChapterBuilder.SpanStyleReset | generate/src/chapter.rs:465-468 | the desired span style becomes empty |
| ChapterBuilder.ChapterBuilder.ParagraphStyleSet | generate/src/chapter.rs:470-473 | only the paragraph style changes |
| ChapterBuilder.ChapterBuilder.SpanStyleActualize | generate/src/chapter.rs:445-458 | the fields move as `Actualize` says |
| ChapterBuilder.ChapterBuilder.ParagraphFinish | generate/src/chapter.rs:475-487 | the fields move as `ParagraphFinishStep` says |
| ChapterBuilder.ChapterBuilder.AddSeparator | generate/src/chapter.rs:489-494 | the fields move as `AddSeparatorStep` says |
| ChapterBuilder.ChapterBuilder.AddSceneSep | generate/src/chapter.rs:496-501 | the fields move as `AddSceneSepStep` says |
| ChapterBuilder.ChapterBuilder.AddImage | generate/src/chapter.rs:503-510 | the fields move as `AddImageStep` says |
| ChapterBuilder.ChapterBuilder.RequiresResolution | generate/src/chapter.rs:513-515 | resolution is needed exactly when an image is unresolved |
| ChapterBuilder.ChapterBuilder.AddText | generate/src/chapter.rs:563-567 | the fields move as `AddTextStep` says |
| ChapterBuilder.ChapterBuilder.AddTextStyled | generate/src/chapter.rs:569-575 | the fields move as `AddTextStyledStep` says |
| ChapterBuilder.ChapterBuilder.Finish | generate/src/chapter.rs:577-597 | the result is `FinishStep` of the builder's state |
| Chapter.Closed | generate/src/chapter.rs:15-20 | the three-flag span style is closed under adding, additional-needed and removals-needed |
| Chapter.SumInlineBreakdown | generate/src/chapter.rs:235-245 | a paragraph's inline size is 8 bytes per style change, 6 per line feed and the UTF-8 length of all its text |
| Chapter.SizeOf | generate/src/chapter.rs:349-355 | the size of the major elements: paragraphs only, each its inline size plus 8; its properties are stated by SizeOfAppend, SizeIgnoresOthers and SizeParagraph |
| Chapter.Size | generate/src/chapter.rs:349-355 | the size estimate is at least the 64-byte base |
| Chapter.SizeOfAppend | generate/src/chapter.rs:349-355 | the size of the major elements is additive over concatenation |
| Chapter.SizeIgnoresOthers | generate/src/chapter.rs:351-353 | only paragraphs contribute to the size; rules, scene separators and images count nothing |
| Chapter.SizeParagraph | generate/src/chapter.rs:351-354 | a paragraph adds its inline sizes plus 8 |
| Chapter.MdMarker | generate/src/chapter.rs:260-267 | the Markdown marker of a style is `**` for bold followed by `*` for italic |
| Chapter.InlineMdText | generate/src/chapter.rs:268-275 | the text of an inline element is recovered from its Markdown form |
| Chapter.InlineXmlText | generate/src/chapter.rs:294-299 | the text of an inline element is recovered from its XHTML form |
| Chapter.InlineXmlTextSafe | generate/src/chapter.rs:294-299 | inline text never introduces a raw `<` or `>` into the XHTML |
| Chapter.MapInlineMd | generate/src/chapter.rs:194-195 | a paragraph's Markdown pieces are its elements' Markdown forms, in order |
| Chapter.MapInlineXml | generate/src/chapter.rs:202-203 | a paragraph's XHTML pieces are its elements' XHTML forms, in order |
| Chapter.MajorMdSceneSep | generate/src/chapter.rs:206-212 | a named scene separator in Markdown is `### ◇ `, the escaped name, which unescapes back to the name, and ` ◇` with a newline |
| Chapter.MajorMdParagraph | generate/src/chapter.rs:188-195 | a Markdown paragraph is its joined inline output, after `> ` exactly when it is a block quote |
| Chapter.MajorXmlSceneSep | generate/src/chapter.rs:213-216 | an XHTML scene separator is the `scene-sep` heading around `◇ `, the escaped name and ` ◇`; the name unescapes back and holds no raw `<` or `>` |
| Chapter.MajorXmlParagraph | generate/src/chapter.rs:196-203 | an XHTML paragraph is its joined inline output between `<p>` and `</p>`, or `<blockquote>` and `</blockquote>` for a block quote |
| Chapter.MapMajorMd | generate/src/chapter.rs:323 | the chapter's Markdown blocks are its elements' Markdown forms, in order |
| Chapter.MapMajorXml | generate/src/chapter.rs:327 | the chapter's XHTML blocks are its elements' XHTML forms, in order |
| Chapter.ChapterMdParts | generate/src/chapter.rs:317-324 | a Markdown chapter starts with `# ` and the escaped title, which unescapes back to the title, then a blank line and the blocks separated by blank lines |
| Chapter.ChapterXmlParts | generate/src/chapter.rs:325-328 | an XHTML chapter starts with the `h2` line whose content unescapes back to the title, then the blocks separated by newlines |
| Chapter.IdAnchor | generate/src/chapter.rs:339-347 | the anchor is `chapter-` followed by the decimal id, and the id can be read back from it |
| Chapter.ErrorDisplayHeader | generate/src/chapter.rs:389-396 | the error text starts with the `Chapter invalid:` line exactly when some check failed; otherwise it is the bug notice |
| Chapter.ErrorDisplayTabs | generate/src/chapter.rs:396-405 | the error text holds one tab per failed check, one per indented line |
| Chapter.ErrorDisplayNewlines | generate/src/chapter.rs:389-405 | the error text holds one line more than there are failed checks |
| Nesting.EventsOfAppend | generate/src/chapter.rs:279-302 | the tag events of a paragraph are those of its elements, in order |
| Nesting.TagsXmlAppend | generate/src/chapter.rs:279-302 | the XHTML of a run of tag events is written piece by piece |
| Nesting.OpensXml | generate/src/chapter.rs:284-288 | the open events of a style are written as its opening tags in element order |
| Nesting.ClosesXml | generate/src/chapter.rs:289-293 | the close events of a style are written as its closing tags in reverse element order |
| Nesting.EventsXml | generate/src/chapter.rs:279-293 | the tag events of a transition are exactly what its XHTML writes |
| Nesting.RunAppend | generate/src/chapter.rs:279-302 | the stack machine reads a concatenation by reading the first part and then the rest from the stack it left |
| Nesting.MisnestedTransitions | generate/src/chapter.rs:445-458 | from bold-italic to italic the builder closes bold while italic, opened after it, stays open |
| Nesting.MisnestedBuild | generate/src/chapter.rs:563-575 | text in bold-italic followed by text in italic builds the misnested paragraph |
| Nesting.CrossedClose | generate/src/chapter.rs:279-302 | closing an element while a later-opened one is still open is rejected |
| Nesting.CrossedParagraph | generate/src/chapter.rs:279-302 | a paragraph whose tags open two elements and close the first is not well nested |
| Nesting.MisnestedAsWritten | generate/src/chapter.rs:445-458 | the misnested paragraph the builder produces does not nest |
| Nesting.FirstUnwanted | generate/src/chapter.rs:445-458 | the corrected transition keeps the longest prefix of open elements that are still wanted |
| Nesting.ClosingRun | generate/src/chapter.rs:445-458 | the corrected closing pops exactly the elements it closes, last opened first |
| Nesting.OpeningRun | generate/src/chapter.rs:445-458 | the corrected opening pushes exactly the elements it opens |
| Nesting.ReopenMembers | generate/src/chapter.rs:445-458 | what the corrected transition reopens is what is wanted and not kept open |
| Nesting.NestedTransitionsRun | generate/src/chapter.rs:445-458 | the corrected transition reads cleanly on the stack machine, and the elements left open are exactly the desired style |
| Nesting.NestedRenderRun | generate/src/chapter.rs:475-487 | a paragraph written with the corrected transitions and closed at the end leaves the stack empty |
| Nesting.NestedRenderWellNested | generate/src/chapter.rs:445-458 | with the corrected transitions every sequence of styled runs gives a well-nested paragraph |
| Nesting.AsWrittenMisnested | generate/src/chapter.rs:445-458 | the transitions as written turn the two runs into the misnested paragraph |
| Nesting.AsWrittenNotWellNested | generate/src/chapter.rs:445-458 | the transitions as written do not nest for bold-italic text followed by italic text |
| Style.Open | generate/src/chapter/style.rs:24-33 | each element opens with its own tag; the footnote's `aside` carries the `doc-footnote` role |
| Style.Close | generate/src/chapter/style.rs:35-44 | each element closes with the end tag of the element `Open` starts |
| Style.TagNameInjective | generate/src/chapter/style.rs:24-44 | distinct elements have distinct tags, so a close tag names exactly one element |
| Style.NoStyle | generate/src/chapter/style.rs:79-88 | `none` sets no flag |
| Style.IsNone | generate/src/chapter/style.rs:90-101 | `is_none` holds exactly when no flag is set |
| Style.FromEl | generate/src/chapter/style.rs:47-76 | the style of one element sets exactly that element's flag |
| Style.BoldItalic | generate/src/chapter/style.rs:152-158 | `bold_italic` sets exactly bold and italic |
| Style.Add | generate/src/chapter/style.rs:191-204 | adding styles sets a flag exactly when either operand sets it |
| Style.AdditionalNeeded | generate/src/chapter/style.rs:160-170 | the additions from `a` to `b` are the flags `b` sets and `a` does not |
| Style.RemovalsNeeded | generate/src/chapter/style.rs:172-182 | the removals from `a` to `b` are the flags `a` sets and `b` does not |
| Style.Transition | generate/src/chapter/style.rs:160-182 | closing the removals and opening the additions turns `a` into `b`; no flag is both closed and opened; both are empty exactly when `a == b` |
| Style.ElIter | generate/src/chapter/style.rs:104-115 | `el_iter` yields exactly the set flags, each once, in the order bold, italic, footnote, ruby, rt, rp |
| Style.RankSortedUnique | generate/src/chapter/style.rs:104-115 | two element lists in that strict order with the same members are equal, so the order is fixed by the flags |
| Style.ElIterSingle | generate/src/chapter/style.rs:104-115 | the style of one element iterates as that element alone |
| Style.ElIterBoldItalic | generate/src/chapter/style.rs:104-115 | bold-italic iterates bold first, then italic |
| Style.FromIter | generate/src/chapter/style.rs:185-189 | collecting elements sets exactly the flags of the elements collected |
| Style.FromIterElIter | generate/src/chapter/style.rs:104-115 | collecting a style's `el_iter` gives the style back |
| Style.ElIterEmpty | generate/src/chapter/style.rs:90-115 | `el_iter` is empty exactly when the style is none |
| Ser.SerInlineText | generate/src/chapter/ser/md.rs:40-47 | plain text reads back as the same text from both serialised forms (`EscapeMd`, then `EscapeBody` at generate/src/chapter/ser/xml.rs:55-60), and the XHTML form holds no raw `<` or `>` |
| Ser.MapMajorMd | generate/src/chapter/ser/md.rs:22 | the Markdown blocks are the elements' forms, in order |
| Ser.MapMajorXml | generate/src/chapter/ser/xml.rs:28 | the XHTML blocks are the elements' forms, in order |
| Ser.Section | generate/src/chapter/ser/xml.rs:22-29 | the chapter section starts with the `section` opening and the anchor, holds the title line and ends with `</section>` |
| Ser.MdMajor | generate/src/chapter/ser/md.rs:55-79 | Markdown major elements; Ser.MdSceneSepText states the scene separator |
| Ser.XmlMajor | generate/src/chapter/ser/xml.rs:72-97 | XHTML major elements; Ser.XmlParagraphWrapped and Ser.XmlSceneSepText state them |
| Ser.MdChapter | generate/src/chapter/ser/md.rs:17-23 | a Markdown chapter; Ser.MdChapterTitle states its head |
| Ser.XmlChapter | generate/src/chapter/ser/xml.rs:18-30 | an XHTML chapter; Ser.XmlChapterFrame and Ser.XmlChapterTitle state its frame |
| Ser.MdStyleTokens | generate/src/chapter/ser/md.rs:31-39 | opening and closing a style write the same marker, empty exactly when neither bold nor italic, `***` for both |
| Ser.MdLinkParts | generate/src/chapter/ser/md.rs:49 | a Markdown link carries its text, recoverable by unescaping, and its href at fixed offsets |
| Ser.XmlLinkVerbatim | generate/src/chapter/ser/xml.rs:64-66 | an XHTML link copies its href and text without escaping |
| Ser.LineFeedForms | generate/src/chapter/ser/md.rs:48 | a line feed is a space in Markdown and `<br />` and a newline in XHTML |
| Ser.RunOpenClose | generate/src/chapter/ser/xml.rs:37-54 | opening a style's elements and then closing them leaves the stack as it was |
| Ser.XmlEnableDisableNest | generate/src/chapter/ser/xml.rs:37-54 | an opening and the matching closing of one style are written as tags that nest |
| Ser.XmlParagraphWrapped | generate/src/chapter/ser/xml.rs:76-85 | a paragraph is its inline output between `<p>` and `</p>`, or `blockquote` tags for a block quote |
| Ser.MdSceneSepText | generate/src/chapter/ser/md.rs:69-75 | a named scene separator carries its name, recoverable by unescaping; an unnamed one is the bare diamonds |
| Ser.XmlSceneSepSlice | generate/src/chapter/ser/xml.rs:88-93 | the escaped scene name sits at a fixed offset of the `h3` heading |
| Ser.XmlSceneSepText | generate/src/chapter/ser/xml.rs:88-93 | the scene name is recovered from the XHTML heading by unescaping |
| Ser.XmlSceneSepSafe | generate/src/chapter/ser/xml.rs:88-93 | the scene name introduces no raw `<` or `>` into the heading |
| Ser.MdChapterTitle | generate/src/chapter/ser/md.rs:17-23 | a Markdown chapter starts with `# `, the title recoverable by unescaping, and a blank line |
| Ser.XmlChapterFrame | generate/src/chapter/ser/xml.rs:18-30 | an XHTML chapter is enclosed in the `section` element whose id is the chapter anchor |
| Ser.XmlChapterTitle | generate/src/chapter/ser/xml.rs:21-27 | the `h2` title line follows the section opening |
| Ser.TitleLineText | generate/src/chapter/ser/xml.rs:21 | the title is recovered from the `h2` line by unescaping |
| HtmlWriter.Replacement | generate/src/html_writer.rs:345-429 | only the listed characters have replacements, each at least two characters long; Markdown escapes a character by a backslash before it |
| HtmlWriter.EscapeAppend | generate/src/html_writer.rs:345-429 | escaping distributes over concatenation, so an escaper works character by character |
| HtmlWriter.EscapePlain | generate/src/html_writer.rs:366-368 | a string with no special character is written unchanged |
| HtmlWriter.WriteEscaped | generate/src/html_writer.rs:347-370 | the slice-and-`last`-index loop writes exactly the character-wise escape of its input |
| HtmlWriter.NoRawAngles | generate/src/html_writer.rs:345-399 | body and attribute escaping leave no raw `<` or `>` in the output |
| HtmlWriter.AttrNoLeadingQuote | generate/src/html_writer.rs:374-399 | an attribute escape never starts with a bare quote (a quote becomes `\"`) |
| HtmlWriter.DecodeEscChar | generate/src/html_writer.rs:345-429 | the decoder reads back one escaped character and its length, whatever follows |
| HtmlWriter.UnescapeEscape | generate/src/html_writer.rs:345-429 | each escaper is undone by the decoder: unescaping the escape gives the input back |
| HtmlWriter.EscapeInjective | generate/src/html_writer.rs:345-429 | distinct strings have distinct escapes |
| HtmlWriter.JoinSnoc | generate/src/html_writer.rs:16-35 | a join writes the separator only between items |
| HtmlWriter.JoinLength | generate/src/html_writer.rs:16-35 | a join of n items holds exactly n-1 separators besides the items |
| HtmlWriter.Map | generate/src/html_writer.rs:59-83 | the mapped sequence has one image per item, in order |
| HtmlWriter.WriteMapJoin | generate/src/html_writer.rs:59-83 | the writing loop produces the separator-join of the mapped items, and nothing for no items |
| HtmlWriter.Surround | generate/src/html_writer.rs:193-209 | the output is the opening text, the content and the closing text, each at its own offset |
| HtmlWriter.TagSurround | generate/src/html_writer.rs:176-191 | a tag surround is `<name>` before and `</name>` after the content |
| HtmlWriter.TagSurroundContent | generate/src/html_writer.rs:275-290 | the content can be cut back out of a tag surround at fixed offsets |
| HtmlWriter.Tag2Open | generate/src/html_writer.rs:302-318 | a two-attribute opening tag quotes both values as given |
| HtmlWriter.Tag2Unescaped | generate/src/html_writer.rs:291-318 | `Tag2` does not escape: a value holding a quote injects a further attribute |
| XmlSink.XmlSink.New | generate/src/epub/xml.rs:19-26 | the output starts with the XML declaration and a blank line, with nothing queued and no element open |
| XmlSink.XmlSink.NewXhtml | generate/src/epub/xml.rs:28-35 | the output starts with the XML declaration with encoding, the HTML doctype and a blank line |
| XmlSink.XmlSink.Flush | generate/src/epub/xml.rs:37-43 | the queued close tags are appended to the output and the queue emptied; output plus queue is unchanged and the invariant kept |
| XmlSink.StartTag | generate/src/epub/xml.rs:61-70 | the text of a start tag; XmlSink.WriteStartTag and XmlSink.TestTags state it |
| XmlSink.Render | generate/src/epub/xml.rs:54-130 | the document a run of writes spells out; XmlSink.XmlSink.Finish states that the output is it |
| XmlSink.WriteStartTag | generate/src/epub/xml.rs:61-70 | the loop over the attributes produces `<name`, then ` k="v"` with the value attribute-escaped for each pair in order, then `>` or ` />` |
| XmlSink.XmlSink.WriteElStart | generate/src/epub/xml.rs:54-71 | the queue is flushed before the start tag is written; an element that is not self-closed becomes the innermost open one |
| XmlSink.XmlSink.Mkel | generate/src/epub/xml.rs:45-52 | a top-level element (none open) is written and becomes the only open element |
| XmlSink.XmlSink.ElMkel | generate/src/epub/xml.rs:85-95 | a child of the innermost element is written after the queue and pushed on the open elements |
| XmlSink.XmlSink.ElMkelSelfClosed | generate/src/epub/xml.rs:97-103 | a self-closed child is written after the queue and nothing is pushed or queued for it |
| XmlSink.XmlSink.WriteLf | generate/src/epub/xml.rs:105-107 | a newline is written after the flushed queue |
| XmlSink.XmlSink.Write | generate/src/epub/xml.rs:114-117 | raw text is written after the flushed queue |
| XmlSink.XmlSink.Drop | generate/src/epub/xml.rs:124-130 | the close tag of the innermost open element is appended to the queue, not to the output, and that element is no longer open |
| XmlSink.XmlSink.WriteField | generate/src/epub/xml.rs:109-111 | the value is written after the flushed queue and the element's close tag is then queued |
| XmlSink.XmlSink.Finish | generate/src/epub/xml.rs:73-76 | with no element open, the output is the header followed by the rendering of every write, and every close tag matched the innermost open element |
| XmlSink.ItWorks | generate/src/epub/xml.rs:136-148 | the writer test produces the header followed by `<aaa attr="val"><bbb>ccc</bbb></aaa>` |
| XmlSink.TestTags | generate/src/epub/xml.rs:140-141 | the start tags of the test are `<aaa attr="val">` and `<bbb>` |
| XmlSink.TestCloseTags | generate/src/epub/xml.rs:146 | the close tags of the test are `</bbb>` and `</aaa>` |
| Package.LastIndex | generate/src/epub/package.rs:244 | the last occurrence of a character, absent exactly when the character does not occur |
| Package.RSplitOnce | generate/src/epub/package.rs:244 | `rsplit_once` splits around the last occurrence, and fails exactly when there is none |
| Package.RSplitOnceAt | generate/src/epub/package.rs:244 | a split at a character not occurring later gives the two sides |
| Package.IdOf | generate/src/epub/package.rs:243-246 | an href has an id exactly when it has an extension, and the id holds no `/` |
| Package.IdOfPath | generate/src/epub/package.rs:243-246 | the id is the file stem, with or without a directory |
| Package.TryNew | generate/src/epub/package.rs:252-272 | an item is made exactly when the href has a known extension and a non-empty id, with the extension's media type |
| Package.Id | generate/src/epub/package.rs:243-246 | an item's id holds no `/` |
| Package.WellFormedId | generate/src/epub/package.rs:252-272 | an item that `try_new` accepts has a non-empty id |
| Package.TryNewAccepts | generate/src/epub/package.rs:252-272 | a stem and known extension with or without a directory make an item whose id is the stem |
| Package.TryNewNoExtension | generate/src/epub/package.rs:254 | an href without a `.` is refused |
| Package.TryNewUnknownExtension | generate/src/epub/package.rs:255-262 | an unknown extension is refused |
| Package.TryNewEmptyId | generate/src/epub/package.rs:263-266 | an href whose stem ends in `/` is refused |
| Package.IdentifierOrder | generate/src/epub/package.rs:274-284 | identifier types are totally ordered DOI, ISBN-13, ISBN-10, ISSN, URL, ad-hoc |
| Package.MarcCode | generate/src/epub/package.rs:298-308 | every contributor role has a three-letter MARC code |
| Package.MarcCodeInjective | generate/src/epub/package.rs:298-308 | distinct roles have distinct codes |
| Package.Keys | generate/src/epub/package.rs:100-103 | one key per item |
| Package.KeysAt | generate/src/epub/package.rs:100-103 | the i-th key is the i-th item's id |
| Package.ToMap | generate/src/epub/package.rs:100-103 | `HashMap::from_iter`, a later item replacing an earlier one with the same id; Package.ToMapKeys, Package.ToMapSize and Package.ToMapEntry state it |
| Package.Errors | generate/src/epub/package.rs:92-111 | the error flags are exactly: no `nav` item, no identifier, a repeated id |
| Package.KeysPrefix | generate/src/epub/package.rs:100-103 | the keys of a prefix are a prefix of the keys |
| Package.ToMapKeys | generate/src/epub/package.rs:100-103 | the collected map holds exactly the items' ids |
| Package.DistinctSnoc | generate/src/epub/package.rs:108-110 | an id added to distinct ids keeps them distinct exactly when it is new |
| Package.MapUpdateSize | generate/src/epub/package.rs:108-110 | adding a key grows a map by one exactly when the key is new |
| Package.ToMapSize | generate/src/epub/package.rs:108-110 | the map is as large as the manifest exactly when no id repeats, which is the duplicate check |
| Package.ToMapEntry | generate/src/epub/package.rs:100-103 | with distinct ids, each id maps to its item |
| Package.RetainedIsXhtmlIds | generate/src/epub/package.rs:104 | the spine is the ids of the XHTML items, in manifest order |
| Package.IdsOfTwo | generate/src/epub/package.rs:243-246 | the ids of two items, in order |
| Package.FinishExample | generate/src/epub/package.rs:314-327 | a manifest of `nav` and one chapter with an identifier has no error |
| Package.OpfBuilder.constructor | generate/src/epub/package.rs:65-75 | a new builder has the default language `en` and title `Ebook`, no publisher, the epoch date and empty lists |
| Package.OpfBuilder.AddIdentifier | generate/src/epub/package.rs:77-80 | the identifier is appended; nothing else changes |
| Package.OpfBuilder.Finish | generate/src/epub/package.rs:82-139 | finishing fails with exactly the error flags that hold; otherwise the spec holds the XHTML spine, the `nav` and optional `cover` items taken out of the manifest, the date replaced by now when unset, and the builder's metadata |
| Package.Collect | generate/src/epub/package.rs:100-103 | the collecting loop builds the id map and the id list |
| Package.Retain | generate/src/epub/package.rs:104 | the retaining loop keeps the XHTML ids in order |
| Book.RawRanges | generate/src/epub/book.rs:288-300 | before the filter: an untitled range up to the first section, one range per neighbouring pair, and the last section running to `usize::MAX` |
| Book.NonEmpty | generate/src/epub/book.rs:301-303 | the filter keeps only non-empty ranges, as lengths |
| Book.SectionRanges | generate/src/epub/book.rs:288-306 | there are no ranges exactly when there are no sections, and every range kept is non-empty |
| Book.NonEmptySum | generate/src/epub/book.rs:301-303 | dropping empty ranges does not change the total length |
| Book.RawPrefixSum | generate/src/epub/book.rs:288-300 | the first k ranges end at section k's first chapter |
| Book.SectionRangesCover | generate/src/epub/book.rs:288-306 | the ranges of ordered sections cover exactly `usize::MAX` chapters |
| Book.SectionRangesUntitled | generate/src/epub/book.rs:292-303 | the untitled range appears exactly when the first section starts after chapter 0, and then comes first |
| Book.NonEmptyTitled | generate/src/epub/book.rs:301-303 | when only the untitled range is empty, every kept range is titled |
| Book.NonEmptyFirst | generate/src/epub/book.rs:301-303 | a non-empty first range is kept first |
| Book.TotalSnoc | generate/src/epub/book.rs:211-231 | the size of a run of chapters grows by each chapter's size |
| Book.ChunkChapters | generate/src/epub/book.rs:211-231 | the chunks split the chapters in order, none empty; with size 0 each chapter is alone; otherwise each chunk is the shortest run reaching the size, and every chunk but the last reaches it |
| Book.ClosedSnoc | generate/src/epub/book.rs:218-228 | a closed chunk appended to closed chunks keeps them closed |
| Book.LastSnoc | generate/src/epub/book.rs:218-228 | appending the last open chunk gives chunks meeting the chunking promise |
| Book.ChapterHrefs | generate/src/epub/book.rs:308-319 | one table-of-contents entry per chapter |
| Book.ChunkEntries | generate/src/epub/book.rs:311-317 | a chunk contributes one entry per chapter |
| Book.ChunkEntriesAt | generate/src/epub/book.rs:311-317 | a chapter's entry links `chunk_<n>.xhtml#` its anchor and carries its title |
| Book.ChapterHrefsAt | generate/src/epub/book.rs:308-319 | the entry at a chapter's overall position links that chapter's chunk and anchor |
| Book.Distribute | generate/src/epub/book.rs:343-366 | the sections' groups are one per range |
| Book.DistributeUnion | generate/src/epub/book.rs:343-366 | the groups together list the entries in order, up to the ranges' total |
| Book.SumNatLens | generate/src/epub/book.rs:301-303 | the two sums of range lengths agree |
| Book.WriteSections | generate/src/epub/book.rs:343-366 | the shared-iterator loop produces the groups `Distribute` describes |
| Book.SectionsListEveryChapter | generate/src/epub/book.rs:343-366 | with ordered sections every chapter is listed exactly once, in order |
| Book.WriteNav | generate/src/epub/book.rs:368-401 | without sections the table of contents lists every chapter; with sections it lists them grouped by range |
| Book.OfType | generate/src/epub/book.rs:180-183 | the identifiers of one type |
| Book.SortByType | generate/src/epub/book.rs:171-183 | the reference stable sort by type; Book.SortByTypeCorrect states it |
| Book.SortByTypeCorrect | generate/src/epub/book.rs:171-183 | sorting by type orders the identifiers by type, is a permutation, and keeps identifiers of the same type in their order |
| Book.PartRank | generate/src/epub/book.rs:180-183 | the sorted identifiers come as blocks of DOI, ISBN-13, ISBN-10, ISSN, URL and ad-hoc, each as long as its type's count |
| Book.OfTypeSnoc | generate/src/epub/book.rs:180-183 | an added identifier joins the identifiers of its own type only |
| Book.ByTypesCons | generate/src/epub/book.rs:180-183 | sorting by a list of types takes each type's identifiers in the list's order |
| Book.SortByTypeIsByTypes | generate/src/epub/book.rs:180-183 | the sort takes the identifiers type by type in the declared order |
| Book.ByTypesSnoc | generate/src/epub/book.rs:180-183 | an added identifier adds one occurrence when its type is listed |
| Book.AllIdTypes | generate/src/epub/package.rs:275-285 | the declared order lists every type once |
| Book.ByTypesEmpty | generate/src/epub/book.rs:180-183 | there is nothing to sort in no identifiers |
| Book.ByTypesMultiset | generate/src/epub/book.rs:180-183 | taking the identifiers type by type loses and duplicates none |
| Book.OfTypeMultiset | generate/src/epub/book.rs:180-183 | the sort is a permutation |
| Book.EpubBuilder.constructor | generate/src/epub/book.rs:45-56 | a new builder holds nothing, compresses by deflate and chunks by chapter |
| Book.EpubBuilder.SetCompression | generate/src/epub/book.rs:79-82 | only the compression changes |
| Book.EpubBuilder.SetChunkSize | generate/src/epub/book.rs:92-99 | only the chunk size changes |
| Book.EpubBuilder.AddSection | generate/src/epub/book.rs:101-105 | a section is recorded at the number of chapters so far, keeping sections in chapter order |
| Book.EpubBuilder.AddChapter | generate/src/epub/book.rs:107-112 | the chapter is appended; nothing else changes |
| Book.EpubBuilder.AddIdentifier | generate/src/epub/book.rs:164-171 | the identifier is appended; nothing else changes |
| Book.EpubBuilder.SortIdentifiers | generate/src/epub/book.rs:171-183 | the identifiers become their stable sort by type |
| Book.EpubBuilder.Layout | generate/src/epub/book.rs:185-262 | the chunks are non-empty, hold every chapter in order, are single chapters without a chunk size, and otherwise each stays below the size without its last chapter and all but the last reach it; the table of contents lists every chapter, flat without sections and otherwise distributed over the sections' ranges |
| Lang.New | generate/src/lang.rs:28-37 | a language is read exactly from one of the four listed codes |
| Lang.ToStr | generate/src/lang.rs:43-50 | every language's code is listed and reads back as that language |
| Lang.FromStr | generate/src/lang.rs:65-71 | parsing succeeds exactly on a listed code, inverts `ToStr`, and otherwise fails with the fixed message |
| Lang.NewInverse | generate/src/lang.rs:28-50 | a code that reads as a language is that language's code |
| Lang.AllLangsTablesAgree | generate/src/lang.rs:9-10 | the language table and the code table agree entry by entry |
| Lang.Langs | generate/src/lang.rs:155-161 | the languages of a multi-language string are its entries' languages, in order |
| Lang.LookupSomeIff | generate/src/lang.rs:147-153 | a language is found exactly when it has an entry, and the found text is that entry's |
| Lang.LookupUpsertSame | generate/src/lang.rs:105-125 | after setting a language's text, looking it up gives the new text |
| Lang.LookupUpsertOther | generate/src/lang.rs:105-125 | setting one language's text leaves every other language's lookup unchanged |
| Lang.UpsertShape | generate/src/lang.rs:114-123 | setting an existing language overwrites in place; a new language is appended at the end |
| Lang.UpsertDistinct | generate/src/lang.rs:105-125 | setting a text keeps each language at most once |
| Lang.UpsertAt | generate/src/lang.rs:114-123 | overwriting at the first entry of the language, or appending when none, is the upsert |
| Lang.StrLang.constructor | generate/src/lang.rs:88-90 | a new string holds one entry in its language |
| Lang.StrLang.FromStr | generate/src/lang.rs:164-168 | a plain string is held in the default language |
| Lang.StrLang.NoAlts | generate/src/lang.rs:92-94 | a string has no alternates exactly when it holds one entry |
| Lang.StrLang.ForLang | generate/src/lang.rs:147-153 | the text for a language is found exactly when that language has an entry, and is that entry's |
| Lang.StrLang.SetPrimaryLang | generate/src/lang.rs:96-103 | a single-language string changes its language; one with alternates is refused and left unchanged |
| Lang.StrLang.Find | generate/src/lang.rs:115-117 | the search stops at the first entry in the language, or after the end when there is none |
| Lang.StrLang.SetAlt | generate/src/lang.rs:105-125 | the entries become the upsert of the old ones; a single string in another language becomes the pair, first entry first |
| Lang.StrLang.TrySetAlt | generate/src/lang.rs:127-145 | adding fails exactly when the language is present, leaving the string unchanged; otherwise the entry is appended |
| LangDe.LangVisitStr | src/def/langde.rs:48-54 | a language code parses exactly when listed, inverting `ToStr`; otherwise it is an unknown variant naming the listed codes |
| LangDe.StrLangVisitStr | src/def/langde.rs:16-21 | a plain string gives a string in the default language |
| LangDe.StrLangVisitMap | src/def/langde.rs:23-36 | the visitor's loop succeeds exactly when the declarative decoder does, with the same entries or the same error |
| LangDe.DecodeRestAt | src/def/langde.rs:31-34 | each further entry is an unknown-variant error, a duplicate-field error, or appended |
| LangDe.Decoded | src/def/langde.rs:27-34 | the decoded entries keep the map's order, one per entry |
| LangDe.DecodedAt | src/def/langde.rs:27-34 | each decoded entry is the map entry's language and text |
| LangDe.AllKnownCons | src/def/langde.rs:48-54 | every key is a language code exactly when the first is and all the rest are |
| LangDe.DistinctSnoc | src/def/langde.rs:31-34 | appending a language not yet present keeps the languages distinct |
| LangDe.NotDistinctIfPresent | src/def/langde.rs:32-33 | appending a language already present breaks distinctness |
| LangDe.DecodeRestOk | src/def/langde.rs:31-35 | the rest of the map decodes exactly when every key is a language and no language repeats, to the entries in order |
| LangDe.DecodeMapOk | src/def/langde.rs:23-36 | a map decodes exactly when it is non-empty, every key is a language and none repeats, to its entries in order |
| LangDe.DecodeRestDuplicate | src/def/langde.rs:32-33 | when every key is a language, the only possible error is a duplicate field |
| LangDe.DecodeMapSmall | src/def/langde.rs:27-30 | an empty map misses the `language` field; a one-entry map decodes to that entry or names the unknown code |
| LangDe.DecodeMapRepeated | src/def/langde.rs:32-33 | a repeated language is a duplicate field named by its code |
| Image.New | generate/src/image.rs:40-43 | a new image records its url, an id below 2^64 and no alt text |
| Image.Hex | generate/src/image.rs:49-58 | the `{:016x}` rendering is exactly k lower-case hexadecimal digits |
| Image.ParseHexOfHex | generate/src/image.rs:49-58 | every number below 16^k is read back from its k-digit hexadecimal rendering |
| Image.Src | generate/src/image.rs:49-58 | the asset path is `assets/image_` followed by 16 digits |
| Image.SrcId | generate/src/image.rs:49-58 | the image id can be read back from its asset path, so distinct ids give distinct paths |
| Image.DisplayMdAlt | generate/src/image.rs:62-66 | the Markdown form is `![`, the escaped alt text (which unescapes back to the image's alt, or to the fallback when it has none), `](`, the asset path and `)` |
| Image.DisplayXmlAltSafe | generate/src/image.rs:62-70 | the XHTML form is the `img` element with the asset path and the escaped alt text, which unescapes back to the alt (or the fallback) and holds no `<` or `>` |
| GenCache.TryNew | generate/src/cache.rs:20-34 | an id names a media type exactly when it is 0 to 5, and that type's discriminant is the id |
| GenCache.New | generate/src/cache.rs:16-18 | a valid id gives the media type `TryNew` finds |
| GenCache.Mime | generate/src/cache.rs:36-45 | every media type except XML has a non-empty MIME type |
| GenCache.MimeInjective | generate/src/cache.rs:36-45 | distinct media types have distinct MIME types |
| GenCache.DiscriminantRoundTrip | generate/src/cache.rs:5-34 | the stored discriminant reads back as the same media type |
| FetchCache.TryNew | fetch/src/cache.rs:33-50 | an id names a media type exactly when it is 0 to 8, and that type's discriminant is the id |
| FetchCache.New | fetch/src/cache.rs:22-24 | a valid id gives the media type `TryNew` finds |
| FetchCache.Mime | fetch/src/cache.rs:83-95 | every media type has a known MIME type that `from_mime` maps back to it |
| FetchCache.FromExtension | fetch/src/cache.rs:67-81 | an extension is recognised exactly when it is one of the ten listed; `jpeg` and `jpg` both give JPEG |
| FetchCache.Extension | fetch/src/cache.rs:106-118 | every media type's extension is recognised as that type |
| FetchCache.IsImage | fetch/src/cache.rs:26-31 | `is_image`; FetchCache.IsImageMime states which types it holds for |
| FetchCache.IsImageMime | fetch/src/cache.rs:26-31 | a media type is an image exactly when its MIME type lies under `image/`, that is for PNG, JPEG, SVG, GIF and WebP |
| FetchCache.DiscriminantRoundTrip | fetch/src/cache.rs:8-50 | the stored discriminant reads back as the same media type |
| FetchCache.ExtensionExamples | fetch/src/cache.rs:97-105 | the documented extensions of XHTML, PNG and JPEG |
| GenUtil.NewOptSetting | generate/src/util.rs:37-39 | a new optional setting is unset and gives nothing |
| GenUtil.Get | generate/src/util.rs:33-35 | an optional setting gives a value exactly when it is set |
| GenUtil.OptFrom | generate/src/util.rs:50-54 | a setting made from a value is set to it |
| GenUtil.OptSetThenGet | generate/src/util.rs:45-47 | after setting a value, the setting is set and gives that value |
| GenUtil.Dft | generate/src/util.rs:66-68 | a default setting reads as its default |
| GenUtil.SettingFrom | generate/src/util.rs:82-98 | a setting made from a value is an override reading as the value |
| GenUtil.Set | generate/src/util.rs:62-64 | setting makes an override reading as the new value |
| GenUtil.SetLastWins | generate/src/util.rs:62-64 | of two sets the last wins, whatever the setting held |
| Epubcheck.Ascii | generate/src/epubcheck.rs:48-67 | severity names are written as their ASCII bytes |
| Epubcheck.Max | generate/src/epubcheck.rs:164 | the maximum severity is one of the two and at least both |
| Epubcheck.RankInjective | generate/src/epubcheck.rs:35-42 | severities are ordered info, usage, warning, error, fatal, and the rank tells them apart |
| Epubcheck.DisplaySeverity | generate/src/epubcheck.rs:60-70 | a severity is written as 4 to 7 capital letters |
| Epubcheck.SeverityRoundTrip | generate/src/epubcheck.rs:44-70 | parsing gives a severity exactly for its written name, and fails on every other input |
| Epubcheck.ParseU8 | generate/src/epubcheck.rs:89 | a number parses only from a non-empty input other than a bare `+` |
| Epubcheck.ParseCode | generate/src/epubcheck.rs:81-95 | a code parses exactly from seven bytes with a dash at index 3 and a byte-sized number after it, keeping the three category bytes |
| Epubcheck.DisplayCode | generate/src/epubcheck.rs:98-102 | a code is written as its category, a dash and the number |
| Epubcheck.Decimal | generate/src/epubcheck.rs:100 | a number is written as non-empty decimal digits |
| Epubcheck.DecValueDecimal | generate/src/epubcheck.rs:100 | the decimal digits read back as the number |
| Epubcheck.DecimalWidth | generate/src/epubcheck.rs:100 | one, two or three digits for numbers below 10, 100 and 1000 |
| Epubcheck.CodeRoundTrip | generate/src/epubcheck.rs:81-102 | a code with a three-digit number reads back from its display; one below 100 is written unpadded and does not |
| Epubcheck.CodeUnpadded | generate/src/epubcheck.rs:81-102 | `RSC-005` parses as number 5, which is written back as `RSC-5` |
| Epubcheck.IsError | generate/src/epubcheck.rs:131-133 | a run is an error exactly when its most severe message is an error or fatal |
| Epubcheck.AsResultAsWritten | generate/src/epubcheck.rs:135-147 | as written, the result is Ok when nothing was reported or the worst severity exceeds the threshold |
| Epubcheck.AsResultInverted | generate/src/epubcheck.rs:137 | as written, a fatal run passes a warning threshold and an info run fails it |
| Epubcheck.AsResult | generate/src/epubcheck.rs:135-147 | corrected: Ok exactly when nothing was reported or the worst severity is within the threshold, otherwise the error lists the messages |
| Epubcheck.MostSevere | generate/src/epubcheck.rs:157-166 | the most severe is absent exactly for no messages, is some message's severity and bounds them all |
| Epubcheck.AsResultOfRun | generate/src/epubcheck.rs:135-166 | a run passes exactly when every message is within the threshold |
| Epubcheck.Find | generate/src/epubcheck.rs:159-160 | the search position lies within the input |
| Epubcheck.FindFirstOccurrence | generate/src/epubcheck.rs:159-160 | the search finds the first occurrence of the pattern |
| Epubcheck.SplitOnceSpec | generate/src/epubcheck.rs:159-160 | `split_once` splits around the first occurrence, and fails exactly when there is none |
| Epubcheck.TrimEnd | generate/src/epubcheck.rs:161 | trimming removes exactly the trailing run of the character |
| Epubcheck.ParseLineDisplay | generate/src/epubcheck.rs:117-122 | a displayed message line parses back to the message |
| Epubcheck.SplitAt | generate/src/epubcheck.rs:159-160 | a split at the first occurrence gives the two sides |
| Epubcheck.FindFirst | generate/src/epubcheck.rs:159-160 | the search stops at the first position where the pattern starts |
| Epubcheck.ReadLines | generate/src/epubcheck.rs:158-166 | reading succeeds with one message per line |
| Epubcheck.ReadLinesEach | generate/src/epubcheck.rs:158-166 | reading succeeds exactly when every line parses, and the messages are the lines' parses in order |
| Epubcheck.ReadRun | generate/src/epubcheck.rs:155-167 | the output is read exactly when it is valid UTF-8 and every line that `str::lines` yields (as `Lines` does) parses; the messages are those lines' parses in order, and the most severe is recorded |
| Epubcheck.Utf8Width | generate/src/epubcheck.rs:155 | the length of the well-formed UTF-8 sequence the bytes start with, following the table of well-formed byte sequences in section 3.9 of the Unicode Standard; at most four bytes, the later ones continuation bytes |
| Epubcheck.ValidUtf8 | generate/src/epubcheck.rs:155 | `std::str::from_utf8` succeeds; Epubcheck.ValidUtf8Iff states exactly when |
| Epubcheck.Encode | generate/src/epubcheck.rs:155 | the UTF-8 encoding of a scalar value is one to four bytes |
| Epubcheck.EncodeWidth | generate/src/epubcheck.rs:155 | every scalar value's encoding is read as one whole well-formed sequence, whatever follows it |
| Epubcheck.EncodeAllValid | generate/src/epubcheck.rs:155 | the encoding of any string of scalar values is valid UTF-8 |
| Epubcheck.DecodeFirstEncode | generate/src/epubcheck.rs:155 | a well-formed sequence holds a scalar value and is exactly that value's encoding |
| Epubcheck.DecodeAllEncode | generate/src/epubcheck.rs:155 | valid UTF-8 decodes to scalar values whose encoding is the input |
| Epubcheck.ValidUtf8Iff | generate/src/epubcheck.rs:155 | bytes are valid UTF-8 exactly when they are the encoding of some string of scalar values |
| Epubcheck.InvalidUtf8Examples | generate/src/epubcheck.rs:155 | a lone `FF`, the overlong `C0 80` and the surrogate `ED A0 80` are refused |
| Epubcheck.Lines | generate/src/epubcheck.rs:158 | `str::lines`: no line holds a `\n`, and the input is empty exactly when there is no line; the lemmas below pin down the `\r` handling |
| Epubcheck.FirstLf | generate/src/epubcheck.rs:158 | the first `\n` of the input, with none before it |
| Epubcheck.LinesFirst | generate/src/epubcheck.rs:158 | without `\r`, the first line is the input up to its first `\n`, and the rest is split the same way |
| Epubcheck.LinesTerminated | generate/src/epubcheck.rs:158 | without `\r`, ending every line with `\n` gives the input back, plus a `\n` when the input did not end with one |
| Epubcheck.LinesCrLf | generate/src/epubcheck.rs:158 | a line ended by `\r\n` loses the `\r` |
| Epubcheck.LinesBareCr | generate/src/epubcheck.rs:158 | a last line ended by the input keeps a bare `\r` |
| Epubcheck.LinesEmptyLine | generate/src/epubcheck.rs:158 | an empty line between two `\n` is kept; no empty line follows the final `\n` |
| Epubcheck.ParseLine | generate/src/epubcheck.rs:159-165 | one line split at the first `: ` and the first `(`, with the code's `)` trimmed; its round trip with the display is Epubcheck.ParseLineDisplay |
| Epubcheck.DisplayMessage | generate/src/epubcheck.rs:117-122 | a message is written `SEV(code): msg`; Epubcheck.ParseLineDisplay reads it back |
| Epubcheck.ErrorText | generate/src/epubcheck.rs:141-146 | the report of a failing run: `epubcheck errors:`, then each message on a line indented by eight spaces; Epubcheck.AsResult returns it |
| Epubcheck.ParseSeverity | generate/src/epubcheck.rs:44-57 | `from_str` of a severity: exactly the five upper-case names; its partner is Epubcheck.SeverityRoundTrip |
| Epubcheck.ReadStep | generate/src/epubcheck.rs:158-166 | each line adds its parse or stops the reading |
| Epubcheck.MostSevereStep | generate/src/epubcheck.rs:164 | each message raises the most severe to the maximum, starting from info |
| Epubcheck.NoneExtends | generate/src/epubcheck.rs:158-163 | once a line fails to parse, the whole reading fails |
| Minimize.Check | src/bin/minimize.rs:289-296 | `CaseType::check`; Minimize.CheckPolarity states it per kind |
| Minimize.CheckIsNeg | src/bin/minimize.rs:279-284 | only a rule the failing output omits is checked negated |
| Minimize.Satisfies | src/bin/minimize.rs:319-322 | a substring rule holds exactly when the text occurs in the rendering |
| Minimize.CheckPolarity | src/bin/minimize.rs:289-296 | a check is the rule itself for the two "has" kinds and its negation for the "omits" kind |
| Minimize.FailHasOmitsComplementary | src/bin/minimize.rs:289-296 | the "has" and "omits" checks of one rule are complementary, and the invariant check equals the "has" check |
| Minimize.SubstringExamples | src/bin/minimize.rs:706-713 | `abc` is found in `xxabcxx` and `abc` and not in `a c` |
| Minimize.CaseTypeNegations | src/bin/minimize.rs:716-726 | the three kinds hold and fail on `abc` and `a c` exactly as the test says |
| Minimize.HexDigit | src/bin/minimize.rs:219 | a digit below sixteen becomes a lower-case hexadecimal digit |
| Minimize.HexValue | src/bin/minimize.rs:219 | a hexadecimal digit has a value below sixteen |
| Minimize.Hex | src/bin/minimize.rs:219 | a code point is written in hexadecimal digits without leading zeros |
| Minimize.ParseHexOfHex | src/bin/minimize.rs:219 | reading the hexadecimal text gives the code point back |
| Minimize.EscapeChar | src/bin/minimize.rs:219 | one character escapes to printable ASCII |
| Minimize.Escape | src/bin/minimize.rs:219 | the escaped text is printable ASCII |
| Minimize.CloseBrace | src/bin/minimize.rs:219 | the first closing brace at or after a position, or the end |
| Minimize.UnescapePlain | src/bin/minimize.rs:219 | a plain character reads back as itself |
| Minimize.UnescapeSimple | src/bin/minimize.rs:219 | a two-character escape reads back as its character |
| Minimize.UnescapeUnicode | src/bin/minimize.rs:219 | a `\u{…}` escape reads back as its character |
| Minimize.UnescapeEscapeChar | src/bin/minimize.rs:219 | each escaped character reads back as itself |
| Minimize.UnescapeEscape | src/bin/minimize.rs:219 | a Rust string literal reading the escaped page gives the page back |
| Minimize.AsText | src/bin/minimize.rs:324-343 | as written: a substring rule becomes a `t.contains` call and a pattern rule a `regex_lite::Regex::parse` call, each on the escaped text |
| Minimize.AsTextCallsParse | src/bin/minimize.rs:338-343 | as written, a pattern rule calls `Regex::parse`, which is not among the functions that build a `regex_lite::Regex` |
| Minimize.AsTextFixed | src/bin/minimize.rs:324-343 | corrected: a substring rule is the `t.contains` call and a pattern rule builds its regex with `Regex::new`; in both the string literal reads back as the rule's text |
| Minimize.AsAssert | src/bin/minimize.rs:298-303 | as written: every rule becomes an `assert!(` statement around the as-written Minimize.AsText; Minimize.AsAssertFixedDiffers shows that a pattern rule's assertion calls `Regex::parse` |
| Minimize.AsAssertFixed | src/bin/minimize.rs:298-303 | corrected: an `assert!(` statement around Minimize.AsTextFixed; Minimize.AsAssertFixedDiffers relates it to the written one |
| Minimize.AsAssertFixedDiffers | src/bin/minimize.rs:298-303 | the corrected assertion equals the written one for a substring rule and is negated alike for every rule; for a pattern rule the written one calls `regex_lite::Regex::parse(` where the corrected one calls `regex_lite::Regex::new(` |
| Minimize.AsAssertNegated | src/bin/minimize.rs:298-303 | the assertion is negated exactly for a rule the failing output has |
| Minimize.AssertionOpposesCheck | src/bin/minimize.rs:289-303 | the generated assertion agrees with `check` for an invariant rule and contradicts it for the other two, so the test demands the fixed output |
| Minimize.NextOk | src/bin/minimize.rs:408-413 | the `next_must_be` condition; Minimize.NextOkMeaning states it |
| Minimize.NextOkMeaning | src/bin/minimize.rs:408-413 | with no demand any next link is fine; otherwise it must be the sentinel link, or absent |
| Minimize.Valid | src/bin/minimize.rs:400-439 | validity of a page: it parses, the next link is as demanded, every HTML matcher matches and every output rule checks; Minimize.IsValid decides it |
| Minimize.IsValid | src/bin/minimize.rs:400-439 | the loop decides exactly validity: the page parses, the next link is as demanded, every HTML matcher matches and every rule checks |
| Minimize.Asserts | src/bin/minimize.rs:390-395 | one as-written assertion per rule |
| Minimize.MapLinesAt | src/bin/minimize.rs:390-395 | the k-th line is the k-th item's text |
| Minimize.MapLinesSnoc | src/bin/minimize.rs:390-395 | one more item adds its line at the end |
| Minimize.AssertsAt | src/bin/minimize.rs:390-395 | the k-th assertion is the k-th rule's |
| Minimize.PushAsserts | src/bin/minimize.rs:390-395 | the loop appends exactly the rules' as-written assertions (`r.as_assert()`) |
| Minimize.TestCode | src/bin/minimize.rs:375-398 | as written: the header lines for the chosen rendering, then the substring assertions, then the pattern assertions, each as Minimize.AsAssert writes it |
| Minimize.TestCodeFixed | src/bin/minimize.rs:375-398 | corrected: the same header, then one Minimize.AsAssertFixed line per substring rule and per pattern rule |
| Minimize.TestCodeFixedDiffers | src/bin/minimize.rs:375-398 | the corrected test code has the as-written header and the as-written line of every substring rule; a pattern rule's line is Minimize.AsAssertFixed where the written one is Minimize.AsAssert |
| Minimize.LinesDiffer | src/bin/minimize.rs:390-395 | after any header, the corrected lines differ from the written ones only for pattern rules |
| Minimize.HasIllegalIff | src/bin/minimize.rs:190 | a name is illegal exactly when some character is neither ASCII alphanumeric nor `_` |
| Minimize.CheckName | src/bin/minimize.rs:181-201 | an accepted name is the trimmed line |
| Minimize.CheckTrimmed | src/bin/minimize.rs:182-201 | an accepted name is the given text |
| Minimize.CheckNameAccepts | src/bin/minimize.rs:181-201 | a line is accepted exactly when its trimmed text is non-empty, starts with no digit, has only legal characters and names no existing test |
| Minimize.CheckNameOrder | src/bin/minimize.rs:182-189 | an empty name is reported before a leading digit, and a leading digit before anything else |
| Minimize.NameAccepted | src/bin/minimize.rs:181-201 | `ch_2` is accepted when no such test exists |
| Minimize.NameLeadingDigit | src/bin/minimize.rs:186-189 | `2nd` is refused for its leading digit |
| Minimize.NameIllegal | src/bin/minimize.rs:190-193 | `a-b` is refused for an illegal character |
| Minimize.NameTrimmed | src/bin/minimize.rs:181 | surrounding spaces and the newline are trimmed before checking |
| Minimize.BlankNameRefused | src/bin/minimize.rs:182-185 | a blank line is refused as empty |
| Minimize.LinesRead | src/bin/minimize.rs:176-203 | the prompt reads no more lines than there are |
| Minimize.LinesReadFirstAccepted | src/bin/minimize.rs:176-203 | every line before the last one read is refused; the last one read is accepted when any is; otherwise all are read and refused |
| Minimize.PromptName | src/bin/minimize.rs:176-203 | the loop reads up to the first accepted line and returns its name, or none when no line is accepted |
| Minimize.PromptFollowsNameRule | src/bin/minimize.rs:176-203 | the prompt refuses exactly the lines that break the naming rule until it accepts one |
| Minimize.PromptStep | src/bin/minimize.rs:176-203 | an accepted line stops the prompt, and a refused line passes on to the rest |
| Minimize.SeparateInputAscii | src/bin/minimize.rs:210 | for an ASCII page the input goes to its own file exactly when it is longer than 2048 bytes |
| Minimize.PrologueAsWritten | src/bin/minimize.rs:217-234 | the generated prologue has at least one line |
| Minimize.LongInputNotParsed | src/bin/minimize.rs:231 | for a long page the last prologue line is no `parse_document` call, so the generated test does not compile |
| Minimize.Prologue | src/bin/minimize.rs:217-234 | the corrected prologue has at least one line |
| Minimize.PrologueParsesPage | src/bin/minimize.rs:217-234 | the corrected prologue ends by parsing the page; a short page is embedded as a literal that reads back as the page, and a long one is read from the input file written beside the test |
| Minimize.Assemble | src/bin/minimize.rs:221-237 | a test file is its prologue, each code line indented by four spaces, and a closing brace |
| Minimize.ParseLineIndent | src/bin/minimize.rs:233 | the statement that parses the page is indented and has a space right after `html`, where the type ascriptions the source writes have `:` |
| Minimize.TestSourceLongNotParsed | src/bin/minimize.rs:208-238 | the test file as written for a page over 2048 bytes holds the test code after a prologue none of whose lines parses the page |
| Minimize.TestSourceFixedParses | src/bin/minimize.rs:208-238 | the test file on the corrected prologue holds the test code right after a line that parses the page, inline or from the input file |

## Left out

- The CSS-selector engine, the regular-expression engine and the HTML parser and serialiser are foreign libraries. They are parameters of the model, so the serialise-and-reparse step after a delete (src/def/sed.rs:336-339) is not modelled.
- `Sed::print` and all logging (`info!`, `debug!`, `warn!`, `eprintln!`) only have effects on the log, so they are left out.
- Storage, network and time are left out: the SQLite object caches, the network client, the rate limiter, image fetching in `resolve_resources` and `set_cover`, the zip output of `EpubBuilder::finish`, and writing `OpfSpec`.
- In `OpfBuilder::finish` the wall clock is read. The model takes the timestamp as a parameter.
- The `epubcheck` subprocess and its lock are left out. The model starts from the tool's standard error as bytes.
- `url_id` hashing and its collision map are left out. The image id is given.
- The unsafe `MemCtx` is left out.
- From the minimiser's driver, the following are left out: the greedy delete, unwrap and strip loops, the `clap` arguments, file creation, `rustfmt`, and `invalid_reasons` together with `fail_msg`.
- The minimiser's stdin prompt is a list of lines. At the end of input the source keeps prompting forever; the model stops when the lines run out.
- The minimiser's parse oracle, serialisation and page are parameters of `Minimize.Valid`.
- Serde, TOML and URL plumbing is left out. The visitors of src/def/urlsel.rs and src/def/langde.rs are folds over key/value entries, and URLs are plain strings.
- UrlSel.VisitStr: URL parsing is not modelled, so the invalid-value error for a malformed URL is not reached.
- The following selector-only glue is left out, because it depends only on the selector engine: the Reigokai `title`, `next_chapter` and `simple_title`; `parse_multichapter_page` (`todo!` or `unimplemented!`); src/shikka.rs; and src/main.rs.
- `descend` is the one in src/common.rs. The rule sets call an `add_basic` that takes overrides and a `ProcessConfig`; that signature is not part of this model. The calls are modelled with the `add_basic` of src/common.rs.
- In src/il.rs the `removed` counter only feeds a message, so it is not kept.
- In `SedEval` and `SedApply`, `select` is taken as the strict descendants of an element, and node indices as document order.
- The override rule groups are shared through `Rc` in the source. Here they are values. The order in which `with_url` visits the remaining active groups is HashMap order, which the source does not fix, so Overrides.CollectActive states the collected groups only as a multiset (`Groups`).
- `Setting` and `OptSetting` are values. `set` returns the new value instead of overwriting `*self`.
- `EpubBuilder` keeps only what the modelled operations read: chapter ids and sizes, sections, identifiers, and the compression and chunk settings.
- `sort_identifiers` is a stable sort by type. The library sort is modelled by `Book.SortByType`, with its correctness proved; the permutation and stability are stated through the parts of each type.
- `usize` arithmetic in book.rs is unbounded in the model, apart from the `usize::MAX - start` of the last section, which is written out.
- The two chapter serialisers use an inline element, `ExternalLink`, that generate/src/chapter.rs does not declare. Here it is an extra variant seen only by the serialisers.
- generate/src/epub/book.rs uses package-builder fields that do not match generate/src/epub/package.rs. Each file's operations are modelled from that file.
- In `XmlSink`, I/O errors, `Element::flush` and partial writes are not modelled. Every write succeeds and writes all of its bytes.
- FetchCache.FromMime requires a MIME type the table knows. For any other string the source panics.
- GenCache.New and FetchCache.New require an id in range. The source panics otherwise (`expect`).
- GenCache.Mime is not defined for `Xml`, where the source has `todo!()`.
- Epubcheck.ParseLine returns `None` on a malformed line, where the source panics on `unwrap`. Epubcheck.ReadRun passes that `None` on.
- Epubcheck.ReadRun returns `None` when the tool's output is not valid UTF-8, where the source panics on `std::str::from_utf8(..).unwrap()` (generate/src/epubcheck.rs:155).
- Book.ChunkChapters requires at least one chapter. It is called only from `EpubBuilder::finish`, whose `assert!(!self.chapters.is_empty())` (generate/src/epub/book.rs:188) panics on a book without chapters.
- Book.EpubBuilder.Layout requires at least one chapter, for the same `assert!` of `finish` (generate/src/epub/book.rs:188); the panic itself is not modelled.
- Epubcheck.CodeRoundTrip holds only for codes of at least 100. A smaller number is written without zero padding, so `RSC-005` reads back as `RSC-5` (see Epubcheck.CodeUnpadded).
- Ser.XmlLinkVerbatim: an external link's href and text are written unescaped into XHTML. The model keeps this, because it is what the source does.
- src/rulesets/syosetu.rs:74 calls `overrides.should_delete(el)`, which the source does not define. The model supplies `RulesetIl.OverrideDeletes`, "some replacer of the override set deletes the element", as that definition; it is an assumption, matching what src/rulesets/il.rs:57 does with `overrides.replacers().any(|s| s.should_delete(el))`.
- The doc comment of `parent_css_match` (src/def/sed.rs:192-195) says it matches the element or its parents, but the code walks `ancestors()`, which leaves out the element itself. SedEval.ParentCssMatch follows the code.
- Syosetu.SeparatorsOnly is weaker than the full rendering. It states only that a body of separators adds at least one completed element per separator.
- `ChapterBuilder` keeps the source's set-wise transitions, because the rendering tests of generate/src/chapter.rs fix their output. The corrected, properly nesting transition is a separate definition in `Nesting` (see "Findings").

## Findings

| source | as written | input that shows it | evidently intended | confidence | as-written member | corrected member |
|---|---|---|---|---|---|---|
| generate/src/epubcheck.rs:137 | `as_result` returns `Ok` when the most severe message is *above* `max_sev` | with `max_sev` = `WARNING`: a run whose only message is `FATAL` passes, and one whose only message is `INFO` fails | `Ok` exactly when no message is more severe than `max_sev` | high; not executed | Epubcheck.AsResultInverted | Epubcheck.AsResult |
| generate/src/chapter.rs:445-458 | the transition closes the removed flags and opens the added ones in flag order, whatever order the tags were opened in | bold-italic `x` followed by italic `y`: the paragraph is written `<b><i>x</b>y</i>` | close down to the first unwanted element, then reopen the wanted ones, so the tags nest | medium; not executed | Nesting.AsWrittenNotWellNested | Nesting.NestedRenderWellNested |
| src/def/sed.rs:321 | the delete-with-expression path unwraps the selector | `d/./`, which the parser accepts (it is in the accepted list of the parse tests); applying it panics at the `expect` | without a selector every element counts as selected, as `is_css_match` says | high; not executed | SedApply.DeleteRegexOnlyPanics | SedApply.Html.ApplyDeletes |
| src/bin/minimize.rs:231 | a long input is read with the line `let html: scraper::HTML::parse_document(html);`, which is not valid Rust | any page whose serialisation is longer than 2048 bytes | `let html = scraper::Html::parse_document(html);` | high; not executed | Minimize.TestSourceLongNotParsed | Minimize.TestSourceFixedParses |
| src/bin/minimize.rs:338-343 | a pattern rule is written as `regex_lite::Regex::parse("…").unwrap().is_match(&t)`, but `regex_lite::Regex` has no associated `parse` (it is built with `new` or through `FromStr`); `as_assert` (minimize.rs:298-303) and `test_code` (minimize.rs:375-398) carry the call into every generated test | any validation with a regex rule: the generated test does not compile | `regex_lite::Regex::new("…").unwrap().is_match(&t)` | medium; not executed | Minimize.AsTextCallsParse, Minimize.AsAssertFixedDiffers | Minimize.AsTextFixed, Minimize.TestCodeFixedDiffers |
