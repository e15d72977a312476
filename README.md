# Style resolution of a small HTML/CSS renderer, in Dafny

This project models the style stage of a toy browser engine (`src/style.rs`).
That stage takes a document tree and a style sheet and produces a styled tree.
It decides which rules match each element and with what specificity. It then
runs the cascade: the matching rules are sorted stably by specificity and
their declarations are written into a property map, so later writes overwrite
earlier ones. The styled tree mirrors the document tree. Later stages read it
through the `value`, `display` and `lookup` accessors.

Files and modules:

- `wrappers.dfy` (`Wrappers`): `Option`, with `GetOr` standing for `unwrap_or_else` applied to a closure that only yields a value.
- `css.dfy` (`Css`): simple selectors, rules, declarations, values and
  specificity. Specificity is a triple compared lexicographically, like Rust's
  tuple `cmp`.
- `dom.dfy` (`Dom`): document nodes (element or text, with children) and
  element data (tag name, optional id, set of classes).
- `style.dfy` (`Style`): all of `src/style.rs`.
  - Selector matching: `MatchesSimpleSelector`, `Matches`, `FindSelector`, `MatchRule`.
  - Collecting the matching rules: `MatchingRules`.
  - The stable sort: `SortBySpecificity`.
  - The cascade: `SpecifiedValues` is an imperative method with nested loops.
    It is proved equal to the function `Cascade`. `Cascade` is then
    characterised directly on the style sheet by the `Wins` predicate.
  - The styled tree: `StyleTree`.
  - The accessors on `StyledNode`: `Value`, `DisplayOf`, `Lookup`.

The main theorem is `CascadeResolves`. A property is in an element's map iff
some matching rule declares it. Its value is the one from the winning
declaration. That declaration has the highest specificity. On equal
specificity it comes from the latest rule in the style sheet. Within one rule
it is the last declaration of that name. `WinnerUnique` shows that at most one
declaration wins, and `WinnerDecides` gives the converse of `CascadeResolves`.
Together they pin the map down completely.

## Model

| member | source | states |
|---|---|---|
| `Wrappers.Option.GetOr` | src/style.rs:40-41 | gives the carried value when present, and the default otherwise |
| `Css.Cmp` | src/style.rs:86 | the comparison used by the sort: Less, Equal and Greater each hold exactly when the specificities are lexicographically lower, equal or higher |
| `Css.LexLessTotal` | src/style.rs:86 | the specificity order is irreflexive and asymmetric, and any two specificities are comparable; with `LexLessTransitive` it is a strict total order |
| `Css.LexLessTransitive` | src/style.rs:86 | the specificity order is transitive |
| `Style.StyledNode.Value` | src/style.rs:24-26 | gives a value exactly when the name is a key of the node's map, and then the value stored under that key |
| `Style.StyledNode.DisplayOf` | src/style.rs:28-37 | Block iff `display` is `Keyword("block")`; None iff it is `Keyword("none")`; Inline for any other value or when it is absent |
| `Style.StyledNode.Lookup` | src/style.rs:39-42 | gives the value of `name` if present, else the value of `fallbackName` if present, else `default`; it has no precondition and never fails |
| `Style.AnyClassMissing` | src/style.rs:61 | true iff some class listed by the selector is not in the element's class set |
| `Style.MatchesSimpleSelector` | src/style.rs:51-66 | matches iff the tag (if given) equals the element's tag, the id (if given) equals the element's id, and every listed class is in the element's class set |
| `Style.Matches` | src/style.rs:45-49 | a selector matches iff its simple selector's filters are all satisfied |
| `Style.UniversalSelectorMatches` | src/style.rs:51-66 | a selector with no tag, no id and no classes matches every element |
| `Style.MissingAttributesFailFilters` | src/style.rs:56-63 | an element without an id fails any id filter; an element lacking a listed class fails the class filter |
| `Style.FindSelector` | src/style.rs:71-72 | returns nothing iff no selector matches; otherwise returns the position of the first matching selector |
| `Style.MatchRule` | src/style.rs:70-74 | returns nothing iff no selector of the rule matches; otherwise returns the rule itself with the specificity of the first matching selector in declared order |
| `Style.FirstMatchWins` | src/style.rs:70-74 | for `<div class="highlight">`, the rule `div, .highlight` gets the specificity of `div`, and `.highlight, div` gets that of `.highlight`: the first match wins, not the highest |
| `Style.MatchingRules` | src/style.rs:76-80 | no contract of its own: it is `FilterMapRules` on the style sheet's rules, and `MatchingRulesExact` characterises it |
| `Style.FilterMapRules` | src/style.rs:77-79 | the result is no longer than the rule list, and each entry is what `MatchRule` returns for some rule of the list |
| `Style.MatchingRulesExact` | src/style.rs:76-80 | the matching rules are exactly the style sheet's matching rules, each once, in style-sheet order: a strictly increasing map to style-sheet positions that covers every matching rule |
| `Style.InsertBySpecificity` | src/style.rs:86 | the insertion step of the sort adds one entry; `InsertBySpecificityPermutes` and `SortBySpecificityStable` characterise it further |
| `Style.InsertBySpecificityPermutes` | src/style.rs:86 | insertion adds exactly the new entry: the multiset of entries grows by that entry and nothing else |
| `Style.SortBySpecificity` | src/style.rs:86 | the sort keeps the number of entries; `SortBySpecificityStable` gives the rest of its contract |
| `Style.SortBySpecificityStable` | src/style.rs:86 | the sort permutes its input, and the result strictly ascends by (specificity, original position): it is sorted by specificity and keeps the original order among equal specificities |
| `Style.SortedMatchingRules` | src/style.rs:84-86 | after sorting, the list holds every matching style-sheet rule exactly once, ascending by specificity and then by style-sheet position |
| `Style.ApplyDeclarations` | src/style.rs:88-90 | no contract of its own: the inner loop's insertions as a fold, characterised by `ApplyDeclarationsLastWins` |
| `Style.ApplyDeclarationsLastWins` | src/style.rs:88-90 | inserting declarations in order: a name is present iff it was present or is declared, and the last declaration of a name gives its value |
| `Style.ApplyRules` | src/style.rs:87-91 | no contract of its own: the outer loop as a fold, characterised by `ApplyRulesLastWins` |
| `Style.ApplyRulesLastWins` | src/style.rs:87-91 | applying a list of rules in order: a name is present iff some rule declares it, and its value comes from the last (rule, declaration) pair in list order that declares it |
| `Style.Cascade` | src/style.rs:82-93 | no contract of its own: matching, sorting and applying composed; `CascadeResolves`, `WinnerUnique` and `WinnerDecides` characterise it |
| `Style.CascadeResolves` | src/style.rs:82-93 | a property is present iff some matching rule declares it, and its value comes from the winning declaration: highest specificity, then latest rule, then latest declaration in that rule |
| `Style.CascadeResolvesAll` | src/style.rs:82-93 | `CascadeResolves` for every property name at once |
| `Style.WinnerUnique` | src/style.rs:82-93 | two winning declarations for one name are the same declaration, so the cascade is deterministic |
| `Style.WinnerDecides` | src/style.rs:82-93 | the winning declaration of a name fixes that name's resolved value |
| `Style.LaterRuleWinsOnTie` | src/style.rs:86-91 | of two matching rules with equal specificity, the later rule decides every property it declares: the value is that of its last declaration of the property, whatever the earlier rule declares |
| `Style.EarlierRuleLosesOnTie` | src/style.rs:86-91 | when two matching rules of equal specificity both declare a property, no declaration of the earlier rule wins; the property is resolved, by a declaration of another rule |
| `Style.HigherSpecificityWins` | src/style.rs:86-91 | a rule whose specificity is strictly higher than every other rule setting the property supplies the value of its last declaration of that property |
| `Style.SpecifiedValues` | src/style.rs:82-93 | the method's nested loops build exactly `Cascade`, so its keys are exactly the declared properties of the matching rules and each value is the winning declaration's |
| `Style.StyleTree` | src/style.rs:95-103 | the styled node points at its document node and has one child per document child, each pointing at that child; `StyleTreeFaithful` gives the maps |
| `Style.StyleTreeFaithful` | src/style.rs:95-103 | the styled tree has the document tree's shape, one styled child per child in the same order, each pointing at its node; elements carry their cascade and text nodes an empty map |
| `Style.StyleTreeUnique` | src/style.rs:95-103 | any styled tree with that shape and those maps is the one `style_tree` builds |
| `Style.StyleTreeSize` | src/style.rs:102 | the styled tree has as many nodes as the document tree |
| `Style.TextNodeUnstyled` | src/style.rs:98-100 | a text node gets an empty map, so it displays Inline and every lookup returns the default |

## Left out

- The borrowed reference from a styled node to its document node, and its lifetime, are not modelled. `StyledNode` holds the node value instead.
- `PropertyMap` is a Dafny `map`, so `HashMap` iteration order is not modelled. No code here depends on that order.
- `SortBySpecificity`: Rust's in-place `sort_by` on the rule vector is modelled as a pure stable insertion sort on a sequence. Only the library's contract is modelled: ascending by specificity, and stable. Its merge-sort algorithm and the in-place update are not.
- `FindSelector` and `MatchRule` return a position and a rule value where the source returns references.
- `src/css.rs` is not part of this model. `SpecificityOf` stands for `Selector::specificity`. It gives the usual CSS triple: the number of ids, of classes and of tag names in the selector.
- `src/dom.rs` is not part of this model. An element's id and class set are given directly. The parsing of the `id` and `class` attributes (`ElementData::id`, `ElementData::classes`) is not modelled.
- The payloads of `Value` other than keywords (lengths, colours) are opaque data here. Rust's `f32` lengths are carried as exact reals, and no code in this stage reads them.
- `StyleTree` uses the function `Cascade` where the source calls `specified_values`. The method `SpecifiedValues` is proved to return exactly `Cascade`.
- `src/main.rs` is not part of this model: command-line parsing, file reading, PNG and PDF output. The HTML and CSS parsers and the layout, painting and PDF modules are not part of this model either.
