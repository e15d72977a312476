/**
 * The style stage of the renderer (`src/style.rs`): selector matching, the
 * cascade that turns matching rules into one property map per element, the
 * styled tree that mirrors the document tree, and the property accessors
 * that later stages use.
 */
module Style {
  import opened Wrappers
  import opened Css
  import opened Dom

  /** Property name to declared value; a name appears at most once. */
  type PropertyMap = map<string, Value>

  /** The box kind an element asks for through its `display` property. */
  datatype Display = Inline | Block | None

  /**
   * A document node paired with its resolved properties and its styled
   * children. The source borrows the node; here the node value itself is kept.
   */
  datatype StyledNode = StyledNode(node: Node, specifiedValues: PropertyMap, children: seq<StyledNode>)
  {
    /** `value`: the resolved value of a property, if the node has one. */
    function Value(name: string): (r: Option<Css.Value>)
      ensures r.Some? <==> name in specifiedValues
      ensures r.Some? ==> r.value == specifiedValues[name]
    {
      if name in specifiedValues then Some(specifiedValues[name]) else Option.None
    }

    /** `display`: Block or None for those two keywords, Inline for anything else or nothing. */
    function DisplayOf(): (d: Display)
      ensures d == Block <==> Value("display") == Some(Keyword("block"))
      ensures d == Display.None <==> Value("display") == Some(Keyword("none"))
      ensures d == Inline <==>
                Value("display") != Some(Keyword("block")) && Value("display") != Some(Keyword("none"))
    {
      match Value("display")
      case Some(Keyword(s)) =>
        if s == "block" then Block else if s == "none" then Display.None else Inline
      case _ => Inline
    }

    /** `lookup`: the first of `name`, then `fallbackName`, that is present; else `default`. */
    function Lookup(name: string, fallbackName: string, default: Css.Value): (v: Css.Value)
      ensures name in specifiedValues ==> v == specifiedValues[name]
      ensures name !in specifiedValues && fallbackName in specifiedValues ==> v == specifiedValues[fallbackName]
      ensures name !in specifiedValues && fallbackName !in specifiedValues ==> v == default
    {
      Value(name).GetOr(Value(fallbackName).GetOr(default))
    }
  }

  // ---------------------------------------------------------------------
  // Selector matching
  // ---------------------------------------------------------------------

  /** What it means for an element to satisfy a simple selector: every filter it sets holds. */
  ghost predicate Satisfies(elem: ElementData, selector: SimpleSelector)
  {
    && (selector.tagName.Some? ==> selector.tagName.value == elem.tagName)
    && (selector.id.Some? ==> elem.id == Some(selector.id.value))
    && (forall c :: c in selector.classes ==> c in elem.classes)
  }

  /** The class check of `matches_simple_selector`: does any listed class fail to appear on the element? */
  function AnyClassMissing(classes: seq<string>, elemClasses: set<string>): (r: bool)
    ensures r <==> exists i :: 0 <= i < |classes| && classes[i] !in elemClasses
  {
    if classes == [] then false
    else classes[0] !in elemClasses || AnyClassMissing(classes[1..], elemClasses)
  }

  /** `matches_simple_selector`: reject on a tag, an id, or a class filter that fails. */
  function MatchesSimpleSelector(elem: ElementData, selector: SimpleSelector): (r: bool)
    ensures r <==> Satisfies(elem, selector)
  {
    if selector.tagName.Some? && elem.tagName != selector.tagName.value then false
    else if selector.id.Some? && elem.id != Some(selector.id.value) then false
    else if AnyClassMissing(selector.classes, elem.classes) then false
    else true
  }

  /** `matches`: dispatch on the selector kind (only simple selectors exist). */
  function Matches(elem: ElementData, selector: Selector): (r: bool)
    ensures r <==> Satisfies(elem, selector.simple)
  {
    match selector
    case Simple(simple) => MatchesSimpleSelector(elem, simple)
  }

  /** A selector with no filters matches every element. */
  lemma UniversalSelectorMatches(elem: ElementData)
    ensures Matches(elem, Simple(SimpleSelector(Option.None, Option.None, [])))
  {
  }

  /** An element without an id, or without some class, just fails the filters that ask for them. */
  lemma MissingAttributesFailFilters(elem: ElementData, selector: SimpleSelector)
    requires (elem.id.None? && selector.id.Some?) || (exists c :: c in selector.classes && c !in elem.classes)
    ensures !MatchesSimpleSelector(elem, selector)
  {
  }

  /** Position `i` holds the first selector of the list that matches. */
  ghost predicate FirstMatchAt(elem: ElementData, selectors: seq<Selector>, i: int)
  {
    && 0 <= i < |selectors|
    && Matches(elem, selectors[i])
    && forall j :: 0 <= j < i ==> !Matches(elem, selectors[j])
  }

  /** The search of `match_rule` for the first matching selector; it gives that selector's position. */
  function FindSelector(elem: ElementData, selectors: seq<Selector>): (r: Option<nat>)
    ensures r.None? <==> forall i :: 0 <= i < |selectors| ==> !Matches(elem, selectors[i])
    ensures r.Some? ==> FirstMatchAt(elem, selectors, r.value)
  {
    if selectors == [] then Option.None
    else if Matches(elem, selectors[0]) then Some(0)
    else match FindSelector(elem, selectors[1..])
      case None => Option.None
      case Some(i) => Some(i + 1)
  }

  /** A rule that matched, with the specificity of the selector that matched it. */
  datatype MatchedRule = MatchedRule(specificity: Specificity, rule: Rule)

  /** `match_rule`: the specificity of the first matching selector, not the highest. */
  function MatchRule(elem: ElementData, rule: Rule): (r: Option<MatchedRule>)
    ensures r.None? <==> forall i :: 0 <= i < |rule.selectors| ==> !Matches(elem, rule.selectors[i])
    ensures r.Some? ==> r.value.rule == rule
    ensures r.Some? ==> exists i :: FirstMatchAt(elem, rule.selectors, i)
                                    && r.value.specificity == SpecificityOf(rule.selectors[i])
  {
    match FindSelector(elem, rule.selectors)
    case None => Option.None
    case Some(i) => Some(MatchedRule(SpecificityOf(rule.selectors[i]), rule))
  }

  /** A rule `div, .highlight` on `<div class="highlight">` takes the specificity of `div`; reversed, of `.highlight`. */
  lemma FirstMatchWins()
    ensures var elem := ElementData("div", Option.None, {"highlight"});
            var byTag := Simple(SimpleSelector(Some("div"), Option.None, []));
            var byClass := Simple(SimpleSelector(Option.None, Option.None, ["highlight"]));
            && MatchRule(elem, Rule([byTag, byClass], [])).Some?
            && MatchRule(elem, Rule([byTag, byClass], [])).value.specificity == Specificity(0, 0, 1)
            && MatchRule(elem, Rule([byClass, byTag], [])).Some?
            && MatchRule(elem, Rule([byClass, byTag], [])).value.specificity == Specificity(0, 1, 0)
  {
    var elem := ElementData("div", Option.None, {"highlight"});
    var byTag := Simple(SimpleSelector(Some("div"), Option.None, []));
    var byClass := Simple(SimpleSelector(Option.None, Option.None, ["highlight"]));
    assert Matches(elem, byTag) && Matches(elem, byClass);
    assert FindSelector(elem, [byTag, byClass]) == Some(0);
    assert FindSelector(elem, [byClass, byTag]) == Some(0);
  }

  /** The filtering step of `matching_rules`: keep the result of `match_rule` for each rule that matches. */
  function FilterMapRules(elem: ElementData, rules: seq<Rule>): (r: seq<MatchedRule>)
    ensures |r| <= |rules|
    ensures forall k :: 0 <= k < |r| ==> r[k].rule in rules && MatchRule(elem, r[k].rule) == Some(r[k])
  {
    if rules == [] then []
    else
      var head := match MatchRule(elem, rules[0]) case Some(m) => [m] case None => [];
      head + FilterMapRules(elem, rules[1..])
  }

  /** `matching_rules`: the matching rules of the style sheet, in style-sheet order. */
  function MatchingRules(elem: ElementData, stylesheet: StyleSheet): seq<MatchedRule>
  {
    FilterMapRules(elem, stylesheet.rules)
  }

  /**
   * `idx` maps each entry of `matched` to its rule's position in `rules`:
   * positions strictly increase, and every matching rule has one.
   */
  ghost predicate IndexesMatches(elem: ElementData, rules: seq<Rule>, matched: seq<MatchedRule>, idx: seq<nat>)
  {
    && |idx| == |matched|
    && (forall k :: 0 <= k < |idx| ==> idx[k] < |rules| && MatchRule(elem, rules[idx[k]]) == Some(matched[k]))
    && (forall k1, k2 :: 0 <= k1 < k2 < |idx| ==> idx[k1] < idx[k2])
    && (forall i :: 0 <= i < |rules| && MatchRule(elem, rules[i]).Some? ==> i in idx)
  }

  /** The result of `match_rule` for every rule of the list, in order. */
  function MatchResults(elem: ElementData, rules: seq<Rule>): (r: seq<Option<MatchedRule>>)
    ensures |r| == |rules|
    ensures forall i :: 0 <= i < |rules| ==> r[i] == MatchRule(elem, rules[i])
  {
    seq(|rules|, i requires 0 <= i < |rules| => MatchRule(elem, rules[i]))
  }

  /** The payloads of the `Some` entries, in order: what a `filter_map` keeps. */
  function Somes<T>(xs: seq<Option<T>>): seq<T>
  {
    if xs == [] then []
    else if xs[0].Some? then [xs[0].value] + Somes(xs[1..])
    else Somes(xs[1..])
  }

  /**
   * `idx` maps each entry of `ys` to the position of its `Some` in `xs`:
   * positions strictly increase, and every `Some` has one.
   */
  ghost predicate IndexesSomes<T>(xs: seq<Option<T>>, ys: seq<T>, idx: seq<nat>)
  {
    && |idx| == |ys|
    && (forall k :: 0 <= k < |idx| ==> idx[k] < |xs| && xs[idx[k]] == Some(ys[k]))
    && (forall k1, k2 :: 0 <= k1 < k2 < |idx| ==> idx[k1] < idx[k2])
    && (forall i :: 0 <= i < |xs| && xs[i].Some? ==> i in idx)
  }

  lemma {:induction false} SomesIndexes<T>(xs: seq<Option<T>>) returns (idx: seq<nat>)
    ensures IndexesSomes(xs, Somes(xs), idx)
    decreases |xs|
  {
    if xs == [] {
      idx := [];
    } else {
      var tail := SomesIndexes(xs[1..]);
      var shifted := ShiftSomes(xs, tail);
      if xs[0].Some? {
        idx := [0] + shifted;
        PrependSome(xs, shifted);
      } else {
        idx := shifted;
        SkipNone(xs, shifted);
      }
    }
  }

  /** Indexes into `xs[1..]`, moved up by one, index into `xs`. */
  lemma ShiftSomes<T>(xs: seq<Option<T>>, tail: seq<nat>) returns (shifted: seq<nat>)
    requires |xs| > 0 && IndexesSomes(xs[1..], Somes(xs[1..]), tail)
    ensures |shifted| == |tail|
    ensures forall k :: 0 <= k < |shifted| ==> 0 < shifted[k] < |xs| && xs[shifted[k]] == Some(Somes(xs[1..])[k])
    ensures forall k1, k2 :: 0 <= k1 < k2 < |shifted| ==> shifted[k1] < shifted[k2]
    ensures forall i :: 1 <= i < |xs| && xs[i].Some? ==> i in shifted
  {
    shifted := seq(|tail|, k requires 0 <= k < |tail| => tail[k] + 1);
    ShiftedEntries(xs, tail, shifted);
    ShiftedCovers(xs, tail, shifted);
  }

  lemma ShiftedEntries<T>(xs: seq<Option<T>>, tail: seq<nat>, shifted: seq<nat>)
    requires |xs| > 0 && IndexesSomes(xs[1..], Somes(xs[1..]), tail)
    requires |shifted| == |tail| && forall k :: 0 <= k < |tail| ==> shifted[k] == tail[k] + 1
    ensures forall k :: 0 <= k < |shifted| ==> 0 < shifted[k] < |xs| && xs[shifted[k]] == Some(Somes(xs[1..])[k])
  {
    forall k | 0 <= k < |shifted|
      ensures 0 < shifted[k] < |xs| && xs[shifted[k]] == Some(Somes(xs[1..])[k])
    {
      assert xs[1..][tail[k]] == xs[shifted[k]];
    }
  }

  lemma ShiftedCovers<T>(xs: seq<Option<T>>, tail: seq<nat>, shifted: seq<nat>)
    requires |xs| > 0 && IndexesSomes(xs[1..], Somes(xs[1..]), tail)
    requires |shifted| == |tail| && forall k :: 0 <= k < |tail| ==> shifted[k] == tail[k] + 1
    ensures forall i :: 1 <= i < |xs| && xs[i].Some? ==> i in shifted
  {
    forall i | 1 <= i < |xs| && xs[i].Some?
      ensures i in shifted
    {
      assert xs[1..][i - 1] == xs[i];
      var k :| 0 <= k < |tail| && tail[k] == i - 1;
      assert shifted[k] == i;
    }
  }

  /** When `xs` starts with `None`, the shifted indexes are already complete. */
  lemma SkipNone<T>(xs: seq<Option<T>>, shifted: seq<nat>)
    requires |xs| > 0 && xs[0].None? && |shifted| == |Somes(xs[1..])|
    requires forall k :: 0 <= k < |shifted| ==> 0 < shifted[k] < |xs| && xs[shifted[k]] == Some(Somes(xs[1..])[k])
    requires forall k1, k2 :: 0 <= k1 < k2 < |shifted| ==> shifted[k1] < shifted[k2]
    requires forall i :: 1 <= i < |xs| && xs[i].Some? ==> i in shifted
    ensures IndexesSomes(xs, Somes(xs), shifted)
  {
    assert Somes(xs) == Somes(xs[1..]);
  }

  /** When `xs` starts with a `Some`, position 0 goes in front of the shifted indexes. */
  lemma PrependSome<T>(xs: seq<Option<T>>, shifted: seq<nat>)
    requires |xs| > 0 && xs[0].Some? && |shifted| == |Somes(xs[1..])|
    requires forall k :: 0 <= k < |shifted| ==> 0 < shifted[k] < |xs| && xs[shifted[k]] == Some(Somes(xs[1..])[k])
    requires forall k1, k2 :: 0 <= k1 < k2 < |shifted| ==> shifted[k1] < shifted[k2]
    requires forall i :: 1 <= i < |xs| && xs[i].Some? ==> i in shifted
    ensures IndexesSomes(xs, Somes(xs), [0] + shifted)
  {
    var idx, rest := [0] + shifted, Somes(xs[1..]);
    var ys := [xs[0].value] + rest;
    assert Somes(xs) == ys;
    forall k | 0 <= k < |idx|
      ensures idx[k] < |xs| && xs[idx[k]] == Some(ys[k])
    {
      if k > 0 {
        assert idx[k] == shifted[k - 1] && ys[k] == rest[k - 1];
      }
    }
    forall k1, k2 | 0 <= k1 < k2 < |idx|
      ensures idx[k1] < idx[k2]
    {
      if k1 > 0 {
        assert idx[k1] == shifted[k1 - 1];
      }
    }
  }

  /** Filtering the rules is keeping the `Some` results of `match_rule`. */
  lemma {:induction false} FilterMapRulesSomes(elem: ElementData, rules: seq<Rule>)
    ensures FilterMapRules(elem, rules) == Somes(MatchResults(elem, rules))
    decreases |rules|
  {
    if rules != [] {
      FilterMapRulesSomes(elem, rules[1..]);
      assert MatchResults(elem, rules)[1..] == MatchResults(elem, rules[1..]);
    }
  }

  lemma FilterMapRulesIndexes(elem: ElementData, rules: seq<Rule>) returns (idx: seq<nat>)
    ensures IndexesMatches(elem, rules, FilterMapRules(elem, rules), idx)
  {
    var xs := MatchResults(elem, rules);
    idx := SomesIndexes(xs);
    FilterMapRulesSomes(elem, rules);
  }

  /** The matching rules are exactly the rules that match, each once, in style-sheet order. */
  lemma MatchingRulesExact(elem: ElementData, stylesheet: StyleSheet) returns (idx: seq<nat>)
    ensures IndexesMatches(elem, stylesheet.rules, MatchingRules(elem, stylesheet), idx)
  {
    idx := FilterMapRulesIndexes(elem, stylesheet.rules);
  }

  // ---------------------------------------------------------------------
  // Stable sort by specificity
  // ---------------------------------------------------------------------

  /** Strict order on (specificity, position) pairs: the order a stable ascending sort produces. */
  predicate KeyLess(a: Specificity, p: int, b: Specificity, q: int)
  {
    LexLess(a, b) || (a == b && p < q)
  }

  /** Insertion step: `x` goes before the first element that compares Greater than it. */
  function InsertBySpecificity(sorted: seq<MatchedRule>, x: MatchedRule): (r: seq<MatchedRule>)
    ensures |r| == |sorted| + 1
  {
    if sorted == [] then [x]
    else if Cmp(sorted[0].specificity, x.specificity) == Greater then [x] + sorted
    else [sorted[0]] + InsertBySpecificity(sorted[1..], x)
  }

  /** Insertion adds exactly the new entry: nothing is lost or duplicated. */
  lemma {:induction false} InsertBySpecificityPermutes(sorted: seq<MatchedRule>, x: MatchedRule)
    ensures multiset(InsertBySpecificity(sorted, x)) == multiset(sorted) + multiset{x}
  {
    if sorted != [] && Cmp(sorted[0].specificity, x.specificity) != Greater {
      var rest := InsertBySpecificity(sorted[1..], x);
      InsertBySpecificityPermutes(sorted[1..], x);
      assert InsertBySpecificity(sorted, x) == [sorted[0]] + rest;
      assert sorted == [sorted[0]] + sorted[1..];
      assert multiset([sorted[0]] + rest) == multiset{sorted[0]} + multiset(rest);
      assert multiset([sorted[0]] + sorted[1..]) == multiset{sorted[0]} + multiset(sorted[1..]);
    }
  }

  /** The sort in `specified_values`: stable, ascending by the specificity of each matched rule. */
  function SortBySpecificity(rules: seq<MatchedRule>): (r: seq<MatchedRule>)
    ensures |r| == |rules|
  {
    if rules == [] then []
    else
      InsertBySpecificity(SortBySpecificity(rules[..|rules| - 1]), rules[|rules| - 1])
  }

  /** The entries of `m` at positions `order`, in that order. */
  ghost function Gather(m: seq<MatchedRule>, order: seq<nat>): (r: seq<MatchedRule>)
    requires forall k :: 0 <= k < |order| ==> order[k] < |m|
    ensures |r| == |order|
    ensures forall k :: 0 <= k < |order| ==> r[k] == m[order[k]]
  {
    if order == [] then [] else [m[order[0]]] + Gather(m, order[1..])
  }

  /** `order` lists positions of `m` strictly ascending by (specificity, position). */
  ghost predicate KeySorted(m: seq<MatchedRule>, order: seq<nat>)
  {
    && (forall k :: 0 <= k < |order| ==> order[k] < |m|)
    && (forall k1, k2 :: 0 <= k1 < k2 < |order| ==>
          KeyLess(m[order[k1]].specificity, order[k1], m[order[k2]].specificity, order[k2]))
  }

  /** The positions counterpart of InsertBySpecificity. */
  ghost function InsertPosition(m: seq<MatchedRule>, order: seq<nat>, p: nat): seq<nat>
    requires forall k :: 0 <= k < |order| ==> order[k] < |m|
    requires p < |m|
  {
    if order == [] then [p]
    else if LexLess(m[p].specificity, m[order[0]].specificity) then [p] + order
    else [order[0]] + InsertPosition(m, order[1..], p)
  }

  /** The positions counterpart of SortBySpecificity, on the first `n` entries. */
  ghost function SortedPositions(m: seq<MatchedRule>, n: nat): (order: seq<nat>)
    requires n <= |m|
    ensures forall k :: 0 <= k < |order| ==> order[k] < n
  {
    if n == 0 then []
    else InsertPositionBounded(m, SortedPositions(m, n - 1), n - 1);
         InsertPosition(m, SortedPositions(m, n - 1), n - 1)
  }

  lemma {:induction false} InsertPositionMultiset(m: seq<MatchedRule>, order: seq<nat>, p: nat)
    requires forall k :: 0 <= k < |order| ==> order[k] < |m|
    requires p < |m|
    ensures multiset(InsertPosition(m, order, p)) == multiset(order) + multiset{p}
  {
    if order != [] && !LexLess(m[p].specificity, m[order[0]].specificity) {
      InsertPositionMultiset(m, order[1..], p);
      assert order == [order[0]] + order[1..];
    }
  }

  lemma InsertPositionBounded(m: seq<MatchedRule>, order: seq<nat>, p: nat)
    requires forall k :: 0 <= k < |order| ==> order[k] < p
    requires p < |m|
    ensures var r := InsertPosition(m, order, p);
            && multiset(r) == multiset(order) + multiset{p}
            && forall k :: 0 <= k < |r| ==> r[k] < p + 1
  {
    InsertPositionMultiset(m, order, p);
    var r := InsertPosition(m, order, p);
    forall k | 0 <= k < |r| ensures r[k] < p + 1 {
      assert r[k] in multiset(r);
      if r[k] != p {
        assert r[k] in multiset(order);
      }
    }
  }

  /** Inserting the newest position keeps the key order. */
  lemma {:induction false} InsertPositionSorted(m: seq<MatchedRule>, order: seq<nat>, p: nat)
    requires KeySorted(m, order)
    requires forall k :: 0 <= k < |order| ==> order[k] < p
    requires p < |m|
    ensures KeySorted(m, InsertPosition(m, order, p))
  {
    if order == [] {
    } else if LexLess(m[p].specificity, m[order[0]].specificity) {
      InsertAtFrontSorted(m, order, p);
    } else {
      var rest := InsertPosition(m, order[1..], p);
      InsertPositionSorted(m, order[1..], p);
      InsertPositionBounded(m, order[1..], p);
      HeadBelowInserted(m, order, p, rest);
      ConsSorted(m, order[0], rest);
    }
  }

  lemma InsertAtFrontSorted(m: seq<MatchedRule>, order: seq<nat>, p: nat)
    requires KeySorted(m, order) && order != []
    requires p < |m| && LexLess(m[p].specificity, m[order[0]].specificity)
    ensures KeySorted(m, [p] + order)
  {
    var r := [p] + order;
    forall k1, k2 | 0 <= k1 < k2 < |r|
      ensures KeyLess(m[r[k1]].specificity, r[k1], m[r[k2]].specificity, r[k2])
    {
      if k1 == 0 {
        if k2 > 1 {
          assert KeyLess(m[order[0]].specificity, order[0], m[order[k2 - 1]].specificity, order[k2 - 1]);
          KeyLessTransitive(m[p].specificity, p, m[order[0]].specificity, order[0],
                            m[order[k2 - 1]].specificity, order[k2 - 1]);
        }
      } else {
        assert r[k1] == order[k1 - 1] && r[k2] == order[k2 - 1];
      }
    }
  }

  lemma HeadBelowInserted(m: seq<MatchedRule>, order: seq<nat>, p: nat, rest: seq<nat>)
    requires KeySorted(m, order) && order != []
    requires forall k :: 0 <= k < |order| ==> order[k] < p
    requires p < |m| && !LexLess(m[p].specificity, m[order[0]].specificity)
    requires multiset(rest) == multiset(order[1..]) + multiset{p}
    requires forall k :: 0 <= k < |rest| ==> rest[k] < |m|
    ensures forall k :: 0 <= k < |rest| ==>
              KeyLess(m[order[0]].specificity, order[0], m[rest[k]].specificity, rest[k])
  {
    forall k | 0 <= k < |rest|
      ensures KeyLess(m[order[0]].specificity, order[0], m[rest[k]].specificity, rest[k])
    {
      assert rest[k] in multiset(order[1..]) + multiset{p};
      if rest[k] == p {
        LexLessTotal(m[p].specificity, m[order[0]].specificity);
      } else {
        assert rest[k] in order[1..];
        var j :| 0 <= j < |order[1..]| && order[1..][j] == rest[k];
        assert order[j + 1] == rest[k];
      }
    }
  }

  lemma ConsSorted(m: seq<MatchedRule>, head: nat, rest: seq<nat>)
    requires KeySorted(m, rest) && head < |m|
    requires forall k :: 0 <= k < |rest| ==> KeyLess(m[head].specificity, head, m[rest[k]].specificity, rest[k])
    ensures KeySorted(m, [head] + rest)
  {
    var r := [head] + rest;
    forall k1, k2 | 0 <= k1 < k2 < |r|
      ensures KeyLess(m[r[k1]].specificity, r[k1], m[r[k2]].specificity, r[k2])
    {
      if k1 > 0 {
        assert r[k1] == rest[k1 - 1] && r[k2] == rest[k2 - 1];
      }
    }
  }

  lemma KeyLessTransitive(a: Specificity, p: int, b: Specificity, q: int, c: Specificity, s: int)
    requires KeyLess(a, p, b, q) && KeyLess(b, q, c, s)
    ensures KeyLess(a, p, c, s)
  {
  }

  /** The first `n` positions, sorted: there are `n` of them and every position below `n` is one. */
  lemma {:induction false} SortedPositionsCover(m: seq<MatchedRule>, n: nat)
    requires n <= |m|
    ensures |SortedPositions(m, n)| == n
    ensures forall i :: 0 <= i < n ==> i in SortedPositions(m, n)
  {
    if n > 0 {
      var prev := SortedPositions(m, n - 1);
      SortedPositionsCover(m, n - 1);
      InsertPositionKeeps(m, prev, n - 1);
    }
  }

  /** Inserting adds one entry, the new position, and keeps every old one. */
  lemma {:induction false} InsertPositionKeeps(m: seq<MatchedRule>, order: seq<nat>, p: nat)
    requires forall k :: 0 <= k < |order| ==> order[k] < |m|
    requires p < |m|
    ensures |InsertPosition(m, order, p)| == |order| + 1
    ensures p in InsertPosition(m, order, p)
    ensures forall x :: x in order ==> x in InsertPosition(m, order, p)
  {
    if order != [] && !LexLess(m[p].specificity, m[order[0]].specificity) {
      InsertPositionKeeps(m, order[1..], p);
      forall x | x in order ensures x in InsertPosition(m, order, p) {
        if x != order[0] {
          assert x in order[1..];
        }
      }
    }
  }

  /** The first `n` positions, sorted: they ascend by (specificity, position). */
  lemma {:induction false} SortedPositionsSorted(m: seq<MatchedRule>, n: nat)
    requires n <= |m|
    ensures KeySorted(m, SortedPositions(m, n))
  {
    if n > 0 {
      SortedPositionsSorted(m, n - 1);
      InsertPositionSorted(m, SortedPositions(m, n - 1), n - 1);
    }
  }

  lemma {:induction false} InsertGather(m: seq<MatchedRule>, order: seq<nat>, p: nat)
    requires forall k :: 0 <= k < |order| ==> order[k] < |m|
    requires p < |m|
    ensures forall k :: 0 <= k < |InsertPosition(m, order, p)| ==> InsertPosition(m, order, p)[k] < |m|
    ensures InsertBySpecificity(Gather(m, order), m[p]) == Gather(m, InsertPosition(m, order, p))
  {
    if order != [] {
      InsertGather(m, order[1..], p);
      assert Gather(m, order)[1..] == Gather(m, order[1..]);
      assert Cmp(m[order[0]].specificity, m[p].specificity) == Greater
         <==> LexLess(m[p].specificity, m[order[0]].specificity);
    }
  }

  lemma {:induction false} SortGather(m: seq<MatchedRule>, n: nat)
    requires n <= |m|
    ensures SortBySpecificity(m[..n]) == Gather(m, SortedPositions(m, n))
  {
    if n > 0 {
      SortGather(m, n - 1);
      SortStep(m, n);
      InsertGather(m, SortedPositions(m, n - 1), n - 1);
    }
  }

  /** Sorting one more entry is inserting it into the sorted prefix. */
  lemma SortStep(m: seq<MatchedRule>, n: nat)
    requires 0 < n <= |m|
    ensures SortBySpecificity(m[..n]) == InsertBySpecificity(SortBySpecificity(m[..n - 1]), m[n - 1])
  {
    assert m[..n][..n - 1] == m[..n - 1];
  }

  /**
   * The sort is stable: it lists the entries of `rules` through a
   * permutation `order` that strictly ascends by (specificity, original position).
   */
  lemma SortBySpecificityStable(rules: seq<MatchedRule>) returns (order: seq<nat>)
    ensures |order| == |SortBySpecificity(rules)| == |rules|
    ensures forall k :: 0 <= k < |order| ==> order[k] < |rules| && SortBySpecificity(rules)[k] == rules[order[k]]
    ensures forall i :: 0 <= i < |rules| ==> i in order
    ensures KeySorted(rules, order)
  {
    order := SortedPositions(rules, |rules|);
    SortedPositionsCover(rules, |rules|);
    SortedPositionsSorted(rules, |rules|);
    SortGather(rules, |rules|);
    assert rules[..|rules|] == rules;
  }

  // ---------------------------------------------------------------------
  // The cascade
  // ---------------------------------------------------------------------

  /** Inserts each declaration into the map in turn, overwriting an earlier value of the same name. */
  function ApplyDeclarations(values: PropertyMap, decls: seq<Declaration>): PropertyMap
  {
    if decls == [] then values
    else
      var last := decls[|decls| - 1];
      ApplyDeclarations(values, decls[..|decls| - 1])[last.name := last.value]
  }

  /** The declarations of each rule in turn, starting from an empty map. */
  function ApplyRules(rules: seq<MatchedRule>): PropertyMap
  {
    if rules == [] then map[]
    else ApplyDeclarations(ApplyRules(rules[..|rules| - 1]), rules[|rules| - 1].rule.declarations)
  }

  /** The property map `specified_values` builds for an element. */
  function Cascade(elem: ElementData, stylesheet: StyleSheet): PropertyMap
  {
    ApplyRules(SortBySpecificity(MatchingRules(elem, stylesheet)))
  }

  ghost predicate DeclaresAt(decls: seq<Declaration>, name: string, j: int)
  {
    0 <= j < |decls| && decls[j].name == name
  }

  ghost predicate LastDeclaresAt(decls: seq<Declaration>, name: string, j: int)
  {
    DeclaresAt(decls, name, j) && forall j' :: DeclaresAt(decls, name, j') ==> j' <= j
  }

  /** Within one list of declarations the last declaration of a name wins. */
  lemma {:induction false} ApplyDeclarationsLastWins(values: PropertyMap, decls: seq<Declaration>, name: string)
    ensures name in ApplyDeclarations(values, decls) <==> name in values || exists j :: DeclaresAt(decls, name, j)
    ensures (forall j :: !DeclaresAt(decls, name, j)) && name in values ==>
              ApplyDeclarations(values, decls)[name] == values[name]
    ensures (exists j :: DeclaresAt(decls, name, j)) ==>
              exists j :: LastDeclaresAt(decls, name, j) && ApplyDeclarations(values, decls)[name] == decls[j].value
  {
    if decls != [] {
      var n := |decls|;
      var init := decls[..n - 1];
      var last := decls[n - 1];
      var prev := ApplyDeclarations(values, init);
      assert ApplyDeclarations(values, decls) == prev[last.name := last.value];
      ApplyDeclarationsLastWins(values, init, name);
      if last.name == name {
        assert LastDeclaresAt(decls, name, n - 1);
      } else {
        PrefixDeclares(decls, name);
        if exists j :: DeclaresAt(init, name, j) {
          var j :| LastDeclaresAt(init, name, j) && prev[name] == init[j].value;
          assert LastDeclaresAt(decls, name, j);
        }
      }
    }
  }

  /** When the last declaration sets another name, the declarations of `name` are those of the prefix. */
  lemma PrefixDeclares(decls: seq<Declaration>, name: string)
    requires decls != [] && decls[|decls| - 1].name != name
    ensures forall j :: DeclaresAt(decls, name, j) <==> DeclaresAt(decls[..|decls| - 1], name, j)
  {
    forall j ensures DeclaresAt(decls, name, j) <==> DeclaresAt(decls[..|decls| - 1], name, j) {
      if 0 <= j < |decls| - 1 {
        assert decls[..|decls| - 1][j] == decls[j];
      }
    }
  }

  /** Declaration `j` of entry `k` of a list of matched rules sets `name`. */
  ghost predicate OccursIn(rules: seq<MatchedRule>, name: string, k: int, j: int)
  {
    0 <= k < |rules| && DeclaresAt(rules[k].rule.declarations, name, j)
  }

  /** ... and no later (entry, declaration) pair sets it. */
  ghost predicate LastIn(rules: seq<MatchedRule>, name: string, k: int, j: int)
  {
    OccursIn(rules, name, k, j) &&
    forall k', j' :: OccursIn(rules, name, k', j') ==> k' < k || (k' == k && j' <= j)
  }

  /** Applying a list of rules in order, the last declaration of a name in that order wins. */
  lemma {:induction false} ApplyRulesLastWins(rules: seq<MatchedRule>, name: string)
    ensures name in ApplyRules(rules) <==> exists k, j :: OccursIn(rules, name, k, j)
    ensures name in ApplyRules(rules) ==>
              exists k, j :: LastIn(rules, name, k, j) && ApplyRules(rules)[name] == rules[k].rule.declarations[j].value
  {
    if rules != [] {
      var n := |rules|;
      var init := rules[..n - 1];
      var decls := rules[n - 1].rule.declarations;
      var prev := ApplyRules(init);
      ApplyRulesLastWins(init, name);
      ApplyDeclarationsLastWins(prev, decls, name);
      forall k, j | 0 <= k < n - 1 ensures OccursIn(rules, name, k, j) <==> OccursIn(init, name, k, j) {
        assert init[k] == rules[k];
      }
      if exists j :: DeclaresAt(decls, name, j) {
        var j :| LastDeclaresAt(decls, name, j) && ApplyRules(rules)[name] == decls[j].value;
        assert LastIn(rules, name, n - 1, j);
      } else if name in prev {
        var k, j :| LastIn(init, name, k, j) && prev[name] == init[k].rule.declarations[j].value;
        assert init[k] == rules[k];
        assert LastIn(rules, name, k, j);
      }
      if exists k, j :: OccursIn(rules, name, k, j) {
        var k, j :| OccursIn(rules, name, k, j);
        if k == n - 1 {
          assert DeclaresAt(decls, name, j);
        } else {
          assert OccursIn(init, name, k, j);
        }
      }
    }
  }

  /** Declaration `j` of style-sheet rule `s` sets `name`, and rule `s` matches the element. */
  ghost predicate Applies(elem: ElementData, stylesheet: StyleSheet, name: string, s: int, j: int)
  {
    && 0 <= s < |stylesheet.rules|
    && MatchRule(elem, stylesheet.rules[s]).Some?
    && DeclaresAt(stylesheet.rules[s].declarations, name, j)
  }

  /** The specificity with which style-sheet rule `s` matches the element. */
  ghost function RankOf(elem: ElementData, stylesheet: StyleSheet, s: int): Specificity
    requires 0 <= s < |stylesheet.rules| && MatchRule(elem, stylesheet.rules[s]).Some?
  {
    MatchRule(elem, stylesheet.rules[s]).value.specificity
  }

  /** Cascade priority, lexicographic on (specificity, rule position, declaration position). */
  predicate NotAbove(a: Specificity, s: int, j: int, b: Specificity, t: int, i: int)
  {
    LexLess(a, b) || (a == b && (s < t || (s == t && j <= i)))
  }

  /**
   * Declaration `j` of rule `s` is the one the cascade keeps for `name`: it
   * applies, and every other applying declaration of `name` has a lower
   * specificity, or the same specificity and an earlier rule, or is earlier
   * in the same rule.
   */
  ghost predicate Wins(elem: ElementData, stylesheet: StyleSheet, name: string, s: int, j: int)
  {
    Applies(elem, stylesheet, name, s, j) &&
    forall t, i :: Applies(elem, stylesheet, name, t, i) ==>
      NotAbove(RankOf(elem, stylesheet, t), t, i, RankOf(elem, stylesheet, s), s, j)
  }

  /**
   * After sorting, the matching rules list exactly the matching rules of the
   * style sheet, each once, ascending by (specificity, style-sheet position).
   */
  lemma SortedMatchingRules(elem: ElementData, stylesheet: StyleSheet) returns (pos: seq<nat>)
    ensures var sorted := SortBySpecificity(MatchingRules(elem, stylesheet));
            && |pos| == |sorted|
            && (forall k :: 0 <= k < |pos| ==>
                  pos[k] < |stylesheet.rules| && MatchRule(elem, stylesheet.rules[pos[k]]) == Some(sorted[k]))
            && (forall s :: 0 <= s < |stylesheet.rules| && MatchRule(elem, stylesheet.rules[s]).Some? ==> s in pos)
            && (forall k1, k2 :: 0 <= k1 < k2 < |pos| ==>
                  KeyLess(sorted[k1].specificity, pos[k1], sorted[k2].specificity, pos[k2]))
  {
    var matched := MatchingRules(elem, stylesheet);
    var sorted := SortBySpecificity(matched);
    var idx := MatchingRulesExact(elem, stylesheet);
    var order := SortBySpecificityStable(matched);
    pos := seq(|order|, k requires 0 <= k < |order| => idx[order[k]]);
    ComposeEntries(elem, stylesheet.rules, matched, sorted, idx, order, pos);
    ComposeCovers(elem, stylesheet.rules, matched, idx, order, pos);
    ComposeSorted(matched, sorted, idx, order, pos);
  }

  lemma ComposeEntries(elem: ElementData, rules: seq<Rule>, matched: seq<MatchedRule>, sorted: seq<MatchedRule>,
                       idx: seq<nat>, order: seq<nat>, pos: seq<nat>)
    requires IndexesMatches(elem, rules, matched, idx)
    requires |order| == |matched| == |sorted| && KeySorted(matched, order)
    requires forall k :: 0 <= k < |order| ==> sorted[k] == matched[order[k]]
    requires |pos| == |order| && forall k :: 0 <= k < |order| ==> pos[k] == idx[order[k]]
    ensures forall k :: 0 <= k < |pos| ==> pos[k] < |rules| && MatchRule(elem, rules[pos[k]]) == Some(sorted[k])
  {
    forall k | 0 <= k < |pos|
      ensures pos[k] < |rules| && MatchRule(elem, rules[pos[k]]) == Some(sorted[k])
    {
      var i := order[k];
      assert pos[k] == idx[i];
      assert MatchRule(elem, rules[idx[i]]) == Some(matched[i]);
    }
  }

  lemma ComposeCovers(elem: ElementData, rules: seq<Rule>, matched: seq<MatchedRule>,
                      idx: seq<nat>, order: seq<nat>, pos: seq<nat>)
    requires IndexesMatches(elem, rules, matched, idx)
    requires |order| == |matched| && KeySorted(matched, order)
    requires forall i :: 0 <= i < |matched| ==> i in order
    requires |pos| == |order| && forall k :: 0 <= k < |order| ==> pos[k] == idx[order[k]]
    ensures forall s :: 0 <= s < |rules| && MatchRule(elem, rules[s]).Some? ==> s in pos
  {
    forall s | 0 <= s < |rules| && MatchRule(elem, rules[s]).Some?
      ensures s in pos
    {
      var i :| 0 <= i < |idx| && idx[i] == s;
      assert i in order;
      var k :| 0 <= k < |order| && order[k] == i;
      assert pos[k] == s;
    }
  }

  lemma ComposeSorted(matched: seq<MatchedRule>, sorted: seq<MatchedRule>,
                      idx: seq<nat>, order: seq<nat>, pos: seq<nat>)
    requires |idx| == |matched| && forall k1, k2 :: 0 <= k1 < k2 < |idx| ==> idx[k1] < idx[k2]
    requires |order| == |matched| == |sorted| && KeySorted(matched, order)
    requires forall k :: 0 <= k < |order| ==> sorted[k] == matched[order[k]]
    requires |pos| == |order| && forall k :: 0 <= k < |order| ==> pos[k] == idx[order[k]]
    ensures forall k1, k2 :: 0 <= k1 < k2 < |pos| ==>
              KeyLess(sorted[k1].specificity, pos[k1], sorted[k2].specificity, pos[k2])
  {
    forall k1, k2 | 0 <= k1 < k2 < |pos|
      ensures KeyLess(sorted[k1].specificity, pos[k1], sorted[k2].specificity, pos[k2])
    {
      assert KeyLess(matched[order[k1]].specificity, order[k1], matched[order[k2]].specificity, order[k2]);
      if !LexLess(sorted[k1].specificity, sorted[k2].specificity) {
        assert idx[order[k1]] < idx[order[k2]];
      }
    }
  }

  /**
   * The cascade, stated on the style sheet: a property is resolved iff some
   * matching rule declares it, and its value is that of the winning declaration.
   */
  lemma CascadeResolves(elem: ElementData, stylesheet: StyleSheet, name: string)
    ensures name in Cascade(elem, stylesheet) <==> exists s, j :: Applies(elem, stylesheet, name, s, j)
    ensures name in Cascade(elem, stylesheet) ==>
              exists s, j :: Wins(elem, stylesheet, name, s, j)
                             && Cascade(elem, stylesheet)[name] == stylesheet.rules[s].declarations[j].value
  {
    var sorted := SortBySpecificity(MatchingRules(elem, stylesheet));
    var pos := SortedMatchingRules(elem, stylesheet);
    ApplyRulesLastWins(sorted, name);
    forall s, j | Applies(elem, stylesheet, name, s, j)
      ensures exists k :: 0 <= k < |pos| && pos[k] == s && OccursIn(sorted, name, k, j)
    {
      var k :| 0 <= k < |pos| && pos[k] == s;
      assert OccursIn(sorted, name, k, j);
    }
    if exists k, j :: OccursIn(sorted, name, k, j) {
      var k, j :| LastIn(sorted, name, k, j)
                  && ApplyRules(sorted)[name] == sorted[k].rule.declarations[j].value;
      var s := pos[k];
      assert Applies(elem, stylesheet, name, s, j);
      forall t, i | Applies(elem, stylesheet, name, t, i)
        ensures NotAbove(RankOf(elem, stylesheet, t), t, i, RankOf(elem, stylesheet, s), s, j)
      {
        var k' :| 0 <= k' < |pos| && pos[k'] == t && OccursIn(sorted, name, k', i);
        if k' < k {
          assert KeyLess(sorted[k'].specificity, t, sorted[k].specificity, s);
        }
      }
      assert Wins(elem, stylesheet, name, s, j);
    }
    if exists s, j :: Applies(elem, stylesheet, name, s, j) {
      var s, j :| Applies(elem, stylesheet, name, s, j);
      var k :| 0 <= k < |pos| && pos[k] == s && OccursIn(sorted, name, k, j);
    }
  }

  lemma CascadeResolvesAll(elem: ElementData, stylesheet: StyleSheet)
    ensures forall name :: name in Cascade(elem, stylesheet) <==> exists s, j :: Applies(elem, stylesheet, name, s, j)
    ensures forall name :: name in Cascade(elem, stylesheet) ==>
              exists s, j :: Wins(elem, stylesheet, name, s, j)
                             && Cascade(elem, stylesheet)[name] == stylesheet.rules[s].declarations[j].value
  {
    forall name
      ensures name in Cascade(elem, stylesheet) <==> exists s, j :: Applies(elem, stylesheet, name, s, j)
      ensures name in Cascade(elem, stylesheet) ==>
                exists s, j :: Wins(elem, stylesheet, name, s, j)
                               && Cascade(elem, stylesheet)[name] == stylesheet.rules[s].declarations[j].value
    {
      CascadeResolves(elem, stylesheet, name);
    }
  }

  /** At most one declaration wins: the cascade is a function of element and style sheet. */
  lemma WinnerUnique(elem: ElementData, stylesheet: StyleSheet, name: string, s1: int, j1: int, s2: int, j2: int)
    requires Wins(elem, stylesheet, name, s1, j1) && Wins(elem, stylesheet, name, s2, j2)
    ensures s1 == s2 && j1 == j2
  {
    LexLessTotal(RankOf(elem, stylesheet, s1), RankOf(elem, stylesheet, s2));
  }

  /** Conversely, the winning declaration fixes the resolved value. */
  lemma WinnerDecides(elem: ElementData, stylesheet: StyleSheet, name: string, s: int, j: int)
    requires Wins(elem, stylesheet, name, s, j)
    ensures name in Cascade(elem, stylesheet)
    ensures Cascade(elem, stylesheet)[name] == stylesheet.rules[s].declarations[j].value
  {
    CascadeResolves(elem, stylesheet, name);
    var s', j' :| Wins(elem, stylesheet, name, s', j')
                  && Cascade(elem, stylesheet)[name] == stylesheet.rules[s'].declarations[j'].value;
    WinnerUnique(elem, stylesheet, name, s, j, s', j');
  }

  /**
   * Of two matching rules with equal specificity, the later one decides every
   * property it declares: its last declaration of the property is the value.
   */
  lemma LaterRuleWinsOnTie(elem: ElementData, first: Rule, second: Rule, name: string, j: int)
    requires MatchRule(elem, first).Some? && MatchRule(elem, second).Some?
    requires MatchRule(elem, first).value.specificity == MatchRule(elem, second).value.specificity
    requires LastDeclaresAt(second.declarations, name, j)
    ensures name in Cascade(elem, StyleSheet([first, second]))
    ensures Cascade(elem, StyleSheet([first, second]))[name] == second.declarations[j].value
  {
    var stylesheet := StyleSheet([first, second]);
    forall t, i | Applies(elem, stylesheet, name, t, i)
      ensures NotAbove(RankOf(elem, stylesheet, t), t, i, RankOf(elem, stylesheet, 1), 1, j)
    {
      if t == 1 {
        assert DeclaresAt(second.declarations, name, i);
      }
    }
    WinnerDecides(elem, stylesheet, name, 1, j);
  }

  /**
   * On a tie in specificity, no declaration of the earlier rule wins once a
   * later rule also declares the property: the resolved value comes from
   * the winning declaration of another rule.
   */
  lemma EarlierRuleLosesOnTie(elem: ElementData, stylesheet: StyleSheet, name: string, s: int, i: int, t: int, j: int)
    requires s < t && Applies(elem, stylesheet, name, s, i) && Applies(elem, stylesheet, name, t, j)
    requires RankOf(elem, stylesheet, s) == RankOf(elem, stylesheet, t)
    ensures forall i' :: !Wins(elem, stylesheet, name, s, i')
    ensures name in Cascade(elem, stylesheet)
    ensures exists s', j' :: s' != s && Wins(elem, stylesheet, name, s', j')
                             && Cascade(elem, stylesheet)[name] == stylesheet.rules[s'].declarations[j'].value
  {
    LexLessTotal(RankOf(elem, stylesheet, s), RankOf(elem, stylesheet, t));
    CascadeResolves(elem, stylesheet, name);
  }

  /** A declaration whose specificity is strictly higher than every other rule setting the property wins. */
  lemma HigherSpecificityWins(elem: ElementData, stylesheet: StyleSheet, name: string, s: int, j: int)
    requires 0 <= s < |stylesheet.rules| && LastDeclaresAt(stylesheet.rules[s].declarations, name, j)
    requires MatchRule(elem, stylesheet.rules[s]).Some?
    requires forall t, i :: Applies(elem, stylesheet, name, t, i) && t != s ==>
               LexLess(RankOf(elem, stylesheet, t), RankOf(elem, stylesheet, s))
    ensures name in Cascade(elem, stylesheet)
    ensures Cascade(elem, stylesheet)[name] == stylesheet.rules[s].declarations[j].value
  {
    WinnerDecides(elem, stylesheet, name, s, j);
  }

  /**
   * `specified_values`: gather the matching rules, sort them stably by
   * specificity, then insert every declaration of every rule in that order.
   */
  method SpecifiedValues(elem: ElementData, stylesheet: StyleSheet) returns (values: PropertyMap)
    ensures values == Cascade(elem, stylesheet)
    ensures forall name :: name in values <==> exists s, j :: Applies(elem, stylesheet, name, s, j)
    ensures forall name :: name in values ==>
              exists s, j :: Wins(elem, stylesheet, name, s, j) && values[name] == stylesheet.rules[s].declarations[j].value
  {
    values := map[];
    var rules := MatchingRules(elem, stylesheet);
    rules := SortBySpecificity(rules);
    for k := 0 to |rules|
      invariant values == ApplyRules(rules[..k])
    {
      var declarations := rules[k].rule.declarations;
      for j := 0 to |declarations|
        invariant values == ApplyDeclarations(ApplyRules(rules[..k]), declarations[..j])
      {
        ApplyDeclarationsStep(ApplyRules(rules[..k]), declarations, j);
        values := values[declarations[j].name := declarations[j].value];
      }
      ApplyRulesStep(rules, k);
    }
    assert rules[..|rules|] == rules;
    CascadeResolvesAll(elem, stylesheet);
  }

  /** One more declaration is one more insertion into the map. */
  lemma ApplyDeclarationsStep(values: PropertyMap, decls: seq<Declaration>, j: int)
    requires 0 <= j < |decls|
    ensures ApplyDeclarations(values, decls[..j + 1])
            == ApplyDeclarations(values, decls[..j])[decls[j].name := decls[j].value]
  {
    assert decls[..j + 1][..j] == decls[..j];
  }

  /** One more rule is all of its declarations applied on top. */
  lemma ApplyRulesStep(rules: seq<MatchedRule>, k: int)
    requires 0 <= k < |rules|
    ensures ApplyRules(rules[..k + 1])
            == ApplyDeclarations(ApplyRules(rules[..k]), rules[k].rule.declarations[..|rules[k].rule.declarations|])
  {
    assert rules[..k + 1][..k] == rules[..k];
    assert rules[k].rule.declarations[..|rules[k].rule.declarations|] == rules[k].rule.declarations;
  }

  // ---------------------------------------------------------------------
  // The style tree
  // ---------------------------------------------------------------------

  /**
   * `style_tree`: an element gets its cascaded properties, a text node an
   * empty map, and every child is styled in turn, in document order.
   */
  function StyleTree(root: Node, stylesheet: StyleSheet): (styled: StyledNode)
    ensures styled.node == root && |styled.children| == |root.children|
    ensures forall i :: 0 <= i < |root.children| ==> styled.children[i].node == root.children[i]
    decreases root
  {
    StyledNode(
      root,
      match root.nodeType
      case Element(elem) => Cascade(elem, stylesheet)
      case Text(_) => map[],
      seq(|root.children|, i requires 0 <= i < |root.children| => StyleTree(root.children[i], stylesheet)))
  }

  /** The styled tree has the document tree's shape, and each styled node refers to its document node. */
  ghost predicate Mirrors(styled: StyledNode, node: Node)
    decreases node
  {
    && styled.node == node
    && |styled.children| == |node.children|
    && forall i :: 0 <= i < |node.children| ==> Mirrors(styled.children[i], node.children[i])
  }

  /** Every element of the styled tree carries its cascade, every text node an empty map. */
  ghost predicate WellStyled(styled: StyledNode, stylesheet: StyleSheet)
    decreases styled
  {
    && (match styled.node.nodeType
        case Element(elem) => styled.specifiedValues == Cascade(elem, stylesheet)
        case Text(_) => styled.specifiedValues == map[])
    && forall i :: 0 <= i < |styled.children| ==> WellStyled(styled.children[i], stylesheet)
  }

  lemma {:induction false} StyleTreeFaithful(root: Node, stylesheet: StyleSheet)
    ensures Mirrors(StyleTree(root, stylesheet), root)
    ensures WellStyled(StyleTree(root, stylesheet), stylesheet)
    decreases root
  {
    var styled := StyleTree(root, stylesheet);
    forall i | 0 <= i < |root.children|
      ensures Mirrors(styled.children[i], root.children[i])
      ensures WellStyled(styled.children[i], stylesheet)
    {
      assert styled.children[i] == StyleTree(root.children[i], stylesheet);
      StyleTreeFaithful(root.children[i], stylesheet);
    }
  }

  /** Those two properties determine the styled tree: `style_tree` is the only tree that has them. */
  lemma {:induction false} StyleTreeUnique(styled: StyledNode, root: Node, stylesheet: StyleSheet)
    requires Mirrors(styled, root) && WellStyled(styled, stylesheet)
    ensures styled == StyleTree(root, stylesheet)
    decreases root
  {
    var expected := StyleTree(root, stylesheet);
    forall i | 0 <= i < |root.children|
      ensures styled.children[i] == expected.children[i]
    {
      StyleTreeUnique(styled.children[i], root.children[i], stylesheet);
    }
    assert styled.children == expected.children;
  }

  /** Number of nodes in a styled tree. */
  function StyledCount(styled: StyledNode): nat
    decreases styled, 1
  {
    1 + StyledCountAll(styled.children)
  }

  function StyledCountAll(styled: seq<StyledNode>): nat
    decreases styled, 0
  {
    if styled == [] then 0 else StyledCount(styled[0]) + StyledCountAll(styled[1..])
  }

  lemma {:induction false} MirrorsCount(styled: StyledNode, node: Node)
    requires Mirrors(styled, node)
    ensures StyledCount(styled) == NodeCount(node)
    decreases node, 1
  {
    MirrorsCountAll(styled.children, node.children);
  }

  lemma {:induction false} MirrorsCountAll(styled: seq<StyledNode>, nodes: seq<Node>)
    requires |styled| == |nodes| && forall i :: 0 <= i < |nodes| ==> Mirrors(styled[i], nodes[i])
    ensures StyledCountAll(styled) == NodeCountAll(nodes)
    decreases nodes, 0
  {
    if nodes != [] {
      MirrorsCount(styled[0], nodes[0]);
      MirrorsCountAll(styled[1..], nodes[1..]);
    }
  }

  /** Styling neither adds nor drops nodes. */
  lemma StyleTreeSize(root: Node, stylesheet: StyleSheet)
    ensures StyledCount(StyleTree(root, stylesheet)) == NodeCount(root)
  {
    StyleTreeFaithful(root, stylesheet);
    MirrorsCount(StyleTree(root, stylesheet), root);
  }

  /** A text node is never styled: it reads as Inline and every lookup falls back to the default. */
  lemma TextNodeUnstyled(root: Node, stylesheet: StyleSheet, name: string, fallbackName: string, default: Value)
    requires root.nodeType.Text?
    ensures StyleTree(root, stylesheet).specifiedValues == map[]
    ensures StyleTree(root, stylesheet).DisplayOf() == Inline
    ensures StyleTree(root, stylesheet).Lookup(name, fallbackName, default) == default
  {
  }
}
