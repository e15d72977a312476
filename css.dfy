/**
 * The style-sheet types that the style stage reads. The parser that
 * produces them (`src/css.rs`) is not part of this model; only the shape of
 * its data and the specificity of a selector are modelled here.
 */
module Css {
  import opened Wrappers

  /** A simple selector: every filter is optional, and absence matches anything. */
  datatype SimpleSelector = SimpleSelector(
    tagName: Option<string>,
    id: Option<string>,
    classes: seq<string>)

  /** The selector enum has a single variant, `Selector::Simple`. */
  datatype Selector = Simple(simple: SimpleSelector)

  /** `Specificity` is the tuple (ids, classes, tags), compared lexicographically. */
  datatype Specificity = Specificity(ids: nat, classes: nat, tags: nat)

  /** Rust's `std::cmp::Ordering`. */
  datatype Ordering = Less | Equal | Greater

  /** Strict lexicographic order on specificities. */
  predicate LexLess(a: Specificity, b: Specificity)
  {
    || a.ids < b.ids
    || (a.ids == b.ids && a.classes < b.classes)
    || (a.ids == b.ids && a.classes == b.classes && a.tags < b.tags)
  }

  /** `Ord::cmp` on the specificity tuple. */
  function Cmp(a: Specificity, b: Specificity): (o: Ordering)
    ensures o == Less <==> LexLess(a, b)
    ensures o == Greater <==> LexLess(b, a)
    ensures o == Equal <==> a == b
  {
    if a.ids != b.ids then (if a.ids < b.ids then Less else Greater)
    else if a.classes != b.classes then (if a.classes < b.classes then Less else Greater)
    else if a.tags != b.tags then (if a.tags < b.tags then Less else Greater)
    else Equal
  }

  /** `Selector::specificity`: one count per kind of filter the selector sets. */
  function SpecificityOf(selector: Selector): Specificity
  {
    var s := selector.simple;
    Specificity(if s.id.Some? then 1 else 0, |s.classes|, if s.tagName.Some? then 1 else 0)
  }

  /** Specificity ordering is a strict total order: exactly one of <, =, > holds. */
  lemma LexLessTotal(a: Specificity, b: Specificity)
    ensures !LexLess(a, a)
    ensures LexLess(a, b) ==> !LexLess(b, a)
    ensures LexLess(a, b) || a == b || LexLess(b, a)
  {
  }

  lemma LexLessTransitive(a: Specificity, b: Specificity, c: Specificity)
    requires LexLess(a, b) && LexLess(b, c)
    ensures LexLess(a, c)
  {
  }

  type byte = x: int | 0 <= x < 256

  datatype Unit = Px

  datatype Color = Color(r: byte, g: byte, b: byte, a: byte)

  /** A declared value. Lengths are carried as exact reals; only keywords are read here. */
  datatype Value =
    | Keyword(keyword: string)
    | Length(amount: real, unit: Unit)
    | ColorValue(color: Color)

  datatype Declaration = Declaration(name: string, value: Value)

  /** A rule: selector alternatives and an ordered list of declarations. */
  datatype Rule = Rule(selectors: seq<Selector>, declarations: seq<Declaration>)

  datatype StyleSheet = StyleSheet(rules: seq<Rule>)
}
