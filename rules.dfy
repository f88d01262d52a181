/**
 * Extraction rules (`NormalizePattern`, normalizer.go:50-65), their installation
 * (`SetPatterns`, normalizer.go:140-188) and their validation (`Validate`, normalizer.go:376-415).
 */
module Rules {
  import opened Wrappers
  import opened Strings
  import opened Labels
  import opened Values

  /** `NormalizePattern` without its `used` flag, which the engine keeps beside the rules. */
  datatype Pattern = Pattern(
    labels: seq<string>,
    matchMethod: int,
    separator: string,
    valueKey: string,
    valueTransform: ValueTransform,
    valueType: string,
    defaultValue: Value)

  /** The value types `Validate` accepts, in the order its message lists them. */
  const ValueTypes: seq<string> := [StringType, BooleanType, FloatType, IntType, ArrayType]

  /**
   * `inx.StringIn` of the gox library: `s` equals some element of `ss` ignoring case
   * (`strings.EqualFold`).
   */
  predicate StringIn(s: string, ss: seq<string>) {
    exists k :: 0 <= k < |ss| && EqualFold(s, ss[k])
  }

  /**
   * The type check ignores case, but the casts and merges compare the type exactly: a rule
   * typed `Int` passes `Validate` and its values are kept as strings.
   */
  lemma MixedCaseType(seps: seq<string>, lib: Library)
    ensures StringIn("Int", ValueTypes)
    ensures Cast("5", "Int", seps, lib) == (Str("5"), Keep)
  {
    assert EqualFold("t", "t") && EqualFold("nt", "nt");
    assert EqualFold("Int", ValueTypes[3]);
  }

  // ---------------------------------------------------------------- installation

  function DropEmptyKeys(pairs: seq<(string, string)>): (r: seq<(string, string)>)
    ensures NoEmptyKeys(r)
    ensures forall x :: x in r <==> x in pairs && x.0 != ""
  {
    if pairs == [] then []
    else
      var last := pairs[|pairs| - 1];
      DropEmptyKeys(pairs[..|pairs| - 1]) + (if last.0 == "" then [] else [last])
  }

  /** Each label cleaned, in order. */
  function CleanAll(labels: seq<string>, strictMode: bool): (r: seq<string>)
    ensures |r| == |labels|
  {
    if labels == [] then []
    else CleanAll(labels[..|labels| - 1], strictMode) + [Clean(labels[|labels| - 1], strictMode)]
  }

  /** What `SetPatterns` makes of one rule: default separator, no empty replacement key, cleaned labels. */
  function Prepare(p: Pattern, strictMode: bool): (r: Pattern)
    ensures r.separator != ""
    ensures NoEmptyKeys(r.valueTransform.replacements)
  {
    p.(separator := if p.separator == "" then ":" else p.separator,
       valueTransform := p.valueTransform.(replacements := DropEmptyKeys(p.valueTransform.replacements)),
       labels := CleanAll(p.labels, strictMode))
  }

  function PrepareAll(ps: seq<Pattern>, strictMode: bool): (r: seq<Pattern>)
    ensures |r| == |ps|
  {
    if ps == [] then []
    else PrepareAll(ps[..|ps| - 1], strictMode) + [Prepare(ps[|ps| - 1], strictMode)]
  }

  lemma CleanAllSnoc(labels: seq<string>, j: nat, strictMode: bool)
    requires j < |labels|
    ensures CleanAll(labels[..j + 1], strictMode) == CleanAll(labels[..j], strictMode) + [Clean(labels[j], strictMode)]
  {
    assert labels[..j + 1][..j] == labels[..j] && labels[..j + 1][j] == labels[j];
  }

  lemma PrepareAllSnoc(ps: seq<Pattern>, i: nat, strictMode: bool)
    requires i < |ps|
    ensures PrepareAll(ps[..i + 1], strictMode) == PrepareAll(ps[..i], strictMode) + [Prepare(ps[i], strictMode)]
  {
    assert ps[..i + 1][..i] == ps[..i] && ps[..i + 1][i] == ps[i];
  }

  /** Every rule has a separator and no empty replacement key. */
  predicate Prepared(ps: seq<Pattern>) {
    forall i :: 0 <= i < |ps| ==> ps[i].separator != "" && NoEmptyKeys(ps[i].valueTransform.replacements)
  }

  lemma {:induction false} PrepareAllPrepared(ps: seq<Pattern>, strictMode: bool)
    ensures Prepared(PrepareAll(ps, strictMode))
    decreases |ps|
  {
    if ps != [] {
      var init := PrepareAll(ps[..|ps| - 1], strictMode);
      PrepareAllPrepared(ps[..|ps| - 1], strictMode);
      var all := init + [Prepare(ps[|ps| - 1], strictMode)];
      forall k | 0 <= k < |all| ensures all[k].separator != "" && NoEmptyKeys(all[k].valueTransform.replacements) {
        if k < |init| { assert all[k] == init[k]; }
      }
    }
  }

  function KeysOf(ps: seq<Pattern>): set<string> {
    set i | 0 <= i < |ps| :: ps[i].valueKey
  }

  /** The non-empty label keywords of the rules. */
  function LabelSetOf(ps: seq<Pattern>): set<string> {
    set i, j | 0 <= i < |ps| && 0 <= j < |ps[i].labels| && ps[i].labels[j] != "" :: ps[i].labels[j]
  }

  /** The non-empty keywords of one label list. */
  function NonEmptyLabels(labels: seq<string>): set<string> {
    set j | 0 <= j < |labels| && labels[j] != "" :: labels[j]
  }

  lemma NonEmptyLabelsSnoc(labels: seq<string>, l: string)
    ensures NonEmptyLabels(labels + [l]) == NonEmptyLabels(labels) + (if l == "" then {} else {l})
  {
    var ls := labels + [l];
    forall x | x in NonEmptyLabels(ls) ensures x in NonEmptyLabels(labels) + (if l == "" then {} else {l}) {
      var m :| 0 <= m < |ls| && ls[m] != "" && ls[m] == x;
      if m < |labels| { assert labels[m] == ls[m]; }
    }
    forall x | x in NonEmptyLabels(labels) ensures x in NonEmptyLabels(ls) {
      var m :| 0 <= m < |labels| && labels[m] != "" && labels[m] == x;
      assert ls[m] == labels[m];
    }
    if l != "" { assert ls[|labels|] == l; }
  }

  lemma LabelSetOfSnoc(ps: seq<Pattern>, q: Pattern)
    ensures LabelSetOf(ps + [q]) == LabelSetOf(ps) + NonEmptyLabels(q.labels)
  {
    var qs := ps + [q];
    forall l | l in LabelSetOf(qs) ensures l in LabelSetOf(ps) + NonEmptyLabels(q.labels) {
      var i, j :| 0 <= i < |qs| && 0 <= j < |qs[i].labels| && qs[i].labels[j] != "" && qs[i].labels[j] == l;
      if i < |ps| { assert qs[i] == ps[i]; }
    }
    forall l | l in LabelSetOf(ps) ensures l in LabelSetOf(qs) {
      var i, j :| 0 <= i < |ps| && 0 <= j < |ps[i].labels| && ps[i].labels[j] != "" && ps[i].labels[j] == l;
      assert qs[i] == ps[i];
    }
    forall l | l in NonEmptyLabels(q.labels) ensures l in LabelSetOf(qs) {
      var j :| 0 <= j < |q.labels| && q.labels[j] != "" && q.labels[j] == l;
      assert qs[|ps|] == q;
    }
  }

  /** The result map `SetPatterns` installs: each rule's coerced default, the last rule winning on a shared key. */
  function Defaults(ps: seq<Pattern>, lib: Library): map<string, Value>
    decreases |ps|
  {
    if ps == [] then map[]
    else
      var p := ps[|ps| - 1];
      Defaults(ps[..|ps| - 1], lib)[p.valueKey := Coerce(p.valueType, p.defaultValue, lib)]
  }

  /** One more rule prepared: the list, the defaults and the known labels each grow by that rule. */
  lemma PrepareSnoc(ps: seq<Pattern>, i: nat, strictMode: bool, lib: Library, prepared: seq<Pattern>, q: Pattern)
    requires i < |ps| && prepared == PrepareAll(ps[..i], strictMode) && q == Prepare(ps[i], strictMode)
    ensures PrepareAll(ps[..i + 1], strictMode) == prepared + [q]
    ensures Defaults(prepared + [q], lib) == Defaults(prepared, lib)[q.valueKey := Coerce(q.valueType, q.defaultValue, lib)]
    ensures LabelSetOf(prepared + [q]) == LabelSetOf(prepared) + NonEmptyLabels(q.labels)
  {
    PrepareAllSnoc(ps, i, strictMode);
    LabelSetOfSnoc(prepared, q);
    assert (prepared + [q])[..|prepared|] == prepared;
  }


  /** The keys of the installed map are exactly the rules' value keys. */
  lemma {:induction false} DefaultsKeys(ps: seq<Pattern>, lib: Library)
    ensures Defaults(ps, lib).Keys == KeysOf(ps)
    decreases |ps|
  {
    if ps != [] {
      var init := ps[..|ps| - 1];
      DefaultsKeys(init, lib);
      assert KeysOf(ps) == KeysOf(init) + {ps[|ps| - 1].valueKey} by {
        forall k | k in KeysOf(ps) ensures k in KeysOf(init) + {ps[|ps| - 1].valueKey} {
          var i :| 0 <= i < |ps| && ps[i].valueKey == k;
          if i < |ps| - 1 { assert init[i] == ps[i]; }
        }
        forall k | k in KeysOf(init) ensures k in KeysOf(ps) {
          var i :| 0 <= i < |init| && init[i].valueKey == k;
          assert ps[i] == init[i];
        }
      }
    }
  }

  predicate DistinctKeys(ps: seq<Pattern>) {
    forall i, j :: 0 <= i < |ps| && 0 <= j < |ps| && i != j ==> ps[i].valueKey != ps[j].valueKey
  }

  /** With distinct keys, each rule's key holds that rule's coerced default. */
  lemma {:induction false} DefaultsAt(ps: seq<Pattern>, lib: Library, i: nat)
    requires DistinctKeys(ps) && i < |ps|
    ensures ps[i].valueKey in Defaults(ps, lib)
    ensures Defaults(ps, lib)[ps[i].valueKey] == Coerce(ps[i].valueType, ps[i].defaultValue, lib)
    decreases |ps|
  {
    if i < |ps| - 1 {
      var init := ps[..|ps| - 1];
      assert DistinctKeys(init) by {
        forall a, b | 0 <= a < |init| && 0 <= b < |init| && a != b ensures init[a].valueKey != init[b].valueKey {
          assert init[a] == ps[a] && init[b] == ps[b];
        }
      }
      assert init[i] == ps[i];
      DefaultsAt(init, lib, i);
    }
  }

  // ---------------------------------------------------------------- validation

  /** The failures `Validate` reports; indexes count rules from 0. */
  datatype ValidationError =
    | NoRules
    | BlankKey(index: nat)
    | BadType(index: nat, valueType: string)
    | NoLabels(index: nat)
    | DuplicateKey(first: nat, second: nat, key: string)
    | DuplicateLabel(first: nat, second: nat, keyword: string)

  // The fixed parts of the messages.
  const NoRulesText := "未设置解析规则"
  const RuleText := "解析规则第 "
  const BlankKeyText := " 项未设置键名或者为空"
  const TypeText := " 项返回值类型 "
  const BadTypeText := " 设置有误，有效的类型为："
  const NoLabelsText := " 项未设置标签关键词"
  const AndRuleText := " 项与第 "
  const ItemText := " 项 "
  const DuplicateKeyText := " 键名重复"
  const DuplicateLabelText := " 标签关键词重复"

  /** The message of each failure, with rules numbered from 1. */
  function Message(e: ValidationError): string {
    match e
    case NoRules => NoRulesText
    case BlankKey(i) => RuleText + NatToString(i + 1) + BlankKeyText
    case BadType(i, t) => RuleText + NatToString(i + 1) + TypeText + t + BadTypeText + Join(ValueTypes, ", ")
    case NoLabels(i) => RuleText + NatToString(i + 1) + NoLabelsText
    case DuplicateKey(i, j, k) => RuleText + NatToString(i + 1) + AndRuleText + NatToString(j + 1) + ItemText + k + DuplicateKeyText
    case DuplicateLabel(i, j, k) =>
      RuleText + NatToString(i + 1) + AndRuleText + NatToString(j + 1) + ItemText + k + DuplicateLabelText
  }

  /**
   * The checks on rule `i` alone, in the order the source makes them. A key is
   * blank when `TrimSpace` leaves nothing of it (`Strings.TrimSpaceBlank`).
   */
  function OwnViolation(p: Pattern, i: nat): Option<ValidationError> {
    if IsBlank(p.valueKey) then Some(BlankKey(i))
    else if !StringIn(p.valueType, ValueTypes) then Some(BadType(i, p.valueType))
    else if |p.labels| == 0 then Some(NoLabels(i))
    else None
  }

  /** The first keyword of `l1`, from position `a`, that equals some keyword of `l2` ignoring case. */
  function SharedKeyword(l1: seq<string>, l2: seq<string>, a: nat): (r: Option<string>)
    requires a <= |l1|
    decreases |l1| - a
  {
    if a == |l1| then None
    else if exists b :: 0 <= b < |l2| && EqualFold(l1[a], l2[b]) then Some(l1[a])
    else SharedKeyword(l1, l2, a + 1)
  }

  /** The keyword found is one of `l1` that some keyword of `l2` equals; None means there is no such pair. */
  lemma {:induction false} SharedKeywordSpec(l1: seq<string>, l2: seq<string>, a: nat)
    requires a <= |l1|
    ensures SharedKeyword(l1, l2, a).Some? ==>
      exists x, y :: a <= x < |l1| && 0 <= y < |l2| && SharedKeyword(l1, l2, a).value == l1[x] && EqualFold(l1[x], l2[y])
    ensures SharedKeyword(l1, l2, a).None? <==> forall x, y :: a <= x < |l1| && 0 <= y < |l2| ==> !EqualFold(l1[x], l2[y])
    decreases |l1| - a
  {
    if a < |l1| && !(exists b :: 0 <= b < |l2| && EqualFold(l1[a], l2[b])) {
      SharedKeywordSpec(l1, l2, a + 1);
    }
  }

  /** The checks of rule `i` against the rules `j, j+1, ...` after it. */
  function PairViolation(ps: seq<Pattern>, i: nat, j: nat): Option<ValidationError>
    requires i < j <= |ps|
    decreases |ps| - j
  {
    if j == |ps| then None
    else if EqualFold(ps[i].valueKey, ps[j].valueKey) then Some(DuplicateKey(i, j, ps[i].valueKey))
    else match SharedKeyword(ps[i].labels, ps[j].labels, 0)
      case Some(k) => Some(DuplicateLabel(i, j, k))
      case None => PairViolation(ps, i, j + 1)
  }

  function ViolationFrom(ps: seq<Pattern>, i: nat): Option<ValidationError>
    requires i <= |ps|
    decreases |ps| - i
  {
    if i == |ps| then None
    else match OwnViolation(ps[i], i)
      case Some(e) => Some(e)
      case None =>
        match PairViolation(ps, i, i + 1)
        case Some(e) => Some(e)
        case None => ViolationFrom(ps, i + 1)
  }

  /** The first failure `Validate` finds in the rule list, or None. */
  function Violation(ps: seq<Pattern>): Option<ValidationError> {
    if |ps| == 0 then Some(NoRules) else ViolationFrom(ps, 0)
  }

  predicate RuleOk(p: Pattern) {
    !IsBlank(p.valueKey) && StringIn(p.valueType, ValueTypes) && |p.labels| > 0
  }

  /** Two rules share neither their key nor any keyword, ignoring case. */
  predicate Disjoint(p: Pattern, q: Pattern) {
    && !EqualFold(p.valueKey, q.valueKey)
    && forall x, y :: 0 <= x < |p.labels| && 0 <= y < |q.labels| ==> !EqualFold(p.labels[x], q.labels[y])
  }

  /** The rule set `Validate` accepts. */
  predicate WellFormed(ps: seq<Pattern>) {
    && |ps| > 0
    && (forall i :: 0 <= i < |ps| ==> RuleOk(ps[i]))
    && (forall i, j :: 0 <= i < j < |ps| ==> Disjoint(ps[i], ps[j]))
  }

  /** Rules `i, i+1, ...` each pass their own checks. */
  predicate RulesOkFrom(ps: seq<Pattern>, i: nat)
    decreases |ps| - i
  {
    i >= |ps| || (RuleOk(ps[i]) && RulesOkFrom(ps, i + 1))
  }

  /** Rule `i` is disjoint from rules `j, j+1, ...`. */
  predicate DisjointWith(ps: seq<Pattern>, i: nat, j: nat)
    requires i < |ps|
    decreases |ps| - j
  {
    j >= |ps| || (Disjoint(ps[i], ps[j]) && DisjointWith(ps, i, j + 1))
  }

  /** Rules `i, i+1, ...` are pairwise disjoint. */
  predicate DisjointFrom(ps: seq<Pattern>, i: nat)
    decreases |ps| - i
  {
    i >= |ps| || (DisjointWith(ps, i, i + 1) && DisjointFrom(ps, i + 1))
  }

  lemma {:induction false} PairViolationNoneIff(ps: seq<Pattern>, i: nat, j: nat)
    requires i < j <= |ps|
    ensures PairViolation(ps, i, j).None? <==> DisjointWith(ps, i, j)
    decreases |ps| - j
  {
    if j < |ps| {
      SharedKeywordSpec(ps[i].labels, ps[j].labels, 0);
      PairViolationNoneIff(ps, i, j + 1);
    }
  }

  lemma {:induction false} ViolationFromNoneIff(ps: seq<Pattern>, i: nat)
    requires i <= |ps|
    ensures ViolationFrom(ps, i).None? <==> RulesOkFrom(ps, i) && DisjointFrom(ps, i)
    decreases |ps| - i
  {
    if i < |ps| {
      ViolationFromNoneIff(ps, i + 1);
      PairViolationNoneIff(ps, i, i + 1);
    }
  }

  lemma {:induction false} RulesOkFromAll(ps: seq<Pattern>, i: nat)
    ensures RulesOkFrom(ps, i) <==> forall k :: i <= k < |ps| ==> RuleOk(ps[k])
    decreases |ps| - i
  {
    if i < |ps| {
      RulesOkFromAll(ps, i + 1);
    }
  }

  lemma {:induction false} DisjointWithAll(ps: seq<Pattern>, i: nat, j: nat)
    requires i < |ps|
    ensures DisjointWith(ps, i, j) <==> forall l :: j <= l < |ps| ==> Disjoint(ps[i], ps[l])
    decreases |ps| - j
  {
    if j < |ps| {
      DisjointWithAll(ps, i, j + 1);
    }
  }

  lemma {:induction false} DisjointFromAll(ps: seq<Pattern>, i: nat)
    ensures DisjointFrom(ps, i) <==> forall k, l :: i <= k < l < |ps| ==> Disjoint(ps[k], ps[l])
    decreases |ps| - i
  {
    if i < |ps| {
      DisjointFromAll(ps, i + 1);
      DisjointWithAll(ps, i, i + 1);
      if DisjointFrom(ps, i) {
        forall k, l | i <= k < l < |ps| ensures Disjoint(ps[k], ps[l]) {
          if k > i { assert i + 1 <= k; }
        }
      }
    }
  }

  /** `Validate` succeeds exactly on well-formed rule sets. */
  lemma ViolationNoneIff(ps: seq<Pattern>)
    ensures Violation(ps).None? <==> WellFormed(ps)
  {
    if |ps| > 0 {
      ViolationFromNoneIff(ps, 0);
      RulesOkFromAll(ps, 0);
      DisjointFromAll(ps, 0);
    }
  }

  /** A reported failure names rules that really have it. */
  lemma {:induction false} ViolationFromSound(ps: seq<Pattern>, i: nat)
    requires i <= |ps|
    ensures match ViolationFrom(ps, i)
      case Some(BlankKey(k)) => i <= k < |ps| && IsBlank(ps[k].valueKey)
      case Some(BadType(k, t)) => i <= k < |ps| && t == ps[k].valueType && !StringIn(t, ValueTypes)
      case Some(NoLabels(k)) => i <= k < |ps| && |ps[k].labels| == 0
      case Some(DuplicateKey(k, l, key)) =>
        i <= k < l < |ps| && key == ps[k].valueKey && EqualFold(ps[k].valueKey, ps[l].valueKey)
      case Some(DuplicateLabel(k, l, kw)) =>
        i <= k < l < |ps| && kw in ps[k].labels && exists y :: 0 <= y < |ps[l].labels| && EqualFold(kw, ps[l].labels[y])
      case Some(NoRules) => false
      case None => true
    decreases |ps| - i
  {
    if i < |ps| && OwnViolation(ps[i], i).None? {
      PairViolationSound(ps, i, i + 1);
      if PairViolation(ps, i, i + 1).None? {
        ViolationFromSound(ps, i + 1);
      }
    }
  }

  lemma {:induction false} PairViolationSound(ps: seq<Pattern>, i: nat, j: nat)
    requires i < j <= |ps|
    ensures match PairViolation(ps, i, j)
      case Some(DuplicateKey(k, l, key)) =>
        k == i && j <= l < |ps| && key == ps[i].valueKey && EqualFold(ps[i].valueKey, ps[l].valueKey)
      case Some(DuplicateLabel(k, l, kw)) =>
        k == i && j <= l < |ps| && kw in ps[i].labels && exists y :: 0 <= y < |ps[l].labels| && EqualFold(kw, ps[l].labels[y])
      case Some(_) => false
      case None => true
    decreases |ps| - j
  {
    if j < |ps| && !EqualFold(ps[i].valueKey, ps[j].valueKey) {
      SharedKeywordSpec(ps[i].labels, ps[j].labels, 0);
      if SharedKeyword(ps[i].labels, ps[j].labels, 0).None? {
        PairViolationSound(ps, i, j + 1);
      }
    }
  }

  /** A failure `Validate` reports names rules that really have it. */
  lemma ViolationSound(ps: seq<Pattern>)
    ensures match Violation(ps)
      case Some(NoRules) => |ps| == 0
      case Some(BlankKey(k)) => k < |ps| && IsBlank(ps[k].valueKey)
      case Some(BadType(k, t)) => k < |ps| && t == ps[k].valueType && !StringIn(t, ValueTypes)
      case Some(NoLabels(k)) => k < |ps| && |ps[k].labels| == 0
      case Some(DuplicateKey(k, l, key)) =>
        k < l < |ps| && key == ps[k].valueKey && EqualFold(ps[k].valueKey, ps[l].valueKey)
      case Some(DuplicateLabel(k, l, kw)) =>
        k < l < |ps| && kw in ps[k].labels && exists y :: 0 <= y < |ps[l].labels| && EqualFold(kw, ps[l].labels[y])
      case None => true
  {
    if |ps| > 0 {
      ViolationFromSound(ps, 0);
    }
  }

  /** Rules that pass validation have pairwise distinct keys. */
  lemma WellFormedDistinctKeys(ps: seq<Pattern>)
    requires Violation(ps).None?
    ensures DistinctKeys(ps)
  {
    ViolationNoneIff(ps);
    forall i, j | 0 <= i < |ps| && 0 <= j < |ps| && i != j ensures ps[i].valueKey != ps[j].valueKey {
      EqualFoldReflexive(ps[i].valueKey);
      if i < j { assert Disjoint(ps[i], ps[j]); } else { assert Disjoint(ps[j], ps[i]); }
    }
  }
}
