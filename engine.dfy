/**
 * What `Parse` computes (normalizer.go:191-373), as functions of the rules and the text:
 * the line scan that turns labelled lines into records, and the pass that transforms,
 * casts and merges each record into the result map. The `Normalizer` class runs the
 * same steps with loops and is proved equal to these functions.
 */
module Engine {
  import opened Wrappers
  import opened Strings
  import opened Labels
  import opened Values
  import opened Rules

  /**
   * `labelValue`: one value found in the text, with the key, type and transform of the
   * rule that found it. `rule` is that rule's index and `continued` marks a line of
   * pure text appended to the record before it; the source keeps neither.
   */
  datatype Record = Record(
    key: string,
    text: string,
    value: string,
    valueType: string,
    transform: ValueTransform,
    rule: nat,
    continued: bool)

  // ---------------------------------------------------------------- matching one line

  /** How a keyword is compared with a cleaned label: whole word ignoring case, or equality. */
  predicate KeywordMatches(matchMethod: int, keyword: string, text: string) {
    if matchMethod == FuzzyMatch then WholeWord(keyword, text) else text == keyword
  }

  /** Some keyword of rule `p` matches `text`. */
  predicate AnyKeyword(p: Pattern, text: string) {
    exists k :: 0 <= k < |p.labels| && KeywordMatches(p.matchMethod, p.labels[k], text)
  }

  /**
   * Rule `p` (index `i`) applied to a trimmed, non-empty line: the line must contain the
   * rule's separator, the cleaned text before its first occurrence must match a keyword,
   * and the value is the trimmed text from one character after the separator's start.
   */
  function RuleMatch(p: Pattern, i: nat, line: string, strictMode: bool): (r: Option<Record>)
    requires line != ""
  {
    var at := Index(line, p.separator);
    if at < 0 then None
    else
      var text := Clean(line[..at], strictMode);
      if AnyKeyword(p, text) then
        Some(Record(p.valueKey, text, TrimSpace(line[at + 1..]), p.valueType, p.valueTransform, i, false))
      else None
  }

  /** The first rule from index `i` on that is not used yet and matches `line`. */
  function FirstMatch(ps: seq<Pattern>, used: seq<bool>, line: string, strictMode: bool, i: nat): (r: Option<(nat, Record)>)
    requires |used| == |ps| && i <= |ps| && line != ""
    ensures r.Some? ==> i <= r.value.0 < |ps| && !used[r.value.0]
    decreases |ps| - i
  {
    if i == |ps| then None
    else if !used[i] && RuleMatch(ps[i], i, line, strictMode).Some? then
      Some((i, RuleMatch(ps[i], i, line, strictMode).value))
    else FirstMatch(ps, used, line, strictMode, i + 1)
  }

  /** The record found is the match of the rule found. */
  lemma {:induction false} FirstMatchIsMatch(ps: seq<Pattern>, used: seq<bool>, line: string, strictMode: bool, i: nat)
    requires |used| == |ps| && i <= |ps| && line != ""
    ensures var r := FirstMatch(ps, used, line, strictMode, i);
      r.Some? ==> RuleMatch(ps[r.value.0], r.value.0, line, strictMode) == Some(r.value.1)
    decreases |ps| - i
  {
    if i < |ps| {
      var m := RuleMatch(ps[i], i, line, strictMode);
      if !used[i] && m.Some? {
        assert FirstMatch(ps, used, line, strictMode, i) == Some((i, m.value));
      } else {
        assert FirstMatch(ps, used, line, strictMode, i) == FirstMatch(ps, used, line, strictMode, i + 1);
        FirstMatchIsMatch(ps, used, line, strictMode, i + 1);
      }
    }
  }

  /** Every unused rule before the one found declines the line. */
  lemma {:induction false} FirstMatchIsFirst(ps: seq<Pattern>, used: seq<bool>, line: string, strictMode: bool, i: nat)
    requires |used| == |ps| && i <= |ps| && line != ""
    ensures var r := FirstMatch(ps, used, line, strictMode, i);
      r.Some? ==> forall j :: i <= j < r.value.0 ==> used[j] || RuleMatch(ps[j], j, line, strictMode).None?
    decreases |ps| - i
  {
    if i < |ps| {
      var m := RuleMatch(ps[i], i, line, strictMode);
      if !used[i] && m.Some? {
        assert FirstMatch(ps, used, line, strictMode, i) == Some((i, m.value));
      } else {
        assert FirstMatch(ps, used, line, strictMode, i) == FirstMatch(ps, used, line, strictMode, i + 1);
        FirstMatchIsFirst(ps, used, line, strictMode, i + 1);
        var r := FirstMatch(ps, used, line, strictMode, i + 1);
        if r.Some? {
          forall j | i <= j < r.value.0 ensures used[j] || RuleMatch(ps[j], j, line, strictMode).None? {
            if j == i {
              assert used[i] || m.None?;
            }
          }
        }
      }
    }
  }

  /** None is found exactly when every unused rule declines the line. */
  lemma {:induction false} FirstMatchNone(ps: seq<Pattern>, used: seq<bool>, line: string, strictMode: bool, i: nat)
    requires |used| == |ps| && i <= |ps| && line != ""
    ensures FirstMatch(ps, used, line, strictMode, i).None? <==>
      forall j :: i <= j < |ps| ==> used[j] || RuleMatch(ps[j], j, line, strictMode).None?
    decreases |ps| - i
  {
    if i < |ps| {
      var m := RuleMatch(ps[i], i, line, strictMode);
      if !used[i] && m.Some? {
        assert FirstMatch(ps, used, line, strictMode, i) == Some((i, m.value));
      } else {
        assert FirstMatch(ps, used, line, strictMode, i) == FirstMatch(ps, used, line, strictMode, i + 1);
        FirstMatchNone(ps, used, line, strictMode, i + 1);
      }
    }
  }

  /** The record found comes from the rule found, and is not a continuation. */
  lemma FirstMatchFromRule(ps: seq<Pattern>, used: seq<bool>, line: string, strictMode: bool)
    requires |used| == |ps| && line != "" && FirstMatch(ps, used, line, strictMode, 0).Some?
    ensures var (i, rec) := FirstMatch(ps, used, line, strictMode, 0).value;
      rec.rule == i && !rec.continued && FromRule(rec, ps)
  {
    FirstMatchIsMatch(ps, used, line, strictMode, 0);
  }

  /** A cleaned line starts with none of the known labels. */
  predicate IsPureText(labels: set<string>, cleaned: string) {
    forall l :: l in labels ==> !HasPrefix(cleaned, l)
  }

  // ---------------------------------------------------------------- the line scan

  /** The scan's variables: the records so far, the rules' used flags and `appendText`. */
  datatype ScanState = ScanState(records: seq<Record>, used: seq<bool>, appendText: bool)

  /** A line of pure text continuing the record `last`. */
  function Continuation(last: Record, line: string): Record {
    last.(value := line, continued := true)
  }

  /** One line of the scan (normalizer.go:216-290): a line blank once trimmed is skipped. */
  function Step(st: ScanState, ps: seq<Pattern>, labels: set<string>, strictMode: bool, raw: string): (r: ScanState)
    requires |st.used| == |ps|
    ensures |r.used| == |ps|
  {
    var line := TrimSpace(raw);
    if line == "" then st else StepLine(st, ps, labels, strictMode, line)
  }

  /**
   * A trimmed, non-empty line. Pure text before any record is skipped; later pure text
   * continues the last record while continuations are allowed. The line is then offered
   * to the rules.
   */
  function StepLine(st: ScanState, ps: seq<Pattern>, labels: set<string>, strictMode: bool, line: string): (r: ScanState)
    requires |st.used| == |ps| && line != ""
    ensures |r.used| == |ps|
  {
    var pure := IsPureText(labels, Clean(line, strictMode));
    if pure && st.appendText && |st.records| == 0 then st
    else if pure && st.appendText then
      StepMatch(st.(records := st.records + [Continuation(st.records[|st.records| - 1], line)]), ps, strictMode, line, pure)
    else StepMatch(st, ps, strictMode, line, pure)
  }

  /**
   * The first unused matching rule adds its record, is marked used and allows
   * continuations again; a labelled line that no rule takes forbids them.
   */
  function StepMatch(st: ScanState, ps: seq<Pattern>, strictMode: bool, line: string, pure: bool): (r: ScanState)
    requires |st.used| == |ps| && line != ""
    ensures |r.used| == |ps|
  {
    match FirstMatch(ps, st.used, line, strictMode, 0)
    case Some((i, rec)) => ScanState(st.records + [rec], st.used[i := true], true)
    case None => st.(appendText := if pure then st.appendText else false)
  }

  /** The scan over the remaining lines. */
  function ScanAll(st: ScanState, ps: seq<Pattern>, labels: set<string>, strictMode: bool, lines: seq<string>): (r: ScanState)
    requires |st.used| == |ps|
    ensures |r.used| == |ps|
    decreases |lines|
  {
    if lines == [] then st
    else ScanAll(Step(st, ps, labels, strictMode, lines[0]), ps, labels, strictMode, lines[1..])
  }

  function NoneUsed(n: nat): (r: seq<bool>)
    ensures |r| == n && forall i :: 0 <= i < n ==> !r[i]
  {
    seq(n, _ => false)
  }

  /** The scan of the whole text, from no records, no rule used and `appendText` set. */
  function Scan(text: string, separator: string, ps: seq<Pattern>, labels: set<string>, strictMode: bool): (r: ScanState)
    requires separator != ""
    ensures |r.used| == |ps|
    ensures ScanInv(r, ps)
  {
    ScanAllKeepsInv(ScanState([], NoneUsed(|ps|), true), ps, labels, strictMode, Split(text, separator));
    ScanAll(ScanState([], NoneUsed(|ps|), true), ps, labels, strictMode, Split(text, separator))
  }

  // ---------------------------------------------------------------- scan invariants

  /** A record carries the key, type and transform of the rule it names. */
  predicate FromRule(r: Record, ps: seq<Pattern>) {
    && r.rule < |ps|
    && r.key == ps[r.rule].valueKey
    && r.valueType == ps[r.rule].valueType
    && r.transform == ps[r.rule].valueTransform
  }

  /** The number of records that rule `i` matched itself (continuations not counted). */
  function MatchCount(recs: seq<Record>, i: nat): nat
    decreases |recs|
  {
    if recs == [] then 0
    else
      var last := recs[|recs| - 1];
      MatchCount(recs[..|recs| - 1], i) + (if last.rule == i && !last.continued then 1 else 0)
  }

  /**
   * What holds after every line: each record comes from a rule, a rule is marked used
   * exactly when it has matched one line, the first record is a match and every
   * continuation belongs to the rule of the record before it.
   */
  predicate ScanInv(st: ScanState, ps: seq<Pattern>) {
    && |st.used| == |ps|
    && (forall k :: 0 <= k < |st.records| ==> FromRule(st.records[k], ps))
    && (forall i :: 0 <= i < |ps| ==> MatchCount(st.records, i) == if st.used[i] then 1 else 0)
    && (|st.records| > 0 ==> !st.records[0].continued)
    && (forall k :: 0 < k < |st.records| && st.records[k].continued ==> st.records[k].rule == st.records[k - 1].rule)
  }

  lemma MatchCountSnoc(recs: seq<Record>, r: Record, i: nat)
    ensures MatchCount(recs + [r], i) == MatchCount(recs, i) + (if r.rule == i && !r.continued then 1 else 0)
  {
    assert (recs + [r])[..|recs|] == recs;
  }

  lemma ContinuationKeepsInv(st: ScanState, ps: seq<Pattern>, line: string)
    requires ScanInv(st, ps) && |st.records| > 0
    ensures ScanInv(st.(records := st.records + [Continuation(st.records[|st.records| - 1], line)]), ps)
  {
    var c := Continuation(st.records[|st.records| - 1], line);
    forall i | 0 <= i < |ps| ensures MatchCount(st.records + [c], i) == MatchCount(st.records, i) {
      MatchCountSnoc(st.records, c, i);
    }
  }

  lemma MatchKeepsInv(st: ScanState, ps: seq<Pattern>, i: nat, rec: Record)
    requires ScanInv(st, ps) && i < |ps| && !st.used[i]
    requires rec.rule == i && !rec.continued && FromRule(rec, ps)
    ensures ScanInv(ScanState(st.records + [rec], st.used[i := true], true), ps)
  {
    forall j | 0 <= j < |ps|
      ensures MatchCount(st.records + [rec], j) == if st.used[i := true][j] then 1 else 0
    {
      MatchCountSnoc(st.records, rec, j);
    }
  }

  lemma StepMatchKeepsInv(st: ScanState, ps: seq<Pattern>, strictMode: bool, line: string, pure: bool)
    requires ScanInv(st, ps) && line != ""
    ensures ScanInv(StepMatch(st, ps, strictMode, line, pure), ps)
  {
    var m := FirstMatch(ps, st.used, line, strictMode, 0);
    if m.Some? {
      var (i, rec) := m.value;
      FirstMatchFromRule(ps, st.used, line, strictMode);
      MatchKeepsInv(st, ps, i, rec);
    }
  }

  lemma StepLineKeepsInv(st: ScanState, ps: seq<Pattern>, labels: set<string>, strictMode: bool, line: string)
    requires ScanInv(st, ps) && line != ""
    ensures ScanInv(StepLine(st, ps, labels, strictMode, line), ps)
  {
    var pure := IsPureText(labels, Clean(line, strictMode));
    if pure && st.appendText && |st.records| > 0 {
      ContinuationKeepsInv(st, ps, line);
      StepMatchKeepsInv(st.(records := st.records + [Continuation(st.records[|st.records| - 1], line)]), ps, strictMode, line, pure);
    } else if !(pure && st.appendText) {
      StepMatchKeepsInv(st, ps, strictMode, line, pure);
    }
  }

  /** Every line keeps the scan invariant. */
  lemma StepKeepsInv(st: ScanState, ps: seq<Pattern>, labels: set<string>, strictMode: bool, raw: string)
    requires ScanInv(st, ps)
    ensures ScanInv(Step(st, ps, labels, strictMode, raw), ps)
  {
    var line := TrimSpace(raw);
    if line != "" {
      StepLineKeepsInv(st, ps, labels, strictMode, line);
    }
  }

  lemma {:induction false} ScanAllKeepsInv(st: ScanState, ps: seq<Pattern>, labels: set<string>, strictMode: bool, lines: seq<string>)
    requires ScanInv(st, ps)
    ensures ScanInv(ScanAll(st, ps, labels, strictMode, lines), ps)
    decreases |lines|
  {
    if lines != [] {
      StepKeepsInv(st, ps, labels, strictMode, lines[0]);
      ScanAllKeepsInv(Step(st, ps, labels, strictMode, lines[0]), ps, labels, strictMode, lines[1..]);
    }
  }

  /**
   * The whole scan: every record carries its rule's key, type and transform, each rule
   * matches at most one line, and exactly the rules that matched end up used.
   */
  lemma ScanProperties(text: string, separator: string, ps: seq<Pattern>, labels: set<string>, strictMode: bool)
    requires separator != ""
    ensures var st := Scan(text, separator, ps, labels, strictMode);
      && (forall k :: 0 <= k < |st.records| ==> FromRule(st.records[k], ps))
      && (forall i :: 0 <= i < |ps| ==> MatchCount(st.records, i) <= 1)
      && (forall i :: 0 <= i < |ps| ==> (st.used[i] <==> MatchCount(st.records, i) == 1))
  {
  }

  /** A rule has matched some line exactly when a non-continuation record of it is present. */
  lemma {:induction false} MatchCountPositive(recs: seq<Record>, i: nat)
    ensures MatchCount(recs, i) > 0 <==> exists k :: 0 <= k < |recs| && recs[k].rule == i && !recs[k].continued
    decreases |recs|
  {
    if recs != [] {
      var init := recs[..|recs| - 1];
      MatchCountPositive(init, i);
      assert forall k :: 0 <= k < |init| ==> init[k] == recs[k];
    }
  }

  /** Every record, continuation or not, goes back to a matched line of its rule. */
  lemma {:induction false} RecordHasMatch(st: ScanState, ps: seq<Pattern>, k: nat)
    requires ScanInv(st, ps) && k < |st.records|
    ensures exists j :: 0 <= j <= k && st.records[j].rule == st.records[k].rule && !st.records[j].continued
  {
    if st.records[k].continued {
      RecordHasMatch(st, ps, k - 1);
    }
  }

  /** The keys of the rules whose flag is set. */
  function UsedKeys(ps: seq<Pattern>, used: seq<bool>): set<string>
    requires |used| == |ps|
  {
    set i | 0 <= i < |ps| && used[i] :: ps[i].valueKey
  }

  /** The records of a scan carry exactly the keys of the rules that matched a line. */
  lemma ScanKeys(text: string, separator: string, ps: seq<Pattern>, labels: set<string>, strictMode: bool)
    requires separator != ""
    ensures var st := Scan(text, separator, ps, labels, strictMode);
      RecordKeys(st.records) == UsedKeys(ps, st.used)
  {
    var st := Scan(text, separator, ps, labels, strictMode);
    var recs := st.records;
    forall x | x in RecordKeys(recs) ensures x in UsedKeys(ps, st.used) {
      var k :| 0 <= k < |recs| && recs[k].key == x;
      assert FromRule(recs[k], ps);
      RecordHasMatch(st, ps, k);
      var i := recs[k].rule;
      MatchCountPositive(recs, i);
      assert st.used[i];
    }
    forall x | x in UsedKeys(ps, st.used) ensures x in RecordKeys(recs) {
      var i :| 0 <= i < |ps| && st.used[i] && ps[i].valueKey == x;
      MatchCountPositive(recs, i);
      var k :| 0 <= k < |recs| && recs[k].rule == i && !recs[k].continued;
      assert FromRule(recs[k], ps);
    }
  }

  /** A line that is blank once trimmed changes nothing. */
  lemma StepBlank(st: ScanState, ps: seq<Pattern>, labels: set<string>, strictMode: bool, raw: string)
    requires |st.used| == |ps| && TrimSpace(raw) == ""
    ensures Step(st, ps, labels, strictMode, raw) == st
  {
  }

  /** Pure text before the first record is skipped, even when some rule would match it. */
  lemma StepLeadingPureText(st: ScanState, ps: seq<Pattern>, labels: set<string>, strictMode: bool, line: string)
    requires |st.used| == |ps| && line != "" && IsPureText(labels, Clean(line, strictMode))
    requires st.appendText && st.records == []
    ensures StepLine(st, ps, labels, strictMode, line) == st
  {
  }

  /**
   * Later pure text continues the last record, and is still offered to the rules, so
   * that a rule matching it starts a record of its own right after the continuation.
   */
  lemma StepContinues(st: ScanState, ps: seq<Pattern>, labels: set<string>, strictMode: bool, line: string)
    requires |st.used| == |ps| && line != "" && IsPureText(labels, Clean(line, strictMode))
    requires st.appendText && st.records != []
    ensures var r := StepLine(st, ps, labels, strictMode, line);
      && r.records[..|st.records| + 1] == st.records + [Continuation(st.records[|st.records| - 1], line)]
      && (FirstMatch(ps, st.used, line, strictMode, 0).Some? ==> |r.records| == |st.records| + 2)
      && (FirstMatch(ps, st.used, line, strictMode, 0).None? ==> r.appendText && |r.records| == |st.records| + 1)
  {
    var recs := st.records + [Continuation(st.records[|st.records| - 1], line)];
    var st1 := st.(records := recs);
    assert StepLine(st, ps, labels, strictMode, line) == StepMatch(st1, ps, strictMode, line, true);
    var m := FirstMatch(ps, st.used, line, strictMode, 0);
    if m.Some? {
      assert StepMatch(st1, ps, strictMode, line, true) == ScanState(recs + [m.value.1], st.used[m.value.0 := true], true);
      assert (recs + [m.value.1])[..|st.records| + 1] == recs;
    } else {
      assert StepMatch(st1, ps, strictMode, line, true) == st1;
    }
  }

  /** A labelled line that no rule takes stops continuations until the next match. */
  lemma StepUnmatchedLabel(st: ScanState, ps: seq<Pattern>, labels: set<string>, strictMode: bool, line: string)
    requires |st.used| == |ps| && line != "" && !IsPureText(labels, Clean(line, strictMode))
    requires FirstMatch(ps, st.used, line, strictMode, 0).None?
    ensures StepLine(st, ps, labels, strictMode, line) == st.(appendText := false)
  {
  }

  /** A matched line appends its record, marks its rule used and allows continuations again. */
  lemma StepMatched(st: ScanState, ps: seq<Pattern>, labels: set<string>, strictMode: bool, line: string)
    requires |st.used| == |ps| && line != "" && FirstMatch(ps, st.used, line, strictMode, 0).Some?
    requires !(IsPureText(labels, Clean(line, strictMode)) && st.appendText && st.records == [])
    ensures var r := StepLine(st, ps, labels, strictMode, line);
      var m := FirstMatch(ps, st.used, line, strictMode, 0).value;
      && r.appendText
      && r.used == st.used[m.0 := true]
      && r.records[|r.records| - 1] == m.1
  {
    var pure := IsPureText(labels, Clean(line, strictMode));
    var st1 := if pure && st.appendText then st.(records := st.records + [Continuation(st.records[|st.records| - 1], line)]) else st;
    assert StepLine(st, ps, labels, strictMode, line) == StepMatch(st1, ps, strictMode, line, pure);
  }

  // ---------------------------------------------------------------- transform, cast, merge

  /** A record's value after its transform, cast to its type, with the effect on `err`. */
  function CastRecord(r: Record, lib: Library): (v: (Value, ErrUpdate))
    requires NoEmptyKeys(r.transform.replacements)
    ensures HasKind(v.0, r.valueType)
  {
    Cast(Transformed(r.value, r.transform), r.valueType, r.transform.separators, lib)
  }

  /** The result map, the error list and the shared `err` variable of the second loop. */
  datatype ApplyState = ApplyState(items: map<string, Value>, errors: seq<string>, err: Option<string>)

  /** Every value held under a rule's key has that rule's type. */
  predicate ItemsKinded(items: map<string, Value>, ps: seq<Pattern>) {
    forall i :: 0 <= i < |ps| && ps[i].valueKey in items ==> HasKind(items[ps[i].valueKey], ps[i].valueType)
  }

  /** What the record loop needs: records from prepared rules with distinct keys. */
  predicate Applicable(recs: seq<Record>, ps: seq<Pattern>) {
    && Prepared(ps)
    && DistinctKeys(ps)
    && forall k :: 0 <= k < |recs| ==> FromRule(recs[k], ps)
  }

  /**
   * One record of the second loop (normalizer.go:294-371): cast, keep or replace `err`,
   * record `err` when it is set, and merge the value into the map.
   */
  function ApplyRecord(st: ApplyState, r: Record, lib: Library): ApplyState
    requires NoEmptyKeys(r.transform.replacements)
    requires r.key in st.items ==> HasKind(st.items[r.key], r.valueType)
  {
    var (v, update) := CastRecord(r, lib);
    var err := if update.Assign? then update.err else st.err;
    ApplyState(
      st.items[r.key := Merged(Get(st.items, r.key), r.valueType, v)],
      if err.Some? then st.errors + [err.value] else st.errors,
      err)
  }

  lemma ApplyRecordKinded(st: ApplyState, r: Record, ps: seq<Pattern>, lib: Library)
    requires Applicable([r], ps) && ItemsKinded(st.items, ps)
    ensures r.key in st.items ==> HasKind(st.items[r.key], r.valueType)
    ensures NoEmptyKeys(r.transform.replacements)
    ensures ItemsKinded(ApplyRecord(st, r, lib).items, ps)
  {
    assert [r][0] == r;
    var items := ApplyRecord(st, r, lib).items;
    forall i | 0 <= i < |ps| && ps[i].valueKey in items ensures HasKind(items[ps[i].valueKey], ps[i].valueType) {
      if ps[i].valueKey == r.key {
        assert i == r.rule;
      }
    }
  }

  /** The second loop over the remaining records. */
  function ApplyAll(st: ApplyState, recs: seq<Record>, ps: seq<Pattern>, lib: Library): (r: ApplyState)
    requires Applicable(recs, ps) && ItemsKinded(st.items, ps)
    ensures ItemsKinded(r.items, ps)
    decreases |recs|
  {
    if recs == [] then st
    else
      ApplyRecordKinded(st, recs[0], ps, lib);
      ApplyAll(ApplyRecord(st, recs[0], lib), recs[1..], ps, lib)
  }

  /** The second loop from the map `Parse` starts with, no errors and `err` unset. */
  function Apply(items: map<string, Value>, recs: seq<Record>, ps: seq<Pattern>, lib: Library): (r: ApplyState)
    requires Applicable(recs, ps) && ItemsKinded(items, ps)
    ensures ItemsKinded(r.items, ps)
  {
    ApplyAll(ApplyState(items, [], None), recs, ps, lib)
  }

  function RecordKeys(recs: seq<Record>): set<string> {
    set k | 0 <= k < |recs| :: recs[k].key
  }

  lemma ApplicableSuffix(recs: seq<Record>, ps: seq<Pattern>, r: nat)
    requires Applicable(recs, ps) && r <= |recs|
    ensures Applicable(recs[r..], ps)
  {
    forall k | 0 <= k < |recs[r..]| ensures FromRule(recs[r..][k], ps) {
      assert recs[r..][k] == recs[r + k];
    }
  }

  /** One step of the record loop, from record `r`. */
  lemma ApplyAllStep(st: ApplyState, recs: seq<Record>, ps: seq<Pattern>, lib: Library, r: nat)
    requires Applicable(recs, ps) && ItemsKinded(st.items, ps) && r < |recs|
    ensures Applicable(recs[r..], ps) && Applicable(recs[r + 1..], ps)
    ensures FromRule(recs[r], ps)
    ensures NoEmptyKeys(recs[r].transform.replacements)
    ensures recs[r].key in st.items ==> HasKind(st.items[recs[r].key], recs[r].valueType)
    ensures ItemsKinded(ApplyRecord(st, recs[r], lib).items, ps)
    ensures ApplyAll(st, recs[r..], ps, lib) == ApplyAll(ApplyRecord(st, recs[r], lib), recs[r + 1..], ps, lib)
  {
    ApplicableSuffix(recs, ps, r);
    ApplicableSuffix(recs, ps, r + 1);
    assert recs[r..][0] == recs[r] && recs[r..][1..] == recs[r + 1..];
    ApplyRecordKinded(st, recs[r], ps, lib);
  }

  /** The keys of a list of records: the first one's and those of the rest. */
  lemma RecordKeysCons(recs: seq<Record>)
    requires recs != []
    ensures RecordKeys(recs) == {recs[0].key} + RecordKeys(recs[1..])
  {
    forall x | x in RecordKeys(recs) ensures x in {recs[0].key} + RecordKeys(recs[1..]) {
      var k :| 0 <= k < |recs| && recs[k].key == x;
      if k > 0 { assert recs[1..][k - 1] == recs[k]; }
    }
    forall x | x in RecordKeys(recs[1..]) ensures x in RecordKeys(recs) {
      var k :| 0 <= k < |recs[1..]| && recs[1..][k].key == x;
      assert recs[k + 1] == recs[1..][k];
    }
  }

  lemma ApplicableTail(recs: seq<Record>, ps: seq<Pattern>)
    requires Applicable(recs, ps) && recs != []
    ensures Applicable([recs[0]], ps) && Applicable(recs[1..], ps)
  {
    assert [recs[0]][0] == recs[0];
    forall k | 0 <= k < |recs[1..]| ensures FromRule(recs[1..][k], ps) {
      assert recs[1..][k] == recs[k + 1];
    }
  }

  /** The keys after the loop are the keys before it and the keys of the records. */
  lemma {:induction false} ApplyAllKeys(st: ApplyState, recs: seq<Record>, ps: seq<Pattern>, lib: Library)
    requires Applicable(recs, ps) && ItemsKinded(st.items, ps)
    ensures ApplyAll(st, recs, ps, lib).items.Keys == st.items.Keys + RecordKeys(recs)
    decreases |recs|
  {
    if recs != [] {
      ApplicableTail(recs, ps);
      ApplyRecordKinded(st, recs[0], ps, lib);
      var st1 := ApplyRecord(st, recs[0], lib);
      assert st1.items.Keys == st.items.Keys + {recs[0].key};
      ApplyAllKeys(st1, recs[1..], ps, lib);
      RecordKeysCons(recs);
    }
  }

  /** The cast values of the records rule `i` produced or continued, in order. */
  function RuleValues(recs: seq<Record>, i: nat, lib: Library): seq<Value>
    requires forall k :: 0 <= k < |recs| ==> NoEmptyKeys(recs[k].transform.replacements)
    decreases |recs|
  {
    if recs == [] then []
    else (if recs[0].rule == i then [CastRecord(recs[0], lib).0] else []) + RuleValues(recs[1..], i, lib)
  }

  lemma {:induction false} RuleValuesKinded(recs: seq<Record>, ps: seq<Pattern>, i: nat, lib: Library)
    requires Applicable(recs, ps) && i < |ps|
    ensures forall k :: 0 <= k < |RuleValues(recs, i, lib)| ==> HasKind(RuleValues(recs, i, lib)[k], ps[i].valueType)
    decreases |recs|
  {
    if recs != [] {
      assert FromRule(recs[0], ps);
      RuleValuesKinded(recs[1..], ps, i, lib);
    }
  }

  /** Merging a sequence of values, one after the other, into what a key holds. */
  function FoldMerge(held: Option<Value>, valueType: string, vs: seq<Value>): (r: Option<Value>)
    requires held.Some? ==> HasKind(held.value, valueType)
    requires forall k :: 0 <= k < |vs| ==> HasKind(vs[k], valueType)
    ensures r.Some? ==> HasKind(r.value, valueType)
    decreases |vs|
  {
    if vs == [] then held
    else FoldMerge(Some(Merged(held, valueType, vs[0])), valueType, vs[1..])
  }

  /**
   * What the loop leaves under rule `i`'s key: the values of that rule's records merged,
   * in order, into what the key held before; the other rules' records do not touch it.
   */
  lemma {:induction false} ApplyAllAt(st: ApplyState, recs: seq<Record>, ps: seq<Pattern>, lib: Library, i: nat)
    requires Applicable(recs, ps) && ItemsKinded(st.items, ps) && i < |ps|
    ensures forall k :: 0 <= k < |RuleValues(recs, i, lib)| ==> HasKind(RuleValues(recs, i, lib)[k], ps[i].valueType)
    ensures Get(ApplyAll(st, recs, ps, lib).items, ps[i].valueKey)
      == FoldMerge(Get(st.items, ps[i].valueKey), ps[i].valueType, RuleValues(recs, i, lib))
    decreases |recs|
  {
    RuleValuesKinded(recs, ps, i, lib);
    if recs != [] {
      var r := recs[0];
      assert FromRule(r, ps);
      ApplyRecordKinded(st, r, ps, lib);
      var st1 := ApplyRecord(st, r, lib);
      assert ApplyAll(st, recs, ps, lib) == ApplyAll(st1, recs[1..], ps, lib);
      ApplyAllAt(st1, recs[1..], ps, lib, i);
      ApplyRecordAt(st, r, ps, lib, i);
      RuleValuesKinded(recs[1..], ps, i, lib);
      if r.rule == i {
        var v := CastRecord(r, lib).0;
        assert RuleValues(recs, i, lib) == [v] + RuleValues(recs[1..], i, lib);
        FoldMergeCons(Get(st.items, r.key), r.valueType, v, RuleValues(recs[1..], i, lib));
      } else {
        assert RuleValues(recs, i, lib) == RuleValues(recs[1..], i, lib);
      }
    }
  }

  lemma FoldMergeCons(held: Option<Value>, valueType: string, v: Value, vs: seq<Value>)
    requires held.Some? ==> HasKind(held.value, valueType)
    requires HasKind(v, valueType) && forall k :: 0 <= k < |vs| ==> HasKind(vs[k], valueType)
    ensures FoldMerge(held, valueType, [v] + vs) == FoldMerge(Some(Merged(held, valueType, v)), valueType, vs)
  {
    assert ([v] + vs)[0] == v && ([v] + vs)[1..] == vs;
  }

  /** One record changes only its own rule's key, by merging its value into it. */
  lemma ApplyRecordAt(st: ApplyState, r: Record, ps: seq<Pattern>, lib: Library, i: nat)
    requires FromRule(r, ps) && DistinctKeys(ps) && i < |ps|
    requires NoEmptyKeys(r.transform.replacements) && (r.key in st.items ==> HasKind(st.items[r.key], r.valueType))
    ensures r.rule == i ==>
      Get(ApplyRecord(st, r, lib).items, ps[i].valueKey) == Some(Merged(Get(st.items, r.key), r.valueType, CastRecord(r, lib).0))
    ensures r.rule != i ==> Get(ApplyRecord(st, r, lib).items, ps[i].valueKey) == Get(st.items, ps[i].valueKey)
  {
  }

  /** Nothing but string merges: each joins with a newline once the held text is non-empty. */
  function DropLeadingEmpty(ss: seq<string>): seq<string>
    decreases |ss|
  {
    if ss != [] && ss[0] == "" then DropLeadingEmpty(ss[1..]) else ss
  }

  function Strs(ss: seq<string>): (r: seq<Value>)
    ensures |r| == |ss| && forall k :: 0 <= k < |ss| ==> r[k] == Str(ss[k])
  {
    seq(|ss|, k requires 0 <= k < |ss| => Str(ss[k]))
  }

  lemma JoinCons(a: string, rest: seq<string>, sep: string)
    requires rest != []
    ensures Join([a] + rest, sep) == a + sep + Join(rest, sep)
  {
    assert ([a] + rest)[1..] == rest;
  }

  /**
   * String values merge into the held text joined by newlines, the empty texts before
   * the first non-empty one dropped: `""` then `"a"`, `""`, `"b"` gives `"a\n\nb"`.
   */
  lemma {:induction false} StringMerge(h: string, ss: seq<string>)
    ensures FoldMerge(Some(Str(h)), StringType, Strs(ss)) == Some(Str(Join(DropLeadingEmpty([h] + ss), "\n")))
    decreases |ss|
  {
    if ss == [] {
      if h == "" {
        assert DropLeadingEmpty([h]) == DropLeadingEmpty([]);
      }
    } else {
      var h1 := if h != "" then h + "\n" + ss[0] else ss[0];
      assert Strs(ss)[1..] == Strs(ss[1..]);
      StringMerge(h1, ss[1..]);
      assert FoldMerge(Some(Str(h)), StringType, Strs(ss)) == FoldMerge(Some(Str(h1)), StringType, Strs(ss[1..]));
      if h == "" {
        assert ([h] + ss)[1..] == ss;
        assert ss == [h1] + ss[1..];
      } else {
        assert DropLeadingEmpty([h] + ss) == [h] + ss;
        assert DropLeadingEmpty([h1] + ss[1..]) == [h1] + ss[1..];
        JoinCons(h, ss, "\n");
        if ss[1..] == [] {
          assert ss == [ss[0]];
          assert [h1] + ss[1..] == [h1];
        } else {
          assert ss == [ss[0]] + ss[1..];
          JoinCons(ss[0], ss[1..], "\n");
          JoinCons(h1, ss[1..], "\n");
          calc {
            Join([h] + ss, "\n");
            h + "\n" + (ss[0] + "\n" + Join(ss[1..], "\n"));
            (h + "\n" + ss[0]) + "\n" + Join(ss[1..], "\n");
            Join([h1] + ss[1..], "\n");
          }
        }
      }
    }
  }

  function Concat(vs: seq<Value>): seq<string>
    requires forall k :: 0 <= k < |vs| ==> vs[k].Arr?
    decreases |vs|
  {
    if vs == [] then [] else vs[0].elems + Concat(vs[1..])
  }

  /** Array values are appended, in order, to the held array. */
  lemma {:induction false} ArrayMerge(a: seq<string>, vs: seq<Value>)
    requires forall k :: 0 <= k < |vs| ==> vs[k].Arr?
    ensures FoldMerge(Some(Arr(a)), ArrayType, vs) == Some(Arr(a + Concat(vs)))
    decreases |vs|
  {
    if vs != [] {
      assert HasKind(Arr(a), ArrayType) && HasKind(vs[0], ArrayType);
      assert Merged(Some(Arr(a)), ArrayType, vs[0]) == Arr(a + vs[0].elems);
      assert FoldMerge(Some(Arr(a)), ArrayType, vs) == FoldMerge(Some(Arr(a + vs[0].elems)), ArrayType, vs[1..]);
      ArrayMerge(a + vs[0].elems, vs[1..]);
      assert Concat(vs) == vs[0].elems + Concat(vs[1..]);
      assert (a + vs[0].elems) + Concat(vs[1..]) == a + (vs[0].elems + Concat(vs[1..]));
    } else {
      assert a + Concat(vs) == a;
    }
  }

  /** For boolean, int and float rules the last value wins. */
  lemma {:induction false} ScalarMerge(held: Option<Value>, valueType: string, vs: seq<Value>)
    requires valueType != StringType && valueType != ArrayType
    requires held.Some? ==> HasKind(held.value, valueType)
    requires forall k :: 0 <= k < |vs| ==> HasKind(vs[k], valueType)
    requires vs != []
    ensures FoldMerge(held, valueType, vs) == Some(vs[|vs| - 1])
    decreases |vs|
  {
    if |vs| > 1 {
      ScalarMerge(Some(vs[0]), valueType, vs[1..]);
    }
  }

  /** A missing key takes the first value as it is. */
  lemma FirstValueSets(valueType: string, v: Value, vs: seq<Value>)
    requires HasKind(v, valueType)
    requires forall k :: 0 <= k < |vs| ==> HasKind(vs[k], valueType)
    ensures FoldMerge(None, valueType, [v] + vs) == FoldMerge(Some(v), valueType, vs)
  {
    assert ([v] + vs)[1..] == vs;
  }

  /**
   * The shared `err` variable is not reset between records: after a failed number or
   * boolean, a record whose cast does not assign `err` (`Values.CastKeepsErr` lists them)
   * reports the old message again.
   */
  lemma StaleErrorRepeats(st: ApplyState, r: Record, lib: Library)
    requires NoEmptyKeys(r.transform.replacements)
    requires r.key in st.items ==> HasKind(st.items[r.key], r.valueType)
    requires st.err.Some? && CastRecord(r, lib).1.Keep?
    ensures ApplyRecord(st, r, lib).errors == st.errors + [st.err.value]
    ensures ApplyRecord(st, r, lib).err == st.err
  {
  }

  /** A record whose cast assigns `err` reports exactly that cast's error, if any. */
  lemma AssignedErrorReported(st: ApplyState, r: Record, lib: Library)
    requires NoEmptyKeys(r.transform.replacements)
    requires r.key in st.items ==> HasKind(st.items[r.key], r.valueType)
    requires CastRecord(r, lib).1.Assign?
    ensures var e := CastRecord(r, lib).1.err;
      ApplyRecord(st, r, lib).errors == st.errors + (if e.Some? then [e.value] else [])
  {
  }

  /** A record whose cast sets `err` to a failure. */
  predicate Fails(r: Record, lib: Library)
    requires NoEmptyKeys(r.transform.replacements)
  {
    var update := CastRecord(r, lib).1;
    update.Assign? && update.err.Some?
  }

  /** The loop only appends to the error list. */
  lemma {:induction false} ApplyAllErrorsGrow(st: ApplyState, recs: seq<Record>, ps: seq<Pattern>, lib: Library)
    requires Applicable(recs, ps) && ItemsKinded(st.items, ps)
    ensures |st.errors| <= |ApplyAll(st, recs, ps, lib).errors|
    ensures ApplyAll(st, recs, ps, lib).errors[..|st.errors|] == st.errors
    decreases |recs|
  {
    if recs != [] {
      ApplicableTail(recs, ps);
      ApplyRecordKinded(st, recs[0], ps, lib);
      var st1 := ApplyRecord(st, recs[0], lib);
      ApplyAllErrorsGrow(st1, recs[1..], ps, lib);
      var e := ApplyAll(st1, recs[1..], ps, lib).errors;
      assert e[..|st1.errors|][..|st.errors|] == e[..|st.errors|];
    }
  }

  /**
   * Starting with `err` unset, the loop records no error exactly when no record's cast
   * fails: the error list empty is what `Ok` reports after a parse.
   */
  lemma {:induction false} ApplyAllNoErrorsIff(st: ApplyState, recs: seq<Record>, ps: seq<Pattern>, lib: Library)
    requires Applicable(recs, ps) && ItemsKinded(st.items, ps) && st.err.None?
    ensures ApplyAll(st, recs, ps, lib).errors == st.errors <==>
      forall k :: 0 <= k < |recs| ==> !Fails(recs[k], lib)
    decreases |recs|
  {
    if recs != [] {
      ApplicableTail(recs, ps);
      ApplyRecordKinded(st, recs[0], ps, lib);
      var st1 := ApplyRecord(st, recs[0], lib);
      assert ApplyAll(st, recs, ps, lib) == ApplyAll(st1, recs[1..], ps, lib);
      FirstRecordErrors(st, recs[0], lib);
      if Fails(recs[0], lib) {
        ApplyAllErrorsGrow(st1, recs[1..], ps, lib);
      } else {
        ApplyAllNoErrorsIff(st1, recs[1..], ps, lib);
        assert forall k :: 1 <= k < |recs| ==> recs[k] == recs[1..][k - 1];
      }
    }
  }

  /** From `err` unset, a record adds one error if its cast fails and leaves all unchanged otherwise. */
  lemma FirstRecordErrors(st: ApplyState, r: Record, lib: Library)
    requires NoEmptyKeys(r.transform.replacements)
    requires r.key in st.items ==> HasKind(st.items[r.key], r.valueType)
    requires st.err.None?
    ensures Fails(r, lib) ==> |ApplyRecord(st, r, lib).errors| == |st.errors| + 1
    ensures !Fails(r, lib) ==> ApplyRecord(st, r, lib).err.None? && ApplyRecord(st, r, lib).errors == st.errors
  {
  }

  /** The map `SetPatterns` installs holds values of the rules' types, when keys are distinct. */
  lemma DefaultsKinded(ps: seq<Pattern>, lib: Library)
    requires DistinctKeys(ps)
    ensures ItemsKinded(Defaults(ps, lib), ps)
  {
    forall i | 0 <= i < |ps| && ps[i].valueKey in Defaults(ps, lib)
      ensures HasKind(Defaults(ps, lib)[ps[i].valueKey], ps[i].valueType)
    {
      DefaultsAt(ps, lib, i);
    }
  }

  // ---------------------------------------------------------------- the whole parse

  /**
   * The result map of a parse keeps the keys it had and adds only rule keys; right after
   * `SetPatterns`, when it holds exactly the rule keys, it still does.
   */
  lemma ParseKeys(items: map<string, Value>, text: string, separator: string, ps: seq<Pattern>,
                  labels: set<string>, strictMode: bool, lib: Library)
    requires separator != "" && Prepared(ps) && DistinctKeys(ps) && ItemsKinded(items, ps)
    ensures var recs := Scan(text, separator, ps, labels, strictMode).records;
      && items.Keys <= Apply(items, recs, ps, lib).items.Keys <= items.Keys + KeysOf(ps)
      && (items.Keys == KeysOf(ps) ==> Apply(items, recs, ps, lib).items.Keys == KeysOf(ps))
  {
    var recs := Scan(text, separator, ps, labels, strictMode).records;
    ApplyAllKeys(ApplyState(items, [], None), recs, ps, lib);
    assert RecordKeys(recs) <= KeysOf(ps) by {
      forall x | x in RecordKeys(recs) ensures x in KeysOf(ps) {
        var k :| 0 <= k < |recs| && recs[k].key == x;
        assert FromRule(recs[k], ps);
      }
    }
  }
}
