/**
 * The `Normalizer` object (normalizer.go:67-420): its configuration setters, the rule
 * installation, the validation with its cached verdict, and the two loops of `Parse`.
 * Each method is proved against the functions of the Rules and Engine modules.
 */
module Normalizer {
  import opened Wrappers
  import opened Strings
  import opened Labels
  import opened Values
  import opened Rules
  import opened Engine

  /** The message `Validate` returns for the first failure, if any. */
  function ErrorText(e: Option<ValidationError>): Option<string> {
    match e
    case None => None
    case Some(v) => Some(Message(v))
  }

  /**
   * What holds of the rules, their flags, the cached verdict and the result map between
   * calls: the rules are prepared, the verdict is only cached for valid rules, and valid
   * rules have distinct keys whose entries hold values of the rules' types.
   */
  ghost predicate Consistent(ps: seq<Pattern>, used: seq<bool>, validate: bool, items: map<string, Value>) {
    && |used| == |ps|
    && Prepared(ps)
    && (validate ==> Violation(ps).None?)
    && (Violation(ps).None? ==> DistinctKeys(ps) && ItemsKinded(items, ps))
  }

  /** The rules as `SetPatterns` installs them are consistent with their defaults. */
  lemma InstalledConsistent(ps: seq<Pattern>, strictMode: bool, lib: Library)
    ensures var prepared := PrepareAll(ps, strictMode);
      && Consistent(prepared, NoneUsed(|ps|), false, Defaults(prepared, lib))
      && Defaults(prepared, lib).Keys == KeysOf(prepared)
  {
    var prepared := PrepareAll(ps, strictMode);
    DefaultsKeys(prepared, lib);
    PrepareAllPrepared(ps, strictMode);
    if Violation(prepared).None? {
      WellFormedDistinctKeys(prepared);
      DefaultsKinded(prepared, lib);
    }
  }

  /** What `Parse` leaves behind: the rules' flags, the result map, the errors and the cached verdict. */
  datatype Outcome = Outcome(used: seq<bool>, items: map<string, Value>, errors: seq<string>, validate: bool)

  /**
   * `Parse` (normalizer.go:191-373) as a function of the state before it. With no rules
   * or no text only the errors are cleared; otherwise see `CheckedOutcome`.
   */
  ghost function ParseOutcome(text: string, separator: string, ps: seq<Pattern>, labels: set<string>, strictMode: bool,
                              used: seq<bool>, validate: bool, items: map<string, Value>, lib: Library): Outcome
    requires separator != "" && Consistent(ps, used, validate, items)
  {
    if |ps| == 0 || text == "" then Outcome(used, items, [], validate)
    else CheckedOutcome(text, separator, ps, labels, strictMode, used, validate, items, lib)
  }

  /**
   * Invalid rules leave the first failure's message as the only error and the rest as it
   * was; valid rules cache the verdict, and the records that `Scan` finds in the text are
   * merged by `Apply` into the result map as it was.
   */
  ghost function CheckedOutcome(text: string, separator: string, ps: seq<Pattern>, labels: set<string>, strictMode: bool,
                                used: seq<bool>, validate: bool, items: map<string, Value>, lib: Library): Outcome
    requires separator != "" && Consistent(ps, used, validate, items)
  {
    match Violation(ps)
    case Some(v) => Outcome(used, items, [Message(v)], false)
    case None =>
      var st := Scan(text, separator, ps, labels, strictMode);
      var ap := Apply(items, st.records, ps, lib);
      Outcome(st.used, ap.items, ap.errors, true)
  }

  /**
   * After a parse `Ok` holds exactly when there were no rules or no text, or when the
   * rules are valid and no record's cast failed.
   */
  lemma ParseOutcomeOk(text: string, separator: string, ps: seq<Pattern>, labels: set<string>, strictMode: bool,
                       used: seq<bool>, validate: bool, items: map<string, Value>, lib: Library)
    requires separator != "" && Consistent(ps, used, validate, items)
    ensures var recs := Scan(text, separator, ps, labels, strictMode).records;
      ParseOutcome(text, separator, ps, labels, strictMode, used, validate, items, lib).errors == [] <==>
        (|ps| == 0 || text == "" || (Violation(ps).None? && forall k :: 0 <= k < |recs| ==> !Fails(recs[k], lib)))
  {
    if |ps| > 0 && text != "" && Violation(ps).None? {
      var recs := Scan(text, separator, ps, labels, strictMode).records;
      assert ParseOutcome(text, separator, ps, labels, strictMode, used, validate, items, lib).errors
        == Apply(items, recs, ps, lib).errors;
      ApplyAllNoErrorsIff(ApplyState(items, [], None), recs, ps, lib);
    }
  }

  /**
   * A parse keeps the keys of the result map and adds only rule keys, so right after
   * `SetPatterns`, when the map holds exactly the rule keys, it still does.
   */
  lemma ParseOutcomeKeys(text: string, separator: string, ps: seq<Pattern>, labels: set<string>, strictMode: bool,
                         used: seq<bool>, validate: bool, items: map<string, Value>, lib: Library)
    requires separator != "" && Consistent(ps, used, validate, items)
    ensures var r := ParseOutcome(text, separator, ps, labels, strictMode, used, validate, items, lib);
      && items.Keys <= r.items.Keys <= items.Keys + KeysOf(ps)
      && (items.Keys == KeysOf(ps) ==> r.items.Keys == KeysOf(ps))
      && (|ps| > 0 && text != "" && Violation(ps).None? ==> r.items.Keys == items.Keys + UsedKeys(ps, r.used))
  {
    if |ps| > 0 && text != "" && Violation(ps).None? {
      var st := Scan(text, separator, ps, labels, strictMode);
      var recs := st.records;
      assert ParseOutcome(text, separator, ps, labels, strictMode, used, validate, items, lib)
        == Outcome(st.used, Apply(items, recs, ps, lib).items, Apply(items, recs, ps, lib).errors, true);
      ParseKeys(items, text, separator, ps, labels, strictMode, lib);
      WellFormedDistinctKeys(ps);
      ApplyAllKeys(ApplyState(items, [], None), recs, ps, lib);
      ScanKeys(text, separator, ps, labels, strictMode);
    }
  }

  class Normalizer {
    /** The known labels; `hasLabels` is false while the source's map is still nil. */
    var labels: set<string>
    var hasLabels: bool
    var separator: string
    var strictMode: bool
    /** Set once `Validate` has accepted the current rules. */
    var validate: bool
    var errors: seq<string>
    var originalText: string
    var patterns: seq<Pattern>
    /** The `used` flag of each rule. */
    var used: seq<bool>
    var items: map<string, Value>
    /** Float parsing and the default-value coercions, which this model does not define. */
    const lib: Library

    ghost predicate Valid()
      reads this`separator, this`patterns, this`used, this`validate, this`items
    {
      separator != "" && Consistent(patterns, used, validate, items)
    }

    /** `NewNormalizer`. */
    constructor(lib: Library)
      ensures Valid()
      ensures labels == {} && !hasLabels && separator == "\n" && !strictMode && !validate
      ensures errors == [] && originalText == "" && patterns == [] && used == [] && items == map[]
      ensures this.lib == lib
    {
      labels := {};
      hasLabels := false;
      separator := "\n";
      strictMode := false;
      validate := false;
      errors := [];
      originalText := "";
      patterns := [];
      used := [];
      items := map[];
      this.lib := lib;
    }

    /** An empty line separator means a newline. */
    method SetSeparator(sep: string)
      requires Valid()
      modifies this`separator
      ensures Valid()
      ensures separator != ""
      ensures separator == if sep == "" then "\n" else sep
    {
      separator := if sep == "" then "\n" else sep;
    }

    method SetStrictMode(strictMode: bool)
      requires Valid()
      modifies this`strictMode
      ensures Valid()
      ensures this.strictMode == strictMode
    {
      this.strictMode := strictMode;
    }

    /** The text is stored trimmed, and the result map and the errors are emptied. */
    method SetOriginalText(text: string)
      requires Valid()
      modifies this`originalText, this`items, this`errors
      ensures Valid()
      ensures originalText == TrimSpace(text)
      ensures items == map[] && errors == []
    {
      originalText := TrimSpace(text);
      items := map[];
      errors := [];
    }

    /** The known labels become the given ones, cleaned, without the empty ones. */
    method SetLabels(labels: seq<string>)
      requires Valid()
      modifies this`labels, this`hasLabels
      ensures Valid()
      ensures this.labels == LabelSet(labels, strictMode) && hasLabels
      ensures forall l :: l in this.labels ==> l != "" && Clean(l, strictMode) == l
    {
      var cleaned := CleanLabels(labels);
      LabelSetCleaned(labels, strictMode);
      this.labels := cleaned;
      hasLabels := true;
    }

    /** The loop of `SetLabels`. */
    method CleanLabels(labels: seq<string>) returns (cleaned: set<string>)
      ensures cleaned == LabelSet(labels, strictMode)
    {
      cleaned := {};
      for k := 0 to |labels|
        invariant cleaned == LabelSet(labels[..k], strictMode)
      {
        var l := Clean(labels[k], strictMode);
        assert labels[..k + 1][..k] == labels[..k] && labels[..k + 1][k] == labels[k];
        if l != "" {
          cleaned := cleaned + {l};
        }
      }
      assert labels[..|labels|] == labels;
    }

    /**
     * Installs the rules: each gets the default separator `:` when it has none, loses an
     * empty replacement key and has its labels cleaned; the non-empty labels join the known
     * ones; the result map holds each rule's coerced default; errors and the cached
     * validation are cleared. Adding a label to a nil label map panics in the source,
     * hence the precondition.
     */
    method SetPatterns(ps: seq<Pattern>)
      requires Valid()
      requires hasLabels || LabelSetOf(PrepareAll(ps, strictMode)) == {}
      modifies this`validate, this`patterns, this`used, this`items, this`labels, this`errors
      ensures Valid()
      ensures patterns == PrepareAll(ps, strictMode)
      ensures used == NoneUsed(|ps|)
      ensures labels == old(labels) + LabelSetOf(patterns)
      ensures items == Defaults(patterns, lib)
      ensures KeysOf(patterns) == items.Keys
      ensures errors == [] && !validate
    {
      validate := false;
      var prepared, newItems, newLabels := PreparePatterns(ps, strictMode, lib, labels);
      patterns := prepared;
      used := NoneUsed(|ps|);
      items := newItems;
      labels := newLabels;
      errors := [];
      assert patterns == PrepareAll(ps, strictMode) && used == NoneUsed(|ps|) && items == Defaults(patterns, lib);
      assert labels == old(labels) + LabelSetOf(patterns) && errors == [] && !validate;
      InstalledConsistent(ps, strictMode, lib);
      assert Valid();
    }

    /** The loop of `SetPatterns` over the rules; `known` are the labels known before. */
    static method PreparePatterns(ps: seq<Pattern>, strictMode: bool, lib: Library, known: set<string>)
      returns (prepared: seq<Pattern>, newItems: map<string, Value>, newLabels: set<string>)
      ensures prepared == PrepareAll(ps, strictMode)
      ensures newItems == Defaults(prepared, lib)
      ensures newLabels == known + LabelSetOf(prepared)
    {
      prepared := [];
      newItems := map[];
      newLabels := known;
      for i := 0 to |ps|
        invariant prepared == PrepareAll(ps[..i], strictMode)
        invariant newItems == Defaults(prepared, lib)
        invariant newLabels == known + LabelSetOf(prepared)
      {
        var p := ps[i];
        var sep := if p.separator == "" then ":" else p.separator;
        var replacements := DropEmpty(p.valueTransform.replacements);
        var cleaned, found := CleanRuleLabels(p.labels, strictMode);
        newLabels := newLabels + found;
        var q := p.(separator := sep, valueTransform := p.valueTransform.(replacements := replacements), labels := cleaned);
        PrepareSnoc(ps, i, strictMode, lib, prepared, q);
        newItems := newItems[q.valueKey := Coerce(q.valueType, q.defaultValue, lib)];
        prepared := prepared + [q];
      }
      assert ps[..|ps|] == ps;
    }

    /** The deletion of the empty replacement key. */
    static method DropEmpty(src: seq<(string, string)>) returns (replacements: seq<(string, string)>)
      ensures replacements == DropEmptyKeys(src)
    {
      replacements := [];
      for k := 0 to |src|
        invariant replacements == DropEmptyKeys(src[..k])
      {
        assert src[..k + 1][..k] == src[..k];
        if src[k].0 != "" {
          replacements := replacements + [src[k]];
        }
      }
      assert src[..|src|] == src;
    }

    /** The loop of `SetPatterns` over one rule's labels: each is cleaned, the non-empty ones are collected. */
    static method CleanRuleLabels(ls: seq<string>, strictMode: bool) returns (cleaned: seq<string>, found: set<string>)
      ensures cleaned == CleanAll(ls, strictMode)
      ensures found == NonEmptyLabels(cleaned)
    {
      cleaned := [];
      found := {};
      for j := 0 to |ls|
        invariant cleaned == CleanAll(ls[..j], strictMode)
        invariant found == NonEmptyLabels(cleaned)
      {
        var l := Clean(ls[j], strictMode);
        CleanAllSnoc(ls, j, strictMode);
        NonEmptyLabelsSnoc(cleaned, l);
        cleaned := cleaned + [l];
        if l != "" {
          found := found + {l};
        }
      }
      assert ls[..|ls|] == ls;
    }

    /**
     * Checks the rules, or returns at once when they were accepted before: the first
     * failure's message, or None, in which case the verdict is cached.
     */
    method Validate() returns (err: Option<string>)
      requires Valid()
      modifies this`validate
      ensures Valid()
      ensures err == ErrorText(Violation(patterns))
      ensures validate == Violation(patterns).None?
    {
      if validate {
        return None;
      }
      err := FirstViolation(patterns);
      if err.None? {
        validate := true;
      }
    }

    /** The checks of `Validate`: the message of the first failure of the rules, or None. */
    static method FirstViolation(ps: seq<Pattern>) returns (err: Option<string>)
      ensures err == ErrorText(Violation(ps))
    {
      var m := |ps|;
      if m == 0 {
        return Some(NoRulesText);
      }
      var valueTypes := [StringType, BooleanType, FloatType, IntType, ArrayType];
      for i := 0 to m
        invariant ViolationFrom(ps, 0) == ViolationFrom(ps, i)
      {
        var p1 := ps[i];
        TrimSpaceBlank(p1.valueKey);
        if TrimSpace(p1.valueKey) == "" {
          return Some(RuleText + NatToString(i + 1) + BlankKeyText);
        }
        var known := TypeIn(p1.valueType, valueTypes);
        if !known {
          return Some(RuleText + NatToString(i + 1) + TypeText + p1.valueType
            + BadTypeText + Join(valueTypes, ", "));
        }
        if |p1.labels| == 0 {
          return Some(RuleText + NatToString(i + 1) + NoLabelsText);
        }
        var clash := PairCheck(ps, i);
        if clash.Some? {
          return clash;
        }
      }
      return None;
    }

    /** The loop of `inx.StringIn`: some element of `ss` equals `s` ignoring case. */
    static method TypeIn(s: string, ss: seq<string>) returns (found: bool)
      ensures found <==> StringIn(s, ss)
    {
      for k := 0 to |ss|
        invariant forall j :: 0 <= j < k ==> !EqualFold(s, ss[j])
      {
        if EqualFold(s, ss[k]) {
          return true;
        }
      }
      return false;
    }

    /** The checks of rule `i` against each later rule: a shared key, then a shared keyword. */
    static method PairCheck(ps: seq<Pattern>, i: nat) returns (err: Option<string>)
      requires i < |ps|
      ensures err == ErrorText(PairViolation(ps, i, i + 1))
    {
      var p1 := ps[i];
      for j := i + 1 to |ps|
        invariant PairViolation(ps, i, i + 1) == PairViolation(ps, i, j)
      {
        var p2 := ps[j];
        if EqualFold(p1.valueKey, p2.valueKey) {
          return Some(RuleText + NatToString(i + 1) + AndRuleText + NatToString(j + 1) + ItemText
            + p1.valueKey + DuplicateKeyText);
        }
        var keyword := SharedLabel(p1.labels, p2.labels);
        if keyword.Some? {
          return Some(RuleText + NatToString(i + 1) + AndRuleText + NatToString(j + 1) + ItemText
            + keyword.value + DuplicateLabelText);
        }
      }
      return None;
    }

    /** The first keyword of `l1` that equals a keyword of `l2` ignoring case. */
    static method SharedLabel(l1: seq<string>, l2: seq<string>) returns (keyword: Option<string>)
      ensures keyword == SharedKeyword(l1, l2, 0)
    {
      for a := 0 to |l1|
        invariant SharedKeyword(l1, l2, 0) == SharedKeyword(l1, l2, a)
      {
        for b := 0 to |l2|
          invariant forall c :: 0 <= c < b ==> !EqualFold(l1[a], l2[c])
        {
          if EqualFold(l1[a], l2[b]) {
            return Some(l1[a]);
          }
        }
      }
      return None;
    }

    /** Whether the cleaned line starts with none of the known labels. */
    method PureText(cleaned: string) returns (pure: bool)
      ensures pure == IsPureText(labels, cleaned)
    {
      var rest := labels;
      while rest != {}
        invariant rest <= labels
        invariant forall l :: l in labels - rest ==> !HasPrefix(cleaned, l)
        decreases rest
      {
        var l :| l in rest;
        if HasPrefix(cleaned, l) {
          return false;
        }
        rest := rest - {l};
      }
      return true;
    }

    /** Whether a keyword of rule `p` matches the cleaned label `text`. */
    static method MatchKeywords(p: Pattern, text: string) returns (matched: bool)
      ensures matched == AnyKeyword(p, text)
    {
      matched := false;
      for k := 0 to |p.labels|
        invariant !matched
        invariant forall c :: 0 <= c < k ==> !KeywordMatches(p.matchMethod, p.labels[c], text)
      {
        var keyword := p.labels[k];
        if p.matchMethod == FuzzyMatch {
          matched := WholeWord(keyword, text);
        } else {
          matched := text == keyword;
        }
        if matched {
          return;
        }
      }
    }

    /** The first unused rule that matches the line, with the record it produces. */
    method MatchLine(line: string, used: seq<bool>) returns (m: Option<(nat, Record)>)
      requires |used| == |patterns| && line != ""
      ensures m == FirstMatch(patterns, used, line, strictMode, 0)
    {
      for i := 0 to |patterns|
        invariant FirstMatch(patterns, used, line, strictMode, 0) == FirstMatch(patterns, used, line, strictMode, i)
      {
        if !used[i] {
          var r := MatchRule(patterns[i], i, line, strictMode);
          if r.Some? {
            return Some((i, r.value));
          }
        }
        assert FirstMatch(patterns, used, line, strictMode, i) == FirstMatch(patterns, used, line, strictMode, i + 1);
      }
      return None;
    }

    /** One rule against one line: its separator, then its keywords in the cleaned text before it. */
    static method MatchRule(p: Pattern, i: nat, line: string, strictMode: bool) returns (r: Option<Record>)
      requires line != ""
      ensures r == RuleMatch(p, i, line, strictMode)
    {
      var at := Index(line, p.separator);
      if at == -1 {
        return None;
      }
      var text := Clean(line[..at], strictMode);
      var matched := MatchKeywords(p, text);
      if !matched {
        return None;
      }
      return Some(Record(p.valueKey, text, TrimSpace(line[at + 1..]), p.valueType, p.valueTransform, i, false));
    }

    /** The transform of a record's value: lower-casing, replacements longest key first, trimming. */
    static method TransformValue(raw: string, vt: ValueTransform) returns (value: string)
      requires NoEmptyKeys(vt.replacements)
      ensures value == Transformed(raw, vt)
    {
      value := raw;
      if |vt.replacements| > 0 {
        var pairs := vt.replacements;
        if vt.matchMethod == FuzzyMatch {
          value := ToLower(value);
          var lowered: seq<(string, string)> := [];
          for k := 0 to |pairs|
            invariant |lowered| == k
            invariant forall c :: 0 <= c < k ==> lowered[c] == (ToLower(pairs[c].0), pairs[c].1)
          {
            lowered := lowered + [(ToLower(pairs[k].0), pairs[k].1)];
          }
          assert lowered == LowerKeys(pairs);
          NoEmptyKeysLowered(pairs);
          pairs := lowered;
        }
        value := ReplaceSorted(value, pairs);
      }
    }

    /**
     * Parses the text. With no rules or no text it only clears the errors. Otherwise a
     * validation failure becomes the only error; valid rules are run over the lines
     * (`Engine.Scan`) and the records merged into the result map (`Engine.Apply`).
     * The result map is not reset first, so a second parse merges again.
     */
    method Parse()
      requires Valid()
      modifies this`used, this`items, this`errors, this`validate
      ensures Valid()
      ensures Outcome(used, items, errors, validate)
        == ParseOutcome(originalText, separator, patterns, labels, strictMode, old(used), old(validate), old(items), lib)
    {
      ghost var text, ps, before, verdict, held := originalText, patterns, used, validate, items;
      if |patterns| == 0 || originalText == "" {
        errors := [];
        assert ParseOutcome(text, separator, ps, labels, strictMode, before, verdict, held, lib)
          == Outcome(before, held, [], verdict);
        assert Outcome(used, items, errors, validate) == Outcome(before, held, [], verdict);
      } else {
        CheckAndExtract();
        assert ParseOutcome(text, separator, ps, labels, strictMode, before, verdict, held, lib)
          == CheckedOutcome(text, separator, ps, labels, strictMode, before, verdict, held, lib);
        assert Outcome(used, items, errors, validate)
          == CheckedOutcome(text, separator, ps, labels, strictMode, before, verdict, held, lib);
      }
    }

    /** `Parse` on a non-empty text with rules: the check of the rules, then the extraction. */
    method CheckAndExtract()
      requires Valid() && |patterns| > 0 && originalText != ""
      modifies this`used, this`items, this`errors, this`validate
      ensures Valid()
      ensures Outcome(used, items, errors, validate)
        == CheckedOutcome(originalText, separator, patterns, labels, strictMode, old(used), old(validate), old(items), lib)
    {
      var failure := Validate();
      if failure.Some? {
        errors := [failure.value];
        return;
      }
      Extract();
    }

    /** The two loops of `Parse` once the rules are valid: the line scan, then the merge of each record. */
    method Extract()
      requires Valid() && Violation(patterns).None?
      modifies this`used, this`items, this`errors
      ensures Valid()
      ensures var st := Scan(originalText, separator, patterns, labels, strictMode);
        && used == st.used
        && items == Apply(old(items), st.records, patterns, lib).items
        && errors == Apply(old(items), st.records, patterns, lib).errors
    {
      ghost var st := Scan(originalText, separator, patterns, labels, strictMode);
      var flags := ClearFlags(used);
      var records;
      records, flags := ScanLines(flags);
      assert records == st.records && flags == st.used;
      WellFormedDistinctKeys(patterns);
      var newItems, newErrors := ApplyRecords(items, records, patterns, lib);
      used, items, errors := flags, newItems, newErrors;
      assert Consistent(patterns, used, validate, items);
    }

    /** The loop of `Parse` that clears the flag of every rule. */
    static method ClearFlags(flags0: seq<bool>) returns (flags: seq<bool>)
      ensures flags == NoneUsed(|flags0|)
    {
      flags := flags0;
      for i := 0 to |flags|
        invariant |flags| == |flags0|
        invariant forall j :: 0 <= j < i ==> !flags[j]
      {
        flags := flags[i := false];
      }
      assert flags == NoneUsed(|flags0|);
    }

    /** The loop of `Parse` over the lines of the text, from flags all cleared. */
    method ScanLines(flags0: seq<bool>) returns (records: seq<Record>, flags: seq<bool>)
      requires separator != "" && flags0 == NoneUsed(|patterns|)
      ensures records == Scan(originalText, separator, patterns, labels, strictMode).records
      ensures flags == Scan(originalText, separator, patterns, labels, strictMode).used
    {
      ghost var scan := Scan(originalText, separator, patterns, labels, strictMode);
      var lines := Split(originalText, separator);
      records := [];
      flags := flags0;
      var appendText := true;
      for l := 0 to |lines|
        invariant |flags| == |patterns|
        invariant ScanAll(ScanState(records, flags, appendText), patterns, labels, strictMode, lines[l..]) == scan
      {
        assert lines[l..][0] == lines[l] && lines[l..][1..] == lines[l + 1..];
        records, flags, appendText := ScanLine(records, flags, appendText, lines[l]);
      }
    }

    /** One pass of the line loop: a blank line and pure text before any record are skipped. */
    method ScanLine(records: seq<Record>, flags: seq<bool>, appendText: bool, raw: string)
      returns (newRecords: seq<Record>, newFlags: seq<bool>, newAppendText: bool)
      requires |flags| == |patterns|
      ensures ScanState(newRecords, newFlags, newAppendText)
        == Step(ScanState(records, flags, appendText), patterns, labels, strictMode, raw)
    {
      var line := TrimSpace(raw);
      if line == "" {
        return records, flags, appendText;
      }
      var pure := PureText(Clean(line, strictMode));
      newRecords := records;
      if pure && appendText {
        if |records| == 0 {
          return records, flags, appendText;
        }
        newRecords := records + [Continuation(records[|records| - 1], line)];
      }
      newRecords, newFlags, newAppendText := MatchInto(newRecords, flags, appendText, line, pure);
    }

    /** The rest of the pass: the first unused matching rule takes the line. */
    method MatchInto(records: seq<Record>, flags: seq<bool>, appendText: bool, line: string, pure: bool)
      returns (newRecords: seq<Record>, newFlags: seq<bool>, newAppendText: bool)
      requires |flags| == |patterns| && line != ""
      ensures ScanState(newRecords, newFlags, newAppendText)
        == StepMatch(ScanState(records, flags, appendText), patterns, strictMode, line, pure)
    {
      newRecords, newFlags, newAppendText := records, flags, appendText;
      var m := MatchLine(line, flags);
      if m.Some? {
        newAppendText := true;
        newRecords := records + [m.value.1];
        newFlags := flags[m.value.0 := true];
      } else if !pure {
        newAppendText := false;
      }
    }

    /**
     * The loop of `Parse` over the records: each value is transformed, cast and merged
     * into a copy of the result map, and the shared error reported after each record.
     */
    static method ApplyRecords(items: map<string, Value>, records: seq<Record>, ps: seq<Pattern>, lib: Library)
      returns (newItems: map<string, Value>, newErrors: seq<string>)
      requires Applicable(records, ps) && ItemsKinded(items, ps)
      ensures newItems == Apply(items, records, ps, lib).items
      ensures newErrors == Apply(items, records, ps, lib).errors
    {
      ghost var applied := Apply(items, records, ps, lib);
      newItems := items;
      newErrors := [];
      var err: Option<string> := None;
      assert records[0..] == records;
      for r := 0 to |records|
        invariant ItemsKinded(newItems, ps) && Applicable(records[r..], ps)
        invariant ApplyAll(ApplyState(newItems, newErrors, err), records[r..], ps, lib) == applied
      {
        ghost var before := ApplyState(newItems, newErrors, err);
        ApplyAllStep(before, records, ps, lib, r);
        var rec := records[r];
        var raw := TransformValue(rec.value, rec.transform);
        var (value, update) := Cast(raw, rec.valueType, rec.transform.separators, lib);
        if update.Assign? {
          err := update.err;
        }
        if err.Some? {
          newErrors := newErrors + [err.value];
        }
        newItems := newItems[rec.key := Merged(Get(newItems, rec.key), rec.valueType, value)];
        assert ApplyState(newItems, newErrors, err) == ApplyRecord(before, rec, lib);
      }
    }

    /** No error was reported. */
    function Ok(): (ok: bool)
      reads this
      ensures ok <==> errors == []
    {
      |errors| == 0
    }
  }
}
