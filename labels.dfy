/**
 * Label normalisation (`clean`, normalizer.go:116-125) and the whole-word test that
 * fuzzy rules use (the regular expression built at normalizer.go:259).
 */
module Labels {
  import opened Strings

  /** The full-width space U+3000 that `spaceCharacterReplacer` rewrites. */
  const FullWidthSpace: char := '\U{3000}'

  /** `spaceCharacterReplacer.Replace`: every full-width space becomes an ASCII space. */
  function ReplaceFullWidth(s: string): (r: string)
    ensures |r| == |s|
  {
    seq(|s|, i requires 0 <= i < |s| => if s[i] == FullWidthSpace then ' ' else s[i])
  }

  /** No full-width space is left, and a text without one is unchanged. */
  lemma ReplaceFullWidthShape(s: string)
    ensures FullWidthSpace !in ReplaceFullWidth(s)
    ensures FullWidthSpace !in s ==> ReplaceFullWidth(s) == s
  {
  }

  /** No two neighbouring characters both belong to the class `\s`. */
  predicate NoAdjacentSpace(s: string) {
    forall i :: 0 <= i < |s| - 1 ==> !(IsRegexSpace(s[i]) && IsRegexSpace(s[i + 1]))
  }

  /** Length of the run of `\s` characters at the start of `s`. */
  function SpaceRun(s: string): (n: nat)
    ensures n <= |s|
    ensures forall k :: 0 <= k < n ==> IsRegexSpace(s[k])
    ensures n < |s| ==> !IsRegexSpace(s[n])
  {
    if |s| > 0 && IsRegexSpace(s[0]) then 1 + SpaceRun(s[1..]) else 0
  }

  /**
   * `rxSpaceless.ReplaceAllLiteralString(s, " ")` with `rxSpaceless` = `\s{2,}`: scanning
   * from the left, each maximal run of two or more `\s` characters becomes one space.
   */
  function Collapse(s: string): (r: string)
    ensures |r| <= |s|
    decreases |s|
  {
    if |s| == 0 then ""
    else if |s| >= 2 && IsRegexSpace(s[0]) && IsRegexSpace(s[1]) then " " + Collapse(s[SpaceRun(s)..])
    else [s[0]] + Collapse(s[1..])
  }

  /** The collapsed text has single white space, starts like the text and adds no character but a space. */
  lemma {:induction false} CollapseShape(s: string)
    ensures var r := Collapse(s);
      && NoAdjacentSpace(r)
      && (|r| == 0 <==> |s| == 0)
      && (|s| > 0 ==> (IsRegexSpace(r[0]) <==> IsRegexSpace(s[0])))
      && (|s| > 0 && !IsRegexSpace(s[0]) ==> r[0] == s[0])
      && (forall c :: c in r ==> c in s || c == ' ')
    decreases |s|
  {
    if |s| == 0 {
    } else if |s| >= 2 && IsRegexSpace(s[0]) && IsRegexSpace(s[1]) {
      var n := SpaceRun(s);
      var t := s[n..];
      var rest := Collapse(t);
      CollapseShape(t);
      var r := " " + rest;
      assert Collapse(s) == r;
      assert |t| > 0 ==> !IsRegexSpace(t[0]);
      forall i | 0 <= i < |r| - 1 ensures !(IsRegexSpace(r[i]) && IsRegexSpace(r[i + 1])) {
        if i > 0 { assert r[i] == rest[i - 1] && r[i + 1] == rest[i]; }
      }
      forall c | c in r ensures c in s || c == ' ' {
        if c != ' ' {
          assert c in rest;
          var k :| 0 <= k < |t| && t[k] == c;
          assert s[n + k] == c;
        }
      }
    } else {
      var t := s[1..];
      var rest := Collapse(t);
      CollapseShape(t);
      var r := [s[0]] + rest;
      assert Collapse(s) == r;
      forall i | 0 <= i < |r| - 1 ensures !(IsRegexSpace(r[i]) && IsRegexSpace(r[i + 1])) {
        if i > 0 { assert r[i] == rest[i - 1] && r[i + 1] == rest[i]; }
      }
      forall c | c in r ensures c in s || c == ' ' {
        if c != s[0] && c != ' ' {
          assert c in rest;
          var k :| 0 <= k < |t| && t[k] == c;
          assert s[k + 1] == c;
        }
      }
    }
  }

  /** The characters of `s` outside the class `\s`, in order. */
  function Text(s: string): string {
    if s == [] then "" else (if IsRegexSpace(s[0]) then "" else [s[0]]) + Text(s[1..])
  }

  lemma {:induction false} TextSkipsRun(s: string, n: nat)
    requires n <= |s| && forall k :: 0 <= k < n ==> IsRegexSpace(s[k])
    ensures Text(s[n..]) == Text(s)
  {
    if n > 0 {
      TextSkipsRun(s[1..], n - 1);
      assert s[1..][n - 1..] == s[n..];
    }
  }

  /** Collapsing white space keeps every other character, in order. */
  lemma {:induction false} CollapseKeepsText(s: string)
    ensures Text(Collapse(s)) == Text(s)
    decreases |s|
  {
    if |s| == 0 {
    } else if |s| >= 2 && IsRegexSpace(s[0]) && IsRegexSpace(s[1]) {
      var n := SpaceRun(s);
      CollapseKeepsText(s[n..]);
      TextSkipsRun(s, n);
      var r := " " + Collapse(s[n..]);
      assert r[1..] == Collapse(s[n..]);
    } else {
      CollapseKeepsText(s[1..]);
      var r := [s[0]] + Collapse(s[1..]);
      assert r[1..] == Collapse(s[1..]);
    }
  }

  /** A text whose white space is already single is left alone. */
  lemma {:induction false} CollapseFixpoint(s: string)
    requires NoAdjacentSpace(s)
    ensures Collapse(s) == s
    decreases |s|
  {
    if |s| > 0 {
      assert NoAdjacentSpace(s[1..]);
      CollapseFixpoint(s[1..]);
    }
  }

  lemma NoAdjacentSpaceInfix(s: string, i: nat, j: nat)
    requires NoAdjacentSpace(s) && i <= j <= |s|
    ensures NoAdjacentSpace(s[i..j])
  {
    forall k | 0 <= k < j - i - 1
      ensures !(IsRegexSpace(s[i..j][k]) && IsRegexSpace(s[i..j][k + 1]))
    {
      assert s[i..j][k] == s[i + k] && s[i..j][k + 1] == s[i + k + 1];
    }
  }

  /** Trimming keeps white space single. */
  lemma TrimKeepsNoAdjacent(s: string)
    requires NoAdjacentSpace(s)
    ensures NoAdjacentSpace(TrimSpace(s))
  {
    var t := TrimLeft(s);
    NoAdjacentSpaceInfix(s, |s| - |t|, |s|);
    var u := TrimRight(t);
    NoAdjacentSpaceInfix(t, 0, |u|);
  }

  lemma LowerKeepsSpaces(s: string)
    ensures |ToLower(s)| == |s|
    ensures forall k :: 0 <= k < |s| ==> (IsSpace(ToLower(s)[k]) <==> IsSpace(s[k]))
    ensures forall k :: 0 <= k < |s| ==> (IsRegexSpace(ToLower(s)[k]) <==> IsRegexSpace(s[k]))
    ensures NoUpper(ToLower(s))
    ensures FullWidthSpace !in s ==> FullWidthSpace !in ToLower(s)
    ensures NoUpper(s) ==> ToLower(s) == s
  {
  }

  /**
   * `clean`: the form in which labels are compared. In strict mode the label is only
   * trimmed, so case and inner white space are kept. Otherwise full-width spaces become
   * ASCII spaces, runs of white space become one space, the ends are trimmed and the
   * text is lower-cased, so the result has single white space, no upper-case letter and
   * no full-width space.
   */
  function Clean(text: string, strictMode: bool): (r: string)
    ensures text == "" ==> r == ""
    ensures Trimmed(r)
  {
    if text == "" then ""
    else if strictMode then TrimSpace(text)
    else
      var t := TrimSpace(Collapse(ReplaceFullWidth(text)));
      LowerTrimmed(t);
      ToLower(t)
  }

  /** Outside strict mode the result has single white space, no upper-case letter and no full-width space. */
  lemma CleanShape(text: string, strictMode: bool)
    requires !strictMode
    ensures var r := Clean(text, strictMode);
      NoUpper(r) && NoAdjacentSpace(r) && FullWidthSpace !in r
  {
    if text != "" {
      var f := ReplaceFullWidth(text);
      ReplaceFullWidthShape(text);
      var c := Collapse(f);
      CollapseShape(f);
      TrimKeepsNoAdjacent(c);
      TrimKeepsNoFullWidth(c);
      LowerKeepsShape(TrimSpace(c));
    }
  }

  lemma TrimKeepsNoFullWidth(c: string)
    requires FullWidthSpace !in c
    ensures FullWidthSpace !in TrimSpace(c)
  {
    var t := TrimSpace(c);
    var left := TrimLeft(c);
    assert t == left[..|t|] && left == c[|c| - |left|..];
    forall k | 0 <= k < |t| ensures t[k] != FullWidthSpace {
      assert t[k] == c[|c| - |left| + k];
    }
  }

  lemma LowerKeepsShape(t: string)
    requires NoAdjacentSpace(t) && FullWidthSpace !in t
    ensures NoUpper(ToLower(t)) && NoAdjacentSpace(ToLower(t)) && FullWidthSpace !in ToLower(t)
  {
    LowerKeepsSpaces(t);
  }

  /** In strict mode cleaning only trims: case and inner white space are kept. */
  lemma CleanStrict(text: string)
    ensures Clean(text, true) == TrimSpace(text)
    ensures |Clean(text, true)| <= |text|
  {
  }

  /** Cleaning is idempotent, in both modes. */
  lemma CleanIdempotent(text: string, strictMode: bool)
    ensures Clean(Clean(text, strictMode), strictMode) == Clean(text, strictMode)
  {
    var c := Clean(text, strictMode);
    if c != "" && !strictMode {
      CleanShape(text, strictMode);
      ReplaceFullWidthShape(c);
      CollapseFixpoint(c);
      LowerKeepsSpaces(c);
    }
  }

  /** The set `SetLabels` builds: the labels cleaned, the empty ones dropped. */
  function LabelSet(labels: seq<string>, strictMode: bool): set<string>
    decreases |labels|
  {
    if labels == [] then {}
    else
      var l := Clean(labels[|labels| - 1], strictMode);
      LabelSet(labels[..|labels| - 1], strictMode) + (if l == "" then {} else {l})
  }

  /** Every label in the set is non-empty and already clean. */
  lemma {:induction false} LabelSetCleaned(labels: seq<string>, strictMode: bool)
    ensures forall l :: l in LabelSet(labels, strictMode) ==> l != "" && Clean(l, strictMode) == l
    decreases |labels|
  {
    if labels != [] {
      var init, last := labels[..|labels| - 1], labels[|labels| - 1];
      var c := Clean(last, strictMode);
      LabelSetCleaned(init, strictMode);
      CleanIdempotent(last, strictMode);
      assert LabelSet(labels, strictMode) == LabelSet(init, strictMode) + (if c == "" then {} else {c});
    }
  }

  /**
   * The whole-word test `(?i)(^|[\s\t\n]+)(keyword)($|[\s\t\n]+)` at position `i`:
   * `keyword` occurs there ignoring ASCII case, with the start of the label or a `\s`
   * character before it and the end of the label or a `\s` character after it.
   */
  predicate WordAt(keyword: string, text: string, i: int) {
    && 0 <= i && i + |keyword| <= |text|
    && EqualFold(text[i..i + |keyword|], keyword)
    && (i == 0 || IsRegexSpace(text[i - 1]))
    && (i + |keyword| == |text| || IsRegexSpace(text[i + |keyword|]))
  }

  /** `regexp.MustCompile(...).MatchString(text)` for a keyword with no metacharacter. */
  predicate WholeWord(keyword: string, text: string) {
    exists i :: 0 <= i <= |text| && WordAt(keyword, text, i)
  }

  /** The fuzzy match finds `name` as a word of `baby name`. */
  lemma WholeWordFound(text: string)
    requires text == "baby name"
    ensures WholeWord("name", text)
  {
    assert text[5..9] == "name";
    assert EqualFold("name", "name") by { EqualFoldReflexive("name"); }
    assert WordAt("name", text, 5);
  }

  /**
   * The fuzzy match needs white space or the end of the label right after the keyword,
   * so `name` is not a word of `your name?`, although the comment on `FuzzyMatch` says it is.
   */
  lemma WholeWordNeedsSpaceAfter(text: string)
    requires text == "your name?"
    ensures !WholeWord("name", text)
  {
    forall i | 0 <= i <= |text| ensures !WordAt("name", text, i) {
      if 0 < i && i != 5 {
        assert !IsRegexSpace(text[i - 1]);
      } else if i == 5 {
        assert !IsRegexSpace(text[9]);
      }
    }
  }

  /** A keyword inside a longer word is not matched: `name` is not a word of `baby username`. */
  lemma WholeWordNotInsideWord(text: string)
    requires text == "baby username"
    ensures !WholeWord("name", text)
  {
    forall i | 0 <= i <= |text| ensures !WordAt("name", text, i) {
      if 0 < i && i != 5 {
        assert !IsRegexSpace(text[i - 1]);
      } else if i == 5 {
        assert text[5] == 'u' && LowerChar('u') != LowerChar('n');
      }
    }
  }
}
