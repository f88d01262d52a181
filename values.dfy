/**
 * Typed values and the processing of one matched value: the transform (normalizer.go:294-323),
 * the cast (normalizer.go:324-349), the merge into the result map (normalizer.go:353-369) and
 * the coercion of default values (normalizer.go:164-183).
 */
module Values {
  import opened Wrappers
  import opened Strings

  const BooleanType: string := "boolean"
  const StringType: string := "string"
  const ArrayType: string := "array"
  const IntType: string := "int"
  const FloatType: string := "float"

  /** The match methods of a rule and of a value transform. */
  const ExactMatch: int := 0
  const FuzzyMatch: int := 1

  /** A 64-bit IEEE-754 number, kept as its bit pattern; no arithmetic is modelled. */
  datatype Float64 = Float64(bits: bv64)

  /** The dynamic values that the result map holds. */
  datatype Value =
    | Bool(b: bool)
    | Int(i: int)
    | Float(f: Float64)
    | Str(s: string)
    | Arr(elems: seq<string>)

  /**
   * Code the normalizer calls but that is not part of this model: `strconv.ParseFloat`
   * (value and error message), and the coercions of the `spf13/cast` library used on
   * default values.
   */
  datatype Library = Library(
    parseFloat: string -> (Float64, Option<string>),
    toBool: Value -> bool,
    toInt: Value -> int,
    toFloat64: Value -> Float64,
    toString: Value -> string)

  /** The value held for a rule of type `valueType`; any unknown type is treated as string. */
  predicate HasKind(v: Value, valueType: string) {
    if valueType == BooleanType then v.Bool?
    else if valueType == IntType then v.Int?
    else if valueType == FloatType then v.Float?
    else if valueType == ArrayType then v.Arr?
    else v.Str?
  }

  /** `ValueTransform`: the replacement map is a sequence of pairs in iteration order. */
  datatype ValueTransform = ValueTransform(matchMethod: int, replacements: seq<(string, string)>, separators: seq<string>)

  predicate NoEmptyKeys(pairs: seq<(string, string)>) {
    forall k :: 0 <= k < |pairs| ==> pairs[k].0 != ""
  }

  // ---------------------------------------------------------------- default values

  /**
   * The default value stored for a rule (normalizer.go:165-182). The `case types.Slice`
   * branch compares against a type of package go/types that no decoded value has, so an
   * array rule always starts from the empty array.
   */
  function Coerce(valueType: string, defaultValue: Value, lib: Library): (v: Value)
    ensures HasKind(v, valueType)
    ensures valueType == ArrayType ==> v == Arr([])
  {
    if valueType == BooleanType then Bool(lib.toBool(defaultValue))
    else if valueType == ArrayType then Arr([])
    else if valueType == IntType then Int(lib.toInt(defaultValue))
    else if valueType == FloatType then Float(lib.toFloat64(defaultValue))
    else Str(lib.toString(defaultValue))
  }

  // ---------------------------------------------------------------- strconv

  /** The text of a `*strconv.NumError`. */
  function NumError(fn: string, input: string, reason: string): string {
    "strconv." + fn + ": parsing " + Quote(input) + ": " + reason
  }

  const InvalidSyntax: string := "invalid syntax"
  const OutOfRange: string := "value out of range"

  /** `strconv.ParseBool`: its value, and its error message when the text is not a boolean. */
  function ParseBool(s: string): (r: (bool, Option<string>))
    ensures r.1.None? <==> s in {"1", "t", "T", "TRUE", "true", "True", "0", "f", "F", "FALSE", "false", "False"}
    ensures r.0 <==> s in {"1", "t", "T", "TRUE", "true", "True"}
  {
    if s in {"1", "t", "T", "TRUE", "true", "True"} then (true, None)
    else if s in {"0", "f", "F", "FALSE", "false", "False"} then (false, None)
    else (false, Some(NumError("ParseBool", s, InvalidSyntax)))
  }

  const MaxUint64: nat := 0xFFFF_FFFF_FFFF_FFFF
  const MaxInt64: int := 0x7FFF_FFFF_FFFF_FFFF
  const MinInt64: int := -0x8000_0000_0000_0000

  datatype UintParse = Parsed(n: nat) | SyntaxError | RangeError

  predicate IsDigit(c: char) {
    '0' <= c <= '9'
  }

  /**
   * The digit loop of `strconv.ParseUint` in base 10: a non-digit is a syntax error, and
   * the first digit that takes the value past 2^64-1 is a range error.
   */
  function ParseDigits(s: string, acc: nat): (r: UintParse)
    requires acc <= MaxUint64
    ensures r.Parsed? ==> r.n <= MaxUint64
  {
    if s == [] then Parsed(acc)
    else if !IsDigit(s[0]) then SyntaxError
    else
      var n := acc * 10 + (s[0] as int - '0' as int);
      if n > MaxUint64 then RangeError else ParseDigits(s[1..], n)
  }

  /** `strconv.ParseUint(s, 10, 64)`. */
  function ParseUint(s: string): UintParse {
    if s == "" then SyntaxError else ParseDigits(s, 0)
  }

  /**
   * `strconv.ParseInt(s, 10, 64)`: an optional sign and decimal digits. A syntax error gives
   * 0, a value outside the 64-bit range is clamped to the nearest bound, with an error.
   */
  function ParseInt(s: string): (r: (int, Option<string>))
    ensures MinInt64 <= r.0 <= MaxInt64
    ensures r.1.Some? && r.0 != MinInt64 && r.0 != MaxInt64 ==> r.0 == 0
  {
    if s == "" then (0, Some(NumError("ParseInt", s, InvalidSyntax)))
    else
      var neg := s[0] == '-';
      var body := if s[0] == '+' || s[0] == '-' then s[1..] else s;
      match ParseUint(body)
      case SyntaxError => (0, Some(NumError("ParseInt", s, InvalidSyntax)))
      case RangeError =>
        (if neg then MinInt64 else MaxInt64, Some(NumError("ParseInt", s, OutOfRange)))
      case Parsed(u) =>
        if !neg && u > MaxInt64 then (MaxInt64, Some(NumError("ParseInt", s, OutOfRange)))
        else if neg && u > -MinInt64 then (MinInt64, Some(NumError("ParseInt", s, OutOfRange)))
        else var v: int := if neg then -(u as int) else u; (v, None)
  }

  /** `strconv.FormatInt(i, 10)`. */
  function FormatInt(i: int): string {
    if i < 0 then "-" + NatToString(-i) else NatToString(i)
  }

  lemma {:induction false} ParseDigitsAppend(a: string, d: char, acc: nat)
    requires acc <= MaxUint64
    ensures ParseDigits(a + [d], acc) ==
      match ParseDigits(a, acc)
      case Parsed(m) => ParseDigits([d], m)
      case other => other
    decreases |a|
  {
    if a != [] {
      assert (a + [d])[0] == a[0] && (a + [d])[1..] == a[1..] + [d];
      if IsDigit(a[0]) {
        var n := acc * 10 + (a[0] as int - '0' as int);
        if n <= MaxUint64 {
          ParseDigitsAppend(a[1..], d, n);
        }
      }
    }
  }

  lemma {:induction false} ParseDigitsOfNat(n: nat)
    requires n <= MaxUint64
    ensures ParseDigits(NatToString(n), 0) == Parsed(n)
  {
    if n >= 10 {
      ParseDigitsOfNat(n / 10);
      ParseDigitsAppend(NatToString(n / 10), DigitChar(n % 10), 0);
    }
  }

  /** Every 64-bit integer is read back from its decimal notation, without error. */
  lemma ParseIntFormatInt(i: int)
    requires MinInt64 <= i <= MaxInt64
    ensures ParseInt(FormatInt(i)) == (i, None)
  {
    var s := FormatInt(i);
    if i < 0 {
      ParseDigitsOfNat(-i);
      assert s[1..] == NatToString(-i);
      assert NatToString(-i)[0] != '-';
    } else {
      ParseDigitsOfNat(i);
      assert s[0] != '-' && s[0] != '+';
    }
  }

  predicate AllDigits(s: string) {
    forall k :: 0 <= k < |s| ==> IsDigit(s[k])
  }

  /** The value the digit loop accumulates from `acc` over the digits `s`, without a bound. */
  function DigitsValue(acc: nat, s: string): (r: nat)
    requires AllDigits(s)
    ensures r >= acc
    decreases |s|
  {
    if s == [] then acc
    else
      assert forall k :: 0 <= k < |s| - 1 ==> s[1..][k] == s[k + 1];
      DigitsValue(acc * 10 + (s[0] as int - '0' as int), s[1..])
  }

  /** The position of the first non-digit of `s`, or `|s|` when there is none. */
  function FirstNonDigit(s: string): (k: nat)
    ensures k <= |s| && AllDigits(s[..k]) && (k < |s| ==> !IsDigit(s[k]))
  {
    if s == [] || !IsDigit(s[0]) then 0
    else
      var k := 1 + FirstNonDigit(s[1..]);
      assert forall j :: 1 <= j < k ==> s[..k][j] == s[1..][..k - 1][j - 1];
      k
  }

  /** Over digits only, the loop gives their value, or a range error once it passes 2^64-1. */
  lemma {:induction false} ParseDigitsOfDigits(s: string, acc: nat)
    requires acc <= MaxUint64 && AllDigits(s)
    ensures ParseDigits(s, acc) ==
      if DigitsValue(acc, s) <= MaxUint64 then Parsed(DigitsValue(acc, s)) else RangeError
    decreases |s|
  {
    if s != [] {
      var n := acc * 10 + (s[0] as int - '0' as int);
      assert forall k :: 0 <= k < |s| - 1 ==> s[1..][k] == s[k + 1];
      if n <= MaxUint64 {
        ParseDigitsOfDigits(s[1..], n);
      }
    }
  }

  /**
   * At the first non-digit the loop stops with a syntax error, unless the digits before it
   * already passed 2^64-1, which is reported first as a range error.
   */
  lemma {:induction false} ParseDigitsNonDigit(s: string, acc: nat)
    requires acc <= MaxUint64 && FirstNonDigit(s) < |s|
    ensures ParseDigits(s, acc) ==
      if DigitsValue(acc, s[..FirstNonDigit(s)]) <= MaxUint64 then SyntaxError else RangeError
    decreases |s|
  {
    if IsDigit(s[0]) {
      var n := acc * 10 + (s[0] as int - '0' as int);
      var k := FirstNonDigit(s);
      var t := s[1..];
      assert k == 1 + FirstNonDigit(t);
      assert s[..k][1..] == t[..k - 1];
      assert DigitsValue(acc, s[..k]) == DigitsValue(n, t[..k - 1]);
      if n <= MaxUint64 {
        ParseDigitsNonDigit(t, n);
      }
    }
  }

  /** What follows the optional sign of `ParseInt`'s input. */
  function Unsigned(s: string): (r: string)
    ensures r != "" ==> s != ""
  {
    if s != "" && (s[0] == '+' || s[0] == '-') then s[1..] else s
  }

  /** A decimal integer text: an optional sign, then one or more digits. */
  predicate IsDecimal(s: string) {
    Unsigned(s) != "" && AllDigits(Unsigned(s))
  }

  /** The value a decimal integer text denotes. */
  function DecimalValue(s: string): int
    requires IsDecimal(s)
  {
    var v: int := DigitsValue(0, Unsigned(s));
    if s[0] == '-' then -v else v
  }

  /** A decimal text parses to its value, or to the nearer bound with a range error. */
  lemma ParseIntDecimal(s: string)
    requires IsDecimal(s)
    ensures ParseInt(s) ==
      if MinInt64 <= DecimalValue(s) <= MaxInt64 then (DecimalValue(s), None)
      else if DecimalValue(s) < 0 then (MinInt64, Some(NumError("ParseInt", s, OutOfRange)))
      else (MaxInt64, Some(NumError("ParseInt", s, OutOfRange)))
  {
    ParseDigitsOfDigits(Unsigned(s), 0);
  }

  /**
   * Any other text fails: with a syntax error and 0, unless the digits before its first
   * non-digit already overflow, in which case the range error and the bound come first.
   */
  lemma ParseIntNotDecimal(s: string)
    requires !IsDecimal(s)
    ensures var b := Unsigned(s);
      ParseInt(s) ==
        if b == "" || DigitsValue(0, b[..FirstNonDigit(b)]) <= MaxUint64 then
          (0, Some(NumError("ParseInt", s, InvalidSyntax)))
        else if s[0] == '-' then (MinInt64, Some(NumError("ParseInt", s, OutOfRange)))
        else (MaxInt64, Some(NumError("ParseInt", s, OutOfRange)))
  {
    var b := Unsigned(s);
    if b != "" {
      assert b[..|b|] == b;
      ParseDigitsNonDigit(b, 0);
    }
  }

  /** `ParseInt` succeeds exactly on decimal texts within 64 bits, giving their value. */
  lemma ParseIntOk(s: string)
    ensures ParseInt(s).1.None? <==> IsDecimal(s) && MinInt64 <= DecimalValue(s) <= MaxInt64
    ensures ParseInt(s).1.None? ==> IsDecimal(s) && ParseInt(s).0 == DecimalValue(s)
  {
    if IsDecimal(s) {
      ParseIntDecimal(s);
    } else {
      ParseIntNotDecimal(s);
    }
  }

  /** Text that is no number at all (`abc`, `-`, `12x`) casts to 0 with the syntax error. */
  lemma IntCastSyntaxError(raw: string, seps: seq<string>, lib: Library)
    requires FirstNonDigit(Unsigned(raw)) == 0
    ensures Cast(raw, IntType, seps, lib) == (Int(0), Assign(Some(NumError("ParseInt", raw, InvalidSyntax))))
  {
    var b := Unsigned(raw);
    if b != "" {
      assert !IsDigit(b[0]);
    }
    ParseIntNotDecimal(raw);
  }

  // ---------------------------------------------------------------- transform

  /** The first pair, in argument order from `j`, whose key starts `s`. */
  function FirstKeyAt(s: string, pairs: seq<(string, string)>, j: nat): (r: Option<nat>)
    requires j <= |pairs|
    ensures r.Some? ==> j <= r.value < |pairs| && HasPrefix(s, pairs[r.value].0)
    ensures r.Some? ==> forall k :: j <= k < r.value ==> !HasPrefix(s, pairs[k].0)
    ensures r.None? ==> forall k :: j <= k < |pairs| ==> !HasPrefix(s, pairs[k].0)
    decreases |pairs| - j
  {
    if j == |pairs| then None
    else if HasPrefix(s, pairs[j].0) then Some(j)
    else FirstKeyAt(s, pairs, j + 1)
  }

  /**
   * `strings.NewReplacer(old1, new1, ...).Replace(s)`: scanning from the left, at each position
   * the first pair in argument order whose key occurs there is replaced, and the scan goes on
   * after it; matches do not overlap and replaced text is not scanned again.
   */
  function Replace(s: string, pairs: seq<(string, string)>): string
    requires NoEmptyKeys(pairs)
    decreases |s|
  {
    if s == [] then []
    else match FirstKeyAt(s, pairs, 0)
      case Some(k) => pairs[k].1 + Replace(s[|pairs[k].0|..], pairs)
      case None => [s[0]] + Replace(s[1..], pairs)
  }

  /** Where no key occurs, nothing is replaced. */
  lemma {:induction false} ReplaceNoOccurrence(s: string, pairs: seq<(string, string)>)
    requires NoEmptyKeys(pairs)
    requires forall k, i :: 0 <= k < |pairs| && 0 <= i <= |s| ==> !HasPrefix(s[i..], pairs[k].0)
    ensures Replace(s, pairs) == s
    decreases |s|
  {
    if s != [] {
      assert s[0..] == s;
      assert FirstKeyAt(s, pairs, 0).None?;
      forall k, i | 0 <= k < |pairs| && 0 <= i <= |s| - 1 ensures !HasPrefix(s[1..][i..], pairs[k].0) {
        assert s[1..][i..] == s[i + 1..];
      }
      ReplaceNoOccurrence(s[1..], pairs);
    }
  }

  predicate SortedByKeyLength(pairs: seq<(string, string)>) {
    forall i, j :: 0 <= i < j < |pairs| ==> Utf8Len(pairs[i].0) >= Utf8Len(pairs[j].0)
  }

  /** Puts `p` before the first pair whose key is not longer than its own. */
  function InsertByKeyLength(p: (string, string), sorted: seq<(string, string)>): (r: seq<(string, string)>)
    requires SortedByKeyLength(sorted)
    ensures SortedByKeyLength(r)
    ensures multiset(r) == multiset(sorted) + multiset{p}
    ensures |r| == |sorted| + 1
  {
    if sorted == [] || Utf8Len(sorted[0].0) <= Utf8Len(p.0) then [p] + sorted
    else
      var rest := InsertByKeyLength(p, sorted[1..]);
      InsertKeepsOrder(p, sorted, rest);
      [sorted[0]] + rest
  }

  lemma InsertKeepsOrder(p: (string, string), sorted: seq<(string, string)>, rest: seq<(string, string)>)
    requires sorted != [] && SortedByKeyLength(sorted) && Utf8Len(sorted[0].0) > Utf8Len(p.0)
    requires SortedByKeyLength(rest) && multiset(rest) == multiset(sorted[1..]) + multiset{p}
    ensures SortedByKeyLength([sorted[0]] + rest)
    ensures multiset([sorted[0]] + rest) == multiset(sorted) + multiset{p}
  {
    assert sorted == [sorted[0]] + sorted[1..];
    forall x | x in rest ensures Utf8Len(x.0) <= Utf8Len(sorted[0].0) {
      assert x in multiset(rest);
      if x != p {
        assert x in multiset(sorted[1..]);
        assert x in sorted[1..];
      }
    }
    var r := [sorted[0]] + rest;
    forall i, j | 0 <= i < j < |r| ensures Utf8Len(r[i].0) >= Utf8Len(r[j].0) {
      if i == 0 {
        assert r[j] == rest[j - 1] && r[j] in rest;
      } else {
        assert r[i] == rest[i - 1] && r[j] == rest[j - 1];
      }
    }
  }

  /**
   * The order of `sort.Slice(keys, len(keys[i]) > len(keys[j]))`: keys by decreasing length in
   * bytes. The source's sort is not stable; this one keeps equal-length keys in their
   * original order, which is one of the orders the source may produce.
   */
  function SortByKeyLength(pairs: seq<(string, string)>): (r: seq<(string, string)>)
    ensures SortedByKeyLength(r)
    ensures multiset(r) == multiset(pairs)
    ensures |r| == |pairs|
  {
    if pairs == [] then []
    else
      assert pairs == [pairs[0]] + pairs[1..];
      InsertByKeyLength(pairs[0], SortByKeyLength(pairs[1..]))
  }

  lemma NoEmptyKeysSorted(pairs: seq<(string, string)>)
    requires NoEmptyKeys(pairs)
    ensures NoEmptyKeys(SortByKeyLength(pairs))
  {
    var r := SortByKeyLength(pairs);
    forall k | 0 <= k < |r| ensures r[k].0 != "" {
      assert r[k] in multiset(r);
      assert r[k] in multiset(pairs);
      var j :| 0 <= j < |pairs| && pairs[j] == r[k];
    }
  }

  /**
   * With keys sorted by decreasing length, the key a replacer picks at a position is a
   * longest key that occurs there.
   */
  lemma LongestKeyFirst(s: string, pairs: seq<(string, string)>)
    requires SortedByKeyLength(pairs)
    requires FirstKeyAt(s, pairs, 0).Some?
    ensures forall k :: 0 <= k < |pairs| && HasPrefix(s, pairs[k].0) ==>
      |pairs[k].0| <= |pairs[FirstKeyAt(s, pairs, 0).value].0|
  {
    var w := FirstKeyAt(s, pairs, 0).value;
    forall k | 0 <= k < |pairs| && HasPrefix(s, pairs[k].0)
      ensures |pairs[k].0| <= |pairs[w].0|
    {
      if |pairs[k].0| > |pairs[w].0| {
        assert pairs[k].0[..|pairs[w].0|] == pairs[w].0;
        Utf8LenPrefix(pairs[w].0, pairs[k].0);
        assert false;
      }
    }
  }

  function LowerKeys(pairs: seq<(string, string)>): (r: seq<(string, string)>)
    ensures |r| == |pairs|
  {
    seq(|pairs|, k requires 0 <= k < |pairs| => (ToLower(pairs[k].0), pairs[k].1))
  }

  lemma NoEmptyKeysLowered(pairs: seq<(string, string)>)
    requires NoEmptyKeys(pairs)
    ensures NoEmptyKeys(LowerKeys(pairs))
  {
    forall k | 0 <= k < |pairs| ensures LowerKeys(pairs)[k].0 != "" {
      assert |LowerKeys(pairs)[k].0| == |pairs[k].0|;
    }
  }

  /**
   * The transform of a raw value (normalizer.go:294-323). With a replacement map, a fuzzy
   * transform lower-cases the value and the keys, the keys are applied longest first in one
   * left-to-right pass, and the result is trimmed; without one, the value is left as it is.
   */
  function Transformed(raw: string, vt: ValueTransform): string
    requires NoEmptyKeys(vt.replacements)
  {
    if |vt.replacements| == 0 then raw
    else if vt.matchMethod == FuzzyMatch then
      NoEmptyKeysLowered(vt.replacements);
      ReplaceSorted(ToLower(raw), LowerKeys(vt.replacements))
    else ReplaceSorted(raw, vt.replacements)
  }

  /** The replacements applied longest key first, then the result trimmed. */
  function ReplaceSorted(value: string, pairs: seq<(string, string)>): string
    requires NoEmptyKeys(pairs)
  {
    NoEmptyKeysSorted(pairs);
    TrimSpace(Replace(value, SortByKeyLength(pairs)))
  }

  /** With replacements the transformed value is trimmed. */
  lemma TransformedTrimmed(raw: string, vt: ValueTransform)
    requires NoEmptyKeys(vt.replacements) && |vt.replacements| > 0
    ensures Trimmed(Transformed(raw, vt))
  {
  }

  /** A fuzzy transform with replacements does not see the case of the value. */
  lemma FuzzyIgnoresCase(a: string, b: string, vt: ValueTransform)
    requires NoEmptyKeys(vt.replacements) && |vt.replacements| > 0 && vt.matchMethod == FuzzyMatch
    requires EqualFold(a, b)
    ensures Transformed(a, vt) == Transformed(b, vt)
  {
    EqualFoldLower(a, b);
  }

  /** A text of ASCII characters has one byte per character. */
  lemma {:induction false} AsciiUtf8Len(s: string)
    requires forall k :: 0 <= k < |s| ==> s[k] as int < 0x80
    ensures Utf8Len(s) == |s|
  {
    if s != [] {
      AsciiUtf8Len(s[1..]);
    }
  }

  lemma SortSingle(p: (string, string))
    ensures SortByKeyLength([p]) == [p]
  {
    assert [p][1..] == [];
  }

  lemma InsertShorter(p: (string, string), q: (string, string))
    requires Utf8Len(q.0) > Utf8Len(p.0)
    ensures InsertByKeyLength(p, [q]) == [q, p]
  {
    assert [q][1..] == [];
  }

  /** Two pairs, the second with the longer key, swap places. */
  lemma SortTwo(p: (string, string), q: (string, string))
    requires Utf8Len(q.0) > Utf8Len(p.0)
    ensures SortByKeyLength([p, q]) == [q, p]
  {
    SortSingle(q);
    InsertShorter(p, q);
    assert [p, q][1..] == [q];
  }

  /** Sorting puts the longer key `fourteen` before `four`. */
  lemma SortFourteenFour(pairs: seq<(string, string)>)
    requires pairs == [("four", "4"), ("fourteen", "14")]
    ensures SortByKeyLength(pairs) == [("fourteen", "14"), ("four", "4")]
  {
    AsciiUtf8Len(pairs[0].0);
    AsciiUtf8Len(pairs[1].0);
    SortTwo(pairs[0], pairs[1]);
  }

  lemma ReplaceFour(pairs: seq<(string, string)>)
    requires pairs == [("fourteen", "14"), ("four", "4")]
    ensures Replace("four", pairs) == "4"
  {
    assert !HasPrefix("four", "fourteen") && HasPrefix("four", "four");
    assert FirstKeyAt("four", pairs, 0) == Some(1);
    assert "four"[4..] == "";
  }

  lemma ReplaceCommaFour(pairs: seq<(string, string)>)
    requires pairs == [("fourteen", "14"), ("four", "4")]
    ensures Replace(",four", pairs) == ",4"
  {
    assert ",four"[..4][0] != "four"[0];
    assert !HasPrefix(",four", "fourteen") && !HasPrefix(",four", "four");
    assert FirstKeyAt(",four", pairs, 0) == None;
    assert ",four"[1..] == "four";
    ReplaceFour(pairs);
  }

  lemma ReplaceFourteenFour(s: string, pairs: seq<(string, string)>)
    requires s == "fourteen,four"
    requires pairs == [("fourteen", "14"), ("four", "4")]
    ensures Replace(s, pairs) == "14,4"
  {
    assert s[..8] == "fourteen";
    assert FirstKeyAt(s, pairs, 0) == Some(0);
    assert s[8..] == ",four";
    ReplaceCommaFour(pairs);
  }

  /** The example from normalizer.go:304-305: "fourteen,four" becomes "14,4", not "14teen,4". */
  lemma FourteenBeforeFour(raw: string, vt: ValueTransform)
    requires raw == "fourteen,four"
    requires vt == ValueTransform(ExactMatch, [("four", "4"), ("fourteen", "14")], [])
    ensures Transformed(raw, vt) == "14,4"
  {
    SortFourteenFour(vt.replacements);
    ReplaceFourteenFour(raw, SortByKeyLength(vt.replacements));
    TrimFourteenFour(Replace(raw, SortByKeyLength(vt.replacements)));
  }

  lemma TrimFourteenFour(s: string)
    requires s == "14,4"
    ensures TrimSpace(s) == s
  {
    assert !IsSpace(s[0]) && !IsSpace(s[3]);
  }

  // ---------------------------------------------------------------- array split

  /** The first position at which some non-empty separator occurs, and the first such separator. */
  function CutFrom(s: string, seps: seq<string>, i: nat): (r: Option<(nat, nat)>)
    requires i <= |s|
    ensures r.Some? ==> i <= r.value.0 < |s| && r.value.1 < |seps|
    ensures r.Some? ==> seps[r.value.1] != "" && OccursAt(s, seps[r.value.1], r.value.0)
    decreases |s| - i
  {
    if i == |s| then None
    else match FirstSepAt(s, seps, i, 0)
      case Some(k) => Some((i, k))
      case None => CutFrom(s, seps, i + 1)
  }

  function FirstSepAt(s: string, seps: seq<string>, i: nat, k: nat): (r: Option<nat>)
    requires k <= |seps|
    ensures r.Some? ==> k <= r.value < |seps| && seps[r.value] != "" && OccursAt(s, seps[r.value], i)
    ensures r.None? ==> forall m :: k <= m < |seps| && seps[m] != "" ==> !OccursAt(s, seps[m], i)
    decreases |seps| - k
  {
    if k == |seps| then None
    else if seps[k] != "" && OccursAt(s, seps[k], i) then Some(k)
    else FirstSepAt(s, seps, i, k + 1)
  }

  /** The text between separators, untrimmed. */
  function Pieces(s: string, seps: seq<string>): (r: seq<string>)
    ensures |r| >= 1
    decreases |s|
  {
    match CutFrom(s, seps, 0)
    case None => [s]
    case Some((i, k)) => [s[..i]] + Pieces(s[i + |seps[k]|..], seps)
  }

  lemma {:induction false} CutFromSingle(s: string, sep: string, i: nat)
    requires sep != "" && i <= |s|
    ensures match CutFrom(s, [sep], i)
      case None => IndexFrom(s, sep, i) == -1
      case Some((p, k)) => IndexFrom(s, sep, i) == p && k == 0
    decreases |s| - i
  {
    if i < |s| && FirstSepAt(s, [sep], i, 0).None? {
      CutFromSingle(s, sep, i + 1);
    }
  }

  /** With one separator, the pieces are those of `strings.Split`. */
  lemma {:induction false} PiecesSingle(s: string, sep: string)
    requires sep != ""
    ensures Pieces(s, [sep]) == Split(s, sep)
    decreases |s|
  {
    CutFromSingle(s, sep, 0);
    var cut := CutFrom(s, [sep], 0);
    if cut.None? {
      assert Index(s, sep) == -1;
    } else {
      var i := cut.value.0;
      assert cut == Some((i, 0));
      var rest := s[i + |sep|..];
      PiecesCut(s, [sep], i, 0, rest);
      PiecesSingle(rest, sep);
      assert Split(s, sep) == [s[..i]] + Split(rest, sep);
    }
  }

  lemma PiecesCut(s: string, seps: seq<string>, i: nat, k: nat, rest: string)
    requires k < |seps| && i + |seps[k]| <= |s|
    requires CutFrom(s, seps, 0) == Some((i, k)) && rest == s[i + |seps[k]|..]
    ensures Pieces(s, seps) == [s[..i]] + Pieces(rest, seps)
  {
  }

  /** With one separator, joining the untrimmed pieces gives the value back. */
  lemma PiecesJoin(s: string, sep: string)
    requires sep != ""
    ensures Join(Pieces(s, [sep]), sep) == s
  {
    PiecesSingle(s, sep);
    JoinSplit(s, sep);
  }

  /**
   * `stringx.Split(value, separators...)`: the empty value gives no element; otherwise the
   * value is cut at every occurrence of a separator and each piece is trimmed.
   */
  function SplitValue(s: string, seps: seq<string>): (r: seq<string>)
    ensures s == "" <==> r == []
    ensures forall k :: 0 <= k < |r| ==> Trimmed(r[k])
  {
    if s == "" then []
    else
      var ps := Pieces(s, seps);
      seq(|ps|, k requires 0 <= k < |ps| => TrimSpace(ps[k]))
  }

  // ---------------------------------------------------------------- cast

  /** How a cast touches the shared `err` variable: some branches assign it, others leave it. */
  datatype ErrUpdate = Keep | Assign(err: Option<string>)

  /** The cast of a transformed value to the rule's type (normalizer.go:324-349). */
  function Cast(raw: string, valueType: string, separators: seq<string>, lib: Library): (r: (Value, ErrUpdate))
    ensures HasKind(r.0, valueType)
  {
    if valueType == BooleanType then
      if raw == "" then (Bool(false), Keep)
      else
        var lower := ToLower(raw);
        if lower == "y" || lower == "yes" then (Bool(true), Keep)
        else if lower == "n" || lower == "no" then (Bool(false), Keep)
        else var (b, e) := ParseBool(lower); (Bool(b), Assign(e))
    else if valueType == IntType then
      var (i, e) := ParseInt(raw); (Int(i), Assign(e))
    else if valueType == FloatType then
      var (f, e) := lib.parseFloat(raw); (Float(f), Assign(e))
    else if valueType == ArrayType then
      (Arr(SplitValue(raw, separators)), Keep)
    else
      (Str(raw), Keep)
  }

  /** The boolean aliases: empty is false, y/yes are true and n/no are false, in any case. */
  lemma BooleanAliases(raw: string, seps: seq<string>, lib: Library)
    ensures raw == "" ==> Cast(raw, BooleanType, seps, lib) == (Bool(false), Keep)
    ensures ToLower(raw) in {"y", "yes"} ==> Cast(raw, BooleanType, seps, lib) == (Bool(true), Keep)
    ensures ToLower(raw) in {"n", "no"} ==> Cast(raw, BooleanType, seps, lib) == (Bool(false), Keep)
    ensures raw != "" && ToLower(raw) !in {"y", "yes", "n", "no", "1", "t", "true", "0", "f", "false"} ==>
      Cast(raw, BooleanType, seps, lib) == (Bool(false), Assign(Some(NumError("ParseBool", ToLower(raw), InvalidSyntax))))
  {
    var lower := ToLower(raw);
    if raw != "" && lower !in {"y", "yes", "n", "no", "1", "t", "true", "0", "f", "false"} {
      assert NoUpper(lower) by { LowerIsLower(raw); }
      assert lower !in {"T", "TRUE", "True", "F", "FALSE", "False"} by {
        if |lower| > 0 { assert !IsUpper(lower[0]); }
      }
    }
  }

  /**
   * The casts that leave `err` as it was: an empty boolean, the boolean aliases, an array,
   * and every type the switch does not name, which is kept as a string.
   */
  lemma CastKeepsErr(raw: string, valueType: string, seps: seq<string>, lib: Library)
    ensures Cast(raw, valueType, seps, lib).1.Keep? <==>
      || (valueType == BooleanType && (raw == "" || ToLower(raw) in {"y", "yes", "n", "no"}))
      || valueType == ArrayType
      || valueType !in {BooleanType, IntType, FloatType, ArrayType}
  {
  }

  lemma LowerIsLower(s: string)
    ensures NoUpper(ToLower(s))
  {
  }

  /** A text that `ParseInt` reads without error casts to that integer, with `err` cleared. */
  lemma IntCastRoundTrip(i: int, seps: seq<string>, lib: Library)
    requires MinInt64 <= i <= MaxInt64
    ensures Cast(FormatInt(i), IntType, seps, lib) == (Int(i), Assign(None))
  {
    ParseIntFormatInt(i);
  }

  // ---------------------------------------------------------------- merge

  /**
   * The merge of a new value into the entry already held for its key (normalizer.go:353-369):
   * strings are joined with a newline unless the held string is empty, arrays are
   * concatenated, every other type is overwritten; a missing entry is set.
   */
  function Merged(held: Option<Value>, valueType: string, v: Value): (r: Value)
    requires held.Some? ==> HasKind(held.value, valueType)
    requires HasKind(v, valueType)
    ensures HasKind(r, valueType)
  {
    if held.None? then v
    else if valueType == StringType then
      (if held.value.s != "" then Str(held.value.s + "\n" + v.s) else v)
    else if valueType == ArrayType then Arr(held.value.elems + v.elems)
    else v
  }
}
