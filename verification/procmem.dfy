/**
 * The resident-memory reading of GetMemByPid (util_linux.go): the output of
 * `ps -q <pid> -o rss=` is lowercased, trimmed and parsed as a count of kilobytes.
 * The command itself is outside the model: its output arrives as Some(text), its
 * failure as None.
 */
module ProcessMemory {
  import opened Types

  /** Go's unicode.IsSpace, which strings.TrimSpace uses. */
  predicate IsSpace(c: char) {
    || c == ' ' || c == '\t' || c == '\n' || c == '\U{0B}' || c == '\U{0C}' || c == '\r'
    || c == '\U{85}' || c == '\U{A0}' || c == '\U{1680}'
    || ('\U{2000}' <= c <= '\U{200A}')
    || c == '\U{2028}' || c == '\U{2029}' || c == '\U{202F}' || c == '\U{205F}' || c == '\U{3000}'
  }

  predicate IsUpper(c: char) { 'A' <= c <= 'Z' }

  predicate IsDigit(c: char) { '0' <= c <= '9' }

  function LowerChar(c: char): char {
    if IsUpper(c) then (c as int + 32) as char else c
  }

  /** strings.ToLower, on the ASCII letters. */
  function ToLower(s: string): (r: string)
    ensures |r| == |s|
    ensures forall i :: 0 <= i < |s| ==> r[i] == LowerChar(s[i])
  {
    seq(|s|, i requires 0 <= i < |s| => LowerChar(s[i]))
  }

  /** The index of the first character at or after `from` that is not white space (|s| if none). */
  function SkipSpaces(s: string, from: nat): (n: nat)
    requires from <= |s|
    ensures from <= n <= |s|
    ensures forall i :: from <= i < n ==> IsSpace(s[i])
    ensures n == |s| || !IsSpace(s[n])
    decreases |s| - from
  {
    if from < |s| && IsSpace(s[from]) then SkipSpaces(s, from + 1) else from
  }

  /** The index just past the last character before `to` that is not white space (0 if none). */
  function SkipSpacesBack(s: string, to: nat): (n: nat)
    requires to <= |s|
    ensures n <= to
    ensures forall i :: n <= i < to ==> IsSpace(s[i])
    ensures n == 0 || !IsSpace(s[n - 1])
  {
    if to > 0 && IsSpace(s[to - 1]) then SkipSpacesBack(s, to - 1) else to
  }

  function TrimLeft(s: string): (r: string)
    ensures |r| <= |s| && forall i :: 0 <= i < |r| ==> r[i] == s[|s| - |r| + i]
    ensures r == [] || !IsSpace(r[0])
    ensures forall i :: 0 <= i < |s| - |r| ==> IsSpace(s[i])
  {
    s[SkipSpaces(s, 0)..]
  }

  function TrimRight(s: string): (r: string)
    ensures |r| <= |s| && forall i :: 0 <= i < |r| ==> r[i] == s[i]
    ensures r == [] || !IsSpace(r[|r| - 1])
    ensures forall i :: |r| <= i < |s| ==> IsSpace(s[i])
  {
    s[..SkipSpacesBack(s, |s|)]
  }

  /** strings.TrimSpace: drop leading and trailing white space. */
  function TrimSpace(s: string): string {
    TrimRight(TrimLeft(s))
  }

  predicate AllDigits(s: string) {
    forall i :: 0 <= i < |s| ==> IsDigit(s[i])
  }

  /** The number a string of decimal digits denotes. */
  function DigitsValue(s: string): nat
    requires AllDigits(s)
  {
    if s == [] then 0 else DigitsValue(s[..|s| - 1]) * 10 + (s[|s| - 1] as int - '0' as int)
  }

  /**
   * strconv.ParseUint(s, 10, 64) without its error detail: a non-empty string of decimal
   * digits (no sign, no underscore) whose value fits in a uint64.
   */
  function ParseUint(s: string): Option<uint64> {
    if |s| > 0 && AllDigits(s) && DigitsValue(s) < TWO_64 then Some(DigitsValue(s)) else None
  }

  /** strconv.FormatUint(v, 10): decimal digits without leading zeros. */
  function FormatUint(v: nat): (s: string)
    ensures |s| > 0 && AllDigits(s)
  {
    if v < 10 then ['0' + v as char] else FormatUint(v / 10) + ['0' + (v % 10) as char]
  }

  /** Parsing undoes formatting for every uint64. */
  lemma FormatParse(v: uint64)
    ensures ParseUint(FormatUint(v)) == Some(v)
  {
    FormatValue(v);
  }

  lemma {:induction false} FormatValue(v: nat)
    ensures DigitsValue(FormatUint(v)) == v
  {
    if v >= 10 {
      var s := FormatUint(v);
      assert s[..|s| - 1] == FormatUint(v / 10);
      FormatValue(v / 10);
    }
  }

  /** The unit table of util_linux.go. */
  const Factors: map<string, uint64> := map[
    "B" := 1,
    "K" := 1024, "KB" := 1024,
    "M" := 1024 * 1024, "MB" := 1024 * 1024,
    "G" := 1024 * 1024 * 1024, "GB" := 1024 * 1024 * 1024,
    "T" := 1024 * 1024 * 1024 * 1024, "TB" := 1024 * 1024 * 1024 * 1024]

  /** Bytes, then binary kilo-, mega-, giga- and terabytes, each with a one- and a two-letter key. */
  lemma FactorTable()
    ensures Factors.Keys == {"B", "K", "KB", "M", "MB", "G", "GB", "T", "TB"}
    ensures Factors["B"] == 1
    ensures Factors["K"] == Factors["KB"] == 1024
    ensures Factors["M"] == Factors["MB"] == 1024 * 1024
    ensures Factors["G"] == Factors["GB"] == 1024 * 1024 * 1024
    ensures Factors["T"] == Factors["TB"] == 1024 * 1024 * 1024 * 1024
  {
  }

  /** An order in which Go may range over the factor table: every key exactly once. */
  ghost predicate KeyOrder(order: seq<string>) {
    && (forall u :: u in order <==> u in Factors)
    && (forall i, j :: 0 <= i < j < |order| ==> order[i] != order[j])
  }

  predicate HasSuffix(s: string, u: string) {
    |u| <= |s| && s[|s| - |u|..] == u
  }

  /** strings.ReplaceAll(s, u, ""): delete the non-overlapping occurrences of u, left to right. */
  function RemoveAll(s: string, u: string): string
    requires |u| > 0
  {
    if |s| < |u| then s
    else if s[..|u|] == u then RemoveAll(s[|u|..], u)
    else [s[0]] + RemoveAll(s[1..], u)
  }

  /** The loop over the factor table, in the given order: the first unit that is a suffix and leaves a number wins. */
  function SuffixSearch(out: string, order: seq<string>): Option<uint64>
    requires forall u :: u in order ==> u in Factors
  {
    if order == [] then None
    else
      var unit := order[0];
      if |unit| > 0 && HasSuffix(out, unit) then
        match ParseUint(RemoveAll(out, unit))
        case Some(mem) => Some(WrapU64(mem * Factors[unit]))
        case None => SuffixSearch(out, order[1..])
      else SuffixSearch(out, order[1..])
  }

  /**
   * GetMemByPid after the command has run: 0 when it failed, the number of kilobytes times
   * 1024 (wrapping as uint64) when the lowercased, trimmed output is a number, otherwise
   * the search over the unit table, and 0 when that finds nothing.
   */
  function GetMemByPid(output: Option<string>, order: seq<string>): uint64
    requires KeyOrder(order)
  {
    match output
    case None => 0
    case Some(raw) =>
      var out := TrimSpace(ToLower(raw));
      match ParseUint(out)
      case Some(mem) => WrapU64(mem * 1024)
      case None =>
        match SuffixSearch(out, order)
        case Some(mem) => mem
        case None => 0
  }

  predicate NoUpper(s: string) {
    forall i :: 0 <= i < |s| ==> !IsUpper(s[i])
  }

  /** Lowercasing leaves no upper-case letter, and trimming cannot bring one back. */
  lemma LoweredHasNoUpper(raw: string)
    ensures NoUpper(TrimSpace(ToLower(raw)))
  {
    var l := ToLower(raw);
    assert NoUpper(l) by {
      forall i | 0 <= i < |l| ensures !IsUpper(l[i]) {
        assert l[i] == LowerChar(raw[i]);
      }
    }
    var t := TrimLeft(l);
    assert NoUpper(t) by {
      forall i | 0 <= i < |t| ensures !IsUpper(t[i]) {
        assert t[i] == l[|l| - |t| + i];
      }
    }
    var r := TrimRight(t);
    assert NoUpper(r) by {
      forall i | 0 <= i < |r| ensures !IsUpper(r[i]) {
        assert r[i] == t[i];
      }
    }
  }

  /** Every key of the unit table ends in an upper-case letter. */
  lemma KeysEndUpper(u: string)
    requires u in Factors
    ensures |u| > 0 && IsUpper(u[|u| - 1])
  {
  }

  /** On text without upper-case letters no unit key is a suffix, whatever the order. */
  lemma {:induction false} NoUnitMatches(out: string, order: seq<string>)
    requires forall u :: u in order ==> u in Factors
    requires NoUpper(out)
    ensures SuffixSearch(out, order) == None
  {
    if order != [] {
      var unit := order[0];
      KeysEndUpper(unit);
      if |unit| <= |out| {
        var tail := out[|out| - |unit|..];
        assert tail[|unit| - 1] == out[|out| - 1];
        assert tail[|unit| - 1] != unit[|unit| - 1];
      }
      NoUnitMatches(out, order[1..]);
    }
  }

  /**
   * What GetMemByPid returns, in every iteration order of the unit table: 0 on command failure;
   * the kilobyte count times 1024 (mod 2^64) when the trimmed, lowercased output is a decimal
   * number that fits in a uint64; and 0 for every other output, since the unit suffixes are
   * upper-case and the output has been lowercased.
   */
  lemma GetMemByPidResult(output: Option<string>, order: seq<string>)
    requires KeyOrder(order)
    ensures output.None? ==> GetMemByPid(output, order) == 0
    ensures output.Some? ==>
      var out := TrimSpace(ToLower(output.value));
      GetMemByPid(output, order) ==
        if |out| > 0 && AllDigits(out) && DigitsValue(out) < TWO_64
        then WrapU64(DigitsValue(out) * 1024) else 0
  {
    if output.Some? {
      LoweredHasNoUpper(output.value);
      NoUnitMatches(TrimSpace(ToLower(output.value)), order);
    }
  }

  /** Digits have no upper-case letters, so lowercasing leaves a digit string alone. */
  lemma DigitsLowered(s: string)
    requires AllDigits(s)
    ensures ToLower(s) == s
  {
    forall i | 0 <= i < |s| ensures ToLower(s)[i] == s[i] {
      assert IsDigit(s[i]);
    }
  }

  /** Digits are not white space, so trimming leaves a non-empty digit string alone. */
  lemma DigitsTrimmed(s: string)
    requires |s| > 0 && AllDigits(s)
    ensures TrimSpace(s) == s
  {
    var first, last := s[0], s[|s| - 1];
    assert IsDigit(first) && IsDigit(last);
    assert !IsSpace(first) && !IsSpace(last);
    assert SkipSpaces(s, 0) == 0 && SkipSpacesBack(s, |s|) == |s|;
    assert TrimLeft(s) == s;
    assert TrimRight(s) == s;
  }

  /** A reading below 2^54 kilobytes is reported exactly, in bytes. */
  lemma KilobytesToBytes(v: uint64, order: seq<string>)
    requires KeyOrder(order)
    requires v < 0x40_0000_0000_0000
    ensures GetMemByPid(Some(FormatUint(v)), order) == v * 1024
  {
    var s := FormatUint(v);
    FormatParse(v);
    DigitsLowered(s);
    DigitsTrimmed(s);
    assert TrimSpace(ToLower(s)) == s;
    assert ParseUint(s) == Some(v);
    assert v * 1024 < TWO_64;
  }
}
