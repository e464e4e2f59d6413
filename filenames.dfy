/**
 * Language classification of corpus files by name.  A file whose name starts
 * with a run of digits is taken to be a year; a year at or above a threshold
 * marks the document as Japanese, everything else is Chinese.  The scripts
 * differ in the threshold (2025 or 2000) and in whether a letter suffix after
 * the digits (`2030a.txt`) vetoes the Japanese reading, so both are
 * parameters here.
 */
module FileNames {

  datatype Language = Chinese | Japanese

  predicate IsDigit(c: char) {
    '0' <= c <= '9'
  }

  predicate IsAsciiLetter(c: char) {
    'A' <= c <= 'Z' || 'a' <= c <= 'z'
  }

  /** Length of the run of digits at the front of `s`. */
  function DigitRun(s: string): (n: nat)
    ensures n <= |s|
    ensures forall i :: 0 <= i < n ==> IsDigit(s[i])
    ensures n < |s| ==> !IsDigit(s[n])
  {
    if s == [] || !IsDigit(s[0]) then 0 else 1 + DigitRun(s[1..])
  }

  /** Length of the run of ASCII letters at the front of `s` (`[A-Za-z]*`). */
  function LetterRun(s: string): (n: nat)
    ensures n <= |s|
    ensures forall i :: 0 <= i < n ==> IsAsciiLetter(s[i])
    ensures n < |s| ==> !IsAsciiLetter(s[n])
  {
    if s == [] || !IsAsciiLetter(s[0]) then 0 else 1 + LetterRun(s[1..])
  }

  function DigitValue(c: char): (d: nat)
    requires IsDigit(c)
    ensures d < 10
  {
    assert c as int >= '0' as int;
    c as int - '0' as int
  }

  /** `int(digits)` for a string of decimal digits, most significant first. */
  function DecimalValue(digits: string): (v: nat)
    requires forall i :: 0 <= i < |digits| ==> IsDigit(digits[i])
  {
    if digits == [] then 0
    else 10 * DecimalValue(digits[..|digits| - 1]) + DigitValue(digits[|digits| - 1])
  }

  /**
   * `os.path.splitext(name)[0]`: the name without its last extension.  A dot
   * that has only dots before it starts no extension (`.txt` has none).
   */
  function SplitExtRoot(name: string): (root: string)
    ensures root <= name
  {
    var dot := LastDot(name, |name|);
    if dot < 0 || forall i :: 0 <= i < dot ==> name[i] == '.' then name else name[..dot]
  }

  /** Index of the last '.' in `name[..end]`, or -1. */
  function LastDot(name: string, end: nat): (i: int)
    requires end <= |name|
    ensures -1 <= i < end
    ensures i >= 0 ==> name[i] == '.'
    ensures forall j :: i < j < end ==> name[j] != '.'
  {
    if end == 0 then -1 else if name[end - 1] == '.' then end - 1 else LastDot(name, end - 1)
  }

  /** `name.split('.')[0]`: everything before the first dot. */
  function BeforeFirstDot(name: string): (base: string)
    ensures base <= name
    ensures forall i :: 0 <= i < |base| ==> base[i] != '.'
    ensures |base| < |name| ==> name[|base|] == '.'
  {
    if name == [] || name[0] == '.' then [] else [name[0]] + BeforeFirstDot(name[1..])
  }

  /**
   * The classification rule on an extension-stripped base name: the leading
   * digits must be present and reach `threshold`, and, when
   * `suffixVetoes`, no ASCII letter may follow them.
   */
  function Classify(base: string, threshold: nat, suffixVetoes: bool): Language
  {
    var n := DigitRun(base);
    if n == 0 then Chinese
    else
      var year := DecimalValue(base[..n]);
      var suffix := LetterRun(base[n..]);
      if year >= threshold && !(suffixVetoes && suffix > 0) then Japanese else Chinese
  }

  /** The rule of the embedding-training and plotting scripts: `splitext`, 2025, suffix vetoes. */
  function DetectLanguageStrict(name: string): Language {
    Classify(SplitExtRoot(name), 2025, true)
  }

  /** The rule of the similarity-analysis script: part before the first dot, 2000, suffix ignored. */
  function DetectLanguageLoose(name: string): Language {
    Classify(BeforeFirstDot(name), 2000, false)
  }

  // ---------------------------------------------------------------------
  // What the rules mean

  /** Japanese exactly when the leading digits reach the threshold and (if it matters) no letter follows. */
  lemma ClassifyMeaning(base: string, threshold: nat, suffixVetoes: bool)
    ensures Classify(base, threshold, suffixVetoes) == Japanese <==>
      var n := DigitRun(base);
      n > 0 && DecimalValue(base[..n]) >= threshold &&
      (suffixVetoes ==> n == |base| || !IsAsciiLetter(base[n]))
  {
    var n := DigitRun(base);
    if n > 0 && n < |base| {
      assert base[n..][0] == base[n];
    }
  }

  /**
   * The digit run and the letter after it lie before any dot, so cutting the
   * name at a dot (either way the scripts do it) never changes the verdict.
   */
  lemma {:induction false} ClassifyPrefixAtDot(name: string, base: string, threshold: nat, suffixVetoes: bool)
    requires base <= name
    requires |base| < |name| ==> name[|base|] == '.'
    ensures Classify(base, threshold, suffixVetoes) == Classify(name, threshold, suffixVetoes)
  {
    RunsAgreeOnPrefix(name, base);
    var n := DigitRun(base);
    if 0 < n {
      assert base[..n] == name[..n];
      if n < |base| {
        assert base[n..][0] == name[n..][0];
      } else if n < |name| {
        assert name[n..][0] == '.';
      }
    }
  }

  /** The digit run of a prefix that ends at a dot is the digit run of the whole name. */
  lemma {:induction false} RunsAgreeOnPrefix(name: string, base: string)
    requires base <= name
    requires |base| < |name| ==> name[|base|] == '.'
    ensures DigitRun(base) == DigitRun(name)
  {
    if base != [] && IsDigit(base[0]) {
      RunsAgreeOnPrefix(name[1..], base[1..]);
    } else if base == [] && name != [] {
      assert name[0] == '.';
    }
  }

  lemma StrictIgnoresExtension(name: string)
    ensures DetectLanguageStrict(name) == Classify(name, 2025, true)
  {
    var root := SplitExtRoot(name);
    if root != name {
      var dot := LastDot(name, |name|);
      assert root == name[..dot] && name[|root|] == '.';
    }
    ClassifyPrefixAtDot(name, root, 2025, true);
  }

  lemma LooseIgnoresExtension(name: string)
    ensures DetectLanguageLoose(name) == Classify(name, 2000, false)
  {
    ClassifyPrefixAtDot(name, BeforeFirstDot(name), 2000, false);
  }

  /**
   * The two scripts disagree only one way: whatever the strict rule calls
   * Japanese, the loose rule does too.
   */
  lemma StrictImpliesLoose(name: string)
    requires DetectLanguageStrict(name) == Japanese
    ensures DetectLanguageLoose(name) == Japanese
  {
    StrictIgnoresExtension(name);
    LooseIgnoresExtension(name);
    ClassifyMeaning(name, 2025, true);
    ClassifyMeaning(name, 2000, false);
  }

  /** A run of exactly `n` digits at the front. */
  lemma {:induction false} DigitRunIs(s: string, n: nat)
    requires n <= |s|
    requires forall i :: 0 <= i < n ==> IsDigit(s[i])
    requires n < |s| ==> !IsDigit(s[n])
    ensures DigitRun(s) == n
  {
    if n > 0 {
      DigitRunIs(s[1..], n - 1);
    }
  }

  /** The value of a four-digit year. */
  lemma YearValue(y: string)
    requires |y| == 4 && forall i :: 0 <= i < 4 ==> IsDigit(y[i])
    ensures DecimalValue(y) ==
      1000 * DigitValue(y[0]) + 100 * DigitValue(y[1]) + 10 * DigitValue(y[2]) + DigitValue(y[3])
  {
    assert y[..1][..0] == [];
    assert DecimalValue(y[..1]) == DigitValue(y[0]);
    assert y[..2][..1] == y[..1];
    assert DecimalValue(y[..2]) == 10 * DigitValue(y[0]) + DigitValue(y[1]);
    assert y[..3][..2] == y[..2];
    assert DecimalValue(y[..3]) == 100 * DigitValue(y[0]) + 10 * DigitValue(y[1]) + DigitValue(y[2]);
    assert y[..3] == y[..|y| - 1];
  }

  /** The rule on a name made of a four-digit year and a tail that does not start with a digit. */
  lemma ClassifyYear(name: string, threshold: nat, suffixVetoes: bool)
    requires |name| > 4 && forall i :: 0 <= i < 4 ==> IsDigit(name[i])
    requires !IsDigit(name[4])
    ensures Classify(name, threshold, suffixVetoes) == Japanese <==>
      DecimalValue(name[..4]) >= threshold && (suffixVetoes ==> !IsAsciiLetter(name[4]))
  {
    DigitRunIs(name, 4);
    ClassifyMeaning(name, threshold, suffixVetoes);
  }

  /** The strict rule on a name that starts with a four-digit year followed by something other than a digit. */
  lemma StrictOnYear(name: string)
    requires |name| > 4 && forall i :: 0 <= i < 4 ==> IsDigit(name[i])
    requires !IsDigit(name[4])
    ensures DetectLanguageStrict(name) == Japanese <==>
      1000 * DigitValue(name[0]) + 100 * DigitValue(name[1]) + 10 * DigitValue(name[2]) + DigitValue(name[3]) >= 2025
      && !IsAsciiLetter(name[4])
  {
    StrictIgnoresExtension(name);
    YearValue(name[..4]);
    ClassifyYear(name, 2025, true);
  }

  /** The loose rule on a name that starts with a four-digit year followed by something other than a digit. */
  lemma LooseOnYear(name: string)
    requires |name| > 4 && forall i :: 0 <= i < 4 ==> IsDigit(name[i])
    requires !IsDigit(name[4])
    ensures DetectLanguageLoose(name) == Japanese <==>
      1000 * DigitValue(name[0]) + 100 * DigitValue(name[1]) + 10 * DigitValue(name[2]) + DigitValue(name[3]) >= 2000
  {
    LooseIgnoresExtension(name);
    YearValue(name[..4]);
    ClassifyYear(name, 2000, false);
  }

  /** `2025.txt` is Japanese under the strict rule. */
  lemma StrictExample2025()
    ensures DetectLanguageStrict("2025.txt") == Japanese
  {
    StrictOnYear("2025.txt");
  }

  /** `1999a.txt` is Chinese under the strict rule: the year is too early. */
  lemma StrictExampleEarly()
    ensures DetectLanguageStrict("1999a.txt") == Chinese
  {
    StrictOnYear("1999a.txt");
  }

  /** `2030a.txt` is Chinese under the strict rule: a letter follows the year. */
  lemma StrictExampleLetter()
    ensures DetectLanguageStrict("2030a.txt") == Chinese
  {
    StrictOnYear("2030a.txt");
  }

  /** `abc.txt` is Chinese under the strict rule: it has no leading digits. */
  lemma StrictExampleNoDigits()
    ensures DetectLanguageStrict("abc.txt") == Chinese
  {
    StrictIgnoresExtension("abc.txt");
  }

  /** The loose rule ignores a letter suffix ... */
  lemma LooseExampleSuffix()
    ensures DetectLanguageLoose("2025a.txt") == Japanese
  {
    LooseOnYear("2025a.txt");
  }

  /** ... where the strict rule lets it veto. */
  lemma StrictExampleSuffix()
    ensures DetectLanguageStrict("2025a.txt") == Chinese
  {
    StrictOnYear("2025a.txt");
  }

  /** The loose rule counts the years 2000 to 2024 as Japanese ... */
  lemma LooseExampleYear()
    ensures DetectLanguageLoose("2000.txt") == Japanese
  {
    LooseOnYear("2000.txt");
  }

  /** ... and the strict rule as Chinese. */
  lemma StrictExampleYear()
    ensures DetectLanguageStrict("2000.txt") == Chinese
  {
    StrictOnYear("2000.txt");
  }
}
