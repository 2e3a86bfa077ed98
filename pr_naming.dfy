/**
 * The small string builders around the conflict engine: the name of the branch the repost is
 * pushed to, the title of the reposted pull request, and whether `main` runs interactively.
 */
module PrNaming {
  import opened Wrappers

  /** The character of a decimal digit. */
  function DigitChar(d: nat): char
    requires d < 10
  {
    "0123456789"[d]
  }

  /** Whether `c` is a decimal digit. */
  predicate IsDigit(c: char) {
    '0' <= c <= '9'
  }

  /** The value of a decimal digit. */
  function DigitValue(c: char): (d: nat)
    requires IsDigit(c)
    ensures d < 10
  {
    c as int - '0' as int
  }

  /** Reading back the character of a digit gives the digit. */
  lemma DigitRoundTrip(d: nat)
    requires d < 10
    ensures IsDigit(DigitChar(d)) && DigitValue(DigitChar(d)) == d
  {
  }

  /** `str(n)` for `n >= 0`: its decimal digits, most significant first, without leading zeros. */
  function NatToString(n: nat): (s: string)
    decreases n
  {
    if n < 10 then [DigitChar(n)] else NatToString(n / 10) + [DigitChar(n % 10)]
  }

  /** `str(n)` for any integer: a minus sign before the digits of a negative one. */
  function IntToString(n: int): string {
    if n < 0 then "-" + NatToString(-n) else NatToString(n)
  }

  /** The value of a string of decimal digits. */
  function DigitsValue(s: string): nat
    requires forall k :: 0 <= k < |s| ==> IsDigit(s[k])
  {
    if s == [] then 0 else DigitsValue(s[..|s| - 1]) * 10 + DigitValue(s[|s| - 1])
  }

  /** Whether `s` is a non-empty string of decimal digits. */
  predicate IsNumeral(s: string) {
    |s| > 0 && forall k :: 0 <= k < |s| ==> IsDigit(s[k])
  }

  /** The digits of a natural number form a numeral that reads back as the number, with no leading zero unless it is 0. */
  lemma {:induction false} NatToStringRoundTrip(n: nat)
    ensures IsNumeral(NatToString(n))
    ensures DigitsValue(NatToString(n)) == n
    ensures NatToString(n)[0] != '0' || n == 0
    decreases n
  {
    DigitRoundTrip(n % 10);
    if n >= 10 {
      NatToStringRoundTrip(n / 10);
      var s := NatToString(n);
      assert s[..|s| - 1] == NatToString(n / 10);
    }
  }

  /** The reader of `IntToString`'s output: a decimal numeral with an optional minus sign; nothing for any other string. */
  function ParseInt(s: string): Option<int> {
    if |s| > 0 && s[0] == '-' && IsNumeral(s[1..]) then Some(0 - DigitsValue(s[1..]))
    else if IsNumeral(s) then Some(DigitsValue(s))
    else None
  }

  /** Every integer reads back from its decimal form. */
  lemma IntToStringRoundTrip(n: int)
    ensures ParseInt(IntToString(n)) == Some(n)
  {
    if n < 0 {
      NegativeRoundTrip(n);
    } else {
      NatToStringRoundTrip(n);
      assert IsDigit(NatToString(n)[0]);
    }
  }

  /** A negative integer reads back from its minus sign and the digits of its magnitude. */
  lemma NegativeRoundTrip(n: int)
    requires n < 0
    ensures ParseInt(IntToString(n)) == Some(n)
  {
    var magnitude: nat := -n;
    NatToStringRoundTrip(magnitude);
    var s := IntToString(n);
    assert s[0] == '-' && s[1..] == NatToString(magnitude);
  }

  const BRANCH_PREFIX := "pr"
  const BRANCH_SUFFIX := "_fix"

  /** `f"pr{pr_number}_fix"`: the branch the resolved pull request is pushed to. */
  function NewBranchName(prNumber: int): string {
    BRANCH_PREFIX + IntToString(prNumber) + BRANCH_SUFFIX
  }

  /** The pull request number a branch name was built from, if it was built by `NewBranchName`. */
  function BranchNumber(name: string): Option<int> {
    if |name| >= |BRANCH_PREFIX| + |BRANCH_SUFFIX| && name[..|BRANCH_PREFIX|] == BRANCH_PREFIX
      && name[|name| - |BRANCH_SUFFIX|..] == BRANCH_SUFFIX
    then ParseInt(name[|BRANCH_PREFIX|..|name| - |BRANCH_SUFFIX|])
    else None
  }

  /** The branch name gives back the number it was built from. */
  lemma BranchNameRoundTrip(prNumber: int)
    ensures BranchNumber(NewBranchName(prNumber)) == Some(prNumber)
  {
    var digits := IntToString(prNumber);
    var name := NewBranchName(prNumber);
    assert name[..|BRANCH_PREFIX|] == BRANCH_PREFIX;
    assert name[|name| - |BRANCH_SUFFIX|..] == BRANCH_SUFFIX;
    assert name[|BRANCH_PREFIX|..|name| - |BRANCH_SUFFIX|] == digits;
    IntToStringRoundTrip(prNumber);
  }

  /** Distinct pull requests are reposted on distinct branches. */
  lemma BranchNameInjective(m: int, n: int)
    requires NewBranchName(m) == NewBranchName(n)
    ensures m == n
  {
    BranchNameRoundTrip(m);
    BranchNameRoundTrip(n);
  }

  const REPOST_PREFIX := "[Repost] "

  /** `f"[Repost] {original_pr.title}"`: the title of the reposted pull request. */
  function RepostTitle(title: string): string {
    REPOST_PREFIX + title
  }

  /** The original title, if `title` is a repost title. */
  function OriginalTitle(title: string): Option<string> {
    if |title| >= |REPOST_PREFIX| && title[..|REPOST_PREFIX|] == REPOST_PREFIX
    then Some(title[|REPOST_PREFIX|..])
    else None
  }

  /**
   * A repost title gives back the original title, and a title gives back an original exactly
   * when it is the repost title of that original.
   */
  lemma RepostTitleRoundTrip(title: string, original: string)
    ensures OriginalTitle(RepostTitle(original)) == Some(original)
    ensures OriginalTitle(title) == Some(original) <==> title == RepostTitle(original)
  {
    assert RepostTitle(original)[..|REPOST_PREFIX|] == REPOST_PREFIX;
    assert RepostTitle(original)[|REPOST_PREFIX|..] == original;
    if OriginalTitle(title) == Some(original) {
      assert title == title[..|REPOST_PREFIX|] + title[|REPOST_PREFIX|..];
    }
  }

  const NO_INTERACTIVE := "--no-interactive"

  /** `"--no-interactive" not in sys.argv[2:] if len(sys.argv) > 2 else True`. */
  function Interactive(argv: seq<string>): bool {
    if |argv| > 2 then NO_INTERACTIVE !in argv[2..] else true
  }

  /**
   * The run is interactive exactly when no argument after the pull request number is the flag;
   * the script name and the number itself are never read as the flag.
   */
  lemma InteractiveIff(argv: seq<string>)
    ensures Interactive(argv) <==> forall k :: 2 <= k < |argv| ==> argv[k] != NO_INTERACTIVE
  {
    if |argv| > 2 {
      if NO_INTERACTIVE in argv[2..] {
        var j :| 0 <= j < |argv[2..]| && argv[2..][j] == NO_INTERACTIVE;
        assert argv[2 + j] == NO_INTERACTIVE;
      } else {
        forall k | 2 <= k < |argv|
          ensures argv[k] != NO_INTERACTIVE
        {
          assert argv[k] == argv[2..][k - 2];
        }
      }
    }
  }
}
