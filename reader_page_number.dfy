/**
 * The reader's page-number overlay: whether it is rendered, and its `current/total` label,
 * which is handed to an external string reversal for reading directions other than
 * left-to-right.
 */
module ReaderPageNumber {
  import opened Wrappers

  /** The progress-bar setting; variants the overlay does not compare against are folded into `OtherBarType`. */
  datatype ProgressBarType = Standard | Hidden | OtherBarType(name: string)

  /** The reading direction; every direction other than left-to-right is `OtherDirection`. */
  datatype ReadingDirection = Ltr | OtherDirection(name: string)

  /** The early return that hides the page number, in the order the component tests them. */
  datatype HiddenBy = PageNumberDisabled | OverlayMaximized | DesktopStandardBar | MaximizedHiddenBar

  /** The first early return that fires, or none when the page number is rendered. */
  function HidingGuard(shouldShowPageNumber: bool, isMaximized: bool, isDesktop: bool, progressBarType: ProgressBarType): (r: Option<HiddenBy>)
    ensures r == Some(PageNumberDisabled) <==> !shouldShowPageNumber
    ensures r == Some(OverlayMaximized) <==> shouldShowPageNumber && isMaximized
    ensures r == Some(DesktopStandardBar) <==> shouldShowPageNumber && !isMaximized && isDesktop && progressBarType == Standard
  {
    if !shouldShowPageNumber then Some(PageNumberDisabled)
    else if isMaximized then Some(OverlayMaximized)
    else if isDesktop && progressBarType == Standard then Some(DesktopStandardBar)
    else if isMaximized && progressBarType == Hidden then Some(MaximizedHiddenBar)
    else None
  }

  /** The page number is rendered when no early return fires. */
  predicate IsPageNumberVisible(shouldShowPageNumber: bool, isMaximized: bool, isDesktop: bool, progressBarType: ProgressBarType) {
    HidingGuard(shouldShowPageNumber, isMaximized, isDesktop, progressBarType).None?
  }

  /** The whole visibility rule in one formula. */
  lemma PageNumberVisibilityRule(shouldShowPageNumber: bool, isMaximized: bool, isDesktop: bool, progressBarType: ProgressBarType)
    ensures IsPageNumberVisible(shouldShowPageNumber, isMaximized, isDesktop, progressBarType) <==>
              shouldShowPageNumber && !isMaximized && !(isDesktop && progressBarType == Standard)
  {
  }

  /** The maximized-with-hidden-bar return never fires: maximized overlays were already hidden before it. */
  lemma MaximizedHiddenBarUnreachable(shouldShowPageNumber: bool, isMaximized: bool, isDesktop: bool, progressBarType: ProgressBarType)
    ensures HidingGuard(shouldShowPageNumber, isMaximized, isDesktop, progressBarType) != Some(MaximizedHiddenBar)
  {
  }

  /** The decimal digit of a value below ten. */
  function DigitChar(d: nat): char
    requires d < 10
  {
    "0123456789"[d]
  }

  /** The value of a decimal digit character. */
  function DigitValue(c: char): nat {
    if '0' <= c <= '9' then c as int - '0' as int else 0
  }

  /** The decimal text of a page count, as a template string renders a non-negative integer. */
  function DecimalString(n: nat): (s: string)
    ensures |s| > 0
    ensures forall k :: 0 <= k < |s| ==> '0' <= s[k] <= '9'
    ensures n > 0 ==> s[0] != '0'
    ensures n == 0 ==> s == "0"
  {
    if n < 10 then [DigitChar(n)] else DecimalString(n / 10) + [DigitChar(n % 10)]
  }

  /** Reads back a string of decimal digits. */
  function ParseDecimal(s: string): (n: nat) {
    if |s| == 0 then 0 else ParseDecimal(s[..|s| - 1]) * 10 + DigitValue(s[|s| - 1])
  }

  /** Rendering a page count and reading it back gives the count. */
  lemma {:induction false} DecimalRoundTrip(n: nat)
    ensures ParseDecimal(DecimalString(n)) == n
  {
    if n >= 10 {
      DecimalRoundTrip(n / 10);
      var s := DecimalString(n);
      assert s[..|s| - 1] == DecimalString(n / 10);
    }
  }

  /** The text after the last occurrence of `sep`, or the whole string when `sep` does not occur. */
  function LastSegment(s: string, sep: char): (r: string)
    ensures sep !in r
    ensures |r| <= |s| && r == s[|s| - |r|..]
    ensures r == s || (|r| < |s| && s[|s| - |r| - 1] == sep)
  {
    if |s| == 0 then ""
    else if s[|s| - 1] == sep then ""
    else LastSegment(s[..|s| - 1], sep) + [s[|s| - 1]]
  }

  lemma {:induction false} LastSegmentAfterSeparator(a: string, sep: char, b: string)
    requires sep !in b
    ensures LastSegment(a + [sep] + b, sep) == b
    decreases |b|
  {
    if |b| > 0 {
      var s := a + [sep] + b;
      assert s[..|s| - 1] == a + [sep] + b[..|b| - 1];
      LastSegmentAfterSeparator(a, sep, b[..|b| - 1]);
    } else {
      assert a + [sep] + b == a + [sep];
    }
  }

  const Separator: string := "/"

  /**
   * The label of the page number: `current/total`, reversed at the separator through the
   * given `reverseString` for any reading direction other than left-to-right.
   */
  function PageLabel(currentPageName: string, totalPages: nat, readingDirection: ReadingDirection,
                     reverseString: (string, string) -> string): (r: string)
  {
    var tmpPageName := currentPageName + Separator + DecimalString(totalPages);
    if readingDirection == Ltr then tmpPageName else reverseString(tmpPageName, Separator)
  }

  /**
   * Left to right, the label is the current page's name, the separator, and the text after the
   * label's last separator, which is the decimal total page count and reads back as that count.
   */
  lemma LtrLabelShowsTotal(currentPageName: string, totalPages: nat, reverseString: (string, string) -> string)
    ensures var text := PageLabel(currentPageName, totalPages, Ltr, reverseString);
            text == currentPageName + Separator + LastSegment(text, '/')
            && LastSegment(text, '/') == DecimalString(totalPages)
            && ParseDecimal(LastSegment(text, '/')) == totalPages
  {
    var digits := DecimalString(totalPages);
    assert '/' !in digits;
    assert currentPageName + Separator + digits == currentPageName + ['/'] + digits;
    LastSegmentAfterSeparator(currentPageName, '/', digits);
    DecimalRoundTrip(totalPages);
  }

  /** In every other direction the label is the reversal of the left-to-right label. */
  lemma OtherDirectionLabelIsReversed(currentPageName: string, totalPages: nat, name: string,
                                      reverseString: (string, string) -> string)
    ensures PageLabel(currentPageName, totalPages, OtherDirection(name), reverseString)
            == reverseString(PageLabel(currentPageName, totalPages, Ltr, reverseString), "/")
  {
  }
}
