/**
 `sanitize_text` and `normalize_item` of the table updater: the key a
 first-column cell or a mapping's `Original` text is looked up under.
 */
module Normalize {
  import opened Chars
  import opened Seqs
  import opened Text

  /** `text.encode('utf-8', 'ignore').decode('utf-8')`: the UTF-8 encoder
      skips exactly the code points it cannot encode, the surrogates, and
      decoding valid UTF-8 gives the remaining code points back. */
  function SanitizeText(s: Str): (r: Str)
    ensures IsSubsequence(r, s)
    ensures forall i :: 0 <= i < |r| ==> !IsSurrogate(r[i])
    ensures |r| + Count(s, IsSurrogate) == |s|
    ensures r == s <==> forall i :: 0 <= i < |s| ==> !IsSurrogate(s[i])
  {
    FilterIsSubsequence(s, IsEncodable);
    FilterIdentity(s, IsEncodable);
    CountComplement(s, IsSurrogate, IsEncodable);
    Filter(s, IsEncodable)
  }

  /** `''.join(char for char in text if char.isprintable())`. */
  function KeepPrintable(s: Str): (r: Str)
    ensures forall i :: 0 <= i < |r| ==> IsPrintable(r[i])
    ensures IsSubsequence(r, s) && |r| == Count(s, IsPrintable)
    ensures r == s <==> forall i :: 0 <= i < |s| ==> IsPrintable(s[i])
  {
    FilterIsSubsequence(s, IsPrintable);
    FilterIdentity(s, IsPrintable);
    Filter(s, IsPrintable)
  }

  /** `normalize_item`: strip, collapse whitespace runs, replace line
      breaks and tabs, drop non-printable characters, sanitise, lower. */
  function NormalizeItem(s: Str): (r: Str)
    ensures forall i :: 0 <= i < |r| ==> IsPrintable(r[i]) && Lower(r[i]) == r[i]
    ensures LF !in r && CR !in r && TAB !in r
  {
    var stripped := Strip(s);
    var collapsed := CollapseSpaces(stripped);
    var replaced := ReplaceBreaks(collapsed);
    var printable := KeepPrintable(replaced);
    SanitizeAfterKeepPrintable(replaced);
    LowerTextOfPrintable(printable);
    LowerText(SanitizeText(printable))
  }

  lemma LowerTextOfPrintable(s: Str)
    requires forall i :: 0 <= i < |s| ==> IsPrintable(s[i])
    ensures forall i :: 0 <= i < |LowerText(s)| ==> IsPrintable(LowerText(s)[i]) && Lower(LowerText(s)[i]) == LowerText(s)[i]
    ensures LF !in LowerText(s) && CR !in LowerText(s) && TAB !in LowerText(s)
  {
    assert !IsPrintable(LF) && !IsPrintable(CR) && !IsPrintable(TAB);
  }

  predicate IsPrintableOrSpace(c: CodePoint) {
    IsPrintable(c) || IsSpace(c)
  }

  /** No leading, trailing or doubled ASCII space. */
  predicate IsTidy(t: Str) {
    && (|t| > 0 ==> t[0] != SPACE && t[|t| - 1] != SPACE)
    && (forall i :: 0 <= i < |t| - 1 ==> !DoubleSpaceAt(t, i))
  }

  /** The strings `normalize_item` leaves as they are: printable, without
      upper-case letters, and tidy. */
  predicate IsCanonical(t: Str) {
    && (forall i :: 0 <= i < |t| ==> IsPrintable(t[i]) && !IsAsciiUpper(t[i]))
    && IsTidy(t)
  }

  /** Removing surrogates after removing non-printable characters changes
      nothing: no surrogate is printable. */
  lemma SanitizeAfterKeepPrintable(s: Str)
    ensures SanitizeText(KeepPrintable(s)) == KeepPrintable(s)
  {
  }

  /** The characters a key is made of: printable and not whitespace. */
  predicate IsPrintableNonSpace(c: CodePoint) {
    IsPrintable(c) && !IsSpace(c)
  }

  /** What a key keeps of its cell: apart from spaces, the key is the
      cell's printable non-whitespace characters, lowered, in order. */
  lemma NormalizeKeepsWords(s: Str)
    ensures Filter(NormalizeItem(s), IsNotSpace) == LowerText(Filter(s, IsPrintableNonSpace))
  {
    var c := CollapseSpaces(Strip(s));
    ReplaceBreaksAfterCollapse(Strip(s));
    var f := KeepPrintable(c);
    SanitizeAfterKeepPrintable(c);
    assert NormalizeItem(s) == LowerText(f);
    assert forall x :: IsNotSpace(Lower(x)) == IsNotSpace(x);
    FilterLower(f, IsNotSpace);
    PrintableWordsSurvive(s);
  }

  lemma PrintableWordsSurvive(s: Str)
    ensures Filter(Filter(CollapseSpaces(Strip(s)), IsPrintable), IsNotSpace) == Filter(s, IsPrintableNonSpace)
  {
    var c := CollapseSpaces(Strip(s));
    FilterFilter(c, IsPrintable, IsNotSpace, IsPrintableNonSpace);
    FilterFilter(c, IsNotSpace, IsPrintable, IsPrintableNonSpace);
    CollapseKeepsWords(Strip(s));
    StripKeepsWords(s);
    FilterFilter(s, IsNotSpace, IsPrintable, IsPrintableNonSpace);
  }

  /** A normalised item is a fixed point of `lower()`. */
  lemma NormalizeLowerFixed(s: Str)
    ensures LowerText(NormalizeItem(s)) == NormalizeItem(s)
  {
    var r := NormalizeItem(s);
    forall i | 0 <= i < |r|
      ensures !IsAsciiUpper(r[i])
    {
      assert Lower(r[i]) == r[i];
    }
    LowerTextFixed(r);
  }

  /** `normalize_item` returns its argument exactly when the argument is
      canonical. */
  lemma NormalizeFixedIff(t: Str)
    ensures NormalizeItem(t) == t <==> IsCanonical(t)
  {
    if IsCanonical(t) {
      NormalizeOfCanonical(t);
    }
    if NormalizeItem(t) == t {
      assert forall i :: 0 <= i < |t| ==> IsPrintableOrSpace(t[i]);
      NormalizeIsCanonical(t);
    }
  }

  lemma NormalizeOfCanonical(t: Str)
    requires IsCanonical(t)
    ensures NormalizeItem(t) == t
  {
    CanonicalHasTidyWhitespace(t);
    TidyKey(t, t);
  }

  /** A canonical string's only whitespace is single inner spaces. */
  lemma CanonicalHasTidyWhitespace(t: Str)
    requires IsCanonical(t)
    ensures HasTidyWhitespace(t)
  {
    assert IsCollapsed(t) by {
      forall i | 0 <= i < |t| && IsSpace(t[i]) ensures t[i] == SPACE {
        PrintableSpaceIsSpace(t[i]);
      }
    }
    if |t| > 0 {
      assert IsPrintable(t[0]) && IsPrintable(t[|t| - 1]);
    }
  }

  /** When every character is printable or whitespace, `normalize_item`
      yields a canonical string: no leading or trailing space, no doubled
      space, nothing non-printable and nothing upper case. */
  lemma NormalizeIsCanonical(s: Str)
    requires forall i :: 0 <= i < |s| ==> IsPrintableOrSpace(s[i])
    ensures IsCanonical(NormalizeItem(s))
  {
    var collapsed := CollapseSpaces(Strip(s));
    PrintableSteps(s, collapsed);
    SanitizeAfterKeepPrintable(ReplaceBreaks(collapsed));
    assert NormalizeItem(s) == LowerText(collapsed);
    LowerKeepsTidy(collapsed);
  }

  /** For printable-or-whitespace input, the whitespace steps give a tidy
      string that the break replacement and the printable filter keep. */
  lemma PrintableSteps(s: Str, collapsed: Str)
    requires forall i :: 0 <= i < |s| ==> IsPrintableOrSpace(s[i])
    requires collapsed == CollapseSpaces(Strip(s))
    ensures KeepPrintable(ReplaceBreaks(collapsed)) == collapsed
    ensures IsTidy(collapsed)
  {
    var stripped := Strip(s);
    StripPreserves(s, IsPrintableOrSpace);
    CollapsePreserves(stripped, IsPrintableOrSpace);
    assert forall i :: 0 <= i < |collapsed| ==> IsPrintable(collapsed[i]);
    ReplaceBreaksAfterCollapse(stripped);
    assert KeepPrintable(collapsed) == collapsed;
  }

  lemma LowerKeepsTidy(t: Str)
    requires IsTidy(t)
    ensures IsTidy(LowerText(t))
  {
    var r := LowerText(t);
    assert forall i :: 0 <= i < |r| - 1 ==> DoubleSpaceAt(r, i) == DoubleSpaceAt(t, i);
  }

  /** Keys are case-insensitive: lowering a cell before normalising it
      makes no difference. */
  lemma NormalizeIgnoresCase(s: Str)
    ensures NormalizeItem(LowerText(s)) == NormalizeItem(s)
  {
    var c := CollapseSpaces(Strip(s));
    StripLower(s);
    CollapseLower(Strip(s));
    ReplaceBreaksAfterCollapse(Strip(s));
    ReplaceBreaksAfterCollapse(Strip(LowerText(s)));
    assert forall x :: IsPrintable(Lower(x)) == IsPrintable(x);
    FilterLower(c, IsPrintable);
    var f := KeepPrintable(c);
    assert forall x :: IsEncodable(Lower(x)) == IsEncodable(x);
    FilterLower(f, IsEncodable);
    LowerTextIdempotent(SanitizeText(f));
  }

  /** Under the same precondition, normalising twice is normalising once. */
  lemma NormalizeIdempotent(s: Str)
    requires forall i :: 0 <= i < |s| ==> IsPrintableOrSpace(s[i])
    ensures NormalizeItem(NormalizeItem(s)) == NormalizeItem(s)
  {
    NormalizeIsCanonical(s);
    NormalizeOfCanonical(NormalizeItem(s));
  }

  /** Without that precondition idempotence fails. In "\x00 a", or with
      any other character that is neither whitespace nor printable in place
      of the NUL, neither `strip` nor the whitespace collapse removes that
      character; the printable filter then exposes a leading space, which
      only a second pass strips. */
  lemma NormalizeNotIdempotent(x: CodePoint, a: CodePoint)
    requires !IsSpace(x) && !IsPrintable(x)
    requires IsPrintable(a) && !IsSpace(a) && !IsAsciiUpper(a)
    ensures NormalizeItem([x, SPACE, a]) == [SPACE, a]
    ensures NormalizeItem(NormalizeItem([x, SPACE, a])) == [a]
  {
    HiddenLeadingSpace(x, a);
    LeadingSpaceStripped(a);
  }

  /** The printable filter runs after `strip` and the whitespace collapse,
      so a character it drops can leave a space at an edge or next to
      another space. In "a \u200b" the zero-width space is neither
      whitespace nor printable, and the key keeps a trailing space. */
  lemma TrailingSpaceKept(a: CodePoint, z: CodePoint)
    requires IsPrintableNonSpace(a) && !IsAsciiUpper(a)
    requires !IsSpace(z) && !IsPrintable(z)
    ensures NormalizeItem([a, SPACE, z]) == [a, SPACE]
  {
    TrailingFacts(a, z);
    TidyKey([a, SPACE, z], [a, SPACE]);
  }

  lemma TrailingFacts(a: CodePoint, z: CodePoint)
    requires IsPrintableNonSpace(a) && !IsAsciiUpper(a)
    requires !IsSpace(z) && !IsPrintable(z)
    ensures HasTidyWhitespace([a, SPACE, z])
    ensures KeepPrintable([a, SPACE, z]) == [a, SPACE]
    ensures forall i :: 0 <= i < |[a, SPACE]| ==> !IsAsciiUpper([a, SPACE][i])
  {
    TrailingShape(a, z);
    TrailingFilter(a, z);
  }

  lemma TrailingShape(a: CodePoint, z: CodePoint)
    requires !IsSpace(a) && !IsSpace(z)
    ensures IsCollapsed([a, SPACE, z])
  {
    var t := [a, SPACE, z];
    assert !DoubleSpaceAt(t, 0) && !DoubleSpaceAt(t, 1);
  }

  lemma TrailingFilter(a: CodePoint, z: CodePoint)
    requires IsPrintable(a) && !IsPrintable(z)
    ensures KeepPrintable([a, SPACE, z]) == [a, SPACE]
  {
    var t := [a, SPACE, z];
    assert t[1..] == [SPACE, z] && [SPACE, z][1..] == [z] && [z][1..] == [];
    assert Filter([z], IsPrintable) == [];
    assert Filter([SPACE, z], IsPrintable) == [SPACE];
  }

  /** In the same way "a \x00 b" gives a key with two spaces in a row. */
  lemma DoubledSpaceKept(a: CodePoint, x: CodePoint, b: CodePoint)
    requires IsPrintableNonSpace(a) && !IsAsciiUpper(a)
    requires IsPrintableNonSpace(b) && !IsAsciiUpper(b)
    requires !IsSpace(x) && !IsPrintable(x)
    ensures NormalizeItem([a, SPACE, x, SPACE, b]) == [a, SPACE, SPACE, b]
  {
    DoubledFacts(a, x, b);
    TidyKey([a, SPACE, x, SPACE, b], [a, SPACE, SPACE, b]);
  }

  lemma DoubledFacts(a: CodePoint, x: CodePoint, b: CodePoint)
    requires IsPrintableNonSpace(a) && !IsAsciiUpper(a)
    requires IsPrintableNonSpace(b) && !IsAsciiUpper(b)
    requires !IsSpace(x) && !IsPrintable(x)
    ensures HasTidyWhitespace([a, SPACE, x, SPACE, b])
    ensures KeepPrintable([a, SPACE, x, SPACE, b]) == [a, SPACE, SPACE, b]
    ensures forall i :: 0 <= i < |[a, SPACE, SPACE, b]| ==> !IsAsciiUpper([a, SPACE, SPACE, b][i])
  {
    DoubledShape(a, x, b);
    DoubledFilter(a, x, b);
  }

  lemma DoubledShape(a: CodePoint, x: CodePoint, b: CodePoint)
    requires !IsSpace(a) && !IsSpace(x) && !IsSpace(b)
    ensures IsCollapsed([a, SPACE, x, SPACE, b])
  {
    var t := [a, SPACE, x, SPACE, b];
    assert !DoubleSpaceAt(t, 0) && !DoubleSpaceAt(t, 1) && !DoubleSpaceAt(t, 2) && !DoubleSpaceAt(t, 3);
  }

  lemma DoubledFilter(a: CodePoint, x: CodePoint, b: CodePoint)
    requires IsPrintable(a) && !IsPrintable(x) && IsPrintable(b)
    ensures KeepPrintable([a, SPACE, x, SPACE, b]) == [a, SPACE, SPACE, b]
  {
    var t := [a, SPACE, x, SPACE, b];
    assert t[1..] == [SPACE, x, SPACE, b];
    assert [SPACE, x, SPACE, b][1..] == [x, SPACE, b];
    assert [x, SPACE, b][1..] == [SPACE, b];
    assert [SPACE, b][1..] == [b] && [b][1..] == [];
    assert Filter([SPACE, b], IsPrintable) == [SPACE, b];
    assert Filter([x, SPACE, b], IsPrintable) == [SPACE, b];
    assert Filter([SPACE, x, SPACE, b], IsPrintable) == [SPACE] + [SPACE, b];
    assert [SPACE] + [SPACE, b] == [SPACE, SPACE, b];
    assert Filter(t, IsPrintable) == [a] + [SPACE, SPACE, b];
  }

  /** The only whitespace is single ASCII spaces between other characters. */
  predicate HasTidyWhitespace(t: Str) {
    && IsCollapsed(t)
    && (|t| > 0 ==> !IsSpace(t[0]) && !IsSpace(t[|t| - 1]))
  }

  /** A string with tidy whitespace whose printable characters are `k`,
      none of them upper case, has the key `k`. */
  lemma TidyKey(t: Str, k: Str)
    requires HasTidyWhitespace(t) && KeepPrintable(t) == k
    requires forall i :: 0 <= i < |k| ==> !IsAsciiUpper(k[i])
    ensures NormalizeItem(t) == k
  {
    NormalizeOfTidyWhitespace(t);
    LowerTextFixed(k);
  }

  /** For a string whose only whitespace is single inner spaces, the
      whitespace steps change nothing and the key is its lowered
      printable characters. */
  lemma NormalizeOfTidyWhitespace(t: Str)
    requires HasTidyWhitespace(t)
    ensures NormalizeItem(t) == LowerText(KeepPrintable(t))
  {
    StripUnpadded(t);
    CollapseOfCollapsed(t);
    assert LF !in t && CR !in t && TAB !in t by {
      assert IsSpace(LF) && IsSpace(CR) && IsSpace(TAB);
    }
    SanitizeAfterKeepPrintable(t);
  }

  lemma HiddenLeadingSpace(x: CodePoint, a: CodePoint)
    requires !IsSpace(x) && !IsPrintable(x)
    requires IsPrintable(a) && !IsSpace(a) && !IsAsciiUpper(a)
    ensures NormalizeItem([x, SPACE, a]) == [SPACE, a]
  {
    WhitespaceStepsKeep(x, a);
    PrintableFilterDrops(x, a);
    SpaceWordUnchanged(a);
  }

  lemma PrintableFilterDrops(x: CodePoint, a: CodePoint)
    requires !IsPrintable(x) && IsPrintable(a)
    ensures KeepPrintable([x, SPACE, a]) == [SPACE, a]
  {
    assert [SPACE, a][1..] == [a];
    assert Filter([a], IsPrintable) == [a];
    assert Filter([SPACE, a], IsPrintable) == [SPACE, a];
    assert [x, SPACE, a][1..] == [SPACE, a];
  }

  lemma SpaceWordUnchanged(a: CodePoint)
    requires IsPrintable(a) && !IsAsciiUpper(a)
    ensures SanitizeText([SPACE, a]) == [SPACE, a]
    ensures LowerText([SPACE, a]) == [SPACE, a]
  {
    assert IsEncodable(SPACE) && IsEncodable(a);
  }

  lemma WhitespaceStepsKeep(x: CodePoint, a: CodePoint)
    requires !IsSpace(x) && !IsPrintable(x)
    requires IsPrintable(a) && !IsSpace(a)
    ensures ReplaceBreaks(CollapseSpaces(Strip([x, SPACE, a]))) == [x, SPACE, a]
  {
    StripUnpadded([x, SPACE, a]);
    CollapseKeepsWordSpaceWord(x, a);
    NoBreaks(x, a);
  }

  lemma CollapseKeepsSpaceWord(a: CodePoint)
    requires !IsSpace(a)
    ensures CollapseSpaces([SPACE, a]) == [SPACE, a]
  {
    assert LStrip([SPACE, a]) == [a];
    assert CollapseSpaces([a]) == [a];
  }

  lemma CollapseKeepsWordSpaceWord(x: CodePoint, a: CodePoint)
    requires !IsSpace(x) && !IsSpace(a)
    ensures CollapseSpaces([x, SPACE, a]) == [x, SPACE, a]
  {
    CollapseKeepsSpaceWord(a);
    assert [x, SPACE, a][1..] == [SPACE, a];
  }

  lemma NoBreaks(x: CodePoint, a: CodePoint)
    requires !IsPrintable(x) && !IsSpace(x) && IsPrintable(a)
    ensures ReplaceBreaks([x, SPACE, a]) == [x, SPACE, a]
  {
    assert IsSpace(LF) && IsSpace(CR) && IsSpace(TAB);
    assert !IsPrintable(LF) && !IsPrintable(CR) && !IsPrintable(TAB);
  }

  lemma LeadingSpaceStripped(a: CodePoint)
    requires IsPrintable(a) && !IsSpace(a) && !IsAsciiUpper(a)
    ensures NormalizeItem([SPACE, a]) == [a]
  {
    StripLeadingSpace(a);
    SingleCharWhitespaceSteps(a);
    SingleCharFilters(a);
  }

  lemma StripLeadingSpace(a: CodePoint)
    requires !IsSpace(a)
    ensures Strip([SPACE, a]) == [a]
  {
    assert [SPACE, a][1..] == [a];
    assert LStrip([SPACE, a]) == LStrip([a]);
  }

  lemma SingleCharWhitespaceSteps(a: CodePoint)
    requires IsPrintable(a) && !IsSpace(a)
    ensures ReplaceBreaks(CollapseSpaces([a])) == [a]
  {
    assert CollapseSpaces([a]) == [a];
    assert !IsPrintable(LF) && !IsPrintable(CR) && !IsPrintable(TAB);
  }

  lemma SingleCharFilters(a: CodePoint)
    requires IsPrintable(a) && !IsAsciiUpper(a)
    ensures LowerText(SanitizeText(KeepPrintable([a]))) == [a]
  {
    assert KeepPrintable([a]) == [a];
    assert IsEncodable(a);
    assert SanitizeText([a]) == [a];
    assert LowerText([a]) == [a];
  }
}
