/**
 The Python string operations that `normalize_item` chains together:
 `str.strip()`, `re.sub(r'\s+', ' ', ...)`, `str.replace` and `str.lower`,
 over strings of code points.
 */
module Text {
  import opened Chars
  import opened Seqs

  type Str = seq<CodePoint>

  /** `str.lstrip()`: drops the leading whitespace and nothing else. */
  function LStrip(s: Str): (r: Str)
    ensures |r| <= |s| && r == s[|s| - |r|..]
    ensures forall i :: 0 <= i < |s| - |r| ==> IsSpace(s[i])
    ensures |r| > 0 ==> !IsSpace(r[0])
  {
    if |s| > 0 && IsSpace(s[0]) then LStrip(s[1..]) else s
  }

  /** `str.rstrip()`: drops the trailing whitespace and nothing else. */
  function RStrip(s: Str): (r: Str)
    ensures |r| <= |s| && r == s[..|r|]
    ensures forall i :: |r| <= i < |s| ==> IsSpace(s[i])
    ensures |r| > 0 ==> !IsSpace(r[|r| - 1])
  {
    if |s| > 0 && IsSpace(s[|s| - 1]) then RStrip(s[..|s| - 1]) else s
  }

  /** `str.strip()`: the longest slice of `s` that neither starts nor ends
      with whitespace and has only whitespace around it. */
  function Strip(s: Str): (r: Str)
    ensures exists k, e :: && 0 <= k <= e <= |s| && r == s[k..e]
                           && (forall i :: 0 <= i < k ==> IsSpace(s[i]))
                           && (forall i :: e <= i < |s| ==> IsSpace(s[i]))
    ensures |r| > 0 ==> !IsSpace(r[0]) && !IsSpace(r[|r| - 1])
  {
    var l := LStrip(s);
    var r := RStrip(l);
    var k := |s| - |l|;
    assert r == s[k..k + |r|];
    r
  }

  /** Stripping keeps a property every input character has. */
  lemma StripPreserves(s: Str, p: CodePoint -> bool)
    requires forall i :: 0 <= i < |s| ==> p(s[i])
    ensures forall i :: 0 <= i < |Strip(s)| ==> p(Strip(s)[i])
  {
    var l := LStrip(s);
    var k := |s| - |l|;
    forall i | 0 <= i < |l|
      ensures p(l[i])
    {
      assert l[i] == s[k + i];
    }
    var r := RStrip(l);
    forall i | 0 <= i < |r|
      ensures p(r[i])
    {
      assert r[i] == l[i];
    }
  }

  /** A string that neither starts nor ends with whitespace is its own strip. */
  lemma StripUnpadded(s: Str)
    requires |s| > 0 ==> !IsSpace(s[0]) && !IsSpace(s[|s| - 1])
    ensures Strip(s) == s
  {
    assert LStrip(s) == s;
  }

  /** Stripping leaves a string unchanged exactly when it neither starts
      nor ends with whitespace. */
  lemma StripFixedIff(s: Str)
    ensures Strip(s) == s <==> (|s| > 0 ==> !IsSpace(s[0]) && !IsSpace(s[|s| - 1]))
  {
    if |s| > 0 && !IsSpace(s[0]) && !IsSpace(s[|s| - 1]) {
      StripUnpadded(s);
    }
  }

  /** `re.sub(r'\s+', ' ', s)`: every maximal run of whitespace becomes one
      ASCII space; every other character is kept in place. */
  function CollapseSpaces(s: Str): (r: Str)
    decreases |s|
    ensures forall i :: 0 <= i < |r| && IsSpace(r[i]) ==> r[i] == SPACE
    ensures forall i :: 0 <= i < |r| - 1 ==> !DoubleSpaceAt(r, i)
    ensures |r| > 0 <==> |s| > 0
    ensures |s| > 0 ==> (r[0] == SPACE <==> IsSpace(s[0]))
    ensures |s| > 0 ==> (r[|r| - 1] == SPACE <==> IsSpace(s[|s| - 1]))
  {
    if |s| == 0 then []
    else if IsSpace(s[0]) then
      var l := LStrip(s);
      var rest := CollapseSpaces(l);
      assert |l| > 0 ==> l[|l| - 1] == s[|s| - 1];
      ConsCollapsed(SPACE, rest, [SPACE] + rest);
      [SPACE] + rest
    else
      var rest := CollapseSpaces(s[1..]);
      ConsCollapsed(s[0], rest, [s[0]] + rest);
      [s[0]] + rest
  }

  /** A run of non-whitespace characters passes through the collapse
      unchanged, in place. */
  lemma {:induction false} CollapseWordPrefix(w: Str, s: Str)
    requires forall i :: 0 <= i < |w| ==> !IsSpace(w[i])
    ensures CollapseSpaces(w + s) == w + CollapseSpaces(s)
    decreases |w|
  {
    if |w| == 0 {
      assert w + s == s;
    } else {
      var t := w[1..] + s;
      ConsSplit(w, s);
      CollapseWordStep(w[0], t);
      CollapseWordPrefix(w[1..], s);
      ConsSplit(w, CollapseSpaces(s));
    }
  }

  lemma CollapseWordStep(c: CodePoint, t: Str)
    requires !IsSpace(c)
    ensures CollapseSpaces([c] + t) == [c] + CollapseSpaces(t)
  {
    assert ([c] + t)[1..] == t;
  }

  /** A maximal run of whitespace, however long and of whatever kind,
      becomes exactly one ASCII space, in place. Together with
      `CollapseWordPrefix` this fixes the result for every input. */
  lemma CollapseSpaceRun(v: Str, s: Str)
    requires |v| > 0 && forall i :: 0 <= i < |v| ==> IsSpace(v[i])
    requires |s| > 0 ==> !IsSpace(s[0])
    ensures CollapseSpaces(v + s) == [SPACE] + CollapseSpaces(s)
  {
    LStripRun(v, s);
    assert (v + s)[0] == v[0];
  }

  /** `lstrip` removes a whitespace run up to the first other character. */
  lemma {:induction false} LStripRun(v: Str, s: Str)
    requires forall i :: 0 <= i < |v| ==> IsSpace(v[i])
    requires |s| > 0 ==> !IsSpace(s[0])
    ensures LStrip(v + s) == s
    decreases |v|
  {
    if |v| == 0 {
      assert v + s == s;
    } else {
      assert (v + s)[0] == v[0];
      assert (v + s)[1..] == v[1..] + s;
      LStripRun(v[1..], s);
    }
  }

  /** Putting a character in front of a collapsed string: the facts the
      collapse promises carry over to the longer string. */
  lemma ConsCollapsed(c: CodePoint, rest: Str, r: Str)
    requires r == [c] + rest
    requires IsSpace(c) ==> c == SPACE
    requires forall i :: 0 <= i < |rest| && IsSpace(rest[i]) ==> rest[i] == SPACE
    requires forall i :: 0 <= i < |rest| - 1 ==> !DoubleSpaceAt(rest, i)
    requires c == SPACE && |rest| > 0 ==> rest[0] != SPACE
    ensures forall i :: 0 <= i < |r| && IsSpace(r[i]) ==> r[i] == SPACE
    ensures forall i :: 0 <= i < |r| - 1 ==> !DoubleSpaceAt(r, i)
    ensures r[0] == c && r[|r| - 1] == (if |rest| == 0 then c else rest[|rest| - 1])
  {
    forall i | 1 <= i < |r|
      ensures r[i] == rest[i - 1]
    {
    }
    forall i | 1 <= i < |r| - 1
      ensures !DoubleSpaceAt(r, i)
    {
      assert !DoubleSpaceAt(rest, i - 1);
    }
  }


  /** Collapsing introduces no character other than the ASCII space: a
      property every input character and the space share holds of every
      output character. */
  lemma {:induction false} CollapsePreserves(s: Str, p: CodePoint -> bool)
    requires p(SPACE)
    requires forall i :: 0 <= i < |s| ==> p(s[i])
    ensures forall i :: 0 <= i < |CollapseSpaces(s)| ==> p(CollapseSpaces(s)[i])
    decreases |s|
  {
    if |s| > 0 {
      if IsSpace(s[0]) {
        var t := LStrip(s);
        assert t == s[|s| - |t|..];
        assert forall i :: 0 <= i < |t| ==> p(t[i]);
        CollapsePreserves(t, p);
        assert CollapseSpaces(s) == [SPACE] + CollapseSpaces(t);
      } else {
        var t := s[1..];
        CollapsePreserves(t, p);
        assert CollapseSpaces(s) == [s[0]] + CollapseSpaces(t);
      }
    }
  }

  /** `s.replace(target, replacement)`: every occurrence of `target` is replaced. */
  function Replace(s: Str, target: CodePoint, replacement: Str): (r: Str)
    ensures target !in s ==> r == s
    ensures target !in replacement ==> target !in r
    ensures forall i :: 0 <= i < |r| ==> r[i] in s || r[i] in replacement
  {
    if |s| == 0 then []
    else
      var rest := Replace(s[1..], target, replacement);
      var head := if s[0] == target then replacement else [s[0]];
      assert forall i :: |head| <= i < |head| + |rest| ==> (head + rest)[i] == rest[i - |head|];
      head + rest
  }

  /** `.replace('\n', ' ').replace('\r', '').replace('\t', ' ')`. */
  function ReplaceBreaks(s: Str): (r: Str)
    ensures LF !in r && CR !in r && TAB !in r
    ensures r == s <==> LF !in s && CR !in s && TAB !in s
  {
    Replace(Replace(Replace(s, LF, [SPACE]), CR, []), TAB, [SPACE])
  }

  lemma ReplaceCons(c: CodePoint, u: Str, target: CodePoint, replacement: Str)
    ensures Replace([c] + u, target, replacement)
            == (if c == target then replacement else [c]) + Replace(u, target, replacement)
  {
    assert ([c] + u)[1..] == u;
  }

  /** One character is replaced by the replacement when it is the target
      and kept otherwise. */
  lemma ReplaceChar(c: CodePoint, target: CodePoint, replacement: Str)
    ensures Replace([c], target, replacement) == if c == target then replacement else [c]
  {
    ReplaceCons(c, [], target, replacement);
    assert [c] + [] == [c];
  }

  /** `str.replace` of a single character works piece by piece: every
      character other than the target is kept, in place. */
  lemma {:induction false} ReplaceAppend(a: Str, b: Str, target: CodePoint, replacement: Str)
    ensures Replace(a + b, target, replacement) == Replace(a, target, replacement) + Replace(b, target, replacement)
    decreases |a|
  {
    if |a| == 0 {
      assert a + b == b;
    } else {
      var head := if a[0] == target then replacement else [a[0]];
      ConsSplit(a, b);
      ReplaceCons(a[0], a[1..] + b, target, replacement);
      ReplaceAppend(a[1..], b, target, replacement);
      ConsSplit(a, []);
      assert a[1..] + [] == a[1..];
      ReplaceCons(a[0], a[1..], target, replacement);
      AppendAssoc(head, Replace(a[1..], target, replacement), Replace(b, target, replacement));
    }
  }

  /** The replace chain works piece by piece. */
  lemma ReplaceBreaksAppend(a: Str, b: Str)
    ensures ReplaceBreaks(a + b) == ReplaceBreaks(a) + ReplaceBreaks(b)
  {
    var a1, b1 := Replace(a, LF, [SPACE]), Replace(b, LF, [SPACE]);
    ReplaceAppend(a, b, LF, [SPACE]);
    var a2, b2 := Replace(a1, CR, []), Replace(b1, CR, []);
    ReplaceAppend(a1, b1, CR, []);
    ReplaceAppend(a2, b2, TAB, [SPACE]);
  }

  /** What the replace chain makes of one character: a line feed or a tab
      becomes a space, a carriage return disappears, anything else stays. */
  lemma ReplaceBreaksChar(c: CodePoint)
    ensures ReplaceBreaks([c]) == if c == LF || c == TAB then [SPACE] else if c == CR then [] else [c]
  {
    ReplaceChar(c, LF, [SPACE]);
    var r1 := if c == LF then [SPACE] else [c];
    assert r1 == [r1[0]];
    ReplaceChar(r1[0], CR, []);
    var r2 := if r1[0] == CR then [] else r1;
    if r2 == [] {
      assert Replace(r2, TAB, [SPACE]) == [];
    } else {
      assert r2 == [r2[0]];
      ReplaceChar(r2[0], TAB, [SPACE]);
    }
  }

  /** `str.lower()`, character by character: each character of the result
      is the input's character up to case, and none is upper case. */
  function LowerText(s: Str): (r: Str)
    ensures |r| == |s|
    ensures forall i :: 0 <= i < |s| ==> SameIgnoringCase(s[i], r[i]) && !IsAsciiUpper(r[i])
  {
    seq(|s|, i requires 0 <= i < |s| => Lower(s[i]))
  }

  /** Two strings are equal up to ASCII case. */
  predicate EqualIgnoringCase(a: Str, b: Str) {
    |a| == |b| && forall i :: 0 <= i < |a| ==> SameIgnoringCase(a[i], b[i])
  }

  /** Comparing lowered strings, as the company mask does, is comparing
      them up to ASCII case. */
  lemma LowerTextEqIff(a: Str, b: Str)
    ensures LowerText(a) == LowerText(b) <==> EqualIgnoringCase(a, b)
  {
    if LowerText(a) == LowerText(b) {
      forall i | 0 <= i < |a|
        ensures SameIgnoringCase(a[i], b[i])
      {
        assert LowerText(a)[i] == LowerText(b)[i];
        LowerSameIff(a[i], b[i]);
      }
    }
    if EqualIgnoringCase(a, b) {
      forall i | 0 <= i < |a|
        ensures LowerText(a)[i] == LowerText(b)[i]
      {
        LowerSameIff(a[i], b[i]);
      }
    }
  }

  /** Lowering a string without upper-case letters changes nothing. */
  lemma LowerTextFixed(s: Str)
    requires forall i :: 0 <= i < |s| ==> !IsAsciiUpper(s[i])
    ensures LowerText(s) == s
  {
  }

  /** No whitespace other than the ASCII space, and no two spaces in a row. */
  predicate IsCollapsed(s: Str) {
    && (forall i :: 0 <= i < |s| && IsSpace(s[i]) ==> s[i] == SPACE)
    && (forall i :: 0 <= i < |s| - 1 ==> !DoubleSpaceAt(s, i))
  }

  /** Positions `i` and `i + 1` both hold an ASCII space. */
  predicate DoubleSpaceAt(s: Str, i: int)
    requires 0 <= i < |s| - 1
  {
    s[i] == SPACE && s[i + 1] == SPACE
  }

  /** Collapsing changes a string exactly when it holds a whitespace
      character other than a single ASCII space. */
  lemma CollapseFixedIff(s: Str)
    ensures CollapseSpaces(s) == s <==> IsCollapsed(s)
  {
    if IsCollapsed(s) {
      CollapseOfCollapsed(s);
    }
  }

  lemma {:induction false} CollapseOfCollapsed(s: Str)
    requires IsCollapsed(s)
    ensures CollapseSpaces(s) == s
    decreases |s|
  {
    if |s| > 0 {
      var t := s[1..];
      assert IsCollapsed(t) by {
        forall i | 0 <= i < |t| - 1
          ensures !DoubleSpaceAt(t, i)
        {
          assert !DoubleSpaceAt(s, i + 1);
        }
      }
      CollapseOfCollapsed(t);
      if IsSpace(s[0]) {
        if |t| > 0 {
          assert !DoubleSpaceAt(s, 0);
          assert !IsSpace(t[0]);
        }
        assert LStrip(s) == t;
      }
    }
  }

  /** The `str.replace` chain after `re.sub(r'\s+', ' ', ...)` never finds
      a line feed, carriage return or tab, so it changes nothing. */
  lemma ReplaceBreaksAfterCollapse(s: Str)
    ensures ReplaceBreaks(CollapseSpaces(s)) == CollapseSpaces(s)
  {
    var c := CollapseSpaces(s);
    assert LF !in c && CR !in c && TAB !in c by {
      assert IsSpace(LF) && IsSpace(CR) && IsSpace(TAB);
    }
  }

  /** `re.sub(r'\s+', ' ', ...)` keeps every non-whitespace character, in
      order: deleting whitespace before or after it gives the same string. */
  lemma {:induction false} CollapseKeepsWords(s: Str)
    ensures Filter(CollapseSpaces(s), IsNotSpace) == Filter(s, IsNotSpace)
    decreases |s|
  {
    if |s| > 0 {
      if IsSpace(s[0]) {
        var l := LStrip(s);
        CollapseKeepsWords(l);
        LStripKeepsWords(s);
        assert ([SPACE] + CollapseSpaces(l))[1..] == CollapseSpaces(l);
      } else {
        CollapseKeepsWords(s[1..]);
        assert ([s[0]] + CollapseSpaces(s[1..]))[1..] == CollapseSpaces(s[1..]);
      }
    }
  }

  predicate IsNotSpace(c: CodePoint) {
    !IsSpace(c)
  }

  /** `str.lstrip()` deletes whitespace only. */
  lemma {:induction false} LStripKeepsWords(s: Str)
    ensures Filter(LStrip(s), IsNotSpace) == Filter(s, IsNotSpace)
    decreases |s|
  {
    if |s| > 0 && IsSpace(s[0]) {
      LStripKeepsWords(s[1..]);
    }
  }

  /** `str.rstrip()` deletes whitespace only. */
  lemma {:induction false} RStripKeepsWords(s: Str)
    ensures Filter(RStrip(s), IsNotSpace) == Filter(s, IsNotSpace)
    decreases |s|
  {
    if |s| > 0 && IsSpace(s[|s| - 1]) {
      var init := s[..|s| - 1];
      RStripKeepsWords(init);
      assert s == init + [s[|s| - 1]];
      FilterAppend(init, [s[|s| - 1]], IsNotSpace);
      assert Filter([s[|s| - 1]], IsNotSpace) == [];
    }
  }

  /** `str.strip()` deletes whitespace only. */
  lemma StripKeepsWords(s: Str)
    ensures Filter(Strip(s), IsNotSpace) == Filter(s, IsNotSpace)
  {
    LStripKeepsWords(s);
    RStripKeepsWords(LStrip(s));
  }

  /** Lowering a string twice is lowering it once. */
  lemma LowerTextIdempotent(s: Str)
    ensures LowerText(LowerText(s)) == LowerText(s)
  {
  }

  lemma LowerTextSlices(s: Str)
    ensures |s| > 0 ==> LowerText(s)[1..] == LowerText(s[1..])
    ensures |s| > 0 ==> LowerText(s)[..|s| - 1] == LowerText(s[..|s| - 1])
  {
  }

  /** `lstrip` and `lower` commute: lowering creates and removes no whitespace. */
  lemma {:induction false} LStripLower(s: Str)
    ensures LStrip(LowerText(s)) == LowerText(LStrip(s))
    decreases |s|
  {
    if |s| > 0 && IsSpace(s[0]) {
      LowerTextSlices(s);
      LStripLower(s[1..]);
    }
  }

  lemma {:induction false} RStripLower(s: Str)
    ensures RStrip(LowerText(s)) == LowerText(RStrip(s))
    decreases |s|
  {
    var ls := LowerText(s);
    if |s| > 0 {
      assert ls[|s| - 1] == Lower(s[|s| - 1]);
      if IsSpace(s[|s| - 1]) {
        LowerTextSlices(s);
        RStripLower(s[..|s| - 1]);
        assert RStrip(ls) == RStrip(ls[..|ls| - 1]);
      }
    }
  }

  /** `strip` and `lower` commute. */
  lemma StripLower(s: Str)
    ensures Strip(LowerText(s)) == LowerText(Strip(s))
  {
    LStripLower(s);
    RStripLower(LStrip(s));
  }

  lemma LowerTextCons(c: CodePoint, t: Str)
    ensures LowerText([c] + t) == [Lower(c)] + LowerText(t)
  {
  }

  /** The whitespace collapse and `lower` commute. */
  lemma {:induction false} CollapseLower(s: Str)
    ensures CollapseSpaces(LowerText(s)) == LowerText(CollapseSpaces(s))
    decreases |s|
  {
    if |s| > 0 {
      if IsSpace(s[0]) {
        LStripLower(s);
        CollapseLower(LStrip(s));
        CollapseLowerSpaceStep(s);
      } else {
        LowerTextSlices(s);
        CollapseLower(s[1..]);
        CollapseLowerWordStep(s);
      }
    }
  }

  lemma CollapseLowerSpaceStep(s: Str)
    requires |s| > 0 && IsSpace(s[0])
    requires LStrip(LowerText(s)) == LowerText(LStrip(s))
    requires CollapseSpaces(LowerText(LStrip(s))) == LowerText(CollapseSpaces(LStrip(s)))
    ensures CollapseSpaces(LowerText(s)) == LowerText(CollapseSpaces(s))
  {
    var ls := LowerText(s);
    assert IsSpace(ls[0]);
    assert CollapseSpaces(ls) == [SPACE] + CollapseSpaces(LStrip(ls));
    LowerTextCons(SPACE, CollapseSpaces(LStrip(s)));
  }

  lemma CollapseLowerWordStep(s: Str)
    requires |s| > 0 && !IsSpace(s[0])
    requires CollapseSpaces(LowerText(s[1..])) == LowerText(CollapseSpaces(s[1..]))
    ensures CollapseSpaces(LowerText(s)) == LowerText(CollapseSpaces(s))
  {
    var ls := LowerText(s);
    LowerTextSlices(s);
    assert !IsSpace(ls[0]);
    assert CollapseSpaces(ls) == [Lower(s[0])] + CollapseSpaces(ls[1..]);
    LowerTextCons(s[0], CollapseSpaces(s[1..]));
  }

  /** Filtering by a class that lowering preserves commutes with `lower`. */
  lemma {:induction false} FilterLower(s: Str, p: CodePoint -> bool)
    requires forall c :: p(Lower(c)) == p(c)
    ensures Filter(LowerText(s), p) == LowerText(Filter(s, p))
    decreases |s|
  {
    if |s| > 0 {
      LowerTextSlices(s);
      FilterLower(s[1..], p);
      var ls := LowerText(s);
      assert ls[0] == Lower(s[0]);
      if p(s[0]) {
        LowerTextCons(s[0], Filter(s[1..], p));
      }
    }
  }
}
