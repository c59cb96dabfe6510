/** Model of `clean_label`, the normaliser that turns a free-text label into
    an identifier-like name in two regular-expression substitutions:
    first every character outside `[a-zA-Z0-9\s]` is deleted, then every
    maximal run of whitespace is replaced by one underscore. */
module Labels {

  predicate IsAsciiLetter(c: char) { 'a' <= c <= 'z' || 'A' <= c <= 'Z' }

  predicate IsAsciiDigit(c: char) { '0' <= c <= '9' }

  predicate IsAsciiAlnum(c: char) { IsAsciiLetter(c) || IsAsciiDigit(c) }

  /** What `\s` matches in a Python `str` pattern: the characters for which
      `str.isspace()` holds (tab, LF, VT, FF, CR, the four information
      separators, space, NEL, no-break space, the Unicode space separators,
      and the line and paragraph separators U+2028 and U+2029). */
  predicate IsSpace(c: char) {
    var n := c as int;
    || 0x09 <= n <= 0x0D
    || 0x1C <= n <= 0x20
    || n == 0x85 || n == 0xA0 || n == 0x1680
    || 0x2000 <= n <= 0x200A
    || n == 0x2028 || n == 0x2029 || n == 0x202F || n == 0x205F || n == 0x3000
  }

  /** A character that the class `[^a-zA-Z0-9\s]` does not match, so the first
      substitution keeps it. */
  predicate IsKept(c: char) { IsAsciiAlnum(c) || IsSpace(c) }

  /** Whitespace is neither a letter, a digit nor an underscore, and the
      underscore is not kept by the first substitution. */
  lemma SpaceIsNotAlnum(c: char)
    ensures IsSpace(c) ==> !IsAsciiAlnum(c) && c != '_'
    ensures !IsKept('_')
  {
  }

  /** The first substitution: delete every character that is not kept. */
  function StripDisallowed(s: string): (r: string)
    ensures |r| <= |s|
    ensures forall i :: 0 <= i < |r| ==> IsKept(r[i])
  {
    if s == [] then []
    else if IsKept(s[0]) then [s[0]] + StripDisallowed(s[1..])
    else StripDisallowed(s[1..])
  }

  /** Every kept character occurs in the result of the first substitution as
      often as in `s`, every other character not at all. */
  lemma {:induction false} StripDisallowedCounts(s: string, c: char)
    ensures multiset(StripDisallowed(s))[c] == if IsKept(c) then multiset(s)[c] else 0
  {
    if s != [] {
      StripDisallowedCounts(s[1..], c);
      assert s == [s[0]] + s[1..];
    }
  }

  /** The first substitution works character by character, so it keeps the
      order of what it keeps: it distributes over concatenation. */
  lemma {:induction false} StripDisallowedAppend(a: string, b: string)
    ensures StripDisallowed(a + b) == StripDisallowed(a) + StripDisallowed(b)
  {
    if a != [] {
      assert (a + b)[0] == a[0] && (a + b)[1..] == a[1..] + b;
      StripDisallowedAppend(a[1..], b);
    } else {
      assert a + b == b;
    }
  }

  /** The first substitution deletes nothing from a string of kept
      characters, and everything from a string without any. */
  lemma {:induction false} StripDisallowedAllOrNothing(s: string)
    ensures (forall i :: 0 <= i < |s| ==> IsKept(s[i])) ==> StripDisallowed(s) == s
    ensures StripDisallowed(s) == [] <==> forall i :: 0 <= i < |s| ==> !IsKept(s[i])
  {
    if s != [] {
      StripDisallowedAllOrNothing(s[1..]);
      assert forall i :: 1 <= i < |s| ==> s[1..][i - 1] == s[i];
    }
  }

  /** `s` with everything but ASCII letters and digits removed. */
  function AlnumOnly(s: string): (r: string)
    ensures forall i :: 0 <= i < |r| ==> IsAsciiAlnum(r[i])
  {
    if s == [] then []
    else if IsAsciiAlnum(s[0]) then [s[0]] + AlnumOnly(s[1..])
    else AlnumOnly(s[1..])
  }

  /** `s` with every underscore removed. */
  function WithoutUnderscores(s: string): string
  {
    if s == [] then []
    else if s[0] == '_' then WithoutUnderscores(s[1..])
    else [s[0]] + WithoutUnderscores(s[1..])
  }

  /** The suffix of `s` that starts after its leading whitespace run. */
  function DropLeadingSpaces(s: string): (r: string)
    ensures |r| <= |s| && r == s[|s| - |r|..]
    ensures r == [] || !IsSpace(r[0])
    ensures forall i :: 0 <= i < |s| - |r| ==> IsSpace(s[i])
  {
    if s != [] && IsSpace(s[0]) then DropLeadingSpaces(s[1..]) else s
  }

  /** A suffix of `s[1..]` holds the last characters of `s`. */
  lemma TailSuffix(s: string, t: string)
    requires s != [] && |t| <= |s| - 1 && t == s[1..][|s| - 1 - |t|..]
    ensures forall i :: 0 <= i < |t| ==> t[i] == s[|s| - |t| + i]
  {
  }

  /** The second substitution, `\s+` replaced by `_`, scanning left to right
      and taking each whitespace run as long as it goes. */
  function CollapseSpaces(s: string): (r: string)
    decreases |s|
    ensures |r| <= |s|
    ensures s != [] && IsSpace(s[0]) ==> r != [] && r[0] == '_'
    ensures s != [] && !IsSpace(s[0]) ==> r != [] && r[0] == s[0]
  {
    if s == [] then []
    else if IsSpace(s[0]) then "_" + CollapseSpaces(DropLeadingSpaces(s[1..]))
    else [s[0]] + CollapseSpaces(s[1..])
  }

  /** `clean_label(name)`. The result is made of ASCII letters, digits and
      underscores only, and is never longer than `name`. */
  function CleanLabel(name: string): (r: string)
    ensures |r| <= |name|
    ensures forall i :: 0 <= i < |r| ==> IsAsciiAlnum(r[i]) || r[i] == '_'
  {
    var t := StripDisallowed(name);
    CollapseSpacesAlphabet(t);
    CollapseSpaces(t)
  }

  /** Collapsing a string of letters, digits and whitespace leaves only
      letters, digits and underscores. */
  lemma {:induction false} CollapseSpacesAlphabet(s: string)
    requires forall i :: 0 <= i < |s| ==> IsKept(s[i])
    ensures IdentChars(CollapseSpaces(s))
    decreases |s|
  {
    if s != [] {
      var t := if IsSpace(s[0]) then DropLeadingSpaces(s[1..]) else s[1..];
      var head := if IsSpace(s[0]) then '_' else s[0];
      assert CollapseSpaces(s) == [head] + CollapseSpaces(t);
      TailSuffix(s, t);
      CollapseSpacesAlphabet(t);
      IdentCharsCons(head, CollapseSpaces(t));
    }
  }

  /** `s` holds only ASCII letters, digits and underscores. */
  predicate IdentChars(s: string) {
    forall i :: 0 <= i < |s| ==> IsAsciiAlnum(s[i]) || s[i] == '_'
  }

  lemma IdentCharsCons(c: char, s: string)
    requires IsAsciiAlnum(c) || c == '_'
    requires IdentChars(s)
    ensures IdentChars([c] + s)
  {
    forall i | 0 <= i < |[c] + s|
      ensures IsAsciiAlnum(([c] + s)[i]) || ([c] + s)[i] == '_'
    {
      if i > 0 { assert ([c] + s)[i] == s[i - 1]; }
    }
  }

  /** Number of maximal whitespace runs in `s`, counting a run at position i
      when s[i] is whitespace and the character before it (if any) is not;
      `afterSpace` says whether the character before `s` was whitespace. */
  function SpaceRuns(s: string, afterSpace: bool): nat {
    if s == [] then 0
    else (if IsSpace(s[0]) && !afterSpace then 1 else 0) + SpaceRuns(s[1..], IsSpace(s[0]))
  }

  /** No two underscores stand next to each other in `s`. */
  predicate NoDoubleUnderscore(s: string) {
    forall i :: 0 <= i < |s| - 1 ==> !(s[i] == '_' && s[i + 1] == '_')
  }

  lemma {:induction false} AlnumOnlyAppend(a: string, b: string)
    ensures AlnumOnly(a + b) == AlnumOnly(a) + AlnumOnly(b)
  {
    if a != [] {
      assert (a + b)[0] == a[0] && (a + b)[1..] == a[1..] + b;
      AlnumOnlyAppend(a[1..], b);
    } else {
      assert a + b == b;
    }
  }

  lemma {:induction false} WithoutUnderscoresAppend(a: string, b: string)
    ensures WithoutUnderscores(a + b) == WithoutUnderscores(a) + WithoutUnderscores(b)
  {
    if a != [] {
      assert (a + b)[0] == a[0] && (a + b)[1..] == a[1..] + b;
      WithoutUnderscoresAppend(a[1..], b);
    } else {
      assert a + b == b;
    }
  }

  /** Leading whitespace contributes no letters or digits. */
  lemma {:induction false} AlnumOnlyDropLeadingSpaces(s: string)
    ensures AlnumOnly(DropLeadingSpaces(s)) == AlnumOnly(s)
  {
    if s != [] && IsSpace(s[0]) {
      SpaceIsNotAlnum(s[0]);
      assert AlnumOnly(s) == AlnumOnly(s[1..]);
      AlnumOnlyDropLeadingSpaces(s[1..]);
    }
  }

  /** Once inside a run, the rest of the run starts no new one. */
  lemma {:induction false} SpaceRunsDropLeadingSpaces(s: string)
    ensures SpaceRuns(s, true) == SpaceRuns(DropLeadingSpaces(s), false)
  {
    if s != [] && IsSpace(s[0]) {
      SpaceRunsDropLeadingSpaces(s[1..]);
    }
  }

  /** Collapsing keeps the letters and digits of a string that has only
      letters, digits and whitespace, in order, and adds only underscores. */
  lemma {:induction false} CollapseSpacesKeepsAlnum(s: string)
    requires forall i :: 0 <= i < |s| ==> IsKept(s[i])
    ensures WithoutUnderscores(CollapseSpaces(s)) == AlnumOnly(s)
    decreases |s|
  {
    if s != [] {
      if IsSpace(s[0]) {
        var d := DropLeadingSpaces(s[1..]);
        TailSuffix(s, d);
        CollapseSpacesKeepsAlnum(d);
        WithoutUnderscoresAppend("_", CollapseSpaces(d));
        AlnumOnlyDropLeadingSpaces(s[1..]);
        SpaceIsNotAlnum(s[0]);
      } else {
        CollapseSpacesKeepsAlnum(s[1..]);
        WithoutUnderscoresAppend([s[0]], CollapseSpaces(s[1..]));
      }
    }
  }

  lemma {:induction false} AlnumOnlyStripDisallowed(s: string)
    ensures AlnumOnly(StripDisallowed(s)) == AlnumOnly(s)
  {
    if s != [] {
      AlnumOnlyStripDisallowed(s[1..]);
      if IsKept(s[0]) {
        AlnumOnlyAppend([s[0]], StripDisallowed(s[1..]));
      }
    }
  }

  /** Removing the underscores from `clean_label(s)` gives exactly the ASCII
      letters and digits of `s`, unchanged and in their original order; in
      particular no underscore of the input survives. */
  lemma CleanLabelKeepsAlnum(s: string)
    ensures WithoutUnderscores(CleanLabel(s)) == AlnumOnly(s)
  {
    CollapseSpacesKeepsAlnum(StripDisallowed(s));
    AlnumOnlyStripDisallowed(s);
  }

  /** Each whitespace run becomes exactly one underscore. */
  lemma {:induction false} CollapseSpacesUnderscores(s: string)
    requires forall i :: 0 <= i < |s| ==> s[i] != '_'
    ensures multiset(CollapseSpaces(s))['_'] == SpaceRuns(s, false)
    decreases |s|
  {
    if s != [] {
      var t := if IsSpace(s[0]) then DropLeadingSpaces(s[1..]) else s[1..];
      var head := if IsSpace(s[0]) then '_' else s[0];
      var c := CollapseSpaces(t);
      assert CollapseSpaces(s) == [head] + c;
      TailSuffix(s, t);
      CollapseSpacesUnderscores(t);
      assert multiset([head] + c) == multiset{head} + multiset(c);
      if IsSpace(s[0]) {
        assert SpaceRuns(s, false) == 1 + SpaceRuns(s[1..], true);
        SpaceRunsDropLeadingSpaces(s[1..]);
      } else {
        assert SpaceRuns(s, false) == SpaceRuns(s[1..], false);
      }
    }
  }

  /** `clean_label(s)` has one underscore per maximal whitespace run left
      after the first substitution, and no other underscore. */
  lemma CleanLabelUnderscores(s: string)
    ensures multiset(CleanLabel(s))['_'] == SpaceRuns(StripDisallowed(s), false)
  {
    var t := StripDisallowed(s);
    SpaceIsNotAlnum(' ');
    CollapseSpacesUnderscores(t);
  }

  lemma PrependNoDoubleUnderscore(c: char, t: string)
    requires NoDoubleUnderscore(t)
    requires t == [] || c != '_' || t[0] != '_'
    ensures NoDoubleUnderscore([c] + t)
  {
    var r := [c] + t;
    forall i | 0 <= i < |r| - 1
      ensures !(r[i] == '_' && r[i + 1] == '_')
    {
      if i > 0 { assert r[i] == t[i - 1] && r[i + 1] == t[i]; }
    }
  }

  lemma {:induction false} CollapseSpacesNoDoubleUnderscore(s: string)
    requires forall i :: 0 <= i < |s| ==> s[i] != '_'
    ensures NoDoubleUnderscore(CollapseSpaces(s))
    decreases |s|
  {
    if s != [] {
      var t := if IsSpace(s[0]) then DropLeadingSpaces(s[1..]) else s[1..];
      TailSuffix(s, t);
      CollapseSpacesNoDoubleUnderscore(t);
      if IsSpace(s[0]) {
        PrependNoDoubleUnderscore('_', CollapseSpaces(t));
      } else {
        PrependNoDoubleUnderscore(s[0], CollapseSpaces(t));
      }
    }
  }

  /** `clean_label` never emits two adjacent underscores. */
  lemma CleanLabelNoDoubleUnderscore(s: string)
    ensures NoDoubleUnderscore(CleanLabel(s))
  {
    var t := StripDisallowed(s);
    assert forall i :: 0 <= i < |t| ==> t[i] != '_' by {
      assert !IsKept('_');
    }
    CollapseSpacesNoDoubleUnderscore(t);
  }

  function Last(s: string): char
    requires s != []
  {
    s[|s| - 1]
  }

  /** The last character of a collapsed string is `_` when the string ends
      in whitespace, and the string's own last character otherwise. */
  lemma {:induction false} CollapseSpacesLast(s: string)
    requires s != []
    ensures CollapseSpaces(s) != []
    ensures Last(CollapseSpaces(s)) == if IsSpace(Last(s)) then '_' else Last(s)
    decreases |s|
  {
    var t := if IsSpace(s[0]) then DropLeadingSpaces(s[1..]) else s[1..];
    var head := if IsSpace(s[0]) then '_' else s[0];
    var c := CollapseSpaces(t);
    assert CollapseSpaces(s) == [head] + c;
    if t == [] {
      assert c == [];
      if IsSpace(s[0]) && |s| > 1 {
        assert IsSpace(s[1..][|s| - 2]);
      }
    } else {
      CollapseSpacesLast(t);
      assert t[|t| - 1] == s[|s| - 1];
      assert ([head] + c)[|c|] == c[|c| - 1];
    }
  }

  /** No trimming: `clean_label(s)` starts (ends) with an underscore exactly
      when what is left of `s` after the first substitution starts (ends)
      with whitespace. */
  lemma CleanLabelEdges(s: string)
    ensures var t, r := StripDisallowed(s), CleanLabel(s);
      && (r != [] <==> t != [])
      && (t != [] ==> (r[0] == '_' <==> IsSpace(t[0])))
      && (t != [] ==> (Last(r) == '_' <==> IsSpace(Last(t))))
  {
    var t := StripDisallowed(s);
    var r := CollapseSpaces(t);
    if t != [] {
      CollapseSpacesLast(t);
      SpaceIsNotAlnum(' ');
      assert IsKept(t[0]) && IsKept(Last(t));
    }
  }

  /** `clean_label` is not idempotent: a second pass deletes the underscores
      the first pass introduced, leaving only the ASCII letters and digits. */
  lemma CleanLabelTwice(s: string)
    ensures CleanLabel(CleanLabel(s)) == AlnumOnly(s)
  {
    var r := CleanLabel(s);
    StripIsAlnumOnly(r);
    AlnumUnderscoreOnly(r);
    CleanLabelKeepsAlnum(s);
    CollapseAlnumOnly(AlnumOnly(s));
  }

  /** Collapsing changes nothing in a string of letters and digits. */
  lemma {:induction false} CollapseAlnumOnly(s: string)
    requires forall i :: 0 <= i < |s| ==> IsAsciiAlnum(s[i])
    ensures CollapseSpaces(s) == s
  {
    if s != [] {
      SpaceIsNotAlnum(s[0]);
      CollapseAlnumOnly(s[1..]);
    }
  }

  lemma {:induction false} StripIsAlnumOnly(s: string)
    requires forall i :: 0 <= i < |s| ==> IsAsciiAlnum(s[i]) || s[i] == '_'
    ensures StripDisallowed(s) == AlnumOnly(s)
  {
    if s != [] {
      SpaceIsNotAlnum(' ');
      StripIsAlnumOnly(s[1..]);
    }
  }

  lemma {:induction false} AlnumUnderscoreOnly(s: string)
    requires forall i :: 0 <= i < |s| ==> IsAsciiAlnum(s[i]) || s[i] == '_'
    ensures AlnumOnly(s) == WithoutUnderscores(s)
  {
    if s != [] {
      SpaceIsNotAlnum(' ');
      AlnumUnderscoreOnly(s[1..]);
    }
  }

  /** Skipping leading whitespace stops at the first character that is not
      whitespace. */
  lemma {:induction false} DropLeadingSpacesStops(a: string, b: string)
    requires b != [] && !IsSpace(b[0])
    ensures DropLeadingSpaces(a + b) == DropLeadingSpaces(a) + b
  {
    if a != [] {
      assert (a + b)[0] == a[0] && (a + b)[1..] == a[1..] + b;
      if IsSpace(a[0]) {
        DropLeadingSpacesStops(a[1..], b);
      }
    } else {
      assert a + b == b;
    }
  }

  /** Dropping the head of a concatenation. */
  lemma SplitHead(a: string, b: string)
    requires a != []
    ensures (a + b)[0] == a[0] && (a + b)[1..] == a[1..] + b
  {
  }

  /** Regrouping a concatenation around one character. */
  lemma Regroup(a: string, b: string, c: char, d: string)
    ensures b + ([c] + d) == b + [c] + d
    ensures a + (b + [c] + d) == (a + b) + [c] + d
  {
  }

  /** A character that is not whitespace ends every run before it and
      starts none after it: collapsing works on each side of it separately. */
  lemma {:induction false} CollapseSpacesSplit(x: string, c: char, y: string)
    requires !IsSpace(c)
    ensures CollapseSpaces(x + [c] + y) == CollapseSpaces(x) + [c] + CollapseSpaces(y)
    decreases |x|
  {
    var cy := [c] + y;
    var after := CollapseSpaces(y);
    var s := x + cy;
    Regroup([], x, c, y);
    if x == [] {
      SplitHead([c], y);
      assert s == cy;
      assert CollapseSpaces(s) == [c] + after;
      assert CollapseSpaces(x) + [c] + after == [c] + after;
    } else {
      SplitHead(x, cy);
      var head := if IsSpace(x[0]) then "_" else [x[0]];
      var d := if IsSpace(x[0]) then DropLeadingSpaces(x[1..]) else x[1..];
      var rest := CollapseSpaces(d);
      if IsSpace(x[0]) {
        DropLeadingSpacesStops(x[1..], cy);
      }
      assert CollapseSpaces(s) == head + CollapseSpaces(d + cy);
      assert CollapseSpaces(x) == head + rest;
      Regroup([], d, c, y);
      assert CollapseSpaces(d + cy) == CollapseSpaces(d + [c] + y);
      CollapseSpacesSplit(d, c, y);
      Regroup(head, rest, c, after);
    }
  }

  /** Where the underscores go: an ASCII letter or digit of the input stands
      in the result between the cleaned text before it and the cleaned text
      after it. */
  lemma CleanLabelSplit(x: string, c: char, y: string)
    requires IsAsciiAlnum(c)
    ensures CleanLabel(x + [c] + y) == CleanLabel(x) + [c] + CleanLabel(y)
  {
    SpaceIsNotAlnum(c);
    StripDisallowedAppend(x + [c], y);
    StripDisallowedAppend(x, [c]);
    StripDisallowedAllOrNothing([c]);
    CollapseSpacesSplit(StripDisallowed(x), c, StripDisallowed(y));
  }

  /** A stretch of input without ASCII letters or digits becomes one `_`
      when it holds whitespace, and disappears otherwise. Together with
      `CleanLabelSplit` this determines `clean_label` on every input. */
  lemma CleanLabelGap(s: string)
    requires forall i :: 0 <= i < |s| ==> !IsAsciiAlnum(s[i])
    ensures CleanLabel(s) == if exists i :: 0 <= i < |s| && IsSpace(s[i]) then "_" else ""
  {
    var t := StripDisallowed(s);
    StripSpacesOnly(s);
    if t != [] {
      assert DropLeadingSpaces(t[1..]) == [];
    }
  }

  /** Without ASCII letters or digits, the first substitution leaves only
      whitespace, and leaves something exactly when there is whitespace. */
  lemma {:induction false} StripSpacesOnly(s: string)
    requires forall i :: 0 <= i < |s| ==> !IsAsciiAlnum(s[i])
    ensures forall i :: 0 <= i < |StripDisallowed(s)| ==> IsSpace(StripDisallowed(s)[i])
    ensures StripDisallowed(s) != [] <==> exists i :: 0 <= i < |s| && IsSpace(s[i])
  {
    if s != [] {
      StripSpacesOnly(s[1..]);
      assert forall i :: 1 <= i < |s| ==> s[1..][i - 1] == s[i];
      if IsKept(s[0]) {
        assert ([s[0]] + StripDisallowed(s[1..]))[0] == s[0];
      } else if exists i :: 0 <= i < |s| && IsSpace(s[i]) {
        var i :| 0 <= i < |s| && IsSpace(s[i]);
        assert IsSpace(s[1..][i - 1]);
      }
    }
  }

  /** Two letters or digits around one character: a space between them
      becomes `_`, an underscore between them disappears. */
  lemma CleanLabelAround(a: char, m: char, b: char)
    requires IsAsciiAlnum(a) && IsAsciiAlnum(b) && (m == ' ' || m == '_')
    ensures CleanLabel([a, m, b]) == if m == ' ' then [a, '_', b] else [a, b]
  {
    var mid: string := if m == ' ' then "_" else [];
    CleanLabelSingle(m);
    assert CleanLabel([m]) == mid;
    CleanLabelSnoc([m], b);
    assert [m] + [b] == [m, b];
    assert CleanLabel([m, b]) == mid + [b];
    CleanLabelCons(a, [m, b]);
    assert [a] + [m, b] == [a, m, b];
    assert CleanLabel([a, m, b]) == [a] + (mid + [b]);
    assert [a] + (mid + [b]) == if m == ' ' then [a, '_', b] else [a, b];
  }

  /** A leading ASCII letter or digit is kept as it is. */
  lemma CleanLabelCons(a: char, y: string)
    requires IsAsciiAlnum(a)
    ensures CleanLabel([a] + y) == [a] + CleanLabel(y)
  {
    var e: string := [];
    CleanLabelSplit(e, a, y);
    assert e + [a] + y == [a] + y;
    CleanLabelGap(e);
  }

  /** A trailing ASCII letter or digit is kept as it is. */
  lemma CleanLabelSnoc(x: string, b: char)
    requires IsAsciiAlnum(b)
    ensures CleanLabel(x + [b]) == CleanLabel(x) + [b]
  {
    var e: string := [];
    CleanLabelSplit(x, b, e);
    assert x + [b] + e == x + [b];
    CleanLabelGap(e);
    assert CleanLabel(x) + [b] + e == CleanLabel(x) + [b];
  }

  /** A single character that is not an ASCII letter or digit cleans to `_`
      when it is whitespace and to nothing otherwise. */
  lemma CleanLabelSingle(m: char)
    requires !IsAsciiAlnum(m)
    ensures CleanLabel([m]) == if IsSpace(m) then "_" else []
  {
    CleanLabelGap([m]);
    assert [m][0] == m;
  }

  /** `clean_label` is not idempotent: a letter or digit, a space, and a
      letter or digit clean to the two joined by `_`, and a second pass
      deletes that underscore. */
  lemma CleanLabelNotIdempotent(a: char, b: char)
    requires IsAsciiAlnum(a) && IsAsciiAlnum(b)
    ensures CleanLabel([a, ' ', b]) == [a, '_', b]
    ensures CleanLabel(CleanLabel([a, ' ', b])) == [a, b]
    ensures CleanLabel(CleanLabel([a, ' ', b])) != CleanLabel([a, ' ', b])
  {
    CleanLabelAround(a, ' ', b);
    CleanLabelAround(a, '_', b);
    assert |[a, b]| != |[a, '_', b]|;
  }
}
