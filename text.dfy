/**
 * String helpers the converter relies on: Python's notion of whitespace
 * (`str.isspace`, which is also what the regular-expression class `\s`
 * matches on `str`), `strip`, the whitespace collapsing of `clean_text`,
 * ASCII lower-casing, substring search and `str.split` on one character.
 */
module Text {

  /** Python's `str.isspace`, written out as its character set. */
  predicate IsSpace(c: char) {
    || c == ' '
    || ('\t' <= c <= '\r')
    || ('\U{1c}' <= c <= '\U{1f}')
    || c == '\U{85}' || c == '\U{a0}' || c == '\U{1680}'
    || ('\U{2000}' <= c <= '\U{200a}')
    || c == '\U{2028}' || c == '\U{2029}' || c == '\U{202f}' || c == '\U{205f}' || c == '\U{3000}'
  }

  predicate AllSpace(s: string) {
    forall i :: 0 <= i < |s| ==> IsSpace(s[i])
  }

  /** Neither the first nor the last character is whitespace. */
  predicate NoEdgeSpace(s: string) {
    s == [] || (!IsSpace(s[0]) && !IsSpace(s[|s| - 1]))
  }

  /** Every whitespace character is a plain space and no two of them are adjacent. */
  predicate SingleSpaced(s: string) {
    && (forall i :: 0 <= i < |s| && IsSpace(s[i]) ==> s[i] == ' ')
    && (forall i :: 0 <= i < |s| - 1 && IsSpace(s[i]) ==> !IsSpace(s[i + 1]))
  }

  /** The shape `clean_text` promises: trimmed, single spaces only. */
  predicate Normalized(s: string) {
    NoEdgeSpace(s) && SingleSpaced(s)
  }

  /** The characters of `s` that are not whitespace, in order. */
  function NonSpace(s: string): string {
    if s == [] then [] else (if IsSpace(s[0]) then [] else [s[0]]) + NonSpace(s[1..])
  }

  /** `str.lstrip()`: drops the leading whitespace run. */
  function LStrip(s: string): (r: string)
    ensures |r| <= |s|
  {
    if s != [] && IsSpace(s[0]) then LStrip(s[1..]) else s
  }

  /** `str.rstrip()`: drops the trailing whitespace run. */
  function RStrip(s: string): (r: string)
    ensures |r| <= |s|
  {
    if s != [] && IsSpace(s[|s| - 1]) then RStrip(s[..|s| - 1]) else s
  }

  /** `lstrip` removes exactly the leading whitespace. */
  lemma {:induction false} LStripSpec(s: string)
    ensures LStrip(s) == s[|s| - |LStrip(s)|..]
    ensures LStrip(s) == [] || !IsSpace(LStrip(s)[0])
    ensures forall i :: 0 <= i < |s| - |LStrip(s)| ==> IsSpace(s[i])
  {
    if s != [] && IsSpace(s[0]) {
      LStripSpec(s[1..]);
    }
  }

  /** `rstrip` removes exactly the trailing whitespace. */
  lemma {:induction false} RStripSpec(s: string)
    ensures RStrip(s) == s[..|RStrip(s)|]
    ensures RStrip(s) == [] || !IsSpace(RStrip(s)[|RStrip(s)| - 1])
    ensures forall i :: |RStrip(s)| <= i < |s| ==> IsSpace(s[i])
  {
    if s != [] && IsSpace(s[|s| - 1]) {
      RStripSpec(s[..|s| - 1]);
    }
  }

  /** `str.strip()`. */
  function Strip(s: string): string {
    RStrip(LStrip(s))
  }

  /** `re.sub(r'\s+', ' ', s)`: every maximal whitespace run becomes one space. */
  function Collapse(s: string): string
    decreases |s|
  {
    if s == [] then []
    else if IsSpace(s[0]) then [' '] + Collapse(LStrip(s[1..]))
    else [s[0]] + Collapse(s[1..])
  }

  /** `clean_text` (convert_events.py, lines 96-103). */
  function Clean(s: string): string {
    var t := Strip(s);
    if t == "" then "" else Collapse(t)
  }

  /** ASCII part of `str.lower()`. */
  function LowerChar(c: char): char {
    if 'A' <= c <= 'Z' then (c as int - 'A' as int + 'a' as int) as char else c
  }

  function Lower(s: string): (r: string)
    ensures |r| == |s|
    ensures forall i :: 0 <= i < |s| ==> r[i] == LowerChar(s[i])
  {
    if s == [] then [] else [LowerChar(s[0])] + Lower(s[1..])
  }

  /** Python's `sub in s`. */
  predicate Contains(s: string, sub: string)
    decreases |s|
  {
    |sub| <= |s| && (s[..|sub|] == sub || Contains(s[1..], sub))
  }

  /** `s.split(sep)`: the pieces between occurrences of `sep`, empty pieces kept. */
  function Split(s: string, sep: char): (parts: seq<string>)
    ensures |parts| >= 1
  {
    if s == [] then [[]]
    else
      var rest := Split(s[1..], sep);
      if s[0] == sep then [[]] + rest else [[s[0]] + rest[0]] + rest[1..]
  }

  /** `sep.join(parts)`. */
  function Join(parts: seq<string>, sep: char): string
    requires |parts| >= 1
  {
    if |parts| == 1 then parts[0] else parts[0] + [sep] + Join(parts[1..], sep)
  }

  // ---------------------------------------------------------------------------
  // strip

  /** Where the stripped text starts inside its input. */
  function StripStart(s: string): nat {
    |s| - |LStrip(s)|
  }

  /** The stripped text is the slice of the input that starts at `StripStart`. */
  lemma StripIsSlice(s: string)
    ensures StripStart(s) + |Strip(s)| <= |s|
    ensures s[StripStart(s)..StripStart(s) + |Strip(s)|] == Strip(s)
  {
    var l := LStrip(s);
    LStripSpec(s);
    RStripSpec(l);
    assert l == s[StripStart(s)..];
  }

  lemma StripEdges(s: string)
    ensures NoEdgeSpace(Strip(s))
  {
    var l := LStrip(s);
    LStripSpec(s);
    RStripSpec(l);
    var r := RStrip(l);
    if r != [] {
      assert r[0] == l[0];
    }
  }

  lemma StripFlanks(s: string)
    ensures forall k :: 0 <= k < StripStart(s) ==> IsSpace(s[k])
    ensures forall k :: StripStart(s) + |Strip(s)| <= k < |s| ==> IsSpace(s[k])
  {
    var l := LStrip(s);
    var i := StripStart(s);
    LStripSpec(s);
    RStripSpec(l);
    forall k | i + |Strip(s)| <= k < |s|
      ensures IsSpace(s[k])
    {
      assert s[k] == l[k - i];
    }
  }

  /** `strip` removes exactly the whitespace at both ends: the result is a slice
      of the input, flanked only by whitespace, and has none at its own ends. */
  lemma StripSlice(s: string)
    ensures NoEdgeSpace(Strip(s))
    ensures StripStart(s) + |Strip(s)| <= |s|
    ensures s[StripStart(s)..StripStart(s) + |Strip(s)|] == Strip(s)
    ensures forall k :: 0 <= k < StripStart(s) ==> IsSpace(s[k])
    ensures forall k :: StripStart(s) + |Strip(s)| <= k < |s| ==> IsSpace(s[k])
  {
    StripIsSlice(s);
    StripEdges(s);
    StripFlanks(s);
  }

  lemma {:induction false} NonSpaceAppend(a: string, b: string)
    ensures NonSpace(a + b) == NonSpace(a) + NonSpace(b)
  {
    if a == [] {
      assert a + b == b;
    } else {
      var h := if IsSpace(a[0]) then [] else [a[0]];
      assert (a + b)[0] == a[0];
      assert (a + b)[1..] == a[1..] + b;
      NonSpaceAppend(a[1..], b);
      calc {
        NonSpace(a + b);
        h + NonSpace(a[1..] + b);
        h + (NonSpace(a[1..]) + NonSpace(b));
        (h + NonSpace(a[1..])) + NonSpace(b);
        NonSpace(a) + NonSpace(b);
      }
    }
  }

  lemma {:induction false} NonSpaceOfSpaces(s: string)
    requires AllSpace(s)
    ensures NonSpace(s) == []
  {
    if s != [] {
      NonSpaceOfSpaces(s[1..]);
    }
  }

  lemma {:induction false} LStripKeepsContent(s: string)
    ensures NonSpace(LStrip(s)) == NonSpace(s)
  {
    if s != [] && IsSpace(s[0]) {
      LStripKeepsContent(s[1..]);
    }
  }

  lemma {:induction false} RStripKeepsContent(s: string)
    ensures NonSpace(RStrip(s)) == NonSpace(s)
  {
    if s != [] && IsSpace(s[|s| - 1]) {
      var p := s[..|s| - 1];
      RStripKeepsContent(p);
      assert s == p + [s[|s| - 1]];
      NonSpaceAppend(p, [s[|s| - 1]]);
    }
  }

  /** Stripping loses no visible character. */
  lemma StripKeepsContent(s: string)
    ensures NonSpace(Strip(s)) == NonSpace(s)
  {
    LStripKeepsContent(s);
    RStripKeepsContent(LStrip(s));
  }

  lemma StripOfTrimmed(s: string)
    requires NoEdgeSpace(s)
    ensures Strip(s) == s
  {
  }

  // ---------------------------------------------------------------------------
  // collapse

  /** A whitespace run becomes a space, anything else is kept as the first character. */
  lemma CollapseFirst(s: string)
    ensures s == [] <==> Collapse(s) == []
    ensures s != [] ==> Collapse(s)[0] == (if IsSpace(s[0]) then ' ' else s[0])
  {
  }

  /** A visible last character stays last. */
  lemma {:induction false} CollapseLast(s: string)
    requires s != [] && !IsSpace(s[|s| - 1])
    ensures Collapse(s) != [] && Collapse(s)[|Collapse(s)| - 1] == s[|s| - 1]
    decreases |s|
  {
    var t := if IsSpace(s[0]) then LStrip(s[1..]) else s[1..];
    LStripSpec(s[1..]);
    if t != [] {
      assert t[|t| - 1] == s[|s| - 1];
      CollapseLast(t);
    } else {
      assert !IsSpace(s[0]);
    }
  }

  /** Prefixing one character to a single-spaced string keeps it single-spaced
      when that character is visible, or is a space followed by a visible one. */
  lemma ConsSingleSpaced(h: char, c: string)
    requires SingleSpaced(c)
    requires IsSpace(h) ==> h == ' ' && (c == [] || !IsSpace(c[0]))
    ensures SingleSpaced([h] + c)
  {
    var r := [h] + c;
    forall i | 0 <= i < |r| && IsSpace(r[i])
      ensures r[i] == ' '
    {
      if i > 0 {
        assert r[i] == c[i - 1];
      }
    }
    forall i | 0 <= i < |r| - 1 && IsSpace(r[i])
      ensures !IsSpace(r[i + 1])
    {
      assert r[i + 1] == c[i];
      if i > 0 {
        assert r[i] == c[i - 1];
      }
    }
  }

  /** `re.sub(r'\s+', ' ', ...)` leaves only single plain spaces. */
  lemma {:induction false} CollapseSingleSpaced(s: string)
    ensures SingleSpaced(Collapse(s))
    decreases |s|
  {
    if s != [] {
      if IsSpace(s[0]) {
        var t := LStrip(s[1..]);
        LStripSpec(s[1..]);
        CollapseSingleSpaced(t);
        CollapseFirst(t);
        ConsSingleSpaced(' ', Collapse(t));
      } else {
        CollapseSingleSpaced(s[1..]);
        ConsSingleSpaced(s[0], Collapse(s[1..]));
      }
    }
  }

  /** Collapsing loses no visible character. */
  lemma {:induction false} CollapseKeepsContent(s: string)
    ensures NonSpace(Collapse(s)) == NonSpace(s)
    decreases |s|
  {
    if s == [] {
    } else if IsSpace(s[0]) {
      var u := s[1..];
      var t := LStrip(u);
      LStripSpec(u);
      CollapseKeepsContent(t);
      var k := |u| - |t|;
      assert u == u[..k] + t;
      NonSpaceAppend(u[..k], t);
      NonSpaceOfSpaces(u[..k]);
      NonSpaceAppend([' '], Collapse(t));
    } else {
      CollapseKeepsContent(s[1..]);
      NonSpaceAppend([s[0]], Collapse(s[1..]));
    }
  }

  /** A string that is already single-spaced is left alone. */
  lemma {:induction false} CollapseFixed(s: string)
    requires SingleSpaced(s)
    ensures Collapse(s) == s
    decreases |s|
  {
    if s != [] {
      assert SingleSpaced(s[1..]);
      if IsSpace(s[0]) {
        assert s[1..] == [] || !IsSpace(s[1]);
        assert LStrip(s[1..]) == s[1..];
      }
      CollapseFixed(s[1..]);
    }
  }

  // ---------------------------------------------------------------------------
  // clean_text

  /** `clean_text` returns a normalized string with the same visible characters;
      blank input gives the empty string. */
  lemma CleanSpec(s: string)
    ensures Normalized(Clean(s))
    ensures NonSpace(Clean(s)) == NonSpace(s)
    ensures Clean(s) == "" <==> AllSpace(s)
  {
    var t := Strip(s);
    StripSlice(s);
    StripKeepsContent(s);
    CollapseFirst(t);
    CollapseSingleSpaced(t);
    CollapseKeepsContent(t);
    if t != "" {
      CollapseLast(t);
      var i := StripStart(s);
      assert s[i] == t[0];
    }
  }

  /** Cleaning a normalized string changes nothing. */
  lemma CleanFixed(s: string)
    requires Normalized(s)
    ensures Clean(s) == s
  {
    StripOfTrimmed(s);
    CollapseFixed(s);
  }

  /** `clean_text` is idempotent. */
  lemma CleanIdempotent(s: string)
    ensures Clean(Clean(s)) == Clean(s)
  {
    CleanSpec(s);
    CleanFixed(Clean(s));
  }

  // ---------------------------------------------------------------------------
  // words: the maximal runs of non-whitespace characters

  /** The longest prefix of `s` without whitespace. */
  function LeadingWord(s: string): (w: string)
    ensures |w| <= |s| && w == s[..|w|]
    ensures s != [] && !IsSpace(s[0]) ==> w != []
  {
    if s == [] || IsSpace(s[0]) then [] else [s[0]] + LeadingWord(s[1..])
  }

  /** The words of `s`, left to right. */
  function Words(s: string): seq<string>
    decreases |s|
  {
    var t := LStrip(s);
    if t == [] then []
    else
      var w := LeadingWord(t);
      [w] + Words(t[|w|..])
  }

  /** A non-empty string without whitespace. */
  predicate IsWord(w: string) {
    w != [] && forall i :: 0 <= i < |w| ==> !IsSpace(w[i])
  }

  /** The leading word is whitespace-free and, unless it is all of `s`, is
      followed by whitespace. */
  lemma {:induction false} LeadingWordSpec(s: string)
    ensures forall i :: 0 <= i < |LeadingWord(s)| ==> !IsSpace(LeadingWord(s)[i])
    ensures |LeadingWord(s)| < |s| ==> IsSpace(s[|LeadingWord(s)|])
  {
    if s != [] && !IsSpace(s[0]) {
      LeadingWordSpec(s[1..]);
    }
  }

  lemma LStripOfTrimmedStart(s: string)
    requires s != [] && !IsSpace(s[0])
    ensures LStrip(s) == s
  {
  }

  /** Every word is non-empty and holds no whitespace. */
  lemma {:induction false} WordsAreWords(s: string)
    ensures forall k :: 0 <= k < |Words(s)| ==> IsWord(Words(s)[k])
    decreases |s|
  {
    var t := LStrip(s);
    if t != [] {
      LStripSpec(s);
      var w := LeadingWord(t);
      LeadingWordSpec(t);
      WordsAreWords(t[|w|..]);
    }
  }

  /** Collapsing passes a whitespace-free prefix through unchanged. */
  lemma {:induction false} CollapseWordPrefix(w: string, r: string)
    requires forall i :: 0 <= i < |w| ==> !IsSpace(w[i])
    ensures Collapse(w + r) == w + Collapse(r)
  {
    if w != [] {
      assert (w + r)[1..] == w[1..] + r;
      CollapseWordPrefix(w[1..], r);
    } else {
      assert w + r == r;
    }
  }

  lemma LStripAllSpace(s: string)
    requires LStrip(s) == []
    ensures AllSpace(s)
  {
    LStripSpec(s);
  }

  /** Collapsing trimmed text puts exactly one space between its words. */
  lemma {:induction false} CollapseJoinsWords(t: string)
    requires t != [] && NoEdgeSpace(t)
    ensures Words(t) != [] && Collapse(t) == Join(Words(t), ' ')
    decreases |t|
  {
    var w := LeadingWord(t);
    var rest := t[|w|..];
    LeadingWordSpec(t);
    LStripOfTrimmedStart(t);
    assert t == w + rest;
    assert Words(t) == [w] + Words(rest);
    CollapseWordPrefix(w, rest);
    if rest != [] {
      var r := LStrip(rest);
      LStripSpec(rest);
      assert rest[|rest| - 1] == t[|t| - 1];
      if r == [] {
        LStripAllSpace(rest);
        assert false;
      }
      assert r[|r| - 1] == rest[|rest| - 1];
      CollapseJoinsWords(r);
      LStripOfTrimmedStart(r);
      assert Words(rest) == Words(r);
      var ws := Words(r);
      assert ([w] + ws)[1..] == ws;
      assert Join([w] + ws, ' ') == w + [' '] + Join(ws, ' ');
    }
  }

  lemma {:induction false} LeadingWordTrailing(x: string, sp: string)
    requires AllSpace(sp)
    ensures LeadingWord(x + sp) == LeadingWord(x)
  {
    if x == [] {
      assert x + sp == sp;
    } else {
      assert (x + sp)[1..] == x[1..] + sp;
      LeadingWordTrailing(x[1..], sp);
    }
  }

  lemma {:induction false} LStripTrailing(x: string, sp: string)
    requires AllSpace(sp)
    ensures LStrip(x + sp) == if LStrip(x) == [] then [] else LStrip(x) + sp
  {
    if x == [] {
      assert x + sp == sp;
      LStripSpaces(sp);
    } else {
      assert (x + sp)[1..] == x[1..] + sp;
      LStripTrailing(x[1..], sp);
    }
  }

  lemma {:induction false} LStripSpaces(sp: string)
    requires AllSpace(sp)
    ensures LStrip(sp) == []
  {
    if sp != [] {
      LStripSpaces(sp[1..]);
    }
  }

  /** Trailing whitespace adds no word. */
  lemma {:induction false} WordsTrailing(x: string, sp: string)
    requires AllSpace(sp)
    ensures Words(x + sp) == Words(x)
    decreases |x|
  {
    var u := LStrip(x);
    LStripTrailing(x, sp);
    if u != [] {
      LStripSpec(x);
      var w := LeadingWord(u);
      LeadingWordTrailing(u, sp);
      assert (u + sp)[|w|..] == u[|w|..] + sp;
      WordsTrailing(u[|w|..], sp);
    }
  }

  /** Leading and trailing whitespace adds no word. */
  lemma WordsOfStrip(s: string)
    ensures Words(Strip(s)) == Words(s)
  {
    var l := LStrip(s);
    LStripSpec(s);
    RStripSpec(l);
    var r := RStrip(l);
    var sp := l[|r|..];
    assert l == r + sp;
    WordsTrailing(r, sp);
    if l != [] {
      LStripOfTrimmedStart(l);
    }
    assert Words(l) == Words(s);
  }

  /** `clean_text` of non-blank text is its words joined by single spaces. */
  lemma CleanJoinsWords(s: string)
    requires !AllSpace(s)
    ensures Words(s) != []
    ensures Clean(s) == Join(Words(s), ' ')
  {
    CleanSpec(s);
    StripEdges(s);
    CollapseJoinsWords(Strip(s));
    WordsOfStrip(s);
  }

  lemma WordsSpaceFree(s: string)
    ensures forall p :: p in Words(s) ==> ' ' !in p
  {
    WordsAreWords(s);
    forall p | p in Words(s)
      ensures ' ' !in p
    {
      var k :| 0 <= k < |Words(s)| && Words(s)[k] == p;
      assert IsWord(Words(s)[k]);
    }
  }

  /** Splitting cleaned non-blank text on spaces gives back exactly its words. */
  lemma CleanSplitsIntoWords(s: string)
    requires !AllSpace(s)
    ensures Split(Clean(s), ' ') == Words(s)
  {
    CleanJoinsWords(s);
    WordsSpaceFree(s);
    SplitJoin(Words(s), ' ');
  }

  // ---------------------------------------------------------------------------
  // split / join

  /** No piece of a split contains the separator. */
  lemma {:induction false} SplitPiecesFree(s: string, sep: char)
    ensures forall p :: p in Split(s, sep) ==> sep !in p
    decreases |s|
  {
    if s != [] {
      SplitPiecesFree(s[1..], sep);
    }
  }

  /** Joining the pieces of a split gives back the input. */
  lemma {:induction false} JoinSplit(s: string, sep: char)
    ensures Join(Split(s, sep), sep) == s
    decreases |s|
  {
    if s != [] {
      var rest := Split(s[1..], sep);
      JoinSplit(s[1..], sep);
      if s[0] != sep {
        if |rest| > 1 {
          assert ([[s[0]] + rest[0]] + rest[1..])[1..] == rest[1..];
        }
      }
    }
  }

  /** Splitting a join of separator-free pieces gives back the pieces. */
  lemma {:induction false} SplitJoin(parts: seq<string>, sep: char)
    requires |parts| >= 1
    requires forall p :: p in parts ==> sep !in p
    ensures Split(Join(parts, sep), sep) == parts
    decreases |parts|
  {
    if |parts| == 1 {
      SplitWithout(parts[0], sep);
    } else {
      SplitJoin(parts[1..], sep);
      SplitCons(parts[0], Join(parts[1..], sep), sep);
      assert parts == [parts[0]] + parts[1..];
    }
  }

  lemma {:induction false} SplitWithout(s: string, sep: char)
    requires sep !in s
    ensures Split(s, sep) == [s]
    decreases |s|
  {
    if s != [] {
      SplitWithout(s[1..], sep);
      assert [s[0]] + s[1..] == s;
    }
  }

  lemma {:induction false} SplitCons(a: string, b: string, sep: char)
    requires sep !in a
    ensures Split(a + [sep] + b, sep) == [a] + Split(b, sep)
    decreases |a|
  {
    if a == [] {
      assert a + [sep] + b == [sep] + b;
      assert ([sep] + b)[1..] == b;
    } else {
      assert (a + [sep] + b)[1..] == a[1..] + [sep] + b;
      SplitCons(a[1..], b, sep);
      assert [a[0]] + a[1..] == a;
    }
  }

  // ---------------------------------------------------------------------------
  // substring search

  /** `sub` occurs in `s` starting at position `i`. */
  predicate OccursAt(s: string, sub: string, i: int) {
    0 <= i && i + |sub| <= |s| && s[i..i + |sub|] == sub
  }

  /** `sub in s` holds exactly when `sub` occurs somewhere in `s`. */
  lemma {:induction false} ContainsSpec(s: string, sub: string)
    ensures Contains(s, sub) <==> exists i :: OccursAt(s, sub, i)
    decreases |s|
  {
    if |sub| <= |s| {
      if s[..|sub|] == sub {
        assert OccursAt(s, sub, 0);
        return;
      }
      ContainsSpec(s[1..], sub);
      if Contains(s[1..], sub) {
        var i :| OccursAt(s[1..], sub, i);
        assert s[i + 1..i + 1 + |sub|] == s[1..][i..i + |sub|];
        assert OccursAt(s, sub, i + 1);
      } else {
        forall i | OccursAt(s, sub, i) && i > 0
          ensures OccursAt(s[1..], sub, i - 1)
        {
          assert s[1..][i - 1..i - 1 + |sub|] == s[i..i + |sub|];
        }
      }
    }
  }
}
