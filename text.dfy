/** The behaviour of Python's `str` that both pipeline stages rely on: which
    characters are whitespace, `strip()`, `split()`, `' '.join(...)`, the
    `\s+` substitution, `lower()`, `title()` and `str(n)` for a non-negative
    integer. Letter case is modelled on ASCII only. */
module Text {

  // ---------------------------------------------------------------------------
  // Whitespace
  // ---------------------------------------------------------------------------

  /** The characters `c.isspace()` accepts, as inclusive ranges. The same set
      is matched by `\s` in a str pattern and is what `split()` and `strip()`
      treat as whitespace. */
  const SpaceRanges: seq<(char, char)> := [
    ('\t', '\r'), ('\U{1c}', ' '), ('\U{85}', '\U{85}'), ('\U{a0}', '\U{a0}'),
    ('\U{1680}', '\U{1680}'), ('\U{2000}', '\U{200a}'), ('\U{2028}', '\U{2029}'),
    ('\U{202f}', '\U{202f}'), ('\U{205f}', '\U{205f}'), ('\U{3000}', '\U{3000}')]

  predicate InRanges(c: char, ranges: seq<(char, char)>) {
    ranges != [] && (ranges[0].0 <= c <= ranges[0].1 || InRanges(c, ranges[1..]))
  }

  /** `c.isspace()`. */
  predicate IsSpace(c: char) {
    InRanges(c, SpaceRanges)
  }

  /** No whitespace character is a letter. */
  lemma SpaceIsNotCased(c: char)
    requires IsSpace(c)
    ensures !IsCased(c)
  {
    OutsideRanges(c, SpaceRanges, 'A', 'z');
  }

  /** A visible ASCII character is not whitespace. */
  lemma VisibleIsNotSpace(c: char)
    requires '!' <= c <= '~'
    ensures !IsSpace(c)
  {
    if IsSpace(c) {
      OutsideRanges(c, SpaceRanges, '!', '~');
    }
  }

  /** A non-empty run of visible ASCII characters is a word. */
  lemma VisibleWord(w: string)
    requires w != [] && forall i | 0 <= i < |w| :: '!' <= w[i] <= '~'
    ensures IsWord(w) && NoEdgeSpace(w)
  {
    forall i | 0 <= i < |w| ensures !IsSpace(w[i]) {
      VisibleIsNotSpace(w[i]);
    }
  }

  /** A capital letter followed by small letters is title-cased. */
  lemma CapitalisedWord(s: string)
    requires s != [] && IsUpper(s[0]) && forall i | 1 <= i < |s| :: IsLower(s[i])
    ensures TitleCased(s)
  {
    forall i | 0 <= i < |s| ensures TitleOkAt(s, i, false) {
    }
  }

  /** A character in ranges that all avoid `lo..hi` lies outside `lo..hi`. */
  lemma {:induction false} OutsideRanges(c: char, ranges: seq<(char, char)>, lo: char, hi: char)
    requires InRanges(c, ranges)
    requires forall k | 0 <= k < |ranges| :: ranges[k].1 < lo || hi < ranges[k].0
    ensures c < lo || hi < c
    decreases |ranges|
  {
    if !(ranges[0].0 <= c <= ranges[0].1) {
      OutsideRanges(c, ranges[1..], lo, hi);
    }
  }

  predicate AllSpace(s: string) {
    forall i | 0 <= i < |s| :: IsSpace(s[i])
  }

  /** No whitespace at either end (what `strip()` leaves). */
  predicate NoEdgeSpace(s: string) {
    s == [] || (!IsSpace(s[0]) && !IsSpace(s[|s| - 1]))
  }

  /** The whitespace normal form: no whitespace at either end, no whitespace
      character other than the plain space, and never two in a row. */
  predicate Normalized(s: string) {
    && NoEdgeSpace(s)
    && (forall i | 0 <= i < |s| && IsSpace(s[i]) :: s[i] == ' ')
    && (forall i | 0 <= i < |s| - 1 && IsSpace(s[i]) :: !IsSpace(s[i + 1]))
  }

  /** A word as `split()` returns it: non-empty, no whitespace. */
  predicate IsWord(w: string) {
    |w| > 0 && forall i | 0 <= i < |w| :: !IsSpace(w[i])
  }

  predicate AllWords(ws: seq<string>) {
    forall j | 0 <= j < |ws| :: IsWord(ws[j])
  }

  /** Length of the longest prefix of `s` whose characters are all whitespace
      (`space` true) or all non-whitespace (`space` false). */
  function Span(s: string, space: bool): (n: nat)
    ensures n <= |s|
    ensures forall i | 0 <= i < n :: IsSpace(s[i]) == space
    ensures n < |s| ==> IsSpace(s[n]) != space
  {
    if s != [] && IsSpace(s[0]) == space then 1 + Span(s[1..], space) else 0
  }

  /** Number of whitespace characters at the end of `s`. */
  function TrailSpan(s: string): (n: nat)
    ensures n <= |s|
    ensures forall i | |s| - n <= i < |s| :: IsSpace(s[i])
    ensures n < |s| ==> !IsSpace(s[|s| - 1 - n])
  {
    if s != [] && IsSpace(s[|s| - 1]) then 1 + TrailSpan(s[..|s| - 1]) else 0
  }

  /** `s.strip()`: `s` without its leading and trailing whitespace. */
  function Strip(s: string): (r: string)
    ensures NoEdgeSpace(r)
    ensures r == [] <==> AllSpace(s)
    ensures var a := Span(s, true);
      && a + |r| <= |s| && r == s[a..a + |r|]
      && AllSpace(s[..a]) && AllSpace(s[a + |r|..])
  {
    var a := Span(s, true);
    var t := s[a..];
    var b := TrailSpan(t);
    StripMiddle(s, a, t, b);
    t[..|t| - b]
  }

  /** What `Strip` keeps and what it cuts off, from the two spans. */
  lemma StripMiddle(s: string, a: nat, t: string, b: nat)
    requires a <= |s| && (forall i | 0 <= i < a :: IsSpace(s[i])) && (a < |s| ==> !IsSpace(s[a]))
    requires t == s[a..]
    requires b <= |t| && (forall i | |t| - b <= i < |t| :: IsSpace(t[i]))
    requires b < |t| ==> !IsSpace(t[|t| - 1 - b])
    ensures var r := t[..|t| - b];
      && NoEdgeSpace(r) && (r == [] <==> AllSpace(s))
      && a + |r| <= |s| && r == s[a..a + |r|]
      && AllSpace(s[..a]) && AllSpace(s[a + |r|..])
  {
    var r := t[..|t| - b];
    assert s[a + |r|..] == t[|t| - b..];
    StripEnds(s, a, t, b);
    if r == [] {
      OnlySpaces(s, a, t);
    } else {
      assert !AllSpace(s) by {
        assert !IsSpace(s[a]);
      }
    }
  }

  lemma StripEnds(s: string, a: nat, t: string, b: nat)
    requires a <= |s| && (a < |s| ==> !IsSpace(s[a])) && t == s[a..]
    requires b <= |t| && (b < |t| ==> !IsSpace(t[|t| - 1 - b]))
    ensures NoEdgeSpace(t[..|t| - b])
  {
    var r := t[..|t| - b];
    if r != [] {
      assert r[0] == s[a] && r[|r| - 1] == t[|t| - 1 - b];
    }
  }

  /** A text whose leading whitespace run is followed only by whitespace is
      all whitespace. */
  lemma OnlySpaces(s: string, a: nat, t: string)
    requires a <= |s| && AllSpace(s[..a]) && t == s[a..] && AllSpace(t)
    ensures AllSpace(s)
  {
    forall i | 0 <= i < |s| ensures IsSpace(s[i]) {
      if i < a {
        assert s[..a][i] == s[i];
      } else {
        assert t[i - a] == s[i];
      }
    }
  }

  /** `re.sub(r'\s+', ' ', s)`: every maximal run of whitespace becomes one
      space; everything else is kept. */
  function CollapseSpace(s: string): (r: string)
    ensures |r| <= |s|
    decreases |s|
  {
    if s == [] then []
    else if IsSpace(s[0]) then " " + CollapseSpace(s[Span(s, true)..])
    else [s[0]] + CollapseSpace(s[1..])
  }

  /** `s.split()` with no separator: the maximal runs of non-whitespace, in
      order. */
  function Words(s: string): (ws: seq<string>)
    ensures ws == [] <==> AllSpace(s)
    decreases |s|
  {
    var a := Span(s, true);
    var t := s[a..];
    if t == [] then
      assert AllSpace(s);
      []
    else
      assert !IsSpace(s[a]) && t[0] == s[a];
      var n := Span(t, false);
      [t[..n]] + Words(t[n..])
  }

  /** `' '.join(ws)`. */
  function Join(ws: seq<string>): (s: string)
    ensures ws == [] ==> s == []
  {
    if ws == [] then []
    else if |ws| == 1 then ws[0]
    else ws[0] + " " + Join(ws[1..])
  }

  /** Concatenation of a sequence of sequences, in order. */
  function Flatten<T>(xss: seq<seq<T>>): seq<T> {
    if xss == [] then [] else xss[0] + Flatten(xss[1..])
  }

  /** The characters of `s` that are not whitespace, in order. */
  function NonSpace(s: string): (r: string)
    ensures |r| <= |s|
  {
    if s == [] then []
    else (if IsSpace(s[0]) then [] else [s[0]]) + NonSpace(s[1..])
  }

  // ---------------------------------------------------------------------------
  // Letter case (ASCII)
  // ---------------------------------------------------------------------------

  predicate IsUpper(c: char) { 'A' <= c <= 'Z' }
  predicate IsLower(c: char) { 'a' <= c <= 'z' }
  predicate IsCased(c: char) { IsUpper(c) || IsLower(c) }

  function LowerChar(c: char): char {
    if IsUpper(c) then (c as int + 32) as char else c
  }

  function UpperChar(c: char): char {
    if IsLower(c) then (c as int - 32) as char else c
  }

  /** `s.lower()`. */
  function Lower(s: string): (r: string)
    ensures |r| == |s|
    ensures forall i | 0 <= i < |r| :: !IsUpper(r[i])
    ensures forall i | 0 <= i < |r| :: LowerChar(r[i]) == LowerChar(s[i])
    ensures forall i | 0 <= i < |r| :: !IsUpper(s[i]) ==> r[i] == s[i]
  {
    seq(|s|, i requires 0 <= i < |s| => LowerChar(s[i]))
  }

  /** The letter case `title()` gives position `i`: lower case right after a
      letter, upper case otherwise. `prevCased` stands for the character
      before position 0. */
  predicate TitleOkAt(s: string, i: nat, prevCased: bool)
    requires i < |s|
  {
    var afterLetter := if i == 0 then prevCased else IsCased(s[i - 1]);
    if afterLetter then !IsUpper(s[i]) else !IsLower(s[i])
  }

  /** Every position of `s` has the letter case `title()` gives it. */
  predicate TitleCasedAfter(s: string, prevCased: bool) {
    forall i | 0 <= i < |s| :: TitleOkAt(s, i, prevCased)
  }

  /** Every letter that starts a run of letters is upper case and every other
      letter is lower case: what `title()` produces. */
  predicate TitleCased(s: string) {
    TitleCasedAfter(s, false)
  }

  /** `title()` continued after a character that was (`prevCased`) or was not a
      letter. */
  function TitleFrom(s: string, prevCased: bool): (r: string)
    ensures |r| == |s|
    ensures forall i | 0 <= i < |s| ::
      LowerChar(r[i]) == LowerChar(s[i]) && IsCased(r[i]) == IsCased(s[i])
    ensures TitleCasedAfter(r, prevCased)
  {
    if s == [] then []
    else
      var c := if prevCased then LowerChar(s[0]) else UpperChar(s[0]);
      var rest := TitleFrom(s[1..], IsCased(s[0]));
      TitleCasedCons(c, rest, prevCased);
      [c] + rest
  }

  /** `s.title()`. */
  function Title(s: string): (r: string)
    ensures |r| == |s| && TitleCased(r)
    ensures forall i | 0 <= i < |r| :: LowerChar(r[i]) == LowerChar(s[i])
  {
    TitleFrom(s, false)
  }

  // ---------------------------------------------------------------------------
  // Decimal formatting
  // ---------------------------------------------------------------------------

  predicate IsDigit(c: char) { '0' <= c <= '9' }

  function DigitChar(d: nat): (c: char)
    requires d < 10
    ensures IsDigit(c)
  {
    ('0' as int + d) as char
  }

  /** `str(n)` for a non-negative integer: its decimal digits, no leading
      zero. */
  function Decimal(n: nat): (s: string)
    ensures |s| > 0 && forall i | 0 <= i < |s| :: IsDigit(s[i])
    ensures s[0] == '0' <==> n == 0
  {
    if n < 10 then [DigitChar(n)] else Decimal(n / 10) + [DigitChar(n % 10)]
  }

  /** The number a string of decimal digits denotes (`int(s)`). */
  function DecimalValue(s: string): nat
    requires forall i | 0 <= i < |s| :: IsDigit(s[i])
  {
    if s == [] then 0
    else DecimalValue(s[..|s| - 1]) * 10 + DigitValue(s[|s| - 1])
  }

  function DigitValue(c: char): (d: nat)
    requires IsDigit(c)
    ensures d < 10 && DigitChar(d) == c
  {
    c as int - '0' as int
  }

  // ---------------------------------------------------------------------------
  // Lemmas: strip
  // ---------------------------------------------------------------------------

  /** The whitespace prefix of `p + x` is exactly `p` when `x` starts with a
      non-whitespace character. */
  lemma SpanAfterSpaces(p: string, x: string)
    requires AllSpace(p) && x != [] && !IsSpace(x[0])
    ensures Span(p + x, true) == |p|
  {
    var s := p + x;
    assert forall i | 0 <= i < |p| :: IsSpace(s[i]);
    assert !IsSpace(s[|p|]);
  }

  lemma TrailSpanBeforeSpaces(x: string, q: string)
    requires AllSpace(q) && x != [] && !IsSpace(x[|x| - 1])
    ensures TrailSpan(x + q) == |q|
  {
    var s := x + q;
    assert forall i | |x| <= i < |s| :: IsSpace(s[i]);
    assert !IsSpace(s[|x| - 1]);
  }

  /** Stripping removes exactly a whitespace frame around a text that has no
      whitespace at its ends. */
  lemma StripFrame(p: string, x: string, q: string)
    requires AllSpace(p) && AllSpace(q) && NoEdgeSpace(x)
    ensures Strip(p + x + q) == x
  {
    var s := p + x + q;
    if x == [] {
      assert AllSpace(s);
    } else {
      assert s == p + (x + q);
      SpanAfterSpaces(p, x + q);
      assert s[|p|..] == x + q;
      TrailSpanBeforeSpaces(x, q);
    }
  }

  /** `strip()` changes nothing on a text with no whitespace at its ends. */
  lemma StripKeepsTrimmed(x: string)
    requires NoEdgeSpace(x)
    ensures Strip(x) == x
  {
    assert [] + x + [] == x;
    StripFrame([], x, []);
  }

  // ---------------------------------------------------------------------------
  // Lemmas: words and join
  // ---------------------------------------------------------------------------

  /** A single word splits into itself. */
  lemma WordsOfWord(w: string)
    requires IsWord(w)
    ensures Words(w) == [w]
  {
    LeadingWord(w);
    assert Span(w, false) == |w|;
    assert w[..|w|] == w && w[|w|..] == [];
  }

  /** Leading whitespace does not change the split. */
  lemma WordsAfterSpaces(p: string, x: string)
    requires AllSpace(p) && x != [] && !IsSpace(x[0])
    ensures Words(p + x) == Words(x)
  {
    SpanAfterSpaces(p, x);
    WordsSkipSpace(p + x);
    assert (p + x)[|p|..] == x;
  }

  /** Every item `split()` returns is a word. */
  lemma {:induction false} WordsAreWords(s: string)
    ensures AllWords(Words(s))
    decreases |s|
  {
    var t := s[Span(s, true)..];
    if t != [] {
      var n := Span(t, false);
      WordsAreWords(t[n..]);
      LeadingRunIsWord(t);
      AllWordsCons(t[..n], Words(t[n..]));
    }
  }

  /** The leading run of non-whitespace of a text that starts with one is a
      word. */
  lemma LeadingRunIsWord(t: string)
    requires t != [] && !IsSpace(t[0])
    ensures IsWord(t[..Span(t, false)])
  {
    var w := t[..Span(t, false)];
    forall i | 0 <= i < |w| ensures !IsSpace(w[i]) {
      assert w[i] == t[i];
    }
  }

  lemma AllWordsCons(w: string, ws: seq<string>)
    requires IsWord(w) && AllWords(ws)
    ensures AllWords([w] + ws)
  {
    forall j | 0 <= j < |ws| + 1 ensures IsWord(([w] + ws)[j]) {
      if j > 0 {
        assert ([w] + ws)[j] == ws[j - 1];
      }
    }
  }

  /** Leading whitespace never changes the word list. */
  lemma WordsSkipSpace(s: string)
    ensures Words(s) == Words(s[Span(s, true)..])
  {
    var u := s[Span(s, true)..];
    assert Span(u, true) == 0;
    assert u[Span(u, true)..] == u;
  }

  lemma SpanOfWord(w: string, rest: string)
    requires IsWord(w) && (rest == [] || IsSpace(rest[0]))
    ensures Span(w + rest, false) == |w|
  {
    var s := w + rest;
    assert forall i | 0 <= i < |w| :: !IsSpace(s[i]);
    assert |w| < |s| ==> IsSpace(s[|w|]);
  }

  /** `' '.join` of words is in whitespace normal form; it starts with the
      first word's first character and ends with the last word's last. */
  lemma {:induction false} JoinNormalized(ws: seq<string>)
    requires AllWords(ws)
    ensures Normalized(Join(ws))
    ensures ws != [] ==>
      (|Join(ws)| > 0 && Join(ws)[0] == ws[0][0]
       && Join(ws)[|Join(ws)| - 1] == ws[|ws| - 1][|ws[|ws| - 1]| - 1])
  {
    JoinEnds(ws);
    if |ws| == 1 {
      assert IsWord(ws[0]);
    } else if |ws| > 1 {
      var w, j := ws[0], Join(ws[1..]);
      JoinNormalized(ws[1..]);
      assert IsWord(w) && Join(ws) == w + " " + j;
      JoinStepNormalized(w, j);
    }
  }

  lemma {:induction false} JoinEnds(ws: seq<string>)
    requires AllWords(ws)
    ensures ws != [] ==>
      (|Join(ws)| > 0 && Join(ws)[0] == ws[0][0]
       && Join(ws)[|Join(ws)| - 1] == ws[|ws| - 1][|ws[|ws| - 1]| - 1])
  {
    if |ws| == 1 {
      assert IsWord(ws[0]);
    } else if |ws| > 1 {
      var w, j, last := ws[0], Join(ws[1..]), ws[|ws| - 1];
      JoinEnds(ws[1..]);
      assert IsWord(w) && ws[1..][|ws| - 2] == last;
      var s := w + " " + j;
      assert Join(ws) == s && s[|s| - 1] == j[|j| - 1];
    }
  }

  /** A word, a space and a non-empty text in normal form make a text in
      normal form. */
  lemma JoinStepNormalized(w: string, j: string)
    requires IsWord(w) && Normalized(j) && j != []
    ensures Normalized(w + " " + j)
  {
    var s := w + " " + j;
    assert IsSpace(' ');
    forall i | 0 <= i < |s| && IsSpace(s[i])
      ensures s[i] == ' '
    {
      if i > |w| { assert s[i] == j[i - |w| - 1]; }
    }
    forall i | 0 <= i < |s| - 1 && IsSpace(s[i])
      ensures !IsSpace(s[i + 1])
    {
      if i > |w| {
        assert s[i] == j[i - |w| - 1] && s[i + 1] == j[i - |w|];
      } else {
        assert i == |w|;
      }
    }
  }

  /** `split()` undoes `' '.join` on a list of words. */
  lemma {:induction false} WordsOfJoin(ws: seq<string>)
    requires AllWords(ws)
    ensures Words(Join(ws)) == ws
  {
    if |ws| == 1 {
      assert Words(ws[0] + []) == [ws[0]] + Words([]) by {
        assert IsWord(ws[0]);
        WordsOfWordThen(ws[0], []);
      }
      assert ws[0] + [] == ws[0];
    } else if |ws| > 1 {
      var w, rest := ws[0], ws[1..];
      calc {
        Words(Join(ws));
        { JoinCons(w, rest); assert [w] + rest == ws; }
        Words(w + " " + Join(rest));
        { WordsOfJoinStep(w, rest); }
        [w] + Words(Join(rest));
        { WordsOfJoin(rest); }
        [w] + rest;
      }
    }
  }

  lemma WordsOfJoinStep(w: string, rest: seq<string>)
    requires IsWord(w) && rest != [] && AllWords(rest)
    ensures Words(w + " " + Join(rest)) == [w] + Words(Join(rest))
  {
    var j := Join(rest);
    assert w + " " + j == w + (" " + j);
    JoinNormalized(rest);
    assert IsWord(rest[0]);
    WordsOfWordThen(w, " " + j);
    WordsAfterOneSpace(j);
  }

  /** A word followed by nothing or by whitespace is the first word. */
  lemma WordsOfWordThen(w: string, rest: string)
    requires IsWord(w) && (rest == [] || IsSpace(rest[0]))
    ensures Words(w + rest) == [w] + Words(rest)
  {
    var s := w + rest;
    assert Span(s, true) == 0 by { assert !IsSpace(s[0]); }
    SpanOfWord(w, rest);
    assert s[0..] == s;
    assert s[..|w|] == w;
    assert s[|w|..] == rest;
  }

  lemma WordsAfterOneSpace(j: string)
    requires j != [] && !IsSpace(j[0])
    ensures Words(" " + j) == Words(j)
  {
    SpanAfterSpaces(" ", j);
    WordsSkipSpace(" " + j);
    assert (" " + j)[1..] == j;
  }

  /** Leading spaces of a whole word-prefix are kept by the substitution. */
  lemma {:induction false} CollapseKeepsWord(s: string)
    ensures CollapseSpace(s) == s[..Span(s, false)] + CollapseSpace(s[Span(s, false)..])
    decreases |s|
  {
    if s != [] && !IsSpace(s[0]) {
      var n, m := Span(s, false), Span(s[1..], false);
      CollapseKeepsWord(s[1..]);
      SpanStep(s);
      assert CollapseSpace(s) == [s[0]] + CollapseSpace(s[1..]);
      AppendAssoc([s[0]], s[1..][..m], CollapseSpace(s[n..]));
    } else {
      assert s[0..] == s;
    }
  }

  /** The run of non-whitespace at the front of `s` is its first character
      followed by the run at the front of `s[1..]`. */
  lemma SpanStep(s: string)
    requires s != [] && !IsSpace(s[0])
    ensures var n, m := Span(s, false), Span(s[1..], false);
      && n == 1 + m && s[1..][m..] == s[n..] && s[..n] == [s[0]] + s[1..][..m]
  {
    var n, m := Span(s, false), Span(s[1..], false);
    assert n == 1 + m;
    DropAfterFirst(s, m);
  }

  lemma SplitAt<T>(s: seq<T>, n: nat)
    requires n <= |s|
    ensures s[..n] + s[n..] == s
  {
  }

  /** Slicing after the first element, as slices of the whole. */
  lemma DropAfterFirst<T>(s: seq<T>, m: nat)
    requires 1 + m <= |s|
    ensures s[1..][m..] == s[1 + m..] && s[..1 + m] == [s[0]] + s[1..][..m]
  {
  }

  /** Concatenation is associative. */
  lemma AppendAssoc<T>(a: seq<T>, b: seq<T>, c: seq<T>)
    ensures a + (b + c) == (a + b) + c
  {
  }

  function Pad(b: bool): string {
    if b then " " else ""
  }

  predicate EndsInSpace(s: string) {
    |s| > 0 && IsSpace(s[|s| - 1])
  }

  /** After the substitution, a text is its words joined by single spaces,
      with one space in front if it began with whitespace and one behind if it
      ended with whitespace; an all-whitespace text becomes one space. */
  predicate CollapsedShape(t: string) {
    && (Words(t) == [] ==> CollapseSpace(t) == Pad(t != []))
    && (Words(t) != [] ==>
          CollapseSpace(t) == Pad(Span(t, true) > 0) + Join(Words(t)) + Pad(EndsInSpace(t)))
  }

  lemma {:induction false} CollapseShape(t: string)
    ensures CollapsedShape(t)
    decreases |t|
  {
    if t != [] && IsSpace(t[0]) {
      CollapseShapeSpace(t);
    } else if t != [] {
      CollapseShapeWord(t);
    }
  }

  lemma {:induction false} CollapseShapeSpace(t: string)
    requires t != [] && IsSpace(t[0])
    ensures CollapsedShape(t)
    decreases |t|, 0
  {
    var u := t[Span(t, true)..];
    assert CollapseSpace(t) == " " + CollapseSpace(u);
    assert Words(t) == Words(u) by { WordsSkipSpace(t); }
    if u != [] {
      var j, p := Join(Words(u)), Pad(EndsInSpace(t));
      CollapseShape(u);
      assert Span(u, true) == 0;
      assert EndsInSpace(u) == EndsInSpace(t) by { assert u[|u| - 1] == t[|t| - 1]; }
      assert Words(u) != [];
      assert CollapseSpace(u) == Pad(false) + j + p;
      assert Pad(false) + j == j;
      AppendAssoc(" ", j, p);
    }
  }

  lemma {:induction false} CollapseShapeWord(t: string)
    requires t != [] && !IsSpace(t[0])
    ensures CollapsedShape(t)
    decreases |t|, 0
  {
    var n := Span(t, false);
    var w, rest := t[..n], t[n..];
    LeadingWord(t);
    EndsInSpaceSuffix(t, n);
    CollapseKeepsWord(t);
    WordThenRest(w, rest);
    var j, p := Join(Words(t)), Pad(EndsInSpace(t));
    assert CollapseSpace(t) == j + p;
    assert Pad(Span(t, true) > 0) + j == j;
  }

  /** How the functions see a text that starts with a word. */
  lemma LeadingWord(t: string)
    requires t != [] && !IsSpace(t[0])
    ensures Span(t, false) > 0 && Span(t, true) == 0
    ensures IsWord(t[..Span(t, false)])
    ensures t[Span(t, false)..] == [] || IsSpace(t[Span(t, false)..][0])
    ensures Words(t) == [t[..Span(t, false)]] + Words(t[Span(t, false)..])
  {
    assert t[0..] == t;
  }

  lemma EndsInSpaceSuffix(t: string, n: nat)
    requires n <= |t|
    ensures n < |t| ==> EndsInSpace(t) == EndsInSpace(t[n..])
  {
    if n < |t| {
      assert t[n..][|t| - n - 1] == t[|t| - 1];
    }
  }

  /** A word followed by the substitution's output on the rest. */
  lemma {:induction false} WordThenRest(w: string, rest: string)
    requires IsWord(w) && (rest == [] || IsSpace(rest[0]))
    ensures w + CollapseSpace(rest) == Join([w] + Words(rest)) + Pad(EndsInSpace(rest))
    decreases |rest|, 1
  {
    if rest == [] {
      calc {
        w + CollapseSpace(rest);
        w;
        Join([w] + Words(rest)) + Pad(EndsInSpace(rest));
      }
    } else if Words(rest) == [] {
      CollapseShapeSpace(rest);
      assert EndsInSpace(rest) by { assert AllSpace(rest); }
      calc {
        w + CollapseSpace(rest);
        w + " ";
        { assert [w] + Words(rest) == [w]; }
        Join([w] + Words(rest)) + Pad(EndsInSpace(rest));
      }
    } else {
      var j, p := Join(Words(rest)), Pad(EndsInSpace(rest));
      calc {
        w + CollapseSpace(rest);
        { CollapseShapeSpace(rest);
          assert Span(rest, true) > 0; }
        w + (" " + j + p);
        { AppendAssoc(w, " " + j, p); AppendAssoc(w, " ", j); }
        w + " " + j + p;
        { JoinCons(w, Words(rest)); }
        Join([w] + Words(rest)) + p;
      }
    }
  }

  lemma JoinCons(w: string, ws: seq<string>)
    requires ws != []
    ensures Join([w] + ws) == w + " " + Join(ws)
  {
    assert ([w] + ws)[1..] == ws;
  }

  /** `re.sub(r'\s+', ' ', s).strip()` is `' '.join(s.split())`. */
  lemma CollapseThenStripIsJoinedWords(s: string)
    ensures Strip(CollapseSpace(s)) == Join(Words(s))
  {
    CollapseShape(s);
    if Words(s) == [] {
      assert AllSpace(CollapseSpace(s));
    } else {
      WordsAreWords(s);
      JoinNormalized(Words(s));
      StripFrame(Pad(Span(s, true) > 0), Join(Words(s)), Pad(EndsInSpace(s)));
    }
  }

  /** The whitespace normal form is a fixed point of the substitution and strip. */
  lemma NormalizeIdempotent(s: string)
    ensures var once := Strip(CollapseSpace(s));
      Strip(CollapseSpace(once)) == once
  {
    CollapseThenStripIsJoinedWords(s);
    var once := Join(Words(s));
    CollapseThenStripIsJoinedWords(once);
    WordsAreWords(s);
    WordsOfJoin(Words(s));
  }

  /** A text already in the whitespace normal form is its words joined by
      single spaces. */
  lemma NormalizedIsJoinedWords(s: string)
    requires Normalized(s)
    ensures Join(Words(s)) == s
  {
    CollapseThenStripIsJoinedWords(s);
    CollapseKeepsSingleSpaces(s);
    StripKeepsTrimmed(s);
  }

  /** The substitution changes nothing when every whitespace character is a
      lone plain space. */
  lemma {:induction false} CollapseKeepsSingleSpaces(s: string)
    requires forall i | 0 <= i < |s| && IsSpace(s[i]) :: s[i] == ' '
    requires forall i | 0 <= i < |s| - 1 && IsSpace(s[i]) :: !IsSpace(s[i + 1])
    ensures CollapseSpace(s) == s
    decreases |s|
  {
    if s != [] {
      var u := s[1..];
      SingleSpacesTail(s);
      CollapseKeepsSingleSpaces(u);
      DropAfterFirst(s, 0);
      if IsSpace(s[0]) {
        assert u != [] ==> !IsSpace(u[0]) by {
          assert u != [] ==> u[0] == s[1];
        }
        assert Span(s, true) == 1;
      }
    }
  }

  lemma SingleSpacesTail(s: string)
    requires s != []
    requires forall i | 0 <= i < |s| && IsSpace(s[i]) :: s[i] == ' '
    requires forall i | 0 <= i < |s| - 1 && IsSpace(s[i]) :: !IsSpace(s[i + 1])
    ensures var u := s[1..];
      && (forall i | 0 <= i < |u| && IsSpace(u[i]) :: u[i] == ' ')
      && (forall i | 0 <= i < |u| - 1 && IsSpace(u[i]) :: !IsSpace(u[i + 1]))
  {
    var u := s[1..];
    assert forall i | 0 <= i < |u| :: u[i] == s[i + 1];
  }

  // ---------------------------------------------------------------------------
  // Lemmas: the non-whitespace characters
  // ---------------------------------------------------------------------------

  /** A character survives the removal of whitespace exactly when it occurs
      and is not whitespace. */
  lemma {:induction false} NonSpaceMembers(s: string, c: char)
    ensures c in NonSpace(s) <==> c in s && !IsSpace(c)
    decreases |s|
  {
    if s != [] {
      NonSpaceMembers(s[1..], c);
      DropAfterFirst(s, |s| - 1);
      assert c in s <==> s[0] == c || c in s[1..];
    }
  }

  lemma {:induction false} NonSpaceAppend(a: string, b: string)
    ensures NonSpace(a + b) == NonSpace(a) + NonSpace(b)
    decreases |a|
  {
    if a != [] {
      NonSpaceAppend(a[1..], b);
      assert (a + b)[1..] == a[1..] + b;
    } else {
      assert a + b == b;
    }
  }

  lemma {:induction false} NonSpaceOfSpaces(p: string)
    requires AllSpace(p)
    ensures NonSpace(p) == []
    decreases |p|
  {
    if p != [] { NonSpaceOfSpaces(p[1..]); }
  }

  lemma {:induction false} NonSpaceOfWord(w: string)
    requires forall i | 0 <= i < |w| :: !IsSpace(w[i])
    ensures NonSpace(w) == w
    decreases |w|
  {
    if w != [] { NonSpaceOfWord(w[1..]); }
  }

  /** The words of `s`, run together, are exactly its non-whitespace
      characters in order: `split()` drops whitespace and nothing else. */
  lemma {:induction false} WordsCoverNonSpace(s: string)
    ensures Flatten(Words(s)) == NonSpace(s)
    decreases |s|
  {
    var t := s[Span(s, true)..];
    WordsSkipSpace(s);
    NonSpaceSkipSpace(s);
    if t != [] {
      LeadingWord(t);
      WordsCoverNonSpace(t[Span(t, false)..]);
      CoverAfterWord(t);
    }
  }

  /** The step of `WordsCoverNonSpace` past the leading word of `t`. */
  lemma CoverAfterWord(t: string)
    requires t != [] && !IsSpace(t[0])
    requires Flatten(Words(t[Span(t, false)..])) == NonSpace(t[Span(t, false)..])
    ensures Flatten(Words(t)) == NonSpace(t)
  {
    var n := Span(t, false);
    var w := t[..n];
    calc {
      Flatten(Words(t));
      { LeadingWord(t); }
      Flatten([w] + Words(t[n..]));
      { FlattenCons(w, Words(t[n..])); }
      w + Flatten(Words(t[n..]));
      w + NonSpace(t[n..]);
      { NonSpaceOfWord(w); }
      NonSpace(w) + NonSpace(t[n..]);
      { SplitAt(t, n); NonSpaceAppend(w, t[n..]); }
      NonSpace(t);
    }
  }

  lemma FlattenCons<T>(x: seq<T>, xs: seq<seq<T>>)
    ensures Flatten([x] + xs) == x + Flatten(xs)
  {
    assert ([x] + xs)[1..] == xs;
  }

  /** Leading whitespace contributes nothing to the non-whitespace characters. */
  lemma NonSpaceSkipSpace(s: string)
    ensures NonSpace(s) == NonSpace(s[Span(s, true)..])
  {
    var a := Span(s, true);
    assert s == s[..a] + s[a..];
    NonSpaceAppend(s[..a], s[a..]);
    NonSpaceOfSpaces(s[..a]);
  }

  /** Joining words with spaces adds only whitespace. */
  lemma {:induction false} NonSpaceOfJoin(ws: seq<string>)
    requires AllWords(ws)
    ensures NonSpace(Join(ws)) == Flatten(ws)
  {
    if |ws| == 1 {
      assert IsWord(ws[0]);
      NonSpaceOfWord(ws[0]);
      assert Flatten(ws) == ws[0] + Flatten(ws[1..]);
      assert ws[0] + [] == ws[0];
    } else if |ws| > 1 {
      assert IsWord(ws[0]);
      NonSpaceOfJoin(ws[1..]);
      NonSpaceAppend(ws[0], " " + Join(ws[1..]));
      NonSpaceAppend(" ", Join(ws[1..]));
      NonSpaceOfWord(ws[0]);
      assert NonSpace(" ") == [];
      assert ws[0] + " " + Join(ws[1..]) == ws[0] + (" " + Join(ws[1..]));
    }
  }

  /** Normalizing whitespace keeps every non-whitespace character, in order. */
  lemma NormalizeKeepsNonSpace(s: string)
    ensures NonSpace(Strip(CollapseSpace(s))) == NonSpace(s)
  {
    CollapseThenStripIsJoinedWords(s);
    WordsAreWords(s);
    NonSpaceOfJoin(Words(s));
    WordsCoverNonSpace(s);
  }

  // ---------------------------------------------------------------------------
  // Lemmas: case and decimals
  // ---------------------------------------------------------------------------

  /** A title-cased text stays title-cased once its whitespace ends are
      stripped. */
  lemma StripKeepsTitleCased(s: string)
    requires TitleCased(s)
    ensures TitleCased(Strip(s))
  {
    var a := Span(s, true);
    if a > 0 {
      SpaceIsNotCased(s[a - 1]);
    }
    var r := Strip(s);
    assert r == s[a..a + |r|];
    TitleCasedSlice(s, a, a + |r|);
  }

  /** A stretch of a title-cased text that does not start right after a
      letter is title-cased. */
  lemma TitleCasedSlice(s: string, a: nat, e: nat)
    requires TitleCased(s) && a <= e <= |s|
    requires a > 0 ==> !IsCased(s[a - 1])
    ensures TitleCased(s[a..e])
  {
    var r := s[a..e];
    forall i | 0 <= i < |r| ensures TitleOkAt(r, i, false) {
      assert TitleOkAt(s, a + i, false);
      assert r[i] == s[a + i];
      if i > 0 {
        assert r[i - 1] == s[a + i - 1];
      }
    }
  }

  /** A character followed by a text is title-cased exactly when the
      character has the case `title()` gives it and the text is title-cased
      after it. */
  lemma TitleCasedCons(c: char, t: string, prevCased: bool)
    ensures TitleCasedAfter([c] + t, prevCased)
      <==> TitleOkAt([c], 0, prevCased) && TitleCasedAfter(t, IsCased(c))
  {
    var s := [c] + t;
    if TitleCasedAfter(s, prevCased) {
      assert TitleOkAt(s, 0, prevCased);
      forall i | 0 <= i < |t| ensures TitleOkAt(t, i, IsCased(c)) {
        assert TitleOkAt(s, i + 1, prevCased);
        assert s[i + 1] == t[i];
        if i > 0 {
          assert s[i] == t[i - 1];
        }
      }
    }
    if TitleOkAt([c], 0, prevCased) && TitleCasedAfter(t, IsCased(c)) {
      forall i | 0 <= i < |s| ensures TitleOkAt(s, i, prevCased) {
        if i > 0 {
          assert TitleOkAt(t, i - 1, IsCased(c));
          assert s[i] == t[i - 1];
          if i > 1 {
            assert s[i - 1] == t[i - 2];
          }
        }
      }
    }
  }

  /** Title-cased text is a fixed point of `title()`; in particular
      `title()` is idempotent. */
  lemma TitleKeepsTitleCased(s: string)
    requires TitleCased(s)
    ensures Title(s) == s
  {
    TitleFromKeeps(s, false);
  }

  lemma {:induction false} TitleFromKeeps(s: string, prevCased: bool)
    requires TitleCasedAfter(s, prevCased)
    ensures TitleFrom(s, prevCased) == s
    decreases |s|
  {
    if s != [] {
      assert s == [s[0]] + s[1..];
      TitleCasedCons(s[0], s[1..], prevCased);
      TitleFromKeeps(s[1..], IsCased(s[0]));
      assert TitleOkAt(s, 0, prevCased);
    }
  }

  /** Stripping a text without upper-case letters leaves none. */
  lemma StripKeepsLower(s: string)
    requires forall i | 0 <= i < |s| :: !IsUpper(s[i])
    ensures forall i | 0 <= i < |Strip(s)| :: !IsUpper(Strip(s)[i])
  {
    var r, a := Strip(s), Span(s, true);
    forall i | 0 <= i < |r| ensures !IsUpper(r[i]) {
      assert r[i] == s[a + i];
    }
  }

  /** `int(str(n)) == n`. */
  lemma {:induction false} DecimalRoundTrip(n: nat)
    ensures DecimalValue(Decimal(n)) == n
  {
    if n >= 10 {
      DecimalRoundTrip(n / 10);
      var s := Decimal(n);
      assert s[..|s| - 1] == Decimal(n / 10);
    }
  }

  /** Different numbers print differently. */
  lemma DecimalInjective(m: nat, n: nat)
    requires Decimal(m) == Decimal(n)
    ensures m == n
  {
    DecimalRoundTrip(m);
    DecimalRoundTrip(n);
  }
}
