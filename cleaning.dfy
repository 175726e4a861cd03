/** The cleaning stage: `clean_text` on one string and `clean_csv` on the whole
    corpus table. */
module Cleaning {
  import opened Text
  import opened Tables

  // ---------------------------------------------------------------------------
  // Removing tags: re.sub(r'<.*?>', '', text)
  // ---------------------------------------------------------------------------

  /** The first position at or after `i` that holds `'>'` or a newline (the
      two characters at which the lazy `.*?` stops: `.` does not match a
      newline), or `|s|` when there is none. */
  function TagStop(s: string, i: nat): (j: nat)
    requires i <= |s|
    ensures i <= j <= |s|
    ensures forall k | i <= k < j :: s[k] != '>' && s[k] != '\n'
    ensures j < |s| ==> s[j] == '>' || s[j] == '\n'
    decreases |s| - i
  {
    if i == |s| || s[i] == '>' || s[i] == '\n' then i else TagStop(s, i + 1)
  }

  /** The pattern `<.*?>` matches at the start of `s`: a `'<'` whose nearest
      following `'>'` comes before any newline. The match is then
      `s[..TagStop(s, 1) + 1]`. */
  predicate OpensTag(s: string) {
    |s| > 0 && s[0] == '<' && TagStop(s, 1) < |s| && s[TagStop(s, 1)] == '>'
  }

  /** The substitution scans left to right, removes each match and resumes
      after it; where no match starts, it keeps one character and moves on. */
  function StripTags(s: string): (r: string)
    ensures |r| <= |s|
    decreases |s|
  {
    if s == [] then []
    else if OpensTag(s) then StripTags(s[TagStop(s, 1) + 1..])
    else [s[0]] + StripTags(s[1..])
  }

  /** The substitution only removes characters, and never a newline: a match
      cannot contain one. */
  lemma StripTagsRemovesOnly(s: string)
    ensures multiset(StripTags(s)) <= multiset(s)
    ensures '\n' in StripTags(s) <==> '\n' in s
  {
    StripTagsSubMultiset(s);
    StripTagsKeepsNewlines(s);
  }

  lemma {:induction false} StripTagsSubMultiset(s: string)
    ensures multiset(StripTags(s)) <= multiset(s)
    decreases |s|
  {
    if s != [] {
      var j := if OpensTag(s) then TagStop(s, 1) + 1 else 1;
      var rest := s[j..];
      StripTagsSubMultiset(rest);
      assert s == s[..j] + rest;
      if OpensTag(s) {
        SubMultisetOfAppend(s[..j], StripTags(rest), rest);
      } else {
        assert StripTags(s) == s[..1] + StripTags(rest);
        SubMultisetOfAppend(s[..1], StripTags(rest), rest);
      }
    }
  }

  lemma SubMultisetOfAppend(p: string, r: string, rest: string)
    requires multiset(r) <= multiset(rest)
    ensures multiset(r) <= multiset(p + rest)
    ensures multiset(p + r) <= multiset(p + rest)
  {
  }

  lemma {:induction false} StripTagsKeepsNewlines(s: string)
    ensures '\n' in StripTags(s) <==> '\n' in s
    decreases |s|
  {
    if s != [] {
      var j := if OpensTag(s) then TagStop(s, 1) + 1 else 1;
      var rest := s[j..];
      StripTagsKeepsNewlines(rest);
      NewlineInSplit(s, j);
      if OpensTag(s) {
        assert '\n' !in s[..j] by {
          forall k | 0 <= k < j ensures s[..j][k] != '\n' {
            assert s[..j][k] == s[k];
          }
        }
      } else {
        assert StripTags(s) == s[..1] + StripTags(rest);
        NewlineInSplit(StripTags(s), 1);
        assert StripTags(s)[1..] == StripTags(rest);
      }
    }
  }

  lemma NewlineInSplit(s: string, j: nat)
    requires j <= |s|
    ensures '\n' in s <==> '\n' in s[..j] || '\n' in s[j..]
  {
    assert s == s[..j] + s[j..];
  }

  /** No position of `s` starts a match of `<.*?>`. */
  predicate TagFree(s: string)
    decreases |s|
  {
    s == [] || (!OpensTag(s) && TagFree(s[1..]))
  }

  /** A stretch without `'>'` and without a newline that ends at a newline (or
      at the end of the text) passes through unchanged. */
  lemma {:induction false} KeepsPlainStretch(s: string, j: nat)
    requires j <= |s| && (j == |s| || s[j] == '\n')
    requires forall k | 0 <= k < j :: s[k] != '>' && s[k] != '\n'
    ensures StripTags(s) == s[..j] + StripTags(s[j..])
    decreases j
  {
    if j == 0 {
      assert s[..0] == [] && s[0..] == s;
    } else {
      var t := s[1..];
      assert !OpensTag(s) by {
        assert TagStop(s, 1) == j;
      }
      assert forall k | 0 <= k < j - 1 :: t[k] == s[k + 1];
      calc {
        StripTags(s);
        [s[0]] + StripTags(t);
        { KeepsPlainStretch(t, j - 1); }
        [s[0]] + (t[..j - 1] + StripTags(t[j - 1..]));
        { AppendAssoc([s[0]], t[..j - 1], StripTags(t[j - 1..])); }
        ([s[0]] + t[..j - 1]) + StripTags(t[j - 1..]);
        { assert [s[0]] + t[..j - 1] == s[..j] && t[j - 1..] == s[j..]; }
        s[..j] + StripTags(s[j..]);
      }
    }
  }

  /** The text the substitution leaves contains no further match. */
  lemma {:induction false} StripTagsIsTagFree(s: string)
    ensures TagFree(StripTags(s))
    decreases |s|
  {
    if s == [] {
    } else if OpensTag(s) {
      StripTagsIsTagFree(s[TagStop(s, 1) + 1..]);
    } else {
      var r := StripTags(s);
      StripTagsIsTagFree(s[1..]);
      assert r[1..] == StripTags(s[1..]);
      if s[0] == '<' {
        var j := TagStop(s, 1);
        KeepsPlainStretch(s[1..], j - 1);
        assert s[1..][..j - 1] == s[1..j];
        assert s[1..][j - 1..] == s[j..];
        RejectsUnclosed(r, s, j);
      }
    }
  }

  /** The scanner's output at a `'<'` that opens no tag still opens none. */
  lemma RejectsUnclosed(r: string, s: string, j: nat)
    requires 0 < j <= |s| && s[0] == '<' && TagStop(s, 1) == j
    requires j == |s| || s[j] == '\n'
    requires r == [s[0]] + (s[1..j] + StripTags(s[j..]))
    ensures !OpensTag(r)
  {
    if j < |s| {
      assert !OpensTag(s[j..]);
      assert StripTags(s[j..]) == [s[j]] + StripTags(s[j + 1..]);
      assert r[j] == '\n';
    } else {
      assert r == s;
    }
    assert forall k | 1 <= k < j :: r[k] == s[k];
    assert TagStop(r, 1) == j;
  }

  /** Text with no match is left unchanged. */
  lemma {:induction false} TagFreeUnchanged(s: string)
    requires TagFree(s)
    ensures StripTags(s) == s
    decreases |s|
  {
    if s != [] {
      TagFreeUnchanged(s[1..]);
    }
  }

  /** Text without a `'<'` has no tag to remove. */
  lemma {:induction false} NoOpenerUnchanged(s: string)
    requires '<' !in s
    ensures StripTags(s) == s
    decreases |s|
  {
    if s != [] {
      assert s == [s[0]] + s[1..];
      NoOpenerUnchanged(s[1..]);
    }
  }

  // ---------------------------------------------------------------------------
  // clean_text
  // ---------------------------------------------------------------------------

  /** `clean_text(text)`: remove the tags, then replace every run of
      whitespace by one space and strip the ends. */
  function CleanText(text: string): (r: string)
    ensures Normalized(r)
    ensures r == Join(Words(StripTags(text)))
    ensures '\n' !in r
  {
    var noTags := StripTags(text);
    CollapseThenStripIsJoinedWords(noTags);
    WordsAreWords(noTags);
    JoinNormalized(Words(noTags));
    NormalizedHasNoNewline(Join(Words(noTags)));
    Strip(CollapseSpace(noTags))
  }

  lemma NormalizedHasNoNewline(s: string)
    requires Normalized(s)
    ensures '\n' !in s
  {
    if '\n' in s {
      var i :| 0 <= i < |s| && s[i] == '\n';
      assert IsSpace(s[i]);
    }
  }

  /** `clean_text` keeps exactly the words of the text with its tags removed. */
  lemma CleanTextWords(text: string)
    ensures Words(CleanText(text)) == Words(StripTags(text))
  {
    WordsAreWords(StripTags(text));
    WordsOfJoin(Words(StripTags(text)));
  }

  /** A `'<'` occurs before a `'>'` somewhere in `s`. */
  predicate OpenBeforeClose(s: string)
    decreases |s|
  {
    s != [] && ((s[0] == '<' && '>' in s[1..]) || OpenBeforeClose(s[1..]))
  }

  /** Without newlines, a match starts exactly where a `'<'` has a later `'>'`. */
  lemma OpensTagWithoutNewline(s: string)
    requires '\n' !in s
    ensures OpensTag(s) <==> s != [] && s[0] == '<' && '>' in s[1..]
  {
    if s != [] && s[0] == '<' && '>' in s[1..] {
      var k :| 0 <= k < |s[1..]| && s[1..][k] == '>';
      assert s[k + 1] == '>';
      assert TagStop(s, 1) <= k + 1;
    }
    if OpensTag(s) {
      assert s[1..][TagStop(s, 1) - 1] == '>';
    }
  }

  /** Without newlines, text is free of matches exactly when no `'<'` comes
      before a `'>'`. */
  lemma {:induction false} TagFreeWithoutNewline(s: string)
    requires '\n' !in s
    ensures TagFree(s) <==> !OpenBeforeClose(s)
    decreases |s|
  {
    if s != [] {
      assert s == [s[0]] + s[1..];
      OpensTagWithoutNewline(s);
      TagFreeWithoutNewline(s[1..]);
    }
  }

  /** Removing whitespace neither creates nor destroys a `'<'` before a `'>'`. */
  lemma {:induction false} OpenBeforeCloseIgnoresSpace(s: string)
    ensures OpenBeforeClose(NonSpace(s)) <==> OpenBeforeClose(s)
    decreases |s|
  {
    if s != [] {
      var rest := NonSpace(s[1..]);
      OpenBeforeCloseIgnoresSpace(s[1..]);
      TagCharsAreNotSpace();
      if IsSpace(s[0]) {
        assert NonSpace(s) == [] + rest == rest;
      } else {
        NonSpaceMembers(s[1..], '>');
        assert NonSpace(s) == [s[0]] + rest;
        assert NonSpace(s)[1..] == rest;
      }
    }
  }

  /** On text without newlines `clean_text` is idempotent: its output has no
      tag left and is already in whitespace normal form. */
  lemma CleanTextIdempotent(text: string)
    requires '\n' !in text
    ensures CleanText(CleanText(text)) == CleanText(text)
  {
    var t := StripTags(text);
    var c := CleanText(text);
    StripTagsRemovesOnly(text);
    assert '\n' !in t;
    StripTagsIsTagFree(text);
    TagFreeWithoutNewline(t);
    OpenBeforeCloseIgnoresSpace(t);
    NormalizeKeepsNonSpace(t);
    OpenBeforeCloseIgnoresSpace(c);
    TagFreeWithoutNewline(c);
    TagFreeUnchanged(c);
    NormalizeIdempotent(t);
  }

  /** Text before the first `'<'` is kept as it is. */
  lemma {:induction false} KeepsPlainPrefix(x: string, y: string)
    requires '<' !in x
    ensures StripTags(x + y) == x + StripTags(y)
    decreases |x|
  {
    if x != [] {
      assert x == [x[0]] + x[1..];
      assert (x + y)[0] == x[0] && (x + y)[1..] == x[1..] + y;
      assert '<' !in x[1..];
      assert !OpensTag(x + y);
      assert StripTags(x + y) == [x[0]] + StripTags(x[1..] + y);
      KeepsPlainPrefix(x[1..], y);
      AppendAssoc([x[0]], x[1..], StripTags(y));
    } else {
      assert x + y == y;
    }
  }

  /** A word with no angle bracket in it. */
  predicate PlainWord(w: string) {
    IsWord(w) && '<' !in w && '>' !in w
  }

  /** A newline inside a would-be tag stops the match, but the whitespace
      normalisation turns it into a space, so a second pass removes the tag:
      `clean_text` is not idempotent. */
  lemma CleanTextNotIdempotent(a: string, b: string, c: string, d: string)
    requires PlainWord(a) && PlainWord(b) && PlainWord(c) && PlainWord(d)
    ensures CleanText(a + "<" + b + "\n" + c + ">" + d) == a + "<" + b + " " + c + ">" + d
    ensures CleanText(a + "<" + b + " " + c + ">" + d) == a + d
  {
    NewlineStopsTag(a, b, c, d);
    SpaceDoesNotStopTag(a, b, c, d);
  }

  lemma NewlineStopsTag(a: string, b: string, c: string, d: string)
    requires PlainWord(a) && PlainWord(b) && PlainWord(c) && PlainWord(d)
    ensures CleanText(a + "<" + b + "\n" + c + ">" + d) == a + "<" + b + " " + c + ">" + d
  {
    var w1, w2 := a + "<" + b, c + ">" + d;
    var s := a + "<" + b + "\n" + c + ">" + d;
    Regroup(a, b, c, d);
    BracketedWords(a, b, c, d);
    calc {
      CleanText(s);
      Join(Words(StripTags(a + ("<" + b + ("\n" + w2)))));
      { KeepsPlainPrefix(a, "<" + b + ("\n" + w2));
        NewlineBreaksTag(b, w2); }
      Join(Words(w1 + ("\n" + w2)));
      { NewlineBetweenWords(w1, w2); }
      w1 + " " + w2;
    }
  }

  lemma Regroup(a: string, b: string, c: string, d: string)
    ensures a + "<" + b + "\n" + c + ">" + d == a + ("<" + b + ("\n" + (c + ">" + d)))
    ensures a + ("<" + b + ("\n" + (c + ">" + d))) == (a + "<" + b) + ("\n" + (c + ">" + d))
    ensures a + "<" + b + " " + c + ">" + d == (a + "<" + b) + " " + (c + ">" + d)
  {
  }

  lemma BracketedWords(a: string, b: string, c: string, d: string)
    requires PlainWord(a) && PlainWord(b) && PlainWord(c) && PlainWord(d)
    ensures IsWord(a + "<" + b) && IsWord(c + ">" + d)
  {
    TagCharsAreNotSpace();
  }

  lemma TagCharsAreNotSpace()
    ensures !IsSpace('<') && !IsSpace('>')
  {
  }

  /** Two words separated by a newline are joined back with a space. */
  lemma NewlineBetweenWords(w1: string, w2: string)
    requires IsWord(w1) && IsWord(w2)
    ensures Join(Words(w1 + ("\n" + w2))) == w1 + " " + w2
  {
    calc {
      Words(w1 + ("\n" + w2));
      { WordsOfWordThen(w1, "\n" + w2); }
      [w1] + Words("\n" + w2);
      { WordAfterNewline(w2); }
      [w1] + [w2];
    }
    JoinCons(w1, [w2]);
  }

  /** A would-be tag broken by a newline is kept, and so is what follows. */
  lemma NewlineBreaksTag(b: string, rest: string)
    requires '>' !in b && '\n' !in b && '<' !in rest
    ensures StripTags("<" + b + ("\n" + rest)) == "<" + b + ("\n" + rest)
  {
    var s := "<" + b + ("\n" + rest);
    var j := |b| + 1;
    assert s[j] == '\n';
    assert forall k | 1 <= k < j :: s[k] == b[k - 1];
    assert s[0] == '<';
    KeepsPlainStretch(s, j);
    assert s[j..] == "\n" + rest && s[..j] == "<" + b;
    NoOpenerUnchanged("\n" + rest);
  }

  lemma WordAfterNewline(w: string)
    requires IsWord(w)
    ensures Words("\n" + w) == [w]
  {
    var nl := "\n";
    assert AllSpace(nl);
    WordsAfterSpaces(nl, w);
    WordsOfWord(w);
  }

  lemma SpaceDoesNotStopTag(a: string, b: string, c: string, d: string)
    requires PlainWord(a) && PlainWord(b) && PlainWord(c) && PlainWord(d)
    ensures CleanText(a + "<" + b + " " + c + ">" + d) == a + d
  {
    var s := a + "<" + b + " " + c + ">" + d;
    assert s == a + ("<" + (b + " " + c) + ">" + d);
    calc {
      StripTags(s);
      { KeepsPlainPrefix(a, "<" + (b + " " + c) + ">" + d); }
      a + StripTags("<" + (b + " " + c) + ">" + d);
      { TagThenRest(b + " " + c, d); }
      a + StripTags(d);
      { NoOpenerUnchanged(d); }
      a + d;
    }
    assert IsWord(a + d);
    WordsOfWord(a + d);
  }

  /** An element's opening and closing tags are removed and the text between
      them is kept: the text cleans as it would without them. */
  lemma CleanTextUnwraps(name: string, text: string)
    requires '>' !in name && '\n' !in name && '<' !in text
    ensures CleanText("<" + name + ">" + text + "</" + name + ">") == CleanText(text)
  {
    var close := "<" + ("/" + name) + ">";
    var e: string := [];
    assert "<" + name + ">" + text + "</" + name + ">" == "<" + name + ">" + (text + (close + e));
    TagThenRest(name, text + (close + e));
    NoOpenerUnchanged(text);
    KeepsPlainPrefix(text, close + e);
    TagThenRest("/" + name, e);
    assert text + [] == text;
  }

  /** A complete tag in front is removed and the rest is scanned on. */
  lemma TagThenRest(inner: string, rest: string)
    requires '>' !in inner && '\n' !in inner
    ensures StripTags("<" + inner + ">" + rest) == StripTags(rest)
  {
    var s := "<" + inner + ">" + rest;
    var k := |inner| + 1;
    assert s[0] == '<' && s[k] == '>';
    assert forall m | 1 <= m < k :: s[m] == inner[m - 1];
    assert TagStop(s, 1) == k;
    assert s[k + 1..] == rest;
  }

  // ---------------------------------------------------------------------------
  // clean_csv: dropping rows
  // ---------------------------------------------------------------------------

  /** Both cells `dropna(subset=['Content', 'URL'])` looks at are present. */
  predicate Present(r: Row) {
    r.url.Some? && r.content.Some?
  }

  /** What `drop_duplicates(subset=['URL', 'Content'])` compares; two missing
      cells count as equal. */
  function Key(r: Row): (Option<string>, Option<string>) {
    (r.url, r.content)
  }

  /** No row before position `i` has the key of row `i`. */
  predicate IsFirst(rows: seq<Row>, i: nat)
    requires i < |rows|
  {
    forall j | 0 <= j < i :: Key(rows[j]) != Key(rows[i])
  }

  /** `drop_duplicates(subset=['URL', 'Content'])`: keeps the first row of
      each key, in order. */
  function DropDuplicates(rows: seq<Row>): (r: seq<Row>)
    ensures |r| <= |rows|
    ensures forall x | x in r :: x in rows
    ensures forall p, q | 0 <= p < q < |r| :: Key(r[p]) != Key(r[q])
    decreases |rows|
  {
    if rows == [] then []
    else
      var n := |rows| - 1;
      var kept := DropDuplicates(rows[..n]);
      if IsFirst(rows, n) then
        NewKeyDiffers(kept, rows, n);
        kept + [rows[n]]
      else kept
  }

  lemma NewKeyDiffers(kept: seq<Row>, rows: seq<Row>, n: nat)
    requires n < |rows| && IsFirst(rows, n)
    requires forall x | x in kept :: x in rows[..n]
    ensures forall p | 0 <= p < |kept| :: Key(kept[p]) != Key(rows[n])
  {
    forall p | 0 <= p < |kept| ensures Key(kept[p]) != Key(rows[n]) {
      assert kept[p] in rows[..n];
      var j :| 0 <= j < n && rows[..n][j] == kept[p];
      assert rows[j] == kept[p];
    }
  }

  /** `dropna(subset=['Content', 'URL'])`: keeps the rows with both cells
      present, in order. */
  function DropNa(rows: seq<Row>): (r: seq<Row>)
    ensures |r| <= |rows|
    decreases |rows|
  {
    if rows == [] then []
    else
      var n := |rows| - 1;
      DropNa(rows[..n]) + (if Present(rows[n]) then [rows[n]] else [])
  }

  /** `dropna` keeps exactly the rows with both cells present. */
  lemma {:induction false} DropNaMembers(rows: seq<Row>)
    ensures forall x :: x in DropNa(rows) <==> x in rows && Present(x)
    decreases |rows|
  {
    if rows != [] {
      var n := |rows| - 1;
      DropNaMembers(rows[..n]);
      assert rows == rows[..n] + [rows[n]];
    }
  }

  /** The positions of the rows both drops keep, in increasing order: exactly
      the rows with both cells present that are the first with their key. */
  function Survivors(rows: seq<Row>): (idx: seq<nat>)
    ensures |idx| <= |rows|
    ensures forall p | 0 <= p < |idx| :: idx[p] < |rows|
    ensures forall p, q | 0 <= p < q < |idx| :: idx[p] < idx[q]
    ensures forall i | 0 <= i < |rows| :: i in idx <==> Present(rows[i]) && IsFirst(rows, i)
    decreases |rows|
  {
    if rows == [] then []
    else
      var n := |rows| - 1;
      assert forall i | 0 <= i < n :: IsFirst(rows[..n], i) == IsFirst(rows, i);
      Survivors(rows[..n]) + (if Present(rows[n]) && IsFirst(rows, n) then [n] else [])
  }

  /** The rows at the given positions, in the given order. */
  function Select(rows: seq<Row>, idx: seq<nat>): seq<Row>
    requires forall p | 0 <= p < |idx| :: idx[p] < |rows|
  {
    seq(|idx|, p requires 0 <= p < |idx| => rows[idx[p]])
  }

  lemma {:induction false} DropNaAppend(a: seq<Row>, b: seq<Row>)
    ensures DropNa(a + b) == DropNa(a) + DropNa(b)
    decreases |b|
  {
    if b == [] {
      assert a + b == a;
    } else {
      var m := |b| - 1;
      DropNaAppend(a, b[..m]);
      assert (a + b)[..|a + b| - 1] == a + b[..m];
      assert (a + b)[|a + b| - 1] == b[m];
      AppendAssoc(DropNa(a), DropNa(b[..m]), if Present(b[m]) then [b[m]] else []);
    }
  }

  /** The two drops, in the order the code applies them, keep exactly the
      survivors, in their original order. */
  lemma {:induction false} DropsSelectSurvivors(rows: seq<Row>)
    ensures DropNa(DropDuplicates(rows)) == Select(rows, Survivors(rows))
    decreases |rows|
  {
    if rows != [] {
      var n := |rows| - 1;
      var init := rows[..n];
      var s := Survivors(init);
      var last: seq<Row> := if IsFirst(rows, n) then [rows[n]] else [];
      var tail: seq<nat> := if Present(rows[n]) && IsFirst(rows, n) then [n] else [];
      calc {
        DropNa(DropDuplicates(rows));
        { DropDuplicatesLast(rows); }
        DropNa(DropDuplicates(init) + last);
        { DropNaAppend(DropDuplicates(init), last); }
        DropNa(DropDuplicates(init)) + DropNa(last);
        { DropsSelectSurvivors(init); }
        Select(init, s) + DropNa(last);
        { SelectPrefix(rows, n, s); }
        Select(rows, s) + DropNa(last);
        { LastSurvivor(rows); }
        Select(rows, s) + Select(rows, tail);
        { SelectAppend(rows, s, tail); }
        Select(rows, s + tail);
      }
    }
  }

  lemma DropDuplicatesLast(rows: seq<Row>)
    requires rows != []
    ensures var n := |rows| - 1;
      DropDuplicates(rows) == DropDuplicates(rows[..n]) + if IsFirst(rows, n) then [rows[n]] else []
  {
  }

  lemma LastSurvivor(rows: seq<Row>)
    requires rows != []
    ensures var n := |rows| - 1;
      DropNa(if IsFirst(rows, n) then [rows[n]] else [])
      == Select(rows, if Present(rows[n]) && IsFirst(rows, n) then [n] else [])
  {
    var n := |rows| - 1;
    DropNaSingle(rows[n]);
  }

  lemma DropNaSingle(x: Row)
    ensures DropNa([x]) == if Present(x) then [x] else []
  {
    assert [x][..0] == [];
  }

  lemma SelectPrefix(rows: seq<Row>, n: nat, idx: seq<nat>)
    requires n <= |rows|
    requires forall p | 0 <= p < |idx| :: idx[p] < n
    ensures Select(rows[..n], idx) == Select(rows, idx)
  {
  }

  lemma SelectAppend(rows: seq<Row>, a: seq<nat>, b: seq<nat>)
    requires forall p | 0 <= p < |a| :: a[p] < |rows|
    requires forall p | 0 <= p < |b| :: b[p] < |rows|
    ensures Select(rows, a + b) == Select(rows, a) + Select(rows, b)
  {
  }

  /** Dropping duplicates first and missing cells second (as the code does)
      or the other way round gives the same rows: a row with a missing key
      cell can only shadow another such row. */
  lemma {:induction false} DropsCommute(rows: seq<Row>)
    ensures DropNa(DropDuplicates(rows)) == DropDuplicates(DropNa(rows))
    decreases |rows|
  {
    if rows != [] {
      var n := |rows| - 1;
      var init, x := rows[..n], rows[n];
      var d := DropNa(init);
      var last: seq<Row> := if IsFirst(rows, n) then [x] else [];
      assert rows == init + [x];
      calc {
        DropNa(DropDuplicates(rows));
        { DropDuplicatesLast(rows); }
        DropNa(DropDuplicates(init) + last);
        { DropNaAppend(DropDuplicates(init), last); }
        DropNa(DropDuplicates(init)) + DropNa(last);
        { DropsCommute(init); }
        DropDuplicates(d) + DropNa(last);
        { DropNaSingle(x);
          DedupAfterDropNa(init, x); }
        DropDuplicates(d + DropNa([x]));
        { DropNaAppend(init, [x]); }
        DropDuplicates(DropNa(rows));
      }
    }
  }

  lemma DedupAfterDropNa(init: seq<Row>, x: Row)
    ensures var rows := init + [x];
      var last: seq<Row> := if IsFirst(rows, |init|) then [x] else [];
      DropDuplicates(DropNa(init)) + DropNa(last)
      == DropDuplicates(DropNa(init) + DropNa([x]))
  {
    var d := DropNa(init);
    DropNaSingle(x);
    if Present(x) {
      FirstAmongPresent(init, x);
      DropDuplicatesLast(d + [x]);
      assert (d + [x])[..|d|] == d;
    } else {
      assert d + [] == d;
    }
  }

  /** For a row with both key cells present, having a new key among all
      earlier rows is the same as having one among the earlier rows that
      survive `dropna`. */
  lemma FirstAmongPresent(init: seq<Row>, x: Row)
    requires Present(x)
    ensures IsFirst(init + [x], |init|) <==> IsFirst(DropNa(init) + [x], |DropNa(init)|)
  {
    var d := DropNa(init);
    var rows, rows' := init + [x], d + [x];
    DropNaMembers(init);
    if !IsFirst(rows, |init|) {
      var j :| 0 <= j < |init| && Key(rows[j]) == Key(x);
      assert init[j] in d;
      var k :| 0 <= k < |d| && d[k] == init[j];
      assert Key(rows'[k]) == Key(x);
    }
    if !IsFirst(rows', |d|) {
      var k :| 0 <= k < |d| && Key(rows'[k]) == Key(x);
      assert d[k] in init;
      var j :| 0 <= j < |init| && init[j] == d[k];
      assert Key(rows[j]) == Key(x);
    }
  }

  /** Every key of a row with both cells present is kept by its first
      occurrence, which is at or before that row. */
  lemma {:induction false} EveryKeyKept(rows: seq<Row>, i: nat)
    requires i < |rows| && Present(rows[i])
    ensures exists p | 0 <= p < |Survivors(rows)| ::
      Survivors(rows)[p] <= i && Key(rows[Survivors(rows)[p]]) == Key(rows[i])
    decreases i
  {
    var s := Survivors(rows);
    if IsFirst(rows, i) {
      var p :| 0 <= p < |s| && s[p] == i;
    } else {
      var j :| 0 <= j < i && Key(rows[j]) == Key(rows[i]);
      EveryKeyKept(rows, j);
    }
  }

  // ---------------------------------------------------------------------------
  // clean_csv: rewriting columns
  // ---------------------------------------------------------------------------

  /** `f` on a present cell; a missing cell stays missing (how the `.str`
      methods and the strip in `applymap` treat NaN). */
  function MapCell(cell: Option<string>, f: string -> string): Option<string> {
    match cell
    case None => None
    case Some(v) => Some(f(v))
  }

  /** `df[c] = df[c].fillna(v)`. */
  function FillNaColumn(rows: seq<Row>, c: Column, v: string): seq<Row> {
    seq(|rows|, i requires 0 <= i < |rows| => Set(rows[i], c, Some(Get(rows[i], c).GetOr(v))))
  }

  /** `df[c] = df[c].apply(f)` and `df[c] = df[c].str.f()`. */
  function MapColumn(rows: seq<Row>, c: Column, f: string -> string): seq<Row> {
    seq(|rows|, i requires 0 <= i < |rows| => Set(rows[i], c, MapCell(Get(rows[i], c), f)))
  }

  /** `df.applymap(lambda x: x.strip() if isinstance(x, str) else x)` on one
      row. */
  function StripRow(r: Row): Row {
    Row(MapCell(r.url, Strip), MapCell(r.contentType, Strip), MapCell(r.topic, Strip),
        MapCell(r.subTopic, Strip), MapCell(r.content, Strip))
  }

  function StripAll(rows: seq<Row>): seq<Row> {
    seq(|rows|, i requires 0 <= i < |rows| => StripRow(rows[i]))
  }

  /** The column rewrites of `clean_csv`, in the order the code applies them. */
  function ColumnSteps(rows: seq<Row>): (out: seq<Row>)
    ensures |out| == |rows|
    ensures forall i | 0 <= i < |out| :: out[i].topic.Some? && out[i].subTopic.Some?
    ensures forall i | 0 <= i < |out| ::
      && (out[i].url.Some? <==> rows[i].url.Some?)
      && (out[i].content.Some? <==> rows[i].content.Some?)
      && (out[i].contentType.Some? <==> rows[i].contentType.Some?)
  {
    var df := FillNaColumn(rows, Topic, "Unknown");
    var df := FillNaColumn(df, SubTopic, "Unknown");
    var df := MapColumn(df, Content, CleanText);
    var df := MapColumn(df, Topic, Title);
    var df := MapColumn(df, SubTopic, Title);
    var df := MapColumn(df, ContentType, Lower);
    StripAll(df)
  }

  predicate NoUpper(s: string) {
    forall i | 0 <= i < |s| :: !IsUpper(s[i])
  }

  /** The shape every cleaned row has. */
  predicate IsCleanRow(c: Row) {
    && Present(c) && c.topic.Some? && c.subTopic.Some?
    && NoEdgeSpace(c.url.value)
    && Normalized(c.content.value)
    && TitleCased(c.topic.value) && NoEdgeSpace(c.topic.value)
    && TitleCased(c.subTopic.value) && NoEdgeSpace(c.subTopic.value)
    && (c.contentType.Some? ==> NoUpper(c.contentType.value) && NoEdgeSpace(c.contentType.value))
  }

  /** What cleaning does to one surviving row, cell by cell. */
  function CleanRow(r: Row): (c: Row)
    requires Present(r)
    ensures IsCleanRow(c)
    ensures c.url == Some(Strip(r.url.value))
    ensures c.content == Some(CleanText(r.content.value))
    ensures r.topic.None? ==> c.topic == Some("Unknown")
    ensures r.subTopic.None? ==> c.subTopic == Some("Unknown")
    ensures r.topic.Some? ==> c.topic == Some(Strip(Title(r.topic.value)))
    ensures r.subTopic.Some? ==> c.subTopic == Some(Strip(Title(r.subTopic.value)))
    ensures r.contentType.Some? ==> c.contentType == Some(Strip(Lower(r.contentType.value)))
    ensures c.contentType.None? <==> r.contentType.None?
  {
    UnknownIsClean();
    var topic := Strip(Title(r.topic.GetOr("Unknown")));
    var subTopic := Strip(Title(r.subTopic.GetOr("Unknown")));
    StripKeepsTitleCased(Title(r.topic.GetOr("Unknown")));
    StripKeepsTitleCased(Title(r.subTopic.GetOr("Unknown")));
    var contentType :=
      if r.contentType.Some? then
        StripKeepsLower(Lower(r.contentType.value));
        Some(Strip(Lower(r.contentType.value)))
      else None;
    Row(Some(Strip(r.url.value)), contentType, Some(topic), Some(subTopic),
        Some(CleanText(r.content.value)))
  }

  /** A raw row with markup in its content, no topic and a capitalised
      content type, cleaned. */
  lemma CleanRowExample()
    ensures CleanRow(Row(Some("http://x"), Some("Dynamic"), None, Some("Anxiety"),
                         Some("<p>Hello world</p>")))
      == Row(Some("http://x"), Some("dynamic"), Some("Unknown"), Some("Anxiety"),
             Some("Hello world"))
  {
    VisibleWord("http://x");
    StripKeepsTrimmed("http://x");
    LowerExample();
    TitleExample();
    UnknownIsClean();
    ContentExample();
  }

  lemma LowerExample()
    ensures Strip(Lower("Dynamic")) == "dynamic"
  {
    assert Lower("Dynamic") == "dynamic";
    VisibleWord("dynamic");
    StripKeepsTrimmed("dynamic");
  }

  lemma TitleExample()
    ensures Strip(Title("Anxiety")) == "Anxiety"
  {
    CapitalisedWord("Anxiety");
    TitleKeepsTitleCased("Anxiety");
    VisibleWord("Anxiety");
    StripKeepsTrimmed("Anxiety");
  }

  lemma ContentExample()
    ensures CleanText("<p>Hello world</p>") == "Hello world"
  {
    assert "<p>Hello world</p>" == "<" + "p" + ">" + "Hello world" + "</" + "p" + ">";
    CleanTextUnwraps("p", "Hello world");
    HelloWorldNormalized();
    CleanTextKeepsCleanText("Hello world");
  }

  lemma HelloWorldNormalized()
    ensures Normalized("Hello world") && '<' !in "Hello world"
  {
    VisibleWord("Hello");
    VisibleWord("world");
    JoinNormalized(["Hello", "world"]);
    assert Join(["Hello", "world"]) == "Hello world";
  }

  lemma UnknownIsClean()
    ensures Strip(Title("Unknown")) == "Unknown"
  {
    UnknownIsTitleCased();
    TitleKeepsTitleCased("Unknown");
    UnknownIsTrimmed();
    StripKeepsTrimmed("Unknown");
  }

  lemma UnknownIsTitleCased()
    ensures TitleCased("Unknown")
  {
  }

  lemma UnknownIsTrimmed()
    ensures NoEdgeSpace("Unknown")
  {
    assert !IsSpace('U') && !IsSpace('n');
  }

  /** The column-by-column rewrites agree with `CleanRow` on every row with
      both cells present. */
  lemma ColumnStepsAreCleanRow(rows: seq<Row>)
    requires forall i | 0 <= i < |rows| :: Present(rows[i])
    ensures |ColumnSteps(rows)| == |rows|
    ensures forall i | 0 <= i < |rows| :: ColumnSteps(rows)[i] == CleanRow(rows[i])
  {
    forall i | 0 <= i < |rows| ensures ColumnSteps(rows)[i] == CleanRow(rows[i]) {
      ColumnStepsOnRow(rows, i);
    }
  }

  lemma ColumnStepsOnRow(rows: seq<Row>, i: nat)
    requires i < |rows| && Present(rows[i])
    ensures ColumnSteps(rows)[i] == CleanRow(rows[i])
  {
    var r := rows[i];
    var d1 := FillNaColumn(rows, Topic, "Unknown");
    var d2 := FillNaColumn(d1, SubTopic, "Unknown");
    var d3 := MapColumn(d2, Content, CleanText);
    var d4 := MapColumn(d3, Topic, Title);
    var d5 := MapColumn(d4, SubTopic, Title);
    var d6 := MapColumn(d5, ContentType, Lower);
    assert d2[i] == r.(topic := Some(r.topic.GetOr("Unknown")), subTopic := Some(r.subTopic.GetOr("Unknown")));
    assert d4[i] == d2[i].(content := Some(CleanText(r.content.value)),
      topic := Some(Title(r.topic.GetOr("Unknown"))));
    assert d6[i] == d4[i].(subTopic := Some(Title(r.subTopic.GetOr("Unknown"))),
      contentType := MapCell(r.contentType, Lower));
    assert ColumnSteps(rows)[i] == StripRow(d6[i]);
    StripKeepsTrimmed(CleanText(r.content.value));
  }

  /** The rows `clean_csv` writes: each survivor, cleaned, in order. */
  function Cleaned(rows: seq<Row>): (out: seq<Row>)
    ensures |out| <= |rows|
    ensures forall p | 0 <= p < |out| :: IsCleanRow(out[p])
  {
    var s := Survivors(rows);
    seq(|s|, p requires 0 <= p < |s| => CleanRow(rows[s[p]]))
  }

  /** The column rewrites applied to what the drops keep give `Cleaned`. */
  lemma CleanedIsColumnSteps(rows: seq<Row>)
    ensures ColumnSteps(DropNa(DropDuplicates(rows))) == Cleaned(rows)
  {
    var s := Survivors(rows);
    var kept := Select(rows, s);
    DropsSelectSurvivors(rows);
    SelectedArePresent(rows, s);
    ColumnStepsAreCleanRow(kept);
    forall p | 0 <= p < |kept| ensures ColumnSteps(kept)[p] == Cleaned(rows)[p] {
      assert kept[p] == rows[s[p]];
    }
  }

  lemma SelectedArePresent(rows: seq<Row>, s: seq<nat>)
    requires s == Survivors(rows)
    ensures forall p | 0 <= p < |s| :: Present(Select(rows, s)[p])
  {
    forall p | 0 <= p < |s| ensures Present(Select(rows, s)[p]) {
      assert s[p] in s;
    }
  }

  // ---------------------------------------------------------------------------
  // clean_csv
  // ---------------------------------------------------------------------------

  datatype CleanError =
    | KeyError(missing: set<string>)  // `df[name]` on a column the file lacks
    | AttributeError                  // `.str` on a column that holds no text

  /** The key columns `drop_duplicates` finds missing; it reports them all. */
  function MissingKeyColumns(t: Table): set<string> {
    set n | n in ["URL", "Content"] && n !in t.columns
  }

  /** Column `c` has rows but no value in any of them. `read_csv` gives such a
      column the type float64, and the `.str` accessor refuses it; a file
      without rows gives every column the type object. */
  predicate NoText(rows: seq<Row>, c: Column) {
    |rows| > 0 && forall i | 0 <= i < |rows| :: Get(rows[i], c).None?
  }

  /** A `.str` call of `clean_csv` meets a float64 column. `fillna("Unknown")`
      turns Topic and Sub Topic into text unless no row survives the drops
      (clean_csv.py:50-51); nothing changes the type of Content Type
      (clean_csv.py:55). */
  predicate StrAccessorFails(t: Table) {
    || (DropNa(DropDuplicates(t.rows)) == [] && (NoText(t.rows, Topic) || NoText(t.rows, SubTopic)))
    || NoText(t.rows, ContentType)
  }

  /** `clean_csv` from the loaded table to the table it saves. */
  method CleanCsv(table: Table) returns (result: Result<seq<Row>, CleanError>)
    ensures result.Failure? <==> !HasAllColumns(table) || StrAccessorFails(table)
    ensures result.Failure? && result.error.KeyError? ==>
      && !HasAllColumns(table)
      && result.error.missing != {}
      && forall n | n in result.error.missing :: n in RequiredNames && n !in table.columns
    ensures result == Failure(AttributeError) ==> StrAccessorFails(table)
    ensures HasAllColumns(table) && StrAccessorFails(table) ==> result == Failure(AttributeError)
    ensures MissingKeyColumns(table) != {} ==> result == Failure(KeyError(MissingKeyColumns(table)))
    ensures result.Success? ==> result.value == Cleaned(table.rows)
  {
    var missing := MissingKeyColumns(table);
    KeyColumnsPresent(table);
    if missing != {} {
      return Failure(KeyError(missing));
    }
    var df := DropDuplicates(table.rows);
    df := DropNa(df);
    ghost var survivors := df;
    if !HasColumn(table, Topic) {
      return Failure(KeyError({"Topic"}));
    }
    var topicIsText := df != [] || !NoText(table.rows, Topic);
    df := FillNaColumn(df, Topic, "Unknown");
    if !HasColumn(table, SubTopic) {
      return Failure(KeyError({"Sub Topic"}));
    }
    var subTopicIsText := df != [] || !NoText(table.rows, SubTopic);
    df := FillNaColumn(df, SubTopic, "Unknown");
    df := MapColumn(df, Content, CleanText);
    if !topicIsText {
      return Failure(AttributeError);
    }
    df := MapColumn(df, Topic, Title);
    if !subTopicIsText {
      return Failure(AttributeError);
    }
    df := MapColumn(df, SubTopic, Title);
    if !HasColumn(table, ContentType) {
      return Failure(KeyError({"Content Type"}));
    }
    if NoText(table.rows, ContentType) {
      return Failure(AttributeError);
    }
    df := MapColumn(df, ContentType, Lower);
    df := StripAll(df);
    assert df == ColumnSteps(survivors);
    CleanedIsColumnSteps(table.rows);
    AllColumnsPresent(table);
    return Success(df);
  }

  /** The key columns are missing exactly when `MissingKeyColumns` names
      some, and it names only required columns that are absent. */
  lemma KeyColumnsPresent(t: Table)
    ensures MissingKeyColumns(t) == {} <==> HasColumn(t, Url) && HasColumn(t, Content)
    ensures forall n | n in MissingKeyColumns(t) :: n in RequiredNames && n !in t.columns
  {
    if !HasColumn(t, Url) {
      assert "URL" in MissingKeyColumns(t);
    }
    if !HasColumn(t, Content) {
      assert "Content" in MissingKeyColumns(t);
    }
  }

  lemma AllColumnsPresent(t: Table)
    requires HasColumn(t, Url) && HasColumn(t, ContentType) && HasColumn(t, Topic)
    requires HasColumn(t, SubTopic) && HasColumn(t, Content)
    ensures HasAllColumns(t)
  {
    forall c: Column ensures HasColumn(t, c) {
      match c
      case Url =>
      case ContentType =>
      case Topic =>
      case SubTopic =>
      case Content =>
    }
  }

  // ---------------------------------------------------------------------------
  // Cleaning twice
  // ---------------------------------------------------------------------------

  /** Two rows with the same URL whose contents differ only in tags or
      whitespace both survive the first pass (their raw keys differ) but
      have the same key once cleaned, so a second pass drops one of them:
      cleaning a cleaned table can change it. */
  lemma CleanedNotIdempotent(x: Row, y: Row)
    requires Present(x) && Present(y) && x.url == y.url && x.content != y.content
    requires CleanText(x.content.value) == CleanText(y.content.value)
    ensures |Cleaned([x, y])| == 2
    ensures |Cleaned(Cleaned([x, y]))| == 1
  {
    DistinctKeysKept(x, y);
    var out := Cleaned([x, y]);
    assert Key(out[0]) == Key(out[1]);
    SameKeyDropped(out);
  }

  /** Two present rows with different keys both survive, in order. */
  lemma DistinctKeysKept(x: Row, y: Row)
    requires Present(x) && Present(y) && Key(x) != Key(y)
    ensures |Cleaned([x, y])| == 2
    ensures Cleaned([x, y])[0] == CleanRow(x) && Cleaned([x, y])[1] == CleanRow(y)
  {
    var rows := [x, y];
    var s := Survivors(rows);
    assert IsFirst(rows, 1) by {
      assert Key(rows[0]) != Key(rows[1]);
    }
    assert 0 in s && 1 in s;
    TwoOfTwo(s);
    assert s[0] < s[1] < 2;
  }

  /** Of two present rows with the same key only the first survives. */
  lemma SameKeyDropped(rows: seq<Row>)
    requires |rows| == 2 && Present(rows[0]) && Present(rows[1])
    requires Key(rows[0]) == Key(rows[1])
    ensures |Cleaned(rows)| == 1
  {
    var s := Survivors(rows);
    assert !IsFirst(rows, 1);
    assert 0 in s && 1 !in s;
    OneOfTwo(s);
  }

  lemma TwoOfTwo(s: seq<nat>)
    requires forall p | 0 <= p < |s| :: s[p] < 2
    requires forall p, q | 0 <= p < q < |s| :: s[p] < s[q]
    requires 0 in s && 1 in s
    ensures |s| == 2
  {
    IncreasingFromIndex(s, |s| - 1);
  }

  lemma OneOfTwo(s: seq<nat>)
    requires forall p | 0 <= p < |s| :: s[p] < 2
    requires forall p, q | 0 <= p < q < |s| :: s[p] < s[q]
    requires 0 in s && 1 !in s
    ensures |s| == 1
  {
    IncreasingFromIndex(s, |s| - 1);
  }

  /** In a strictly increasing sequence of naturals each element is at least
      its index. */
  lemma {:induction false} IncreasingFromIndex(s: seq<nat>, p: nat)
    requires forall p, q | 0 <= p < q < |s| :: s[p] < s[q]
    requires p < |s|
    ensures p <= s[p]
    decreases p
  {
    if p > 0 {
      IncreasingFromIndex(s, p - 1);
    }
  }

  /** Text without a `'<'` and already in the whitespace normal form is left
      as it is. */
  lemma CleanTextKeepsCleanText(s: string)
    requires Normalized(s) && '<' !in s
    ensures CleanText(s) == s
  {
    NoOpenerUnchanged(s);
    NormalizedIsJoinedWords(s);
  }
}
