/** The chunking stage: `split_into_chunks` on one text and `process_csv`,
    which turns every row of the cleaned table into one record per chunk. */
module Chunking {
  import opened Text
  import opened Tables

  /** The chunk size `process_csv` and `split_into_chunks` use by default. */
  const DefaultChunkSize: nat := 200

  function Min(a: int, b: int): int {
    if a <= b then a else b
  }

  // ---------------------------------------------------------------------------
  // range(start, stop, step)
  // ---------------------------------------------------------------------------

  /** `range(start, stop, step)` for a positive step: `start`, then every
      `step` further on, while below `stop`. */
  function Range(start: nat, stop: nat, step: nat): (r: seq<nat>)
    requires step > 0
    ensures forall j | 0 <= j < |r| :: start <= r[j] < stop
    ensures |r| > 0 <==> start < stop
    ensures |r| > 0 ==> r[0] == start && stop <= r[|r| - 1] + step
    ensures forall j | 0 <= j < |r| - 1 :: r[j + 1] == r[j] + step
    decreases stop - start
  {
    if start >= stop then []
    else
      var rest := Range(start + step, stop, step);
      assert forall j | 1 <= j < |rest| + 1 :: ([start] + rest)[j] == rest[j - 1];
      [start] + rest
  }

  /** The length of `range(start, stop, step)` lies between
      `(stop - start) / step` and that plus one. */
  lemma {:induction false} RangeLength(start: nat, stop: nat, step: nat)
    requires step > 0
    ensures LengthBounds(|Range(start, stop, step)|, stop - start, step)
    decreases stop - start
  {
    if start < stop {
      var m := |Range(start + step, stop, step)|;
      RangeLength(start + step, stop, step);
      assert |Range(start, stop, step)| == m + 1;
      MulSucc(m, step);
    }
  }

  /** `m` steps of size `step` reach `d`, and `m - 1` fall short of it. */
  predicate LengthBounds(m: nat, d: int, step: nat) {
    m * step >= d && (m > 0 ==> (m - 1) * step < d)
  }

  lemma MulSucc(m: nat, step: nat)
    ensures (m + 1) * step == m * step + step
  {
  }

  /** The number of starting positions, `ceil(n / k)`, as Python's integer
      arithmetic writes it. */
  lemma CeilDiv(n: nat, k: nat, m: nat)
    requires k > 0
    requires m * k >= n
    requires m == 0 || (m - 1) * k < n
    ensures m == (n + k - 1) / k
  {
    var q, r := (n + k - 1) / k, (n + k - 1) % k;
    assert n + k - 1 == q * k + r && 0 <= r < k;
    assert (m + 1) * k == m * k + k;
    MulLess(q, m + 1, k);
    if m > 0 {
      assert (m - 1) * k == m * k - k;
      assert (q + 1) * k == q * k + k;
      MulLess(m, q + 1, k);
    }
  }

  /** `len(range(0, n, k)) == ceil(n / k)`. */
  lemma RangeCount(n: nat, k: nat)
    requires k > 0
    ensures |Range(0, n, k)| == (n + k - 1) / k
  {
    RangeLength(0, n, k);
    CeilDiv(n, k, |Range(0, n, k)|);
  }

  lemma MulLess(a: int, b: int, k: nat)
    requires k > 0 && a * k < b * k
    ensures a < b
  {
  }

  // ---------------------------------------------------------------------------
  // split_into_chunks
  // ---------------------------------------------------------------------------

  /** `words[i:i + chunk_size]` (the slice stops at the end of `words`). */
  function Group(words: seq<string>, i: nat, chunkSize: nat): seq<string>
    requires i <= |words|
  {
    words[i..Min(i + chunkSize, |words|)]
  }

  /** The groups for the given starting positions, in order. */
  function Groups(words: seq<string>, starts: seq<nat>, chunkSize: nat): seq<seq<string>>
    requires forall j | 0 <= j < |starts| :: starts[j] <= |words|
  {
    seq(|starts|, j requires 0 <= j < |starts| => Group(words, starts[j], chunkSize))
  }

  /** `split_into_chunks(text, chunk_size)`: the words of `text`, in groups of
      `chunk_size`, each group joined by single spaces. */
  function SplitIntoChunks(text: string, chunkSize: nat := DefaultChunkSize): (chunks: seq<string>)
    requires chunkSize > 0
    ensures chunks == [] <==> AllSpace(text)
  {
    var words := Words(text);
    var starts := Range(0, |words|, chunkSize);
    seq(|starts|, j requires 0 <= j < |starts| => Join(Group(words, starts[j], chunkSize)))
  }

  /** With the default size, a text of 450 words gives three chunks of 200,
      200 and 50 words. */
  lemma FourHundredFiftyWords(text: string)
    requires |Words(text)| == 450
    ensures var chunks := SplitIntoChunks(text);
      && |chunks| == 3
      && |Words(chunks[0])| == 200 && |Words(chunks[1])| == 200 && |Words(chunks[2])| == 50
  {
    var k := DefaultChunkSize;
    var chunks := SplitIntoChunks(text, k);
    ChunkCount(text, k);
    MulSucc(2, k);
    assert |chunks| == 3;
    ChunkSizes(text, k);
    ChunkWords(text, k);
    var starts := Range(0, 450, k);
    assert starts[1] == 200 && starts[2] == 400;
    GroupSize(Words(text), 400, k);
  }

  /** Every chunk is non-empty text in whitespace normal form. */
  lemma ChunksNormalized(text: string, chunkSize: nat)
    requires chunkSize > 0
    ensures var chunks := SplitIntoChunks(text, chunkSize);
      forall j | 0 <= j < |chunks| :: chunks[j] != [] && Normalized(chunks[j])
  {
    var words := Words(text);
    var starts := Range(0, |words|, chunkSize);
    WordsAreWords(text);
    JoinedGroupsNormalized(words, starts, chunkSize);
  }

  /** `len(split_into_chunks(text, k))` is `ceil(len(text.split()) / k)`: the
      fewest groups of `k` that hold every word. */
  lemma ChunkCount(text: string, chunkSize: nat)
    requires chunkSize > 0
    ensures LengthBounds(|SplitIntoChunks(text, chunkSize)|, |Words(text)|, chunkSize)
  {
    ChunkCountIsRange(text, chunkSize);
    RangeLength(0, |Words(text)|, chunkSize);
  }

  lemma ChunkCountIsRange(text: string, chunkSize: nat)
    requires chunkSize > 0
    ensures |SplitIntoChunks(text, chunkSize)| == |Range(0, |Words(text)|, chunkSize)|
  {
  }


  lemma JoinedGroupsNormalized(words: seq<string>, starts: seq<nat>, chunkSize: nat)
    requires AllWords(words)
    requires forall j | 0 <= j < |starts| :: starts[j] < |words|
    requires chunkSize > 0
    ensures forall j | 0 <= j < |starts| :: GroupOk(words, starts[j], chunkSize)
  {
    forall j | 0 <= j < |starts| ensures GroupOk(words, starts[j], chunkSize) {
      var g := Group(words, starts[j], chunkSize);
      assert g[0] == words[starts[j]];
      JoinNormalized(g);
    }
  }

  /** The group at `i` is a non-empty list of words and joins to a non-empty
      normalized text. */
  predicate GroupOk(words: seq<string>, i: nat, chunkSize: nat)
    requires i <= |words|
  {
    var g := Group(words, i, chunkSize);
    g != [] && AllWords(g) && Join(g) != [] && Normalized(Join(g))
  }

  /** The words of each chunk are the words of its group. */
  lemma ChunkWords(text: string, chunkSize: nat)
    requires chunkSize > 0
    ensures var words := Words(text);
      var starts := Range(0, |words|, chunkSize);
      var chunks := SplitIntoChunks(text, chunkSize);
      forall j | 0 <= j < |chunks| :: Words(chunks[j]) == Group(words, starts[j], chunkSize)
  {
    var words := Words(text);
    var starts := Range(0, |words|, chunkSize);
    WordsAreWords(text);
    JoinedGroupsNormalized(words, starts, chunkSize);
    forall j | 0 <= j < |starts|
      ensures Words(Join(Group(words, starts[j], chunkSize))) == Group(words, starts[j], chunkSize)
    {
      WordsOfJoin(Group(words, starts[j], chunkSize));
    }
  }

  /** Every chunk but the last has exactly `chunk_size` words; the last has
      between one and `chunk_size`. */
  lemma ChunkSizes(text: string, chunkSize: nat)
    requires chunkSize > 0
    ensures var chunks := SplitIntoChunks(text, chunkSize);
      && (forall j | 0 <= j < |chunks| - 1 :: |Words(chunks[j])| == chunkSize)
      && (|chunks| > 0 ==> 0 < |Words(chunks[|chunks| - 1])| <= chunkSize)
  {
    ChunkWords(text, chunkSize);
    GroupSizes(Words(text), Range(0, |Words(text)|, chunkSize), chunkSize);
  }

  lemma GroupSizes(words: seq<string>, starts: seq<nat>, chunkSize: nat)
    requires chunkSize > 0 && starts == Range(0, |words|, chunkSize)
    ensures forall j | 0 <= j < |starts| - 1 :: |Group(words, starts[j], chunkSize)| == chunkSize
    ensures |starts| > 0 ==> 0 < |Group(words, starts[|starts| - 1], chunkSize)| <= chunkSize
  {
    forall j | 0 <= j < |starts| - 1
      ensures |Group(words, starts[j], chunkSize)| == chunkSize
    {
      assert starts[j + 1] == starts[j] + chunkSize;
      GroupSize(words, starts[j], chunkSize);
    }
    if |starts| > 0 {
      GroupSize(words, starts[|starts| - 1], chunkSize);
    }
  }

  lemma GroupSize(words: seq<string>, i: nat, chunkSize: nat)
    requires i <= |words|
    ensures i + chunkSize <= |words| ==> |Group(words, i, chunkSize)| == chunkSize
    ensures i + chunkSize > |words| ==> |Group(words, i, chunkSize)| == |words| - i
  {
  }

  /** The groups starting at `start` cover `words[start..]` exactly, in order. */
  lemma {:induction false} GroupsCover(words: seq<string>, start: nat, chunkSize: nat)
    requires chunkSize > 0 && start <= |words|
    ensures Flatten(Groups(words, Range(start, |words|, chunkSize), chunkSize)) == words[start..]
    decreases |words| - start
  {
    if start < |words| {
      var next := start + chunkSize;
      var rest := Range(next, |words|, chunkSize);
      var g := Group(words, start, chunkSize);
      calc {
        Flatten(Groups(words, Range(start, |words|, chunkSize), chunkSize));
        { assert Range(start, |words|, chunkSize) == [start] + rest;
          GroupsCons(words, start, rest, chunkSize); }
        Flatten([g] + Groups(words, rest, chunkSize));
        { FlattenCons(g, Groups(words, rest, chunkSize)); }
        g + Flatten(Groups(words, rest, chunkSize));
        { RestCovered(words, start, chunkSize); }
        words[start..];
      }
    } else {
      assert Groups(words, Range(start, |words|, chunkSize), chunkSize) == [];
    }
  }

  /** The groups after the first one cover what the first leaves. */
  lemma {:induction false} RestCovered(words: seq<string>, start: nat, chunkSize: nat)
    requires chunkSize > 0 && start < |words|
    ensures Group(words, start, chunkSize)
      + Flatten(Groups(words, Range(start + chunkSize, |words|, chunkSize), chunkSize))
      == words[start..]
    decreases |words| - start, 0
  {
    var next := start + chunkSize;
    var g := Group(words, start, chunkSize);
    if next < |words| {
      GroupsCover(words, next, chunkSize);
      GroupThenRest(words, start, next);
    } else {
      LastGroup(words, start, chunkSize);
    }
  }

  lemma GroupThenRest(words: seq<string>, start: nat, next: nat)
    requires start <= next <= |words|
    ensures Group(words, start, next - start) + words[next..] == words[start..]
  {
    assert Group(words, start, next - start) == words[start..next];
  }

  lemma LastGroup(words: seq<string>, start: nat, chunkSize: nat)
    requires chunkSize > 0 && start < |words| <= start + chunkSize
    ensures Group(words, start, chunkSize)
      + Flatten(Groups(words, Range(start + chunkSize, |words|, chunkSize), chunkSize))
      == words[start..]
  {
    assert Range(start + chunkSize, |words|, chunkSize) == [];
    assert Groups(words, [], chunkSize) == [];
    assert Group(words, start, chunkSize) == words[start..];
  }

  lemma GroupsCons(words: seq<string>, start: nat, rest: seq<nat>, chunkSize: nat)
    requires start <= |words| && forall j | 0 <= j < |rest| :: rest[j] <= |words|
    ensures Groups(words, [start] + rest, chunkSize)
      == [Group(words, start, chunkSize)] + Groups(words, rest, chunkSize)
  {
    var gs := Groups(words, [start] + rest, chunkSize);
    assert forall j | 1 <= j < |gs| :: gs[j] == Groups(words, rest, chunkSize)[j - 1];
  }

  /** No word is lost, duplicated or reordered: the words of the chunks, read
      in order, are the words of the text. */
  lemma ChunksKeepWords(text: string, chunkSize: nat)
    requires chunkSize > 0
    ensures Flatten(WordsOfEach(SplitIntoChunks(text, chunkSize))) == Words(text)
  {
    var words := Words(text);
    calc {
      Flatten(WordsOfEach(SplitIntoChunks(text, chunkSize)));
      { ChunksAreGroups(text, chunkSize); }
      Flatten(Groups(words, Range(0, |words|, chunkSize), chunkSize));
      { GroupsCover(words, 0, chunkSize); }
      words[0..];
      words;
    }
  }

  /** The words of each text, in order. */
  function WordsOfEach(texts: seq<string>): (r: seq<seq<string>>)
    ensures |r| == |texts|
  {
    seq(|texts|, j requires 0 <= j < |texts| => Words(texts[j]))
  }

  lemma ChunksAreGroups(text: string, chunkSize: nat)
    requires chunkSize > 0
    ensures WordsOfEach(SplitIntoChunks(text, chunkSize))
      == Groups(Words(text), Range(0, |Words(text)|, chunkSize), chunkSize)
  {
    ChunkWords(text, chunkSize);
  }

  /** Text without words gives no chunk; text with at most `chunk_size` words
      gives one chunk, the text in whitespace normal form. */
  lemma ShortTextOneChunk(text: string, chunkSize: nat)
    requires chunkSize > 0 && |Words(text)| <= chunkSize
    ensures var chunks := SplitIntoChunks(text, chunkSize);
      if Words(text) == [] then chunks == [] else chunks == [Join(Words(text))]
  {
    var words := Words(text);
    if words != [] {
      SingleStart(|words|, chunkSize);
      OneGroup(words, chunkSize);
    }
  }

  lemma SingleStart(n: nat, step: nat)
    requires 0 < n <= step
    ensures Range(0, n, step) == [0]
  {
    assert Range(step, n, step) == [];
  }

  lemma OneGroup(words: seq<string>, chunkSize: nat)
    requires |words| <= chunkSize
    ensures Group(words, 0, chunkSize) == words
  {
    assert Min(chunkSize, |words|) == |words|;
  }

  // ---------------------------------------------------------------------------
  // Records
  // ---------------------------------------------------------------------------

  /** One entry of the JSON output. */
  datatype ChunkRecord = ChunkRecord(
    id: string,
    url: Option<string>,
    contentType: Option<string>,
    topic: Option<string>,
    subTopic: Option<string>,
    content: string)

  /** `f"{idx}_{i}"`. Cutting the id at its first `_` and reading both halves
      as decimal numbers gives back `idx` and `i`. */
  function ChunkId(idx: nat, i: nat): (id: string)
    ensures var n := Find(id, '_');
      && n == |Decimal(idx)| < |id| && id[..n] == Decimal(idx) && id[n + 1..] == Decimal(i)
      && DecimalValue(id[..n]) == idx && DecimalValue(id[n + 1..]) == i
  {
    var a, b := Decimal(idx), Decimal(i);
    UnderscoreAfterDigits(a, "_" + b);
    DecimalRoundTrip(idx);
    DecimalRoundTrip(i);
    assert a + "_" + b == a + ("_" + b);
    a + "_" + b
  }

  /** Different (row, chunk) positions get different ids: both are read back
      from the id. */
  lemma ChunkIdInjective(idx: nat, i: nat, idx': nat, i': nat)
    requires ChunkId(idx, i) == ChunkId(idx', i')
    ensures idx == idx' && i == i'
  {
  }

  /** The position of the first `c` in `s`, or `|s|`. */
  function Find(s: string, c: char): (n: nat)
    ensures n <= |s|
  {
    if s == [] || s[0] == c then 0 else 1 + Find(s[1..], c)
  }

  lemma {:induction false} UnderscoreAfterDigits(digits: string, rest: string)
    requires forall i | 0 <= i < |digits| :: IsDigit(digits[i])
    requires rest != [] && rest[0] == '_'
    ensures Find(digits + rest, '_') == |digits|
    decreases |digits|
  {
    if digits == [] {
      assert digits + rest == rest;
    } else {
      assert (digits + rest)[1..] == digits[1..] + rest;
      UnderscoreAfterDigits(digits[1..], rest);
    }
  }

  /** The content chunks of one row. */
  function ChunksOf(row: Row, chunkSize: nat): seq<string>
    requires chunkSize > 0 && row.content.Some?
  {
    SplitIntoChunks(row.content.value, chunkSize)
  }

  /** The record for chunk `i` of row `idx`: the chunk with the row's
      metadata. */
  function RecordOf(idx: nat, row: Row, i: nat, chunkSize: nat): ChunkRecord
    requires chunkSize > 0 && row.content.Some? && i < |ChunksOf(row, chunkSize)|
  {
    ChunkRecord(ChunkId(idx, i), row.url, row.contentType, row.topic, row.subTopic,
      ChunksOf(row, chunkSize)[i])
  }

  /** The records of row `idx`, one per chunk, in order. */
  function RowRecords(idx: nat, row: Row, chunkSize: nat): seq<ChunkRecord>
    requires chunkSize > 0 && row.content.Some?
  {
    var n := |ChunksOf(row, chunkSize)|;
    seq(n, i requires 0 <= i < n => RecordOf(idx, row, i, chunkSize))
  }

  predicate HasContent(rows: seq<Row>) {
    forall i | 0 <= i < |rows| :: rows[i].content.Some?
  }

  /** The records of all rows: row by row, chunk by chunk. */
  function ChunkTable(rows: seq<Row>, chunkSize: nat): (t: seq<ChunkRecord>)
    requires chunkSize > 0 && HasContent(rows)
    ensures forall p | 0 <= p < |t| :: t[p].content != [] && Normalized(t[p].content)
    decreases |rows|
  {
    if rows == [] then []
    else
      var n := |rows| - 1;
      ChunksNormalized(rows[n].content.value, chunkSize);
      ChunkTable(rows[..n], chunkSize) + RowRecords(n, rows[n], chunkSize)
  }

  /** The (row, chunk) position of every record, in output order. */
  function Origins(rows: seq<Row>, chunkSize: nat): seq<(nat, nat)>
    requires chunkSize > 0 && HasContent(rows)
    decreases |rows|
  {
    if rows == [] then []
    else
      var n := |rows| - 1;
      var m := |ChunksOf(rows[n], chunkSize)|;
      Origins(rows[..n], chunkSize) + seq(m, i requires 0 <= i < m => (n, i))
  }

  /** Position `a` comes before position `b`: an earlier row, or the same row
      and an earlier chunk. */
  predicate Before(a: (nat, nat), b: (nat, nat)) {
    a.0 < b.0 || (a.0 == b.0 && a.1 < b.1)
  }

  /** Record `p` is chunk `Origins[p].1` of row `Origins[p].0`, with that
      row's metadata. */
  lemma {:induction false} ChunkTableOrigins(rows: seq<Row>, chunkSize: nat)
    requires chunkSize > 0 && HasContent(rows)
    ensures var o, t := Origins(rows, chunkSize), ChunkTable(rows, chunkSize);
      && |o| == |t|
      && forall p | 0 <= p < |o| ::
        && o[p].0 < |rows|
        && o[p].1 < |ChunksOf(rows[o[p].0], chunkSize)|
        && t[p] == RecordOf(o[p].0, rows[o[p].0], o[p].1, chunkSize)
    decreases |rows|
  {
    if rows != [] {
      var n := |rows| - 1;
      var m := |ChunksOf(rows[n], chunkSize)|;
      ChunkTableOrigins(rows[..n], chunkSize);
      var o, t := Origins(rows, chunkSize), ChunkTable(rows, chunkSize);
      var o', t' := Origins(rows[..n], chunkSize), ChunkTable(rows[..n], chunkSize);
      var tail: seq<(nat, nat)> := seq(m, i requires 0 <= i < m => (n, i));
      var recs := RowRecords(n, rows[n], chunkSize);
      assert o == o' + tail && t == t' + recs;
      OriginsAppend(rows, n, o', t', tail, recs, chunkSize);
    }
  }

  /** The step of `ChunkTableOrigins`: the prefix's records, then row `n`'s. */
  lemma OriginsAppend(rows: seq<Row>, n: nat, o': seq<(nat, nat)>, t': seq<ChunkRecord>,
                      tail: seq<(nat, nat)>, recs: seq<ChunkRecord>, chunkSize: nat)
    requires chunkSize > 0 && HasContent(rows) && n + 1 == |rows|
    requires |o'| == |t'|
    requires forall p | 0 <= p < |o'| ::
      && o'[p].0 < n
      && o'[p].1 < |ChunksOf(rows[..n][o'[p].0], chunkSize)|
      && t'[p] == RecordOf(o'[p].0, rows[..n][o'[p].0], o'[p].1, chunkSize)
    requires recs == RowRecords(n, rows[n], chunkSize)
    requires tail == seq(|recs|, i requires 0 <= i < |recs| => (n, i))
    ensures var o, t := o' + tail, t' + recs;
      && |o| == |t|
      && forall p | 0 <= p < |o| ::
        && o[p].0 < |rows|
        && o[p].1 < |ChunksOf(rows[o[p].0], chunkSize)|
        && t[p] == RecordOf(o[p].0, rows[o[p].0], o[p].1, chunkSize)
  {
    var o, t := o' + tail, t' + recs;
    forall p | 0 <= p < |o|
      ensures o[p].0 < |rows| && o[p].1 < |ChunksOf(rows[o[p].0], chunkSize)|
      ensures t[p] == RecordOf(o[p].0, rows[o[p].0], o[p].1, chunkSize)
    {
      if p < |o'| {
        OriginFromPrefix(rows, n, o'[p], chunkSize);
        assert o[p] == o'[p] && t[p] == t'[p];
      } else {
        assert o[p] == tail[p - |o'|] && t[p] == recs[p - |o'|];
      }
    }
  }

  lemma OriginFromPrefix(rows: seq<Row>, n: nat, pos: (nat, nat), chunkSize: nat)
    requires chunkSize > 0 && n <= |rows| && HasContent(rows)
    requires pos.0 < n && pos.1 < |ChunksOf(rows[..n][pos.0], chunkSize)|
    ensures pos.1 < |ChunksOf(rows[pos.0], chunkSize)|
    ensures RecordOf(pos.0, rows[..n][pos.0], pos.1, chunkSize)
      == RecordOf(pos.0, rows[pos.0], pos.1, chunkSize)
  {
    assert rows[..n][pos.0] == rows[pos.0];
  }

  /** Records come in order of their position, each position once. */
  lemma {:induction false} OriginsIncrease(rows: seq<Row>, chunkSize: nat)
    requires chunkSize > 0 && HasContent(rows)
    ensures forall p | 0 <= p < |Origins(rows, chunkSize)| :: Origins(rows, chunkSize)[p].0 < |rows|
    ensures forall p, q | 0 <= p < q < |Origins(rows, chunkSize)| ::
      Before(Origins(rows, chunkSize)[p], Origins(rows, chunkSize)[q])
    decreases |rows|
  {
    if rows != [] {
      var n := |rows| - 1;
      OriginsIncrease(rows[..n], chunkSize);
      AppendRowPositions(Origins(rows[..n], chunkSize), n, |ChunksOf(rows[n], chunkSize)|);
    }
  }

  /** Positions of row `n`, appended after positions of earlier rows in
      order, keep the order. */
  lemma AppendRowPositions(init: seq<(nat, nat)>, n: nat, m: nat)
    requires forall p | 0 <= p < |init| :: init[p].0 < n
    requires forall p, q | 0 <= p < q < |init| :: Before(init[p], init[q])
    ensures var o := init + seq(m, i requires 0 <= i < m => (n, i));
      && (forall p | 0 <= p < |o| :: o[p].0 < n + 1)
      && (forall p, q | 0 <= p < q < |o| :: Before(o[p], o[q]))
  {
    var tail := seq(m, i requires 0 <= i < m => (n, i));
    var o := init + tail;
    forall p | 0 <= p < |o| ensures o[p].0 < n + 1 {
      if p >= |init| {
        assert o[p] == tail[p - |init|];
      }
    }
    forall p, q | 0 <= p < q < |o| ensures Before(o[p], o[q]) {
      if q < |init| {
        assert o[p] == init[p] && o[q] == init[q];
      } else if p < |init| {
        assert o[q] == tail[q - |init|];
      } else {
        assert o[p] == tail[p - |init|] && o[q] == tail[q - |init|];
      }
    }
  }

  /** Every chunk of every row has a record. */
  lemma {:induction false} OriginsComplete(rows: seq<Row>, chunkSize: nat)
    requires chunkSize > 0 && HasContent(rows)
    ensures forall idx, i | 0 <= idx < |rows| && 0 <= i < |ChunksOf(rows[idx], chunkSize)| ::
      (idx, i) in Origins(rows, chunkSize)
    decreases |rows|
  {
    if rows != [] {
      var n := |rows| - 1;
      var m := |ChunksOf(rows[n], chunkSize)|;
      OriginsComplete(rows[..n], chunkSize);
      var tail: seq<(nat, nat)> := seq(m, i requires 0 <= i < m => (n, i));
      assert Origins(rows, chunkSize) == Origins(rows[..n], chunkSize) + tail;
      forall idx, i | 0 <= idx < |rows| && 0 <= i < |ChunksOf(rows[idx], chunkSize)|
        ensures (idx, i) in Origins(rows, chunkSize)
      {
        if idx == n {
          assert tail[i] == (n, i);
        } else {
          assert rows[..n][idx] == rows[idx];
        }
      }
    }
  }

  /** The ids in the output are pairwise distinct. */
  lemma ChunkIdsUnique(rows: seq<Row>, chunkSize: nat)
    requires chunkSize > 0 && HasContent(rows)
    ensures var t := ChunkTable(rows, chunkSize);
      forall p, q | 0 <= p < q < |t| :: t[p].id != t[q].id
  {
    var o, t := Origins(rows, chunkSize), ChunkTable(rows, chunkSize);
    ChunkTableOrigins(rows, chunkSize);
    OriginsIncrease(rows, chunkSize);
    forall p, q | 0 <= p < q < |t| ensures t[p].id != t[q].id {
      assert Before(o[p], o[q]);
      if t[p].id == t[q].id {
        ChunkIdInjective(o[p].0, o[p].1, o[q].0, o[q].1);
      }
    }
  }

  /** Extending the row prefix by one row adds that row's records. */
  lemma ChunkTableStep(rows: seq<Row>, idx: nat, chunkSize: nat)
    requires chunkSize > 0 && idx < |rows| && HasContent(rows[..idx]) && rows[idx].content.Some?
    ensures HasContent(rows[..idx + 1])
    ensures ChunkTable(rows[..idx + 1], chunkSize)
      == ChunkTable(rows[..idx], chunkSize) + RowRecords(idx, rows[idx], chunkSize)
  {
    assert rows[..idx + 1][..idx] == rows[..idx];
  }

  /** The records of one row, one chunk more. */
  lemma RowRecordsPrefix(idx: nat, row: Row, i: nat, chunkSize: nat)
    requires chunkSize > 0 && row.content.Some? && i < |ChunksOf(row, chunkSize)|
    ensures RowRecords(idx, row, chunkSize)[..i + 1]
      == RowRecords(idx, row, chunkSize)[..i] + [ChunkRecord(ChunkId(idx, i), row.url,
        row.contentType, row.topic, row.subTopic, ChunksOf(row, chunkSize)[i])]
  {
    var recs := RowRecords(idx, row, chunkSize);
    assert recs[i] == RecordOf(idx, row, i, chunkSize);
    assert recs[..i + 1] == recs[..i] + [recs[i]];
  }

  // ---------------------------------------------------------------------------
  // process_csv
  // ---------------------------------------------------------------------------

  datatype ChunkError =
    | ValueError(message: string)   // a required column is missing
    | AttributeError                // a Content cell is NaN, which has no `split`

  const MissingColumnsMessage: string :=
    "CSV must contain the following columns: URL, Content Type, Topic, Sub Topic, Content"

  /** `process_csv` from the loaded table to the list it saves as JSON. */
  method ProcessCsv(table: Table, chunkSize: nat := DefaultChunkSize)
    returns (result: Result<seq<ChunkRecord>, ChunkError>)
    requires chunkSize > 0
    ensures result.Failure? <==> !HasAllColumns(table) || !HasContent(table.rows)
    ensures !HasAllColumns(table) ==> result == Failure(ValueError(MissingColumnsMessage))
    ensures HasAllColumns(table) && !HasContent(table.rows) ==> result == Failure(AttributeError)
    ensures result.Success? ==>
      (HasContent(table.rows) && result.value == ChunkTable(table.rows, chunkSize))
  {
    RequiredNamesAreTheColumns(table);
    if !(forall n | n in RequiredNames :: n in table.columns) {
      return Failure(ValueError(MissingColumnsMessage));
    }
    var rows := table.rows;
    var processed: seq<ChunkRecord> := [];
    for idx := 0 to |rows|
      invariant HasContent(rows[..idx])
      invariant processed == ChunkTable(rows[..idx], chunkSize)
    {
      var row := rows[idx];
      if row.content.None? {
        return Failure(AttributeError);
      }
      processed := AppendRowRecords(processed, idx, row, chunkSize);
      ChunkTableStep(rows, idx, chunkSize);
    }
    assert rows[..|rows|] == rows;
    return Success(processed);
  }

  /** The inner loop of `process_csv`: one record per chunk of the row's
      content, appended to `processed` in chunk order. */
  method AppendRowRecords(processed: seq<ChunkRecord>, idx: nat, row: Row, chunkSize: nat)
    returns (result: seq<ChunkRecord>)
    requires chunkSize > 0 && row.content.Some?
    ensures result == processed + RowRecords(idx, row, chunkSize)
  {
    var chunks := SplitIntoChunks(row.content.value, chunkSize);
    result := processed;
    for i := 0 to |chunks|
      invariant result == processed + RowRecords(idx, row, chunkSize)[..i]
    {
      result := result + [ChunkRecord(ChunkId(idx, i), row.url, row.contentType,
        row.topic, row.subTopic, chunks[i])];
      RowRecordsPrefix(idx, row, i, chunkSize);
    }
    assert RowRecords(idx, row, chunkSize)[..|chunks|] == RowRecords(idx, row, chunkSize);
  }
}
