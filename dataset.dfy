/** The image/caption dataset: rows of (image name, comment), the distinct-word list the
    vocabulary is built from, item access and prefix subsets. */
module Dataset {
  import opened Wrappers
  import opened Text
  import opened Tokenizer
  import opened Dict
  import opened Vocab

  /** One row of the caption table. */
  datatype Row = Row(imageName: String, comment: String)

  /** A dataset: the data directory and its rows, in their (already shuffled) order. */
  datatype MyDataset = MyDataset(directory: String, rows: seq<Row>)

  // ---------------------------------------------------------------------------------------
  // get_all_distinct_words_in_dataset

  /** The tokens of all rows, row by row and in order within each row. */
  function AllTokens(rows: seq<Row>): seq<String>
    decreases |rows|
  {
    if rows == [] then []
    else AllTokens(rows[..|rows| - 1]) + CaptionTokens(rows[|rows| - 1].comment)
  }

  /** Ordered de-duplication: each element at its first occurrence. */
  function Dedup(xs: seq<String>): seq<String>
    decreases |xs|
  {
    if xs == [] then []
    else
      var d := Dedup(xs[..|xs| - 1]);
      if xs[|xs| - 1] in d then d else d + [xs[|xs| - 1]]
  }

  function DistinctWords(rows: seq<Row>): seq<String> {
    Dedup(AllTokens(rows))
  }

  lemma DedupStep(before: seq<String>, tokens: seq<String>, j: nat)
    requires j < |tokens|
    ensures var d := Dedup(before + tokens[..j]);
      Dedup(before + tokens[..j + 1]) == if tokens[j] in d then d else d + [tokens[j]]
  {
    var xs := before + tokens[..j + 1];
    assert xs[..|xs| - 1] == before + tokens[..j];
  }

  lemma AllTokensSnoc(rows: seq<Row>, r: nat)
    requires r < |rows|
    ensures AllTokens(rows[..r + 1]) == AllTokens(rows[..r]) + CaptionTokens(rows[r].comment)
  {
    assert rows[..r + 1][..r] == rows[..r];
  }

  /** get_all_distinct_words_in_dataset: appends each token not yet in the list, scanning rows
      in order and tokens within each row. */
  method GetAllDistinctWordsInDataset(ds: MyDataset) returns (words: seq<String>)
    ensures words == DistinctWords(ds.rows)
  {
    words := [];
    for r := 0 to |ds.rows|
      invariant words == Dedup(AllTokens(ds.rows[..r]))
    {
      var tokens := CaptionTokens(ds.rows[r].comment);
      ghost var before := AllTokens(ds.rows[..r]);
      assert before + tokens[..0] == before;
      for j := 0 to |tokens|
        invariant words == Dedup(before + tokens[..j])
      {
        DedupStep(before, tokens, j);
        if tokens[j] !in words {
          words := words + [tokens[j]];
        }
      }
      assert tokens[..|tokens|] == tokens;
      AllTokensSnoc(ds.rows, r);
    }
    assert ds.rows[..|ds.rows|] == ds.rows;
  }

  /** Index of the first occurrence of w in xs, or |xs| when w does not occur. */
  function FirstIndex(xs: seq<String>, w: String): (i: nat)
    ensures i <= |xs|
    ensures i < |xs| <==> w in xs
    ensures i < |xs| ==> xs[i] == w
    ensures forall j :: 0 <= j < i ==> xs[j] != w
    decreases |xs|
  {
    if xs == [] then 0
    else if w in xs[..|xs| - 1] then FirstIndex(xs[..|xs| - 1], w)
    else if xs[|xs| - 1] == w then |xs| - 1
    else |xs|
  }

  /** The de-duplicated list has the same elements as its input, and no repeats. */
  lemma {:induction false} DedupMembers(xs: seq<String>)
    ensures forall w :: w in Dedup(xs) <==> w in xs
    ensures Distinct(Dedup(xs))
    decreases |xs|
  {
    if xs != [] {
      DedupMembers(xs[..|xs| - 1]);
      assert xs == xs[..|xs| - 1] + [xs[|xs| - 1]];
    }
  }

  /** The de-duplicated list is in first-occurrence order. */
  lemma {:induction false} DedupFirstOccurrence(xs: seq<String>)
    ensures forall i, j :: 0 <= i < j < |Dedup(xs)| ==>
      FirstIndex(xs, Dedup(xs)[i]) < FirstIndex(xs, Dedup(xs)[j])
    decreases |xs|
  {
    DedupMembers(xs);
    if xs != [] {
      var init, x := xs[..|xs| - 1], xs[|xs| - 1];
      DedupFirstOccurrence(init);
      DedupMembers(init);
      var d := Dedup(init);
      forall y | y in d
        ensures FirstIndex(xs, y) == FirstIndex(init, y)
      {
      }
      if x !in d {
        forall i | 0 <= i < |d|
          ensures FirstIndex(xs, d[i]) < FirstIndex(xs, x)
        {
          assert x !in init;
        }
      }
    }
  }

  lemma {:induction false} AllTokensMembers(rows: seq<Row>, w: String)
    ensures w in AllTokens(rows) <==>
      exists r :: 0 <= r < |rows| && w in CaptionTokens(rows[r].comment)
    decreases |rows|
  {
    if rows != [] {
      var init := rows[..|rows| - 1];
      AllTokensMembers(init, w);
      if w in AllTokens(init) {
        var r :| 0 <= r < |init| && w in CaptionTokens(init[r].comment);
        assert rows[r] == init[r];
      }
      if exists r :: 0 <= r < |rows| && w in CaptionTokens(rows[r].comment) {
        var r :| 0 <= r < |rows| && w in CaptionTokens(rows[r].comment);
        if r < |init| {
          assert init[r] == rows[r];
        }
      }
    }
  }

  /** The distinct-word list: no repeats, and a word is in it exactly when it is a token of
      some row's lower-cased comment. */
  lemma DistinctWordsMembers(rows: seq<Row>)
    ensures Distinct(DistinctWords(rows))
    ensures forall w :: w in DistinctWords(rows) <==>
      exists r :: 0 <= r < |rows| && w in CaptionTokens(rows[r].comment)
  {
    DedupMembers(AllTokens(rows));
    forall w
      ensures w in DistinctWords(rows) <==>
        exists r :: 0 <= r < |rows| && w in CaptionTokens(rows[r].comment)
    {
      AllTokensMembers(rows, w);
    }
  }

  lemma {:induction false} AllTokensAreTokens(rows: seq<Row>)
    ensures forall i :: 0 <= i < |AllTokens(rows)| ==>
      IsToken(AllTokens(rows)[i]) && IsLowerCase(AllTokens(rows)[i])
    decreases |rows|
  {
    if rows != [] {
      AllTokensAreTokens(rows[..|rows| - 1]);
    }
  }

  /** Every distinct word is a non-empty lower-case token, so none is a control token. */
  lemma DistinctWordsClean(rows: seq<Row>)
    ensures forall i :: 0 <= i < |DistinctWords(rows)| ==>
      IsToken(DistinctWords(rows)[i]) && IsLowerCase(DistinctWords(rows)[i])
    ensures NoReserved(DistinctWords(rows))
  {
    var d := DistinctWords(rows);
    AllTokensAreTokens(rows);
    DedupMembers(AllTokens(rows));
    forall i | 0 <= i < |d|
      ensures IsToken(d[i]) && IsLowerCase(d[i]) && d[i] !in ReservedKeys
    {
      assert d[i] in AllTokens(rows);
      var j :| 0 <= j < |AllTokens(rows)| && AllTokens(rows)[j] == d[i];
      ReservedNotLowerCase(d[i]);
    }
  }

  /** A vocabulary built from a dataset has len == dictionary_length == distinct words + 4,
      satisfies the key invariant, and gives the control tokens ids 0 to 3. */
  lemma VocabularyOfDataset(rows: seq<Row>)
    ensures var words := DistinctWords(rows); var t := Build(words);
      |t.keys| == |words| + 4 &&
      t.keys == ReservedKeys + words &&
      (forall w :: w in t.ids ==> 0 <= t.ids[w] < |t.keys| && t.keys[t.ids[w]] == w)
  {
    var words := DistinctWords(rows);
    DistinctWordsMembers(rows);
    DistinctWordsClean(rows);
    BuildKeys(words);
    KeyInvariant(words);
  }

  // ---------------------------------------------------------------------------------------
  // __getitem__ and get_fraction_of_dataset

  /** The path the image of a row is opened from. */
  function ImagePath(ds: MyDataset, row: Row): String {
    ds.directory + "/images/" + row.imageName
  }

  /** __getitem__: the row at a position (negative positions count from the end, as iloc does),
      as its image path and its caption tokens. */
  function GetItem(ds: MyDataset, idx: int): (r: Result<(String, seq<String>)>)
    ensures r.Ok? <==> -|ds.rows| <= idx < |ds.rows|
    ensures r.Ok? ==> var row := ds.rows[(idx + |ds.rows|) % |ds.rows|];
      r.value == (ImagePath(ds, row), CaptionTokens(row.comment))
    ensures r.Err? ==> r.error == IndexError
  {
    if -|ds.rows| <= idx < |ds.rows| then
      var pos := if idx >= 0 then idx else |ds.rows| + idx;
      PositionFromEnd(|ds.rows|, idx);
      var row := ds.rows[pos];
      Ok((ImagePath(ds, row), CaptionTokens(row.comment)))
    else
      Err(IndexError)
  }

  /** A position in [-n, n) names the row (idx + n) mod n, counting from the end when negative. */
  lemma PositionFromEnd(n: int, idx: int)
    requires -n <= idx < n
    ensures (idx + n) % n == if idx >= 0 then idx else n + idx
  {
    if idx >= 0 {
      assert idx + n == 1 * n + idx;
    }
  }

  /** int(n * (percentage / 100)), computed exactly and truncated toward zero. */
  function RowCount(n: nat, percentage: int): int {
    var x := n * percentage;
    if x >= 0 then x / 100 else -((-x) / 100)
  }

  /** DataFrame.head(k): the first k rows, or all but the last -k when k is negative. */
  function Head<T>(s: seq<T>, k: int): seq<T> {
    if k >= 0 then s[..if k <= |s| then k else |s|]
    else s[..if |s| + k >= 0 then |s| + k else 0]
  }

  /** get_fraction_of_dataset: a new dataset over a prefix of the rows and the same directory. */
  function GetFractionOfDataset(ds: MyDataset, percentage: int): MyDataset {
    MyDataset(ds.directory, Head(ds.rows, RowCount(|ds.rows|, percentage)))
  }

  /** For a percentage in [0, 100] the row count is n * p / 100, at most n; from 100 up it is at
      least n. */
  lemma RowCountRange(n: nat, percentage: int)
    ensures 0 <= percentage <= 100 ==>
      RowCount(n, percentage) == n * percentage / 100 && 0 <= RowCount(n, percentage) <= n
    ensures percentage >= 100 ==> RowCount(n, percentage) >= n
  {
    if 0 <= percentage <= 100 {
      assert 0 <= n * percentage <= n * 100;
    } else if percentage > 100 {
      assert n * percentage >= n * 100;
    }
  }

  /** head(k) is a prefix; for k in [0, |s|] it has k rows, and from |s| up it is all of s. */
  lemma HeadPrefix<T>(s: seq<T>, k: int)
    ensures |Head(s, k)| <= |s| && Head(s, k) == s[..|Head(s, k)|]
    ensures 0 <= k <= |s| ==> |Head(s, k)| == k
    ensures k >= |s| ==> Head(s, k) == s
  {
  }

  /** The subset is always a prefix of the rows, with the same directory; for a percentage in
      [0, 100] it has n * p / 100 rows (rounded down), and from 100 up it is all the rows. */
  lemma FractionIsPrefix(ds: MyDataset, percentage: int)
    ensures var r := GetFractionOfDataset(ds, percentage);
      r.directory == ds.directory &&
      |r.rows| <= |ds.rows| && r.rows == ds.rows[..|r.rows|] &&
      (0 <= percentage <= 100 ==> |r.rows| == |ds.rows| * percentage / 100) &&
      (percentage >= 100 ==> r.rows == ds.rows)
  {
    RowCountRange(|ds.rows|, percentage);
    HeadPrefix(ds.rows, RowCount(|ds.rows|, percentage));
  }
}
