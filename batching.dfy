/** Training mini-batches: pack_minibatch_training sorts the (image, caption) pairs in place by
    caption length, longest first and stably, then lays the translated captions out as
    zero-padded id rows. */
module Batching {
  import opened Wrappers
  import opened Text
  import opened Vocab

  /** One (image, caption) pair; the image is opaque and travels with its caption. */
  datatype Sample<I> = Sample(image: I, caption: seq<String>)

  /** What pack_minibatch_training returns: the images, the padded rows without START, the raw
      caption lengths, and the padded rows with START. */
  datatype Batch<I> = Batch(
    images: seq<I>,
    targets: seq<seq<int>>,
    lengths: seq<nat>,
    captions: seq<seq<int>>)

  predicate SortedDesc<I>(s: seq<Sample<I>>) {
    forall i, j :: 0 <= i < j < |s| ==> |s[i].caption| >= |s[j].caption|
  }

  // ---------------------------------------------------------------------------------------
  // Sorting the pairs by caption length, longest first, keeping ties in their order

  /** Places x after every element at least as long as it, as a stable descending sort must. */
  function Insert<I>(s: seq<Sample<I>>, x: Sample<I>): seq<Sample<I>>
    decreases |s|
  {
    if s == [] || |s[|s| - 1].caption| >= |x.caption| then s + [x]
    else Insert(s[..|s| - 1], x) + [s[|s| - 1]]
  }

  /** The order the stable sort by caption length, longest first, produces. */
  function SortByLength<I>(s: seq<Sample<I>>): seq<Sample<I>>
    decreases |s|
  {
    if s == [] then [] else Insert(SortByLength(s[..|s| - 1]), s[|s| - 1])
  }

  /** The samples whose caption has n tokens, in their order in s. */
  function WithLength<I>(s: seq<Sample<I>>, n: nat): seq<Sample<I>>
    decreases |s|
  {
    if s == [] then []
    else WithLength(s[..|s| - 1], n) + (if |s[|s| - 1].caption| == n then [s[|s| - 1]] else [])
  }

  lemma {:induction false} InsertMultiset<I>(s: seq<Sample<I>>, x: Sample<I>)
    ensures multiset(Insert(s, x)) == multiset(s) + multiset{x}
    decreases |s|
  {
    if !(s == [] || |s[|s| - 1].caption| >= |x.caption|) {
      var init := s[..|s| - 1];
      InsertMultiset(init, x);
      assert s == init + [s[|s| - 1]];
    }
  }

  /** Inserting keeps a common lower bound on the caption lengths. */
  lemma {:induction false} InsertBound<I>(s: seq<Sample<I>>, x: Sample<I>, m: nat)
    requires forall i :: 0 <= i < |s| ==> |s[i].caption| >= m
    requires |x.caption| >= m
    ensures forall i :: 0 <= i < |Insert(s, x)| ==> |Insert(s, x)[i].caption| >= m
    decreases |s|
  {
    if !(s == [] || |s[|s| - 1].caption| >= |x.caption|) {
      InsertBound(s[..|s| - 1], x, m);
    }
  }

  lemma {:induction false} InsertSorted<I>(s: seq<Sample<I>>, x: Sample<I>)
    requires SortedDesc(s)
    ensures SortedDesc(Insert(s, x))
    decreases |s|
  {
    if !(s == [] || |s[|s| - 1].caption| >= |x.caption|) {
      var init, last := s[..|s| - 1], s[|s| - 1];
      InsertSorted(init, x);
      InsertBound(init, x, |last.caption|);
      var ins := Insert(init, x);
      assert Insert(s, x) == ins + [last];
      forall i, j | 0 <= i < j < |ins + [last]|
        ensures |(ins + [last])[i].caption| >= |(ins + [last])[j].caption|
      {
        if j == |ins| {
          assert (ins + [last])[i] == ins[i];
        }
      }
    }
  }

  /** Inserting x adds it at the end of the samples of its length, whatever the order of s. */
  lemma {:induction false} InsertWithLength<I>(s: seq<Sample<I>>, x: Sample<I>, n: nat)
    ensures WithLength(Insert(s, x), n) == WithLength(s, n) + (if |x.caption| == n then [x] else [])
    decreases |s|
  {
    if s == [] || |s[|s| - 1].caption| >= |x.caption| {
      assert (s + [x])[..|s + [x]| - 1] == s;
    } else {
      var init, last := s[..|s| - 1], s[|s| - 1];
      InsertWithLength(init, x, n);
      var ins := Insert(init, x);
      assert (ins + [last])[..|ins + [last]| - 1] == ins;
    }
  }

  /** The sort yields a descending order by caption length. */
  lemma {:induction false} SortSorted<I>(s: seq<Sample<I>>)
    ensures SortedDesc(SortByLength(s))
    decreases |s|
  {
    if s != [] {
      SortSorted(s[..|s| - 1]);
      InsertSorted(SortByLength(s[..|s| - 1]), s[|s| - 1]);
    }
  }

  /** The sort is a permutation: every pair, image and caption together, is kept. */
  lemma {:induction false} SortPermutation<I>(s: seq<Sample<I>>)
    ensures multiset(SortByLength(s)) == multiset(s)
    decreases |s|
  {
    if s != [] {
      SortPermutation(s[..|s| - 1]);
      InsertMultiset(SortByLength(s[..|s| - 1]), s[|s| - 1]);
      assert s == s[..|s| - 1] + [s[|s| - 1]];
    }
  }

  /** The sort is stable: the pairs with captions of any one length keep their input order. */
  lemma {:induction false} SortStable<I>(s: seq<Sample<I>>, n: nat)
    ensures WithLength(SortByLength(s), n) == WithLength(s, n)
    decreases |s|
  {
    if s != [] {
      SortStable(s[..|s| - 1], n);
      InsertWithLength(SortByLength(s[..|s| - 1]), s[|s| - 1], n);
    }
  }

  /** data.sort(key=len-of-caption, reverse=True): the list is rewritten in place with its
      stable descending sort. */
  method SortByCaptionLength<I>(a: array<Sample<I>>)
    modifies a
    ensures a[..] == SortByLength(old(a[..]))
  {
    var sorted := SortByLength(a[..]);
    SortPermutation(a[..]);
    assert |sorted| == a.Length by {
      assert |multiset(sorted)| == |multiset(a[..])|;
    }
    forall k | 0 <= k < a.Length {
      a[k] := sorted[k];
    }
  }

  // ---------------------------------------------------------------------------------------
  // nn.utils.rnn.pad_sequence(rows, padding_value=pad, batch_first=True)

  /** The length of the longest row. */
  function MaxLen(rows: seq<seq<int>>): (m: nat)
    ensures forall i :: 0 <= i < |rows| ==> |rows[i]| <= m
    ensures rows != [] ==> exists i :: 0 <= i < |rows| && |rows[i]| == m
    ensures rows == [] ==> m == 0
  {
    if rows == [] then 0
    else
      var m := MaxLen(rows[1..]);
      if |rows[0]| >= m then |rows[0]| else m
  }

  /** Right-pads every row with pad to the length of the longest one. */
  function PadSequence(rows: seq<seq<int>>, pad: int): (m: seq<seq<int>>)
    ensures |m| == |rows|
    ensures forall i :: 0 <= i < |rows| ==> |m[i]| == MaxLen(rows) && m[i][..|rows[i]|] == rows[i]
    ensures forall i, j :: 0 <= i < |rows| && |rows[i]| <= j < MaxLen(rows) ==> m[i][j] == pad
  {
    var width := MaxLen(rows);
    seq(|rows|, i requires 0 <= i < |rows| => rows[i] + seq(width - |rows[i]|, _ => pad))
  }

  // ---------------------------------------------------------------------------------------
  // pack_minibatch_training

  /** The rows translate produces in its default "complete" mode. */
  function TranslatedRows<I>(s: seq<Sample<I>>, t: WordTable): seq<seq<int>>
    requires HasReserved(t)
  {
    seq(|s|, i requires 0 <= i < |s| => Translation(t, s[i].caption, "complete").value)
  }

  /** The batch laid out from samples already in their sorted order. */
  function BatchOf<I>(s: seq<Sample<I>>, t: WordTable): Batch<I>
    requires HasReserved(t)
  {
    var ids := TranslatedRows(s, t);
    Batch(
      seq(|s|, i requires 0 <= i < |s| => s[i].image),
      PadSequence(seq(|s|, i requires 0 <= i < |s| => ids[i][1..]), PadId),
      seq(|s|, i requires 0 <= i < |s| => |s[i].caption|),
      PadSequence(ids, PadId))
  }

  /** pack_minibatch_training: sorts data in place, then lays out the batch; an empty batch
      fails when its pairs are unzipped. */
  method PackMinibatchTraining<I>(data: array<Sample<I>>, vocabulary: Vocabulary)
    returns (r: Result<Batch<I>>)
    requires HasReserved(vocabulary.AsTable())
    modifies data
    ensures data[..] == SortByLength(old(data[..]))
    ensures data.Length == 0 ==> r == Err(ValueError)
    ensures data.Length > 0 ==> r == Ok(BatchOf(data[..], vocabulary.AsTable()))
  {
    SortByCaptionLength(data);
    if data.Length == 0 {
      return Err(ValueError);
    }
    r := Ok(BatchOf(data[..], vocabulary.AsTable()));
  }

  lemma MaxLenIs(rows: seq<seq<int>>, w: nat)
    requires rows != [] && |rows[0]| == w
    requires forall i :: 0 <= i < |rows| ==> |rows[i]| <= w
    ensures MaxLen(rows) == w
  {
  }

  /** Dropping the first element of every non-empty row shortens the longest row by one. */
  lemma MaxLenOfTails(rows: seq<seq<int>>, tails: seq<seq<int>>)
    requires rows != [] && |tails| == |rows|
    requires forall i :: 0 <= i < |rows| ==> rows[i] != [] && tails[i] == rows[i][1..]
    ensures MaxLen(tails) == MaxLen(rows) - 1
  {
    var i :| 0 <= i < |rows| && |rows[i]| == MaxLen(rows);
    assert |tails[i]| == MaxLen(rows) - 1;
  }

  /** One translated caption, for a vocabulary built from a corpus. */
  lemma TranslatedRow<I>(words: seq<String>, s: seq<Sample<I>>, i: nat)
    requires NoReserved(words) && i < |s|
    ensures HasReserved(Build(words))
    ensures var r := TranslatedRows(s, Build(words))[i]; var n := |s[i].caption|;
      |r| == n + 2 && r[0] == StartId && r[n + 1] == EndId &&
      forall k :: 0 <= k < n ==> r[k + 1] == WordId(words, s[i].caption[k])
  {
    TranslateInBuild(words, s[i].caption, "complete");
  }

  /** In a sorted batch the first translated caption is the widest. */
  lemma TranslatedWidth<I>(words: seq<String>, s: seq<Sample<I>>)
    requires NoReserved(words) && s != [] && SortedDesc(s)
    ensures HasReserved(Build(words))
    ensures MaxLen(TranslatedRows(s, Build(words))) == |s[0].caption| + 2
  {
    ReservedKeysHeld(words);
    var ids := TranslatedRows(s, Build(words));
    forall i | 0 <= i < |s|
      ensures |ids[i]| == |s[i].caption| + 2
    {
      TranslatedRow(words, s, i);
    }
    MaxLenIs(ids, |s[0].caption| + 2);
  }

  lemma PaddedAt(rows: seq<seq<int>>, pad: int, i: nat, k: nat)
    requires i < |rows| && k < MaxLen(rows)
    ensures PadSequence(rows, pad)[i][k] == if k < |rows[i]| then rows[i][k] else pad
  {
    if k < |rows[i]| {
      assert PadSequence(rows, pad)[i][..|rows[i]|][k] == rows[i][k];
    }
  }

  /** Row i of the batch: its image and raw length, and its caption row as START, the words'
      ids, END, then PAD up to the width of the longest caption plus two. */
  lemma BatchCaptionRow<I>(words: seq<String>, s: seq<Sample<I>>, i: nat)
    requires NoReserved(words) && SortedDesc(s) && i < |s|
    ensures HasReserved(Build(words))
    ensures var b := BatchOf(s, Build(words)); var row := b.captions[i]; var n := |s[i].caption|;
      b.images[i] == s[i].image && b.lengths[i] == n &&
      |row| == |s[0].caption| + 2 && row[0] == StartId && row[n + 1] == EndId &&
      (forall k :: 0 <= k < n ==> row[k + 1] == WordId(words, s[i].caption[k])) &&
      (forall j :: n + 2 <= j < |row| ==> row[j] == PadId)
  {
    TranslatedWidth(words, s);
    TranslatedRow(words, s, i);
    var ids := TranslatedRows(s, Build(words));
    var row := BatchOf(s, Build(words)).captions[i];
    forall k | 0 <= k < |row|
      ensures row[k] == if k < |ids[i]| then ids[i][k] else PadId
    {
      PaddedAt(ids, PadId, i, k);
    }
  }

  /** Every row of the batch, as BatchCaptionRow states it for one. */
  lemma BatchCaptionRows<I>(words: seq<String>, s: seq<Sample<I>>)
    requires NoReserved(words) && s != [] && SortedDesc(s)
    ensures HasReserved(Build(words))
    ensures var b := BatchOf(s, Build(words));
      |b.captions| == |b.lengths| == |b.images| == |s| &&
      forall i :: 0 <= i < |s| ==>
        |b.captions[i]| == |s[0].caption| + 2 &&
        b.captions[i][0] == StartId && b.captions[i][b.lengths[i] + 1] == EndId &&
        forall j :: b.lengths[i] + 2 <= j < |s[0].caption| + 2 ==> b.captions[i][j] == PadId
  {
    ReservedKeysHeld(words);
    forall i | 0 <= i < |s|
      ensures var b := BatchOf(s, Build(words));
        |b.captions[i]| == |s[0].caption| + 2 &&
        b.captions[i][0] == StartId && b.captions[i][b.lengths[i] + 1] == EndId &&
        forall j :: b.lengths[i] + 2 <= j < |s[0].caption| + 2 ==> b.captions[i][j] == PadId
    {
      BatchCaptionRow(words, s, i);
    }
  }

  /** Padding the rows with their first element dropped gives the padded rows with their first
      column dropped. */
  lemma PadShifted(rows: seq<seq<int>>, tails: seq<seq<int>>, pad: int, i: nat)
    requires i < |rows| && |tails| == |rows|
    requires forall j :: 0 <= j < |rows| ==> rows[j] != [] && tails[j] == rows[j][1..]
    ensures PadSequence(tails, pad)[i] == PadSequence(rows, pad)[i][1..]
  {
    MaxLenOfTails(rows, tails);
    var short, long := PadSequence(tails, pad)[i], PadSequence(rows, pad)[i];
    forall k | 0 <= k < |short|
      ensures short[k] == long[k + 1]
    {
      PaddedAt(tails, pad, i, k);
      PaddedAt(rows, pad, i, k + 1);
    }
  }

  lemma TargetRowShifted<I>(s: seq<Sample<I>>, t: WordTable, i: nat)
    requires HasReserved(t) && i < |s|
    ensures var b := BatchOf(s, t); b.targets[i] == b.captions[i][1..]
  {
    var ids := TranslatedRows(s, t);
    PadShifted(ids, seq(|s|, j requires 0 <= j < |s| => ids[j][1..]), PadId, i);
  }

  /** The rows without START are the rows with START, shifted left by one position. */
  lemma BatchTargetsShifted<I>(s: seq<Sample<I>>, t: WordTable)
    requires HasReserved(t)
    ensures var b := BatchOf(s, t);
      |b.targets| == |b.captions| == |s| &&
      forall i :: 0 <= i < |s| ==> b.targets[i] == b.captions[i][1..]
  {
    forall i | 0 <= i < |s|
      ensures BatchOf(s, t).targets[i] == BatchOf(s, t).captions[i][1..]
    {
      TargetRowShifted(s, t, i);
    }
  }

  /** What a packed batch holds, from any input: the pairs reordered stably by caption length,
      longest first, and the recorded lengths descending. */
  lemma PackOrder<I>(input: seq<Sample<I>>, t: WordTable)
    requires HasReserved(t) && input != []
    ensures var s := SortByLength(input); var b := BatchOf(s, t);
      multiset(s) == multiset(input) &&
      (forall n: nat :: WithLength(s, n) == WithLength(input, n)) &&
      forall i, j :: 0 <= i < j < |b.lengths| ==> b.lengths[i] >= b.lengths[j]
  {
    var s := SortByLength(input);
    SortSorted(input);
    SortPermutation(input);
    forall n: nat
      ensures WithLength(s, n) == WithLength(input, n)
    {
      SortStable(input, n);
    }
  }
}
