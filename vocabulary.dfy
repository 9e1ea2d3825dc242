/** The vocabulary: a dense word-to-id table whose first four entries are the control tokens. */
module Vocab {
  import opened Wrappers
  import opened Text
  import opened Dict

  const PAD: String := "<PAD>"
  const START: String := "<START>"
  const END: String := "<END>"
  const UNK: String := "<UNK>"

  const PadId: int := 0
  const StartId: int := 1
  const EndId: int := 2
  const UnkId: int := 3

  /** The control tokens in the order the constructor inserts them; each one's id is its index. */
  const ReservedKeys: seq<String> := [PAD, START, END, UNK]

  /** word2id: a dict from words to ids. */
  type WordTable = Table<String>

  predicate NoReserved(words: seq<String>) {
    forall i :: 0 <= i < |words| ==> words[i] !in ReservedKeys
  }

  /** The dict after the four control tokens are stored. */
  function Reserved(): WordTable {
    Put(Put(Put(Put(Table([], map[]), PAD, PadId), START, StartId), END, EndId), UNK, UnkId)
  }

  /** The table the constructor builds from the corpus words. */
  function Build(words: seq<String>): WordTable {
    Fill(Reserved(), words, 4)
  }

  /** predefined_token_idx */
  function PredefinedTokenIdx(): map<String, int> {
    map[PAD := PadId, START := StartId, END := EndId, UNK := UnkId]
  }

  lemma ReservedTable()
    ensures Reserved() == Table(ReservedKeys, PredefinedTokenIdx())
    ensures Distinct(ReservedKeys)
  {
    assert PAD[1] == 'P' && START[1] == 'S' && END[1] == 'E' && UNK[1] == 'U';
  }

  /** The dict of control tokens is well formed and has exactly the control tokens as keys, in
      order. */
  lemma ReservedShape()
    ensures WellFormed(Reserved()) && |Reserved().keys| == 4
    ensures Reserved().keys == ReservedKeys
    ensures forall k :: k in Reserved().ids <==> k in ReservedKeys
    ensures forall k :: k in Reserved().ids ==>
      0 <= Reserved().ids[k] < 4 && ReservedKeys[Reserved().ids[k]] == k
  {
    ReservedTable();
    ReservedIds();
  }

  /** Each control token's id is its position. */
  lemma ReservedIds()
    ensures forall k :: k in PredefinedTokenIdx() ==>
      0 <= PredefinedTokenIdx()[k] < 4 && ReservedKeys[PredefinedTokenIdx()[k]] == k
  {
    assert ReservedKeys[0] == PAD && ReservedKeys[1] == START;
    assert ReservedKeys[2] == END && ReservedKeys[3] == UNK;
  }

  lemma NoReservedIsAllNew(words: seq<String>)
    ensures NoReserved(words) <==> AllNew(Reserved(), words)
  {
    ReservedShape();
  }

  /** No control token is a lower-case string, so no lower-cased lookup can hit one. */
  lemma ReservedNotLowerCase(w: String)
    requires IsLowerCase(w)
    ensures w !in ReservedKeys
  {
    assert IsUpper(PAD[1]) && IsUpper(START[1]) && IsUpper(END[1]) && IsUpper(UNK[1]);
  }

  // ---------------------------------------------------------------------------------------
  // Properties of the table built by the constructor

  /** For any corpus: the table is a well-formed dict over the control tokens and the corpus
      words, it starts with the control tokens and has at most |words| + 4 entries. */
  lemma BuildShape(words: seq<String>)
    ensures WellFormed(Build(words))
    ensures forall k :: k in Build(words).ids <==> k in ReservedKeys || k in words
    ensures |Build(words).keys| <= |words| + 4
    ensures |Build(words).keys| >= 4 && Build(words).keys[..4] == ReservedKeys
  {
    ReservedShape();
    FillShape(Reserved(), words, 4);
  }

  /** A corpus word's id is 4 plus the position of its last occurrence (its only one when the
      corpus has no duplicates). */
  lemma BuildWordId(words: seq<String>, i: nat)
    requires i < |words|
    requires forall j :: i < j < |words| ==> words[j] != words[i]
    ensures words[i] in Build(words).ids && Build(words).ids[words[i]] == i + 4
  {
    FillId(Reserved(), words, 4, i);
  }

  /** A control token absent from the corpus keeps its reserved id. */
  lemma BuildReservedId(words: seq<String>, j: nat)
    requires j < 4 && ReservedKeys[j] !in words
    ensures ReservedKeys[j] in Build(words).ids && Build(words).ids[ReservedKeys[j]] == j
  {
    ReservedShape();
    FillKeepsId(Reserved(), words, 4, ReservedKeys[j]);
  }

  /** Every id lies in [0, |words| + 4), and an id below 4 belongs to the control token at that
      position. */
  lemma BuildIdRange(words: seq<String>)
    ensures forall k :: k in Build(words).ids ==>
      0 <= Build(words).ids[k] < |words| + 4 &&
      (Build(words).ids[k] >= 4 || ReservedKeys[Build(words).ids[k]] == k)
  {
    ReservedShape();
    FillIdRange(Reserved(), words, 4);
  }

  /** With neither duplicates nor control tokens in the corpus, the keys are the control tokens
      followed by the corpus words in order. */
  lemma BuildKeys(words: seq<String>)
    requires Distinct(words) && NoReserved(words)
    ensures Build(words).keys == ReservedKeys + words
  {
    ReservedShape();
    NoReservedIsAllNew(words);
    FillKeys(Reserved(), words, 4);
  }

  /** The dict has exactly dictionary_length = |words| + 4 entries if and only if the corpus has
      no duplicates and no control tokens. */
  lemma BuildLength(words: seq<String>)
    ensures |Build(words).keys| == |words| + 4 <==> Distinct(words) && NoReserved(words)
  {
    ReservedShape();
    NoReservedIsAllNew(words);
    FillLength(Reserved(), words, 4);
  }

  /** The key invariant: for a corpus with neither duplicates nor control tokens, the ids are
      dense and unique over [0, len), and each id sits at its own position in the key list. */
  lemma KeyInvariant(words: seq<String>)
    requires Distinct(words) && NoReserved(words)
    ensures var t := Build(words);
      (forall w :: w in t.ids ==> 0 <= t.ids[w] < |t.keys| && t.keys[t.ids[w]] == w) &&
      (forall i :: 0 <= i < |t.keys| ==> t.keys[i] in t.ids && t.ids[t.keys[i]] == i)
  {
    var t := Build(words);
    BuildKeys(words);
    BuildShape(words);
    forall i | 0 <= i < |t.keys|
      ensures t.keys[i] in t.ids && t.ids[t.keys[i]] == i
    {
      if i < 4 {
        assert t.keys[i] == ReservedKeys[i];
        BuildReservedId(words, i);
      } else {
        assert t.keys[i] == words[i - 4];
        BuildWordId(words, i - 4);
      }
    }
    forall w | w in t.ids
      ensures 0 <= t.ids[w] < |t.keys| && t.keys[t.ids[w]] == w
    {
      var i :| 0 <= i < |t.keys| && t.keys[i] == w;
    }
  }

  /** Why the corpus must be duplicate-free: a repeated word is re-assigned a later id while
      keeping its first position, so its id names no key and len differs from dictionary_length. */
  lemma DuplicateWordBreaksKeyInvariant()
    ensures var t := Build(["a", "a"]);
      |t.keys| == 5 && t.ids["a"] == 5 && |t.keys| != |["a", "a"]| + 4
  {
    ReservedTable();
    assert "a" !in ReservedKeys;
    var once := Build(["a"]);
    assert ["a"][..0] == [];
    assert once == Put(Reserved(), "a", 4);
    assert ["a", "a"][..1] == ["a"];
    assert Build(["a", "a"]) == Put(once, "a", 5);
  }

  /** predefined_token_idx agrees with the built table when no corpus word is a control token. */
  lemma PredefinedAgreesWithTable(words: seq<String>)
    requires NoReserved(words)
    ensures forall k :: k in PredefinedTokenIdx() ==>
      k in Build(words).ids && Build(words).ids[k] == PredefinedTokenIdx()[k]
  {
    forall k | k in PredefinedTokenIdx()
      ensures k in Build(words).ids && Build(words).ids[k] == PredefinedTokenIdx()[k]
    {
      var j := if k == PAD then 0 else if k == START then 1 else if k == END then 2 else 3;
      assert ReservedKeys[j] == k;
      BuildReservedId(words, j);
    }
  }

  // ---------------------------------------------------------------------------------------
  // translate and rev_translate

  predicate HasReserved(t: WordTable) {
    START in t.ids && END in t.ids && UNK in t.ids
  }

  /** The id written for one word: the lower-cased word's id if it is a key, else UNK's id. */
  function LookupId(t: WordTable, w: String): int
    requires UNK in t.ids
  {
    var k := Lower(w);
    if k in t.ids then t.ids[k] else t.ids[UNK]
  }

  /** The lookup ignores letter case: two words that lower-case alike get the same id. */
  lemma LookupIdIgnoresCase(t: WordTable, a: String, b: String)
    requires UNK in t.ids
    requires |a| == |b| && forall i :: 0 <= i < |a| ==> LowerChar(a[i]) == LowerChar(b[i])
    ensures LookupId(t, a) == LookupId(t, b)
  {
    assert Lower(a) == Lower(b);
  }

  /** translate: START, then one id per word, then END in "complete" mode; any mode other than
      "complete" and "uncomplete" leaves the output unbound, which raises. */
  function Translation(t: WordTable, ws: seq<String>, mode: String): (r: Result<seq<int>>)
    requires HasReserved(t)
    ensures r.Ok? <==> mode == "complete" || mode == "uncomplete"
    ensures r.Err? ==> r.error == UnboundLocalError
    ensures mode == "complete" ==> |r.value| == |ws| + 2 && r.value[|ws| + 1] == t.ids[END]
    ensures mode == "uncomplete" ==> |r.value| == |ws| + 1
    ensures r.Ok? ==> r.value[0] == t.ids[START]
    ensures r.Ok? ==> forall k :: 0 <= k < |ws| ==> r.value[k + 1] == LookupId(t, ws[k])
  {
    var body := seq(|ws|, k requires 0 <= k < |ws| => LookupId(t, ws[k]));
    if mode == "complete" then Ok([t.ids[START]] + body + [t.ids[END]])
    else if mode == "uncomplete" then Ok([t.ids[START]] + body)
    else Err(UnboundLocalError)
  }

  /** The id a word gets, stated from the corpus alone: 4 plus the last position of the
      lower-cased word in the corpus, or UNK's id 3 when it is not there. */
  function WordId(words: seq<String>, w: String): int {
    if Lower(w) in words then 4 + LastIndex(words, Lower(w)) else UnkId
  }

  lemma LookupIdInBuild(words: seq<String>, w: String)
    requires NoReserved(words)
    ensures UNK in Build(words).ids && LookupId(Build(words), w) == WordId(words, w)
  {
    var t, k := Build(words), Lower(w);
    BuildShape(words);
    BuildReservedId(words, 3);
    ReservedNotLowerCase(k);
    if k in words {
      BuildWordId(words, LastIndex(words, k));
    }
  }

  /** In both modes every position is what the corpus dictates: START at the front, END at the
      back in "complete" mode, and WordId in between. */
  lemma TranslateInBuild(words: seq<String>, ws: seq<String>, mode: String)
    requires NoReserved(words)
    requires mode == "complete" || mode == "uncomplete"
    ensures HasReserved(Build(words))
    ensures var r := Translation(Build(words), ws, mode).value;
      |r| == |ws| + (if mode == "complete" then 2 else 1) &&
      r[0] == StartId &&
      (mode == "complete" ==> r[|ws| + 1] == EndId) &&
      forall k :: 0 <= k < |ws| ==> r[k + 1] == WordId(words, ws[k])
  {
    ReservedKeysHeld(words);
    forall k | 0 <= k < |ws|
      ensures LookupId(Build(words), ws[k]) == WordId(words, ws[k])
    {
      LookupIdInBuild(words, ws[k]);
    }
  }

  /** A lower-cased lookup never yields PAD, START or END, and stays below dictionary_length. */
  lemma LookupIdRange(words: seq<String>, w: String)
    ensures UNK in Build(words).ids
    ensures UnkId <= LookupId(Build(words), w) < |words| + 4
  {
    var t := Build(words);
    BuildShape(words);
    BuildIdRange(words);
    var k := Lower(w);
    ReservedNotLowerCase(k);
    assert ReservedKeys[0] == PAD && ReservedKeys[1] == START && ReservedKeys[2] == END;
    if k !in t.ids {
      assert t.ids[UNK] >= 4 || ReservedKeys[t.ids[UNK]] == UNK;
    }
  }

  /** For any corpus, the ids translate writes between START and END are never PAD, START or END,
      and are below dictionary_length. */
  lemma TranslateInteriorIds(words: seq<String>, ws: seq<String>, mode: String, k: nat)
    requires mode == "complete" || mode == "uncomplete"
    requires k < |ws|
    ensures HasReserved(Build(words))
    ensures var r := Translation(Build(words), ws, mode).value;
      UnkId <= r[k + 1] < |words| + 4
  {
    BuildShape(words);
    LookupIdRange(words, ws[k]);
  }

  /** rev_translate: the key at each id's insertion position, with Python's negative indexing;
      an id outside [-len, len) raises IndexError. */
  function RevTranslate(t: WordTable, idxs: seq<int>): (r: Result<seq<String>>)
    ensures r.Ok? <==> forall i :: 0 <= i < |idxs| ==> -|t.keys| <= idxs[i] < |t.keys|
    ensures r.Err? ==> r.error == IndexError
    ensures r.Ok? ==> |r.value| == |idxs|
    ensures r.Ok? ==> forall i :: 0 <= i < |idxs| ==>
      r.value[i] == t.keys[if idxs[i] >= 0 then idxs[i] else |t.keys| + idxs[i]]
  {
    if forall i :: 0 <= i < |idxs| ==> -|t.keys| <= idxs[i] < |t.keys| then
      Ok(seq(|idxs|, i requires 0 <= i < |idxs| =>
        t.keys[if idxs[i] >= 0 then idxs[i] else |t.keys| + idxs[i]]))
    else
      Err(IndexError)
  }

  /** An id at or above dictionary_length always makes rev_translate raise, for any corpus. */
  lemma RevTranslateOutOfRange(words: seq<String>, idxs: seq<int>, i: nat)
    requires i < |idxs| && idxs[i] >= |words| + 4
    ensures RevTranslate(Build(words), idxs) == Err(IndexError)
  {
    BuildShape(words);
  }

  /** What rev_translate gives back for one translated word: its lower-cased form if the corpus
      has it, else UNK. */
  function Recovered(words: seq<String>, w: String): String {
    if Lower(w) in words then Lower(w) else UNK
  }

  /** One word's round trip: the key at the id translate writes is the recovered word. */
  lemma RoundTripWord(words: seq<String>, w: String)
    requires Distinct(words) && NoReserved(words)
    ensures UNK in Build(words).ids
    ensures 0 <= LookupId(Build(words), w) < |Build(words).keys|
    ensures Build(words).keys[LookupId(Build(words), w)] == Recovered(words, w)
  {
    LookupIdInBuild(words, w);
    BuildKeys(words);
    var k := Lower(w);
    if k in words {
      var j := LastIndex(words, k);
      assert (ReservedKeys + words)[4 + j] == words[j];
    } else {
      assert (ReservedKeys + words)[3] == UNK;
    }
  }

  /** rev_translate of ids that all index the keys gives the keys at those ids. */
  lemma RevTranslateInRange(t: WordTable, ids: seq<int>, expected: seq<String>)
    requires |ids| == |expected|
    requires forall i :: 0 <= i < |ids| ==> 0 <= ids[i] < |t.keys| && t.keys[ids[i]] == expected[i]
    ensures RevTranslate(t, ids) == Ok(expected)
  {
    var back := RevTranslate(t, ids);
    assert back.Ok?;
    assert back.value == expected;
  }

  /** Whatever the corpus, the built dict holds START, END and UNK. */
  lemma BuildHasReserved(words: seq<String>)
    ensures HasReserved(Build(words))
  {
    FillMembers(Reserved(), words, 4);
    ReservedTable();
  }

  /** With no control token in the corpus, START, END and UNK keep their ids 1, 2 and 3. */
  lemma ReservedKeysHeld(words: seq<String>)
    requires NoReserved(words)
    ensures HasReserved(Build(words))
    ensures Build(words).ids[START] == StartId && Build(words).ids[END] == EndId
    ensures Build(words).ids[UNK] == UnkId
  {
    assert ReservedKeys[1] == START && ReservedKeys[2] == END && ReservedKeys[3] == UNK;
    BuildReservedId(words, 1);
    BuildReservedId(words, 2);
    BuildReservedId(words, 3);
  }

  /** What the round trip gives back: START, each word as Recovered, and END in "complete"
      mode. */
  function Restored(words: seq<String>, ws: seq<String>, mode: String): seq<String> {
    [START] + seq(|ws|, k requires 0 <= k < |ws| => Recovered(words, ws[k])) +
      (if mode == "complete" then [END] else [])
  }

  /** One position of the round trip. */
  lemma RoundTripAt(words: seq<String>, ws: seq<String>, mode: String, i: nat)
    requires Distinct(words) && NoReserved(words)
    requires mode == "complete" || mode == "uncomplete"
    requires i < |ws| + (if mode == "complete" then 2 else 1)
    ensures HasReserved(Build(words))
    ensures var t := Build(words); var ids := Translation(t, ws, mode).value;
      |ids| == |Restored(words, ws, mode)| &&
      0 <= ids[i] < |t.keys| && t.keys[ids[i]] == Restored(words, ws, mode)[i]
  {
    var t := Build(words);
    ReservedKeysHeld(words);
    BuildKeys(words);
    var expected := Restored(words, ws, mode);
    if i == 0 {
      assert t.keys[1] == START;
    } else if i <= |ws| {
      RoundTripWord(words, ws[i - 1]);
      assert expected[i] == Recovered(words, ws[i - 1]);
    } else {
      assert t.keys[2] == END;
    }
  }

  /** Round trip: rev_translate undoes translate up to case folding and unknown words, with the
      START marker (and END in "complete" mode) around it. */
  lemma RoundTrip(words: seq<String>, ws: seq<String>, mode: String)
    requires Distinct(words) && NoReserved(words)
    requires mode == "complete" || mode == "uncomplete"
    ensures HasReserved(Build(words)) && Translation(Build(words), ws, mode).Ok?
    ensures RevTranslate(Build(words), Translation(Build(words), ws, mode).value) ==
      Ok(Restored(words, ws, mode))
  {
    var t := Build(words);
    BuildShape(words);
    var ids := Translation(t, ws, mode).value;
    var expected := Restored(words, ws, mode);
    forall i | 0 <= i < |ids|
      ensures 0 <= ids[i] < |t.keys| && t.keys[ids[i]] == expected[i]
    {
      RoundTripAt(words, ws, mode, i);
    }
    RoundTripAt(words, ws, mode, 0);
    RevTranslateInRange(t, ids, expected);
  }

  /** The round-trip law for in-vocabulary words: lower-case corpus words come back exactly. */
  lemma RoundTripKnownWords(words: seq<String>, ws: seq<String>)
    requires Distinct(words) && NoReserved(words)
    requires forall k :: 0 <= k < |ws| ==> ws[k] in words && IsLowerCase(ws[k])
    ensures HasReserved(Build(words))
    ensures RevTranslate(Build(words), Translation(Build(words), ws, "complete").value) ==
      Ok([START] + ws + [END])
  {
    RoundTrip(words, ws, "complete");
    forall k | 0 <= k < |ws|
      ensures Recovered(words, ws[k]) == ws[k]
    {
      LowerFixedPoints(ws[k]);
    }
    assert seq(|ws|, k requires 0 <= k < |ws| => Recovered(words, ws[k])) == ws;
  }

  // ---------------------------------------------------------------------------------------
  // The vocabulary object

  class Vocabulary {
    /** word2id as a dict: keys in insertion order, and the mapping. */
    var keys: seq<String>
    var word2id: map<String, int>
    /** |corpus| + 4, fixed at construction; equal to the dict's size only for a clean corpus. */
    var dictionaryLength: int
    /** The word list the vocabulary was built from. */
    ghost const corpus: seq<String>

    function AsTable(): WordTable
      reads this
    {
      Table(keys, word2id)
    }

    ghost predicate Valid()
      reads this
    {
      AsTable() == Build(corpus) && dictionaryLength == |corpus| + 4 && HasReserved(AsTable())
    }

    /** Stores word2id[k] = v, keeping the key order a Python dict keeps. */
    method SetItem(k: String, v: int)
      modifies this
      ensures AsTable() == Put(old(AsTable()), k, v)
      ensures dictionaryLength == old(dictionaryLength)
    {
      if k !in word2id {
        keys := keys + [k];
      }
      word2id := word2id[k := v];
    }

    /** __init__: the four control tokens, then every corpus word with a counter from 4. */
    constructor (words: seq<String>)
      ensures Valid() && corpus == words
    {
      corpus := words;
      dictionaryLength := |words| + 4;
      keys, word2id := [], map[];
      new;
      SetItem(PAD, PadId);
      SetItem(START, StartId);
      SetItem(END, EndId);
      SetItem(UNK, UnkId);
      var counter := 4;
      for i := 0 to |words|
        invariant counter == 4 + i
        invariant AsTable() == Fill(Reserved(), words[..i], 4)
        invariant dictionaryLength == |words| + 4 && corpus == words
      {
        assert words[..i + 1][..i] == words[..i];
        SetItem(words[i], counter);
        counter := counter + 1;
      }
      assert words[..|words|] == words;
      BuildHasReserved(words);
    }

    /** __len__: the number of keys, which reaches dictionary_length exactly for a corpus with
        neither duplicates nor control tokens. */
    function Len(): (n: nat)
      reads this
      requires Valid()
      ensures n <= dictionaryLength
      ensures n == dictionaryLength <==> Distinct(corpus) && NoReserved(corpus)
    {
      BuildShape(corpus);
      BuildLength(corpus);
      |keys|
    }

    /** translate: fills a zeroed buffer, START first, END last in "complete" mode, then the
        words' ids from position 1 on. */
    method Translate(ws: seq<String>, mode: String) returns (r: Result<seq<int>>)
      requires HasReserved(AsTable())
      ensures r == Translation(AsTable(), ws, mode)
    {
      var sequence: array?<int> := null;
      if mode == "uncomplete" {
        sequence := new int[|ws| + 1](_ => 0);
      }
      if mode == "complete" {
        sequence := new int[|ws| + 2](_ => 0);
        sequence[sequence.Length - 1] := word2id[END];
      }
      if sequence == null {
        assert mode != "complete" && mode != "uncomplete";
        return Err(UnboundLocalError);
      }
      ghost var t := AsTable();
      ghost var endId := if mode == "complete" then [word2id[END]] else [];
      assert sequence.Length == |ws| + 1 + |endId|;
      assert sequence[|ws| + 1..] == endId;
      sequence[0] := word2id[START];
      var counter := 1;
      for i := 0 to |ws|
        invariant counter == i + 1
        invariant sequence[0] == t.ids[START]
        invariant sequence[|ws| + 1..] == endId
        invariant forall k :: 0 <= k < i ==> sequence[k + 1] == LookupId(t, ws[k])
      {
        var w := Lower(ws[i]);
        if w in word2id {
          sequence[counter] := word2id[w];
        } else {
          sequence[counter] := word2id[UNK];
        }
        counter := counter + 1;
      }
      ghost var expected := Translation(t, ws, mode).value;
      forall i | 0 <= i < sequence.Length
        ensures sequence[i] == expected[i]
      {
        if i > |ws| {
          assert sequence[i] == sequence[|ws| + 1..][0];
        }
      }
      r := Ok(sequence[..]);
      assert r.value == expected;
    }
  }
}
