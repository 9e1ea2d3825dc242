/** A Python dict as the vocabulary uses it: keys kept in insertion order, each mapped to an int,
    and filled from a word list with a running counter. */
module Dict {

  /** The keys in insertion order, and the mapping itself. */
  datatype Table<K(==)> = Table(keys: seq<K>, ids: map<K, int>)

  predicate Distinct<T(==)>(s: seq<T>) {
    forall i, j :: 0 <= i < j < |s| ==> s[i] != s[j]
  }

  /** Each key is listed once, and the listed keys are exactly the mapped ones. */
  ghost predicate WellFormed<K(!new)>(t: Table<K>) {
    Distinct(t.keys) && forall k :: k in t.ids <==> k in t.keys
  }

  /** None of the words is already a key of t. */
  predicate AllNew<K(==)>(t: Table<K>, words: seq<K>) {
    forall i :: 0 <= i < |words| ==> words[i] !in t.ids
  }

  /** `d[k] = v`: a new key goes to the end of the key order, an existing key keeps its place. */
  function Put<K(==)>(t: Table<K>, k: K, v: int): Table<K> {
    Table(if k in t.ids then t.keys else t.keys + [k], t.ids[k := v])
  }

  /** Stores each word in turn, the i-th (from 0) with the id first + i; a repeated word keeps
      its first place in the key order and takes the id of its last occurrence. */
  function Fill<K(==)>(t: Table<K>, words: seq<K>, first: int): Table<K>
    decreases |words|
  {
    if words == [] then t
    else Put(Fill(t, words[..|words| - 1], first), words[|words| - 1], first + |words| - 1)
  }

  /** Index of the last occurrence of w in s. */
  function LastIndex<K(==)>(s: seq<K>, w: K): (i: nat)
    requires w in s
    ensures i < |s| && s[i] == w
    ensures forall j :: i < j < |s| ==> s[j] != w
  {
    if s[|s| - 1] == w then |s| - 1 else LastIndex(s[..|s| - 1], w)
  }

  // ---------------------------------------------------------------------------------------
  // One store

  /** One store keeps a dict well formed, adds just its key, and keeps the existing key order
      as a prefix. */
  lemma PutShape<K(!new)>(t: Table<K>, k: K, v: int)
    requires WellFormed(t)
    ensures WellFormed(Put(t, k, v))
    ensures forall x :: x in Put(t, k, v).ids <==> x in t.ids || x == k
    ensures |Put(t, k, v).keys| == |t.keys| + (if k in t.ids then 0 else 1)
    ensures Put(t, k, v).keys[..|t.keys|] == t.keys
  {
    var keys := Put(t, k, v).keys;
    assert keys[..|t.keys|] == t.keys;
    if k !in t.ids {
      forall i, j | 0 <= i < j < |keys|
        ensures keys[i] != keys[j]
      {
        if j == |t.keys| {
          assert keys[i] == t.keys[i];
        }
      }
    }
  }

  lemma FillSnoc<K>(t: Table<K>, words: seq<K>, first: int)
    requires words != []
    ensures Fill(t, words, first) ==
      Put(Fill(t, words[..|words| - 1], first), words[|words| - 1], first + |words| - 1)
  {
  }

  /** A list is duplicate-free and new to t exactly when its prefix is, and its last element is
      new to both. */
  lemma CleanSnoc<K>(t: Table<K>, words: seq<K>)
    requires words != []
    ensures var init, w := words[..|words| - 1], words[|words| - 1];
      (Distinct(words) && AllNew(t, words)) <==>
      (Distinct(init) && AllNew(t, init) && w !in init && w !in t.ids)
  {
    var init, w := words[..|words| - 1], words[|words| - 1];
    if Distinct(init) && AllNew(t, init) && w !in init && w !in t.ids {
      forall i, j | 0 <= i < j < |words|
        ensures words[i] != words[j]
      {
        if j == |words| - 1 {
          assert words[i] == init[i];
        } else {
          assert words[i] == init[i] && words[j] == init[j];
        }
      }
      forall i | 0 <= i < |words|
        ensures words[i] !in t.ids
      {
        if i < |init| {
          assert words[i] == init[i];
        }
      }
    }
    if Distinct(words) && AllNew(t, words) {
      assert forall i :: 0 <= i < |init| ==> init[i] == words[i] && words[i] != w;
    }
  }

  // ---------------------------------------------------------------------------------------
  // Filling from a word list

  /** Filling adds exactly the words as keys. */
  lemma {:induction false} FillMembers<K>(b: Table<K>, words: seq<K>, first: int)
    ensures forall k :: k in Fill(b, words, first).ids <==> k in b.ids || k in words
    decreases |words|
  {
    if words != [] {
      var init, w := words[..|words| - 1], words[|words| - 1];
      FillMembers(b, init, first);
      FillSnoc(b, words, first);
      assert words == init + [w];
    }
  }

  /** Filling keeps the existing key order as a prefix and adds at most one key per word. */
  lemma {:induction false} FillPrefix<K>(b: Table<K>, words: seq<K>, first: int)
    ensures |b.keys| <= |Fill(b, words, first).keys| <= |b.keys| + |words|
    ensures Fill(b, words, first).keys[..|b.keys|] == b.keys
    decreases |words|
  {
    if words == [] {
      assert b.keys[..|b.keys|] == b.keys;
    } else {
      var init := words[..|words| - 1];
      FillPrefix(b, init, first);
      FillSnoc(b, words, first);
      var t, u := Fill(b, init, first), Fill(b, words, first);
      assert u.keys[..|t.keys|] == t.keys;
      assert u.keys[..|b.keys|] == u.keys[..|t.keys|][..|b.keys|];
    }
  }

  /** Filling a well-formed dict keeps it well formed. */
  lemma {:induction false} FillWellFormed<K(!new)>(b: Table<K>, words: seq<K>, first: int)
    requires WellFormed(b)
    ensures WellFormed(Fill(b, words, first))
    decreases |words|
  {
    if words != [] {
      var init, w := words[..|words| - 1], words[|words| - 1];
      FillWellFormed(b, init, first);
      FillSnoc(b, words, first);
      PutShape(Fill(b, init, first), w, first + |words| - 1);
    }
  }

  /** Filling a well-formed dict keeps it well formed, adds exactly the words as keys, keeps the
      existing key order as a prefix and adds at most one key per word. */
  lemma FillShape<K(!new)>(b: Table<K>, words: seq<K>, first: int)
    requires WellFormed(b)
    ensures WellFormed(Fill(b, words, first))
    ensures forall k :: k in Fill(b, words, first).ids <==> k in b.ids || k in words
    ensures |b.keys| <= |Fill(b, words, first).keys| <= |b.keys| + |words|
    ensures Fill(b, words, first).keys[..|b.keys|] == b.keys
  {
    FillMembers(b, words, first);
    FillPrefix(b, words, first);
    FillWellFormed(b, words, first);
  }

  /** The word at position i, when it is its last occurrence, gets the id first + i. */
  lemma {:induction false} FillId<K>(b: Table<K>, words: seq<K>, first: int, i: nat)
    requires i < |words|
    requires forall j :: i < j < |words| ==> words[j] != words[i]
    ensures words[i] in Fill(b, words, first).ids
    ensures Fill(b, words, first).ids[words[i]] == first + i
    decreases |words|
  {
    FillSnoc(b, words, first);
    if i < |words| - 1 {
      FillId(b, words[..|words| - 1], first, i);
    }
  }

  /** A key of the base dict that no word overwrites keeps its id. */
  lemma {:induction false} FillKeepsId<K>(b: Table<K>, words: seq<K>, first: int, k: K)
    requires k in b.ids && k !in words
    ensures k in Fill(b, words, first).ids && Fill(b, words, first).ids[k] == b.ids[k]
    decreases |words|
  {
    if words != [] {
      assert k !in words[..|words| - 1];
      FillKeepsId(b, words[..|words| - 1], first, k);
      FillSnoc(b, words, first);
    }
  }

  /** Every id after filling is either a base id its key kept, or a counter value in
      [first, first + |words|). */
  lemma {:induction false} FillIdRange<K>(b: Table<K>, words: seq<K>, first: int)
    ensures forall k :: k in Fill(b, words, first).ids ==>
      (k in b.ids && Fill(b, words, first).ids[k] == b.ids[k]) ||
      first <= Fill(b, words, first).ids[k] < first + |words|
    decreases |words|
  {
    if words != [] {
      var init, w := words[..|words| - 1], words[|words| - 1];
      FillIdRange(b, init, first);
      FillSnoc(b, words, first);
    }
  }

  /** With the words duplicate-free and all new, the keys are the base keys followed by the
      words in order. */
  lemma {:induction false} FillKeys<K(!new)>(b: Table<K>, words: seq<K>, first: int)
    requires WellFormed(b) && Distinct(words) && AllNew(b, words)
    ensures Fill(b, words, first).keys == b.keys + words
    decreases |words|
  {
    if words == [] {
      assert b.keys + words == b.keys;
    } else {
      var init, w := words[..|words| - 1], words[|words| - 1];
      CleanSnoc(b, words);
      FillKeys(b, init, first);
      FillMembers(b, init, first);
      FillSnoc(b, words, first);
      var t := Fill(b, init, first);
      assert w !in t.ids;
      assert Fill(b, words, first).keys == t.keys + [w];
      assert t.keys + [w] == b.keys + (init + [w]);
      assert init + [w] == words;
    }
  }

  /** Filling adds one key per word if and only if the words are duplicate-free and all new. */
  lemma {:induction false} FillLength<K(!new)>(b: Table<K>, words: seq<K>, first: int)
    requires WellFormed(b)
    ensures |Fill(b, words, first).keys| == |b.keys| + |words| <==>
      Distinct(words) && AllNew(b, words)
    decreases |words|
  {
    if words != [] {
      var init, w := words[..|words| - 1], words[|words| - 1];
      FillLength(b, init, first);
      FillShape(b, init, first);
      FillSnoc(b, words, first);
      CleanSnoc(b, words);
      var t := Fill(b, init, first);
      PutShape(t, w, first + |words| - 1);
      assert w in t.ids <==> w in b.ids || w in init;
    }
  }
}
