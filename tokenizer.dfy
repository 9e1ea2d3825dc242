/** The caption tokeniser: re.findall with the pattern `[\w]+|\.|\,` over lower-cased text. */
module Tokenizer {
  import opened Text

  predicate IsPunct(c: char) {
    c == '.' || c == ','
  }

  /** A string the pattern can match: a non-empty run of word characters, "." or ",". */
  predicate IsToken(t: String) {
    (|t| > 0 && forall i :: 0 <= i < |t| ==> IsWordChar(t[i])) || t == "." || t == ","
  }

  /** Length of the longest prefix of s made of word characters. */
  function WordRun(s: String): (n: nat)
    ensures n <= |s|
    ensures forall i :: 0 <= i < n ==> IsWordChar(s[i])
    ensures n < |s| ==> !IsWordChar(s[n])
  {
    if s == [] || !IsWordChar(s[0]) then 0 else 1 + WordRun(s[1..])
  }

  /** re.findall(r"[\w]+|\.|\,", s): scanning left to right, a maximal word run or a single
      "." or "," is emitted, and every other character is skipped. */
  function FindAll(s: String): (ts: seq<String>)
    ensures forall i :: 0 <= i < |ts| ==> IsToken(ts[i])
    decreases |s|
  {
    if s == [] then []
    else if IsWordChar(s[0]) then
      var n := WordRun(s);
      [s[..n]] + FindAll(s[n..])
    else if IsPunct(s[0]) then [[s[0]]] + FindAll(s[1..])
    else FindAll(s[1..])
  }

  /** The tokens of one caption, as __getitem__ and get_all_distinct_words_in_dataset take them. */
  function CaptionTokens(comment: String): (ts: seq<String>)
    ensures forall i :: 0 <= i < |ts| ==> IsToken(ts[i]) && IsLowerCase(ts[i])
  {
    var ts := FindAll(Lower(comment));
    FindAllChars(Lower(comment));
    ts
  }

  // ---------------------------------------------------------------------------------------
  // Reference definitions

  /** The characters the pattern can match, in order. */
  function Kept(s: String): String {
    if s == [] then []
    else (if IsWordChar(s[0]) || IsPunct(s[0]) then [s[0]] else []) + Kept(s[1..])
  }

  function Concat(ts: seq<String>): String {
    if ts == [] then [] else ts[0] + Concat(ts[1..])
  }

  /** The tokens joined by single spaces. */
  function Unwords(ts: seq<String>): String {
    if ts == [] then []
    else if |ts| == 1 then ts[0]
    else ts[0] + " " + Unwords(ts[1..])
  }

  // ---------------------------------------------------------------------------------------
  // Lemmas

  /** Every character of every token comes from the input. */
  lemma {:induction false} FindAllChars(s: String)
    ensures forall i, j :: 0 <= i < |FindAll(s)| && 0 <= j < |FindAll(s)[i]| ==> FindAll(s)[i][j] in s
    decreases |s|
  {
    if s != [] {
      if IsWordChar(s[0]) {
        var n := WordRun(s);
        FindAllChars(s[n..]);
        forall i, j | 0 <= i < |FindAll(s)| && 0 <= j < |FindAll(s)[i]|
          ensures FindAll(s)[i][j] in s
        {
          if i == 0 {
            assert FindAll(s)[0][j] == s[j];
          } else {
            assert FindAll(s)[i] == FindAll(s[n..])[i - 1];
            assert forall c :: c in s[n..] ==> c in s;
          }
        }
      } else {
        FindAllChars(s[1..]);
        assert forall c :: c in s[1..] ==> c in s;
      }
    }
  }

  lemma {:induction false} KeptWordPrefix(s: String, n: nat)
    requires n <= |s| && forall i :: 0 <= i < n ==> IsWordChar(s[i])
    ensures Kept(s) == s[..n] + Kept(s[n..])
  {
    if n > 0 {
      KeptWordPrefix(s[1..], n - 1);
      assert s[1..][n - 1..] == s[n..];
      assert s[..n] == [s[0]] + s[1..][..n - 1];
    }
  }

  /** Nothing the pattern can match is lost: the tokens spell out exactly the matchable
      characters of the input. */
  lemma {:induction false} FindAllKeepsMatchable(s: String)
    ensures Concat(FindAll(s)) == Kept(s)
    decreases |s|
  {
    if s != [] {
      if IsWordChar(s[0]) {
        var n := WordRun(s);
        FindAllKeepsMatchable(s[n..]);
        KeptWordPrefix(s, n);
        assert FindAll(s)[1..] == FindAll(s[n..]);
      } else {
        FindAllKeepsMatchable(s[1..]);
        if IsPunct(s[0]) {
          assert FindAll(s)[1..] == FindAll(s[1..]);
        }
      }
    }
  }

  lemma {:induction false} WordRunAppend(s: String, t: String)
    ensures WordRun(s) < |s| ==> WordRun(s + t) == WordRun(s)
    ensures WordRun(s) == |s| ==> WordRun(s + t) == |s| + WordRun(t)
  {
    if s != [] && IsWordChar(s[0]) {
      WordRunAppend(s[1..], t);
      assert (s + t)[1..] == s[1..] + t;
    } else if s == [] {
      assert s + t == t;
    }
  }

  lemma FindAllWordStep(u: String)
    requires u != [] && IsWordChar(u[0])
    ensures FindAll(u) == [u[..WordRun(u)]] + FindAll(u[WordRun(u)..])
  {
  }

  lemma FindAllOtherStep(u: String)
    requires u != [] && !IsWordChar(u[0])
    ensures FindAll(u) == (if IsPunct(u[0]) then [[u[0]]] else []) + FindAll(u[1..])
  {
  }

  /** Runs are maximal: the input can be cut anywhere next to a character that is not a word
      character, and the tokens of the two halves just concatenate. */
  lemma {:induction false} FindAllSplit(s: String, t: String)
    requires s == [] || t == [] || !IsWordChar(s[|s| - 1]) || !IsWordChar(t[0])
    ensures FindAll(s + t) == FindAll(s) + FindAll(t)
    decreases |s|, 1
  {
    if s == [] {
      assert s + t == t;
    } else if IsWordChar(s[0]) {
      FindAllSplitRun(s, t);
    } else {
      assert (s + t)[0] == s[0];
      FindAllOtherStep(s);
      FindAllOtherStep(s + t);
      assert (s + t)[1..] == s[1..] + t;
      FindAllSplit(s[1..], t);
    }
  }

  lemma {:induction false} FindAllSplitRun(s: String, t: String)
    requires s != [] && IsWordChar(s[0])
    requires t == [] || !IsWordChar(s[|s| - 1]) || !IsWordChar(t[0])
    ensures FindAll(s + t) == FindAll(s) + FindAll(t)
    decreases |s|, 0
  {
    var n := WordRun(s);
    WordRunAppend(s, t);
    assert (s + t)[0] == s[0];
    FindAllWordStep(s);
    FindAllWordStep(s + t);
    if n < |s| {
      assert (s + t)[..n] == s[..n];
      assert (s + t)[n..] == s[n..] + t;
      FindAllSplit(s[n..], t);
    } else {
      assert WordRun(t) == 0;
      assert s[..n] == s && s[n..] == [];
      assert (s + t)[..n] == s;
      assert (s + t)[n..] == t;
    }
  }

  /** Two adjacent word runs are one token: a cut between word characters does not split. */
  lemma AdjacentRunsMerge()
    ensures FindAll("a" + "b") == ["ab"]
    ensures FindAll("a") + FindAll("b") == ["a", "b"]
  {
    assert WordRun("ab") == 2;
    assert "ab"[..2] == "ab" && "ab"[2..] == [];
    assert WordRun("a") == 1 && WordRun("b") == 1;
    assert "a"[..1] == "a" && "a"[1..] == [];
    assert "b"[..1] == "b" && "b"[1..] == [];
    assert "a" + "b" == "ab";
  }

  lemma {:induction false} FindAllOneToken(t: String)
    requires IsToken(t)
    ensures FindAll(t) == [t]
  {
    if IsWordChar(t[0]) {
      WordRunAppend(t, []);
      assert t + [] == t;
      assert t[..|t|] == t && t[|t|..] == [];
    } else {
      assert t[1..] == [];
    }
  }

  /** Tokenising the tokens joined by spaces gives the tokens back. */
  lemma {:induction false} FindAllUnwords(ts: seq<String>)
    requires forall i :: 0 <= i < |ts| ==> IsToken(ts[i])
    ensures FindAll(Unwords(ts)) == ts
  {
    if |ts| == 1 {
      FindAllOneToken(ts[0]);
    } else if |ts| > 1 {
      var rest := " " + Unwords(ts[1..]);
      FindAllUnwords(ts[1..]);
      FindAllOneToken(ts[0]);
      assert ts[0] != [] && (ts[0] == "." || ts[0] == "," || IsWordChar(ts[0][|ts[0]| - 1]));
      assert !IsWordChar(rest[0]);
      assert Unwords(ts) == ts[0] + rest;
      FindAllSplit(ts[0], rest);
      assert rest[1..] == Unwords(ts[1..]);
      assert FindAll(rest) == FindAll(Unwords(ts[1..]));
    }
  }
}
