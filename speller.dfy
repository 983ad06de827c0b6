/**
 * A model of speller.c: a dictionary held in a hash table of 26 chains, one
 * per first letter, with a global word counter.
 *
 * A chain (a singly-linked list of nodes in C) is a `seq<string>` whose
 * element 0 is the node the bucket pointer points at. The abstract value of
 * the table is a `Table`, a sequence of 26 chains; `Dictionary` is the
 * mutable state itself, an `array` of chains and the counter `wordcount`.
 */
module Speller {
  import opened CType

  /** Number of buckets (`N` and `NUM_BUCKETS` of the source, both 26). */
  const N: nat := 26
  const NUM_BUCKETS: nat := N

  /** Longest word a node can hold (`LENGTH` of dictionary.h); only the
      client scenarios at the end depend on its value. */
  const LENGTH: nat := 45

  /** Width of C's `unsigned int`. */
  const UINT_MODULUS: int := 0x1_0000_0000

  /** The first character C sees: the NUL terminator for an empty word. */
  function FirstChar(word: string): char {
    if |word| == 0 then '\0' else word[0]
  }

  predicate StartsWithLetter(word: string) {
    |word| > 0 && IsAlpha(word[0])
  }

  // ---------------------------------------------------------------------
  // The two hash functions
  // ---------------------------------------------------------------------

  /** `hash`: the bucket of a word, `tolower(word[0]) - 'a'` as an unsigned
      int. It is a valid bucket index exactly for words that start with an
      ASCII letter. For any other word the index is outside the table: the
      NUL of an empty word, or a first character below 'a' that is not a
      capital, wraps around to at least 2^32 - 97, and a first character
      after 'z' gives its distance from 'a', 26 or more. */
  function Hash(word: string): (r: nat)
    ensures r < N <==> StartsWithLetter(word)
    ensures StartsWithLetter(word) ==> ToLower(word[0]) as int == 'a' as int + r
  {
    (ToLower(FirstChar(word)) as int - 'a' as int) % UINT_MODULUS
  }

  /** The bucket depends only on the case-folded word. */
  lemma HashIgnoresCase(word: string)
    ensures Hash(word) == Hash(Lower(word))
  {
  }

  /** Two words that start with a letter share a bucket exactly when their
      first letters are the same up to case. */
  lemma HashFirstLetter(w1: string, w2: string)
    requires StartsWithLetter(w1) && StartsWithLetter(w2)
    ensures Hash(w1) == Hash(w2) <==> ToLower(w1[0]) == ToLower(w2[0])
  {
  }

  /** Sum of `toupper` over the characters of `s`, first to last. */
  function SumUpper(s: string): nat {
    if s == [] then 0 else SumUpper(s[..|s| - 1]) + ToUpper(s[|s| - 1]) as int
  }

  /** `hash_function`: adds up `toupper` of every character and reduces the
      sum modulo `NUM_BUCKETS`. For every string, read as non-negative
      character codes, the result is a bucket index. */
  method HashFunction(str: string) returns (r: nat)
    ensures r == SumUpper(str) % NUM_BUCKETS
    ensures r < NUM_BUCKETS
  {
    var index := 0;
    var i := 0;
    while i < |str|
      invariant 0 <= i <= |str|
      invariant index == SumUpper(str[..i])
    {
      assert str[..i + 1][..i] == str[..i];
      index := index + ToUpper(str[i]) as int;
      i := i + 1;
    }
    assert str[..i] == str;
    r := index % NUM_BUCKETS;
  }

  /** `hash_function` cannot tell a word from its lower-case form. */
  lemma {:induction false} SumUpperIgnoresCase(s: string)
    ensures SumUpper(Lower(s)) == SumUpper(s)
  {
    if s != [] {
      var init := s[..|s| - 1];
      assert Lower(s)[..|s| - 1] == Lower(init);
      SumUpperIgnoresCase(init);
      UpperIgnoresLowering(s[|s| - 1]);
    }
  }

  // ---------------------------------------------------------------------
  // The table as a value
  // ---------------------------------------------------------------------

  type Table = seq<seq<string>>

  /** The table after the reset loop of `load`: 26 empty chains. */
  function EmptyTable(): Table {
    seq(N, _ => [])
  }

  /** Tokens `load` can place: each starts with an ASCII letter. */
  predicate ValidTokens(words: seq<string>) {
    forall i :: 0 <= i < |words| ==> StartsWithLetter(words[i])
  }

  /** Every stored word lies in the bucket its hash names. */
  predicate WellPlaced(t: Table) {
    forall b, i :: 0 <= b < |t| && 0 <= i < |t[b]| ==> Hash(t[b][i]) == b
  }

  /** One step of `load`: the word becomes the new head of its chain. */
  function Prepend(t: Table, word: string): Table
    requires |t| == N && StartsWithLetter(word)
  {
    t[Hash(word) := [word] + t[Hash(word)]]
  }

  /** The table after prepending `words`, first to last, to `t`. */
  function Inserted(t: Table, words: seq<string>): (r: Table)
    requires |t| == N && ValidTokens(words)
    ensures |r| == N
    decreases |words|
  {
    if words == [] then t
    else Prepend(Inserted(t, words[..|words| - 1]), words[|words| - 1])
  }

  /** The table `load` builds from `words`. */
  function Loaded(words: seq<string>): Table
    requires ValidTokens(words)
  {
    Inserted(EmptyTable(), words)
  }

  /** The query `check` answers: the lower-cased word occurs verbatim in the
      chain of its bucket. */
  predicate InDictionary(t: Table, word: string)
    requires |t| == N && StartsWithLetter(word)
  {
    Lower(word) in t[Hash(Lower(word))]
  }

  /** Number of words stored in all chains together. */
  function TotalWords(t: Table): nat {
    if t == [] then 0 else |t[0]| + TotalWords(t[1..])
  }

  /** All words stored in the table, with their multiplicities. */
  function Words(t: Table): multiset<string> {
    if t == [] then multiset{} else multiset(t[0]) + Words(t[1..])
  }

  /** The tokens of `words` that hash to bucket `b`, in input order. */
  function InBucket(words: seq<string>, b: nat): seq<string> {
    if words == [] then []
    else
      var last := words[|words| - 1];
      InBucket(words[..|words| - 1], b) + (if Hash(last) == b then [last] else [])
  }

  function Reversed(s: seq<string>): seq<string> {
    if s == [] then [] else [s[|s| - 1]] + Reversed(s[..|s| - 1])
  }

  // ---------------------------------------------------------------------
  // Properties of loading
  // ---------------------------------------------------------------------

  /** A single insertion: the token, in its own case, is the new head of
      chain `Hash(word)`, the old chain follows it, and every other bucket is
      unchanged. */
  lemma InsertPrepends(t: Table, words: seq<string>, word: string)
    requires |t| == N && ValidTokens(words) && StartsWithLetter(word)
    ensures ValidTokens(words + [word])
    ensures Inserted(t, words + [word])[Hash(word)] == [word] + Inserted(t, words)[Hash(word)]
    ensures forall b :: 0 <= b < N && b != Hash(word) ==>
              Inserted(t, words + [word])[b] == Inserted(t, words)[b]
  {
  }

  lemma ReversedSnoc(s: seq<string>, x: string)
    ensures Reversed(s + [x]) == [x] + Reversed(s)
  {
  }

  lemma {:induction false} ReversedMultiset(s: seq<string>)
    ensures multiset(Reversed(s)) == multiset(s)
  {
    if s != [] {
      ReversedMultiset(s[..|s| - 1]);
      assert s == s[..|s| - 1] + [s[|s| - 1]];
    }
  }

  /** `InBucket` keeps exactly the tokens of the bucket. */
  lemma {:induction false} InBucketMembers(words: seq<string>, b: nat, x: string)
    ensures x in InBucket(words, b) <==> x in words && Hash(x) == b
  {
    if words != [] {
      var init := words[..|words| - 1];
      InBucketMembers(init, b, x);
      assert words == init + [words[|words| - 1]];
    }
  }

  /** The order inside a chain: bucket `b` holds the tokens of bucket `b` in
      reverse order of insertion (the last one loaded first), duplicates
      kept, in front of what the bucket held before. */
  lemma {:induction false} InsertedChain(t: Table, words: seq<string>, b: nat)
    requires |t| == N && ValidTokens(words) && b < N
    ensures Inserted(t, words)[b] == Reversed(InBucket(words, b)) + t[b]
  {
    if words != [] {
      var init := words[..|words| - 1];
      var last := words[|words| - 1];
      InsertedChain(t, init, b);
      assert Inserted(t, words) == Prepend(Inserted(t, init), last);
      if Hash(last) == b {
        ReversedSnoc(InBucket(init, b), last);
        assert InBucket(words, b) == InBucket(init, b) + [last];
      } else {
        assert InBucket(words, b) == InBucket(init, b);
        assert Inserted(t, words)[b] == Inserted(t, init)[b];
      }
    }
  }

  /** The invariant `load` keeps: every stored word is in bucket
      `Hash(word)`. */
  lemma {:induction false} InsertedWellPlaced(t: Table, words: seq<string>)
    requires |t| == N && ValidTokens(words) && WellPlaced(t)
    ensures WellPlaced(Inserted(t, words))
  {
    if words != [] {
      InsertedWellPlaced(t, words[..|words| - 1]);
    }
  }

  lemma {:induction false} TotalWordsUpdate(t: Table, b: nat, c: seq<string>)
    requires b < |t|
    ensures TotalWords(t[b := c]) == TotalWords(t) - |t[b]| + |c|
  {
    if b == 0 {
      assert t[b := c][1..] == t[1..];
    } else {
      assert t[b := c][1..] == t[1..][b - 1 := c];
      TotalWordsUpdate(t[1..], b - 1, c);
    }
  }

  lemma {:induction false} WordsPrepend(t: Table, b: nat, word: string)
    requires b < |t|
    ensures Words(t[b := [word] + t[b]]) == Words(t) + multiset{word}
  {
    var after := t[b := [word] + t[b]];
    if b == 0 {
      assert after[1..] == t[1..];
      assert multiset(after[0]) == multiset{word} + multiset(t[0]);
    } else {
      assert after[1..] == t[1..][b - 1 := [word] + t[1..][b - 1]];
      WordsPrepend(t[1..], b - 1, word);
    }
  }

  /** Every token is stored once per occurrence: the number of stored words
      grows by exactly the number of tokens, duplicates included. */
  lemma {:induction false} InsertedCount(t: Table, words: seq<string>)
    requires |t| == N && ValidTokens(words)
    ensures TotalWords(Inserted(t, words)) == TotalWords(t) + |words|
  {
    if words != [] {
      var init := words[..|words| - 1];
      var last := words[|words| - 1];
      var before := Inserted(t, init);
      InsertedCount(t, init);
      TotalWordsUpdate(before, Hash(last), [last] + before[Hash(last)]);
    }
  }

  /** Nothing is lost and nothing invented: the stored words are the tokens,
      with the same multiplicities, added to what was stored before. */
  lemma {:induction false} InsertedWords(t: Table, words: seq<string>)
    requires |t| == N && ValidTokens(words)
    ensures Words(Inserted(t, words)) == Words(t) + multiset(words)
  {
    if words != [] {
      var init := words[..|words| - 1];
      var last := words[|words| - 1];
      InsertedWords(t, init);
      WordsPrepend(Inserted(t, init), Hash(last), last);
      assert words == init + [last];
      assert multiset(words) == multiset(init) + multiset{last};
    }
  }

  lemma {:induction false} EmptyTableHoldsNothing(k: nat)
    requires k <= N
    ensures TotalWords(EmptyTable()[N - k..]) == 0
    ensures Words(EmptyTable()[N - k..]) == multiset{}
  {
    if k > 0 {
      EmptyTableHoldsNothing(k - 1);
      assert EmptyTable()[N - k..][1..] == EmptyTable()[N - (k - 1)..];
    }
  }

  /** After a load into the reset table, the sum of the chain lengths is the
      number of tokens and the stored words are exactly the tokens. */
  lemma LoadedContents(words: seq<string>)
    requires ValidTokens(words)
    ensures TotalWords(Loaded(words)) == |words|
    ensures Words(Loaded(words)) == multiset(words)
  {
    EmptyTableHoldsNothing(N);
    InsertedCount(EmptyTable(), words);
    InsertedWords(EmptyTable(), words);
  }

  // ---------------------------------------------------------------------
  // Properties of checking
  // ---------------------------------------------------------------------

  /** `check` answers the same for a word and for its lower-case form. */
  lemma CheckIgnoresCase(t: Table, word: string)
    requires |t| == N && StartsWithLetter(word)
    ensures StartsWithLetter(Lower(word))
    ensures InDictionary(t, word) == InDictionary(t, Lower(word))
  {
  }

  /** What `check` answers after a load: a word is found exactly when its
      lower-cased form is one of the tokens, verbatim. So a token with an
      upper-case letter is never found, and on the reset table (no tokens)
      nothing is. */
  lemma CheckAfterLoad(words: seq<string>, word: string)
    requires ValidTokens(words) && StartsWithLetter(word)
    ensures InDictionary(Loaded(words), word) <==> Lower(word) in words
  {
    var key := Lower(word);
    var b := Hash(key);
    InsertedChain(EmptyTable(), words, b);
    ReversedMultiset(InBucket(words, b));
    InBucketMembers(words, b, key);
    assert key in Reversed(InBucket(words, b)) <==> key in multiset(Reversed(InBucket(words, b)));
    assert key in InBucket(words, b) <==> key in multiset(InBucket(words, b));
  }

  /** Every loaded token that is already all lower-case is found. */
  lemma LowercaseTokenFound(words: seq<string>, i: nat)
    requires ValidTokens(words) && i < |words| && NoUpper(words[i])
    ensures InDictionary(Loaded(words), words[i])
  {
    CheckAfterLoad(words, words[i]);
  }

  // ---------------------------------------------------------------------
  // The dictionary state
  // ---------------------------------------------------------------------

  /** What `load` is given: either a source that cannot be opened, or the
      whitespace-separated tokens it holds, in order. */
  datatype Source = Unavailable | Tokens(words: seq<string>)

  /** The globals `hashtable` and `wordcount` of speller.c. */
  class Dictionary {
    var hashtable: array<seq<string>>
    var wordcount: int

    ghost predicate Valid()
      reads this, hashtable
    {
      hashtable.Length == N && WellPlaced(hashtable[..])
    }

    /** The chains of the table, bucket by bucket. */
    function Buckets(): Table
      reads this, hashtable
    {
      hashtable[..]
    }

    /** `size`: the word counter. */
    function Size(): int
      reads this
    {
      wordcount
    }

    /** The zero-initialised globals: no chains and a count of 0. */
    constructor ()
      ensures Valid() && fresh(hashtable)
      ensures Buckets() == EmptyTable() && wordcount == 0
    {
      hashtable := new seq<string>[N](_ => []);
      wordcount := 0;
    }

    /** `load`: resets every bucket, then, if the source can be opened,
        prepends each token to the chain of its bucket and counts it. The
        counter is never reset, so it adds up over repeated loads. */
    method Load(source: Source) returns (ok: bool)
      requires Valid()
      requires source.Tokens? ==> ValidTokens(source.words)
      requires source.Tokens? ==> forall i :: 0 <= i < |source.words| ==> |source.words[i]| <= LENGTH
      modifies this`wordcount, hashtable
      ensures Valid()
      ensures ok <==> source.Tokens?
      ensures source.Unavailable? ==> Buckets() == EmptyTable() && wordcount == old(wordcount)
      ensures source.Tokens? ==> Buckets() == Loaded(source.words)
      ensures source.Tokens? ==> wordcount == old(wordcount) + |source.words|
    {
      for i := 0 to N
        invariant forall j :: 0 <= j < i ==> hashtable[j] == []
        invariant wordcount == old(wordcount)
      {
        hashtable[i] := [];
      }
      assert hashtable[..] == EmptyTable();

      if source.Unavailable? {
        var _ := Unload();
        return false;
      }

      var words := source.words;
      var k := 0;
      while k < |words|
        invariant 0 <= k <= |words|
        invariant ValidTokens(words[..k])
        invariant hashtable[..] == Inserted(EmptyTable(), words[..k])
        invariant wordcount == old(wordcount) + k
      {
        var word := words[k];
        ghost var before := hashtable[..];
        wordcount := wordcount + 1;
        var hashed := Hash(word);
        if hashtable[hashed] == [] {
          hashtable[hashed] := [word];
          assert [word] == [word] + before[hashed];
        } else {
          hashtable[hashed] := [word] + hashtable[hashed];
        }
        assert hashtable[..] == before[hashed := [word] + before[hashed]];
        assert words[..k + 1][..k] == words[..k];
        k := k + 1;
      }
      assert words[..k] == words;
      InsertedWellPlaced(EmptyTable(), words);
      ok := true;
    }

    /** `check`: lower-cases the query into a copy, hashes the copy and walks
        that one chain looking for an exact match. Stored words keep their
        case, so only the query is case-folded. */
    method Check(word: string) returns (found: bool)
      requires Valid()
      requires StartsWithLetter(word)
      ensures found <==> InDictionary(Buckets(), word)
    {
      var length := |word|;
      var wordCopy := new char[length];
      for i := 0 to length
        invariant forall j :: 0 <= j < i ==> wordCopy[j] == ToLower(word[j])
      {
        wordCopy[i] := ToLower(word[i]);
      }
      var copy := wordCopy[..];
      assert copy == Lower(word);

      var hashed := Hash(copy);
      var chain := hashtable[hashed];
      var pointer := 0;
      while pointer < |chain|
        invariant 0 <= pointer <= |chain|
        invariant copy !in chain[..pointer]
      {
        if chain[pointer] == copy {
          return true;
        }
        assert chain[..pointer + 1] == chain[..pointer] + [chain[pointer]];
        pointer := pointer + 1;
      }
      assert chain[..pointer] == chain;
      return false;
    }

    /** `unload`: always reports success. Its outer loop runs up to
        `hashtable_size`, a global that is never assigned and so is 0: no
        chain is walked and the table and the counter stay as they are. */
    method Unload() returns (ok: bool)
      ensures ok
    {
      ok := true;
    }
  }

  // ---------------------------------------------------------------------
  // Clients
  // ---------------------------------------------------------------------

  /** The word list "apple Banana APPLE zebra". */
  function AppleBananaList(): (words: seq<string>)
    ensures ValidTokens(words)
    ensures forall i :: 0 <= i < |words| ==> |words[i]| <= LENGTH
  {
    ["apple", "Banana", "APPLE", "zebra"]
  }

  /** After loading "apple Banana APPLE zebra" the count is 4; the lower-case
      entries are found in any case, while the entries written with capitals
      are found in none, since only the query is lower-cased. */
  method AppleBananaScenario() returns (n: int, apple: bool, banana: bool, bananaCaps: bool, zebra: bool, grape: bool)
    ensures n == 4
    ensures apple && zebra
    ensures !banana && !bananaCaps && !grape
  {
    var tokens := AppleBananaList();
    var d := new Dictionary();
    var ok := d.Load(Tokens(tokens));
    n := d.Size();
    apple := d.Check("apple");
    CheckAfterLoad(tokens, "apple");
    banana := d.Check("banana");
    CheckAfterLoad(tokens, "banana");
    bananaCaps := d.Check("BANANA");
    CheckAfterLoad(tokens, "BANANA");
    assert Lower("BANANA") == "banana";
    zebra := d.Check("Zebra");
    CheckAfterLoad(tokens, "Zebra");
    assert Lower("Zebra") == "zebra";
    grape := d.Check("grape");
    CheckAfterLoad(tokens, "grape");
  }

  /** A source that cannot be opened: `load` fails, the count stays 0 and no
      word is found. */
  method UnavailableScenario() returns (ok: bool, n: int, found: bool)
    ensures !ok && n == 0 && !found
  {
    var d := new Dictionary();
    ok := d.Load(Unavailable);
    n := d.Size();
    found := d.Check("apple");
    CheckAfterLoad([], "apple");
  }

  /** Loading the same one-word list twice: the table holds the word once,
      but the counter says 2, because `load` resets the buckets and not the
      counter. */
  method ReloadScenario() returns (n: int, stored: nat)
    ensures n == 2 && stored == 1
  {
    var d := new Dictionary();
    var ok := d.Load(Tokens(["apple"]));
    ok := d.Load(Tokens(["apple"]));
    n := d.Size();
    stored := TotalWords(d.Buckets());
    LoadedContents(["apple"]);
  }
}
