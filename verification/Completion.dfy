/**
 The completion index of the client: a hash table of all prefixes of the words.  It answers like
 a plain list of the words, whatever the hash function.
 */
module Completion {
  import opened Wrappers

  /** A bucket: the words that were added under a key, the newest first, and their number. */
  datatype Bucket = Bucket(key: string, h: nat, words: seq<string>, count: nat)

  // ---------------------------------------------------------------- words

  /** The words with prefix `key`, the newest first; `words` is in the order of their addition. */
  function Matches(words: seq<string>, key: string): seq<string> {
    if words == [] then []
    else
      var last := words[|words| - 1];
      (if key <= last then [last] else []) + Matches(words[..|words| - 1], key)
  }

  lemma {:induction false} MatchesHave(words: seq<string>, key: string, w: string)
    ensures w in Matches(words, key) <==> w in words && key <= w
  {
    if words != [] {
      MatchesHave(words[..|words| - 1], key, w);
      assert words == words[..|words| - 1] + [words[|words| - 1]];
    }
  }

  /** The places of the matches in the list of the words, the newest first. */
  ghost predicate Places(words: seq<string>, key: string, at: seq<nat>) {
    && (forall k | 0 <= k < |at| :: at[k] < |words| && key <= words[at[k]])
    && (forall j, k | 0 <= j < k < |at| :: at[j] > at[k])
    && forall i: nat | i < |words| && key <= words[i] :: i in at
  }

  /** One more word. */
  lemma PlacesMore(words: seq<string>, key: string, at: seq<nat>, w: string)
    requires Places(words, key, at)
    ensures Places(words + [w], key, (if key <= w then [|words|] else []) + at)
  {
    var more := (if key <= w then [|words|] else []) + at;
    assert forall i | i in at :: i in more;
    assert key <= w ==> more[0] == |words|;
  }

  /** `m` has the words at the places `at`. */
  ghost predicate WordsAt(words: seq<string>, at: seq<nat>, m: seq<string>) {
    |m| == |at| && forall k | 0 <= k < |at| :: at[k] < |words| && m[k] == words[at[k]]
  }

  lemma WordsMore(words: seq<string>, at: seq<nat>, m: seq<string>, w: string)
    requires WordsAt(words, at, m)
    ensures WordsAt(words + [w], at, m) && WordsAt(words + [w], [|words|] + at, [w] + m)
  {
  }

  lemma MoreMatches(words: seq<string>, key: string, at: seq<nat>, w: string, m: seq<string>) returns (at': seq<nat>)
    requires Places(words, key, at) && WordsAt(words, at, m)
    ensures Places(words + [w], key, at') && WordsAt(words + [w], at', (if key <= w then [w] else []) + m)
  {
    PlacesMore(words, key, at, w);
    WordsMore(words, at, m, w);
    at' := (if key <= w then [|words|] else []) + at;
    assert [] + at == at && [] + m == m;
  }

  /** The matches are the words at these places, in this order; every place with a match is among them. */
  lemma {:induction false} MatchesAre(words: seq<string>, key: string) returns (at: seq<nat>)
    ensures Places(words, key, at) && WordsAt(words, at, Matches(words, key))
  {
    at := [];
    if words != [] {
      var n := |words| - 1;
      var rest := MatchesAre(words[..n], key);
      assert words == words[..n] + [words[n]];
      at := MoreMatches(words[..n], key, rest, words[n], Matches(words[..n], key));
    }
  }

  /** A longer key has no more matches, and as many only if all matches have it. */
  lemma {:induction false} LongerKey(words: seq<string>, key: string, longer: string)
    requires key <= longer
    ensures |Matches(words, longer)| <= |Matches(words, key)|
    ensures |Matches(words, longer)| == |Matches(words, key)| <==> AllHave(Matches(words, key), longer)
    ensures AllHave(Matches(words, key), longer) ==> Matches(words, longer) == Matches(words, key)
  {
    if words != [] {
      var last := words[|words| - 1];
      LongerKey(words[..|words| - 1], key, longer);
      assert longer <= last ==> key <= last;
      AllHaveCons(last, Matches(words[..|words| - 1], key), longer);
      assert [] + Matches(words[..|words| - 1], key) == Matches(words[..|words| - 1], key);
    }
  }

  lemma {:induction false} AllMatch(words: seq<string>, key: string)
    ensures AllHave(Matches(words, key), key)
  {
    forall w | w in Matches(words, key)
      ensures key <= w
    {
      MatchesHave(words, key, w);
    }
  }

  ghost predicate AllHave(words: seq<string>, key: string) {
    forall w | w in words :: key <= w
  }

  lemma AllHaveCons(w: string, words: seq<string>, key: string)
    ensures AllHave([w] + words, key) <==> key <= w && AllHave(words, key)
  {
    assert w in [w] + words && forall x | x in words :: x in [w] + words;
  }

  // ---------------------------------------------------------------- chains

  /** completion_hash_find on a chain. */
  function Lookup(chain: seq<Bucket>, h: nat, key: string): Option<Bucket> {
    if chain == [] then None
    else if chain[0].h == h && chain[0].key == key then Some(chain[0])
    else Lookup(chain[1..], h, key)
  }

  /** The chain with `w` added under the key: to its bucket, or else in a new one at the front. */
  function Stored(chain: seq<Bucket>, h: nat, key: string, w: string): (r: seq<Bucket>) {
    if Lookup(chain, h, key).Some? then Pushed(chain, h, key, w) else [Bucket(key, h, [w], 1)] + chain
  }

  function Pushed(chain: seq<Bucket>, h: nat, key: string, w: string): (r: seq<Bucket>)
    ensures |r| == |chain|
  {
    if chain == [] then []
    else if chain[0].h == h && chain[0].key == key then
      [chain[0].(words := [w] + chain[0].words, count := chain[0].count + 1)] + chain[1..]
    else [chain[0]] + Pushed(chain[1..], h, key, w)
  }

  /** The bucket, if any, with one word more. */
  function WithWord(b: Option<Bucket>, w: string): Option<Bucket> {
    match b
    case None => None
    case Some(b) => Some(b.(words := [w] + b.words, count := b.count + 1))
  }

  /** Lookup after a store: one word more under its key, the rest as before. */
  lemma {:induction false} LookupPushed(chain: seq<Bucket>, h: nat, key: string, w: string, h': nat, key': string)
    ensures Lookup(Pushed(chain, h, key, w), h', key') ==
            if h == h' && key == key' then WithWord(Lookup(chain, h, key), w) else Lookup(chain, h', key')
  {
    if chain != [] && !(chain[0].h == h && chain[0].key == key) {
      LookupPushed(chain[1..], h, key, w, h', key');
      assert Pushed(chain, h, key, w)[1..] == Pushed(chain[1..], h, key, w);
    } else if chain != [] {
      assert Pushed(chain, h, key, w)[1..] == chain[1..];
    }
  }

  lemma LookupStored(chain: seq<Bucket>, h: nat, key: string, w: string, h': nat, key': string)
    ensures Lookup(Stored(chain, h, key, w), h', key') ==
            if h != h' || key != key' then Lookup(chain, h', key')
            else if Lookup(chain, h, key).None? then Some(Bucket(key, h, [w], 1))
            else WithWord(Lookup(chain, h, key), w)
  {
    LookupPushed(chain, h, key, w, h', key');
    var front := [Bucket(key, h, [w], 1)] + chain;
    assert front[1..] == chain;
  }

  // ---------------------------------------------------------------- the table

  /** What the table says about a key that has the words `m`. */
  ghost function Answer(hash: string -> nat, key: string, m: seq<string>): Option<Bucket> {
    if m == [] then None else Some(Bucket(key, hash(key), m, |m|))
  }

  ghost function Found(hash: string -> nat, slot: string -> nat, buckets: seq<seq<Bucket>>, key: string): Option<Bucket>
  {
    if slot(key) < |buckets| then Lookup(buckets[slot(key)], hash(key), key) else None
  }

  /** The table has the words `m(key)` under every key. */
  ghost predicate Holds(hash: string -> nat, slot: string -> nat, buckets: seq<seq<Bucket>>, m: string -> seq<string>) {
    && (forall key :: slot(key) < |buckets|)
    && forall key {:trigger Found(hash, slot, buckets, key)} ::
       Found(hash, slot, buckets, key) == Answer(hash, key, m(key))
  }

  /** One more word under one key. */
  lemma StoredHolds(hash: string -> nat, slot: string -> nat, buckets: seq<seq<Bucket>>, m: string -> seq<string>,
                    m': string -> seq<string>, key: string, w: string)
    requires Holds(hash, slot, buckets, m) && m'(key) == [w] + m(key) && forall k | k != key :: m'(k) == m(k)
    ensures var n := slot(key);
            n < |buckets| && Holds(hash, slot, buckets[n := Stored(buckets[n], hash(key), key, w)], m')
  {
    var n := slot(key);
    var buckets' := buckets[n := Stored(buckets[n], hash(key), key, w)];
    forall k
      ensures Found(hash, slot, buckets', k) == Answer(hash, k, m'(k))
    {
      assert Found(hash, slot, buckets, k) == Answer(hash, k, m(k));
      assert [w] + [] == [w];
      if slot(k) == n {
        LookupStored(buckets[n], hash(key), key, w, hash(k), k);
      }
    }
  }

  /** The keys are the non-empty prefixes of the words. */
  ghost function ByPrefix(words: seq<string>): string -> seq<string> {
    (key: string) => if key == [] then [] else Matches(words, key)
  }

  /** While `w` is being added: only the keys of length 1 to `i` have it already. */
  ghost function Partly(words: seq<string>, w: string, i: nat): string -> seq<string> {
    (key: string) => if key == [] then [] else (if |key| <= i && key <= w then [w] else []) + Matches(words, key)
  }

  lemma NextPrefix(words: seq<string>, w: string, i: nat)
    requires i < |w|
    ensures Partly(words, w, i + 1)(w[..i + 1]) == [w] + Partly(words, w, i)(w[..i + 1])
    ensures forall k | k != w[..i + 1] :: Partly(words, w, i + 1)(k) == Partly(words, w, i)(k)
  {
    var key := w[..i + 1];
    assert [] + Matches(words, key) == Matches(words, key);
  }

  lemma SameWords(hash: string -> nat, slot: string -> nat, buckets: seq<seq<Bucket>>, m: string -> seq<string>,
                  m': string -> seq<string>)
    requires Holds(hash, slot, buckets, m) && forall k :: m'(k) == m(k)
    ensures Holds(hash, slot, buckets, m')
  {
    forall key
      ensures Found(hash, slot, buckets, key) == Answer(hash, key, m'(key))
    {
      assert m'(key) == m(key);
    }
  }

  lemma BeforeAdding(words: seq<string>, w: string)
    ensures forall k :: Partly(words, w, 0)(k) == ByPrefix(words)(k)
  {
    forall k: string
      ensures Partly(words, w, 0)(k) == ByPrefix(words)(k)
    {
      assert [] + Matches(words, k) == Matches(words, k);
    }
  }

  lemma AfterAdding(words: seq<string>, w: string)
    ensures forall k :: ByPrefix(words + [w])(k) == Partly(words, w, |w|)(k)
  {
    assert (words + [w])[..|words|] == words;
    forall k: string
      ensures ByPrefix(words + [w])(k) == Partly(words, w, |w|)(k)
    {
      assert k <= w ==> |k| <= |w|;
    }
  }

  class HashTable {
    const hash: string -> nat
    const size: nat
    var buckets: seq<seq<Bucket>>
    ghost var words: seq<string>

    /** The index into the table. */
    function Slot(): string -> nat
      requires size >= 1
    {
      (key: string) => hash(key) % size
    }

    /** Every key has exactly the words with that prefix. */
    ghost predicate Valid()
      reads this
    {
      size >= 1 && |buckets| == size && Holds(hash, Slot(), buckets, ByPrefix(words))
    }

    /** completion_hash_init. */
    constructor (hash: string -> nat, size: nat)
      requires size >= 1
      ensures Valid() && words == [] && this.hash == hash
    {
      this.hash, this.size := hash, size;
      buckets := seq(size, _ => []);
      words := [];
    }

    /** completion_hash_find: the walk along the chain. */
    method Find(key: string) returns (b: Option<Bucket>)
      requires Valid()
      ensures b == Answer(hash, key, if key == [] then [] else Matches(words, key))
    {
      var h, n := hash(key), Slot()(key);
      ghost var answer := Found(hash, Slot(), buckets, key);
      var chain := buckets[n];
      var i := 0;
      while i < |chain|
        invariant 0 <= i <= |chain| && answer == Lookup(chain[i..], h, key)
      {
        if chain[i].h == h && chain[i].key == key {
          return Some(chain[i]);
        }
        assert chain[i..][1..] == chain[i + 1..];
        i := i + 1;
      }
      return None;
    }

    /** The walk of completion_hash_update along the chain. */
    method Store(chain: seq<Bucket>, h: nat, key: string, w: string) returns (r: seq<Bucket>)
      ensures r == Stored(chain, h, key, w)
    {
      var i := 0;
      while i < |chain|
        invariant 0 <= i <= |chain| && Lookup(chain, h, key) == Lookup(chain[i..], h, key)
        invariant Pushed(chain, h, key, w) == chain[..i] + Pushed(chain[i..], h, key, w)
      {
        var b := chain[i];
        if b.h == h && b.key == key {
          r := chain[i := b.(words := [w] + b.words, count := b.count + 1)];
          assert chain[i..][1..] == chain[i + 1..];
          return;
        }
        assert chain[i..][1..] == chain[i + 1..];
        i := i + 1;
      }
      r := [Bucket(key, h, [w], 1)] + chain;
    }

    /** add_word: the word is put under all its prefixes, each with completion_hash_update. */
    method AddWord(w: string)
      requires Valid()
      modifies this
      ensures Valid() && words == old(words) + [w]
    {
      BeforeAdding(words, w);
      SameWords(hash, Slot(), buckets, ByPrefix(words), Partly(words, w, 0));
      for i := 0 to |w|
        invariant size >= 1 && |buckets| == size && words == old(words) &&
                  Holds(hash, Slot(), buckets, Partly(words, w, i))
      {
        var key := w[..i + 1];
        var n := Slot()(key);
        NextPrefix(words, w, i);
        StoredHolds(hash, Slot(), buckets, Partly(words, w, i), Partly(words, w, i + 1), key, w);
        var chain := Store(buckets[n], hash(key), key, w);
        buckets := buckets[n := chain];
      }
      AfterAdding(words, w);
      SameWords(hash, Slot(), buckets, Partly(words, w, |w|), ByPrefix(words + [w]));
      words := words + [w];
    }

    /** find_all_matches: the words with a prefix, the newest first, and how many they are. */
    method FindAllMatches(key: string) returns (b: Option<Bucket>, length: nat)
      requires Valid()
      ensures b.None? <==> key == [] || Matches(words, key) == []
      ensures b.Some? ==> b.value.words == Matches(words, key) && b.value.count == |b.value.words| && length == |key|
      ensures b.None? ==> length == 0
    {
      b := Find(key);
      length := if b.None? then 0 else |key|;
    }

    /** find_longest_match: how far the words with a prefix go on alike. */
    method FindLongestMatch(key: string) returns (b: Option<Bucket>, length: nat)
      requires Valid()
      ensures b.None? <==> key == [] || Matches(words, key) == []
      ensures b.None? ==> length == 0
      ensures b.Some? ==> IsCommonPrefix(Matches(words, key), length) && b.value.words == Matches(words, key)
    {
      b := Find(key);
      if b.None? {
        return None, 0;
      }
      var count, s := b.value.count, b.value.words[0];
      ghost var m := Matches(words, key);
      length := |key|;
      AllMatch(words, key);
      assert s in m && s[..length] == key;
      while length < |s|
        invariant |key| <= length <= |s| && AllHave(m, s[..length]) && key <= s[..length]
        invariant b.Some? && b.value.words == m
      {
        var longer := s[..length + 1];
        LongerKey(words, key, longer);
        var next := Find(longer);
        if next.None? || next.value.count < count {
          return b, length;
        }
        b := next;
        length := length + 1;
      }
    }
  }

  /** `n` is the length of the longest common prefix of the words. */
  ghost predicate IsCommonPrefix(m: seq<string>, n: nat) {
    && m != [] && n <= |m[0]| && AllHave(m, m[0][..n])
    && (n < |m[0]| ==> !AllHave(m, m[0][..n + 1]))
  }
}
