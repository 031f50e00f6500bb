/** Lists of records identified by a word: the array methods the explorer
    applies to its history and favorites lists (`some`, `findIndex`,
    `filter`, `splice`, `slice`), stated once for any record type through
    the function `word` that reads a record's key. */
module Keyed {

  /** `a` is `b` with some elements deleted, the rest kept in order. */
  predicate IsSubsequence<E(==)>(a: seq<E>, b: seq<E>)
  {
    |a| == 0 ||
    (|b| > 0 &&
     ((a[0] == b[0] && IsSubsequence(a[1..], b[1..])) || IsSubsequence(a, b[1..])))
  }

  /** No two entries of `s` share a word. */
  predicate UniqueWords<E>(s: seq<E>, word: E -> string)
  {
    forall i, j :: 0 <= i < j < |s| ==> word(s[i]) != word(s[j])
  }

  /** Number of entries of `s` whose word is `w`. */
  function CountWord<E>(s: seq<E>, word: E -> string, w: string): nat
  {
    if |s| == 0 then 0
    else (if word(s[0]) == w then 1 else 0) + CountWord(s[1..], word, w)
  }

  /** `Array.prototype.some(e => e.word === w)`. */
  function HasWord<E>(s: seq<E>, word: E -> string, w: string): (b: bool)
    ensures b <==> exists i :: 0 <= i < |s| && word(s[i]) == w
  {
    if |s| == 0 then false
    else if word(s[0]) == w then true
    else
      var rest := HasWord(s[1..], word, w);
      assert forall i :: 0 < i < |s| ==> s[i] == s[1..][i - 1];
      rest
  }

  /** `Array.prototype.findIndex(e => e.word === w)`: the first position
      holding `w`, or -1 when there is none. */
  function FindIndex<E>(s: seq<E>, word: E -> string, w: string): (r: int)
    ensures -1 <= r < |s|
    ensures r == -1 <==> !HasWord(s, word, w)
    ensures 0 <= r ==> word(s[r]) == w
    ensures 0 <= r ==> forall j :: 0 <= j < r ==> word(s[j]) != w
  {
    if |s| == 0 then -1
    else if word(s[0]) == w then 0
    else
      var k := FindIndex(s[1..], word, w);
      if k == -1 then -1 else k + 1
  }

  /** `Array.prototype.splice(i, 1)`: the list without its entry at `i`. */
  function RemoveAt<E>(s: seq<E>, i: nat): (r: seq<E>)
    requires i < |s|
    ensures |r| == |s| - 1
    ensures forall j :: 0 <= j < |r| ==> r[j] == if j < i then s[j] else s[j + 1]
  {
    s[..i] + s[i + 1..]
  }

  /** `Array.prototype.filter(e => e.word !== w)`: no entry holding `w` is
      left, and the list is shorter by exactly the entries that held it;
      which entries survive, in what order, is stated by the lemmas below. */
  function Without<E>(s: seq<E>, word: E -> string, w: string): (r: seq<E>)
    ensures |r| == |s| - CountWord(s, word, w)
    ensures forall i :: 0 <= i < |r| ==> word(r[i]) != w
  {
    if |s| == 0 then []
    else if word(s[0]) == w then Without(s[1..], word, w)
    else [s[0]] + Without(s[1..], word, w)
  }

  /** One step of the filter, for an entry in front of a list. */
  lemma WithoutCons<E>(x: E, t: seq<E>, word: E -> string, w: string)
    ensures Without([x] + t, word, w) == (if word(x) == w then [] else [x]) + Without(t, word, w)
  {
    assert ([x] + t)[1..] == t;
  }

  /** The filter drops exactly the entries holding `w`: an entry is in the
      result iff it was in the input with another word. */
  lemma {:induction false} WithoutMembers<E(!new)>(s: seq<E>, word: E -> string, w: string)
    ensures forall e :: e in Without(s, word, w) <==> e in s && word(e) != w
  {
    if |s| > 0 {
      WithoutMembers(s[1..], word, w);
      assert s == [s[0]] + s[1..];
      WithoutCons(s[0], s[1..], word, w);
    }
  }

  /** The filter keeps the surviving entries in their order. */
  lemma {:induction false} WithoutSubsequence<E>(s: seq<E>, word: E -> string, w: string)
    ensures IsSubsequence(Without(s, word, w), s)
  {
    if |s| > 0 {
      WithoutSubsequence(s[1..], word, w);
      var r := Without(s, word, w);
      if word(s[0]) != w {
        assert r[0] == s[0] && r[1..] == Without(s[1..], word, w);
      }
    }
  }

  /** Filtering out a word the list lacks changes nothing. */
  lemma {:induction false} WithoutAbsent<E>(s: seq<E>, word: E -> string, w: string)
    requires !HasWord(s, word, w)
    ensures Without(s, word, w) == s
  {
    if |s| > 0 {
      assert forall i :: 0 <= i < |s| - 1 ==> s[1..][i] == s[i + 1];
      WithoutAbsent(s[1..], word, w);
      assert s == [s[0]] + s[1..];
    }
  }

  /** Filtering keeps every other entry as often as it occurred: the result
      is the input's multiset with the entries holding `w` deleted. */
  lemma {:induction false} WithoutMultiset<E(!new)>(s: seq<E>, word: E -> string, w: string)
    ensures forall e :: multiset(Without(s, word, w))[e] == if word(e) == w then 0 else multiset(s)[e]
  {
    if |s| > 0 {
      WithoutMultiset(s[1..], word, w);
      assert s == [s[0]] + s[1..];
      WithoutCons(s[0], s[1..], word, w);
      assert multiset(s) == multiset{s[0]} + multiset(s[1..]);
    }
  }

  /** Filtering a list with unique words keeps the words unique. */
  lemma {:induction false} WithoutUnique<E(!new)>(s: seq<E>, word: E -> string, w: string)
    requires UniqueWords(s, word)
    ensures UniqueWords(Without(s, word, w), word)
  {
    if |s| > 0 {
      var t := s[1..];
      assert forall i :: 0 <= i < |t| ==> t[i] == s[i + 1];
      WithoutUnique(t, word, w);
      if word(s[0]) != w {
        var rest := Without(t, word, w);
        WithoutMembers(t, word, w);
        assert !HasWord(rest, word, word(s[0])) by {
          forall i | 0 <= i < |rest|
            ensures word(rest[i]) != word(s[0])
          {
            assert rest[i] in t;
          }
        }
        ConsUnique(s[0], rest, word);
      }
    }
  }

  /** An entry whose word the list lacks can go in front of a list with
      unique words, and the words stay unique. */
  lemma ConsUnique<E>(e: E, rest: seq<E>, word: E -> string)
    requires UniqueWords(rest, word)
    requires !HasWord(rest, word, word(e))
    ensures UniqueWords([e] + rest, word)
  {
    var t := [e] + rest;
    forall i, j | 0 <= i < j < |t|
      ensures word(t[i]) != word(t[j])
    {
      assert t[j] == rest[j - 1];
      if i > 0 {
        assert t[i] == rest[i - 1];
      }
    }
  }

  /** Filtering a concatenation filters each part. */
  lemma {:induction false} WithoutAppend<E>(a: seq<E>, b: seq<E>, word: E -> string, w: string)
    ensures Without(a + b, word, w) == Without(a, word, w) + Without(b, word, w)
  {
    if |a| == 0 {
      assert a + b == b;
    } else {
      WithoutAppend(a[1..], b, word, w);
      assert a + b == [a[0]] + (a[1..] + b);
      WithoutCons(a[0], a[1..] + b, word, w);
      WithoutCons(a[0], a[1..], word, w);
      assert a == [a[0]] + a[1..];
    }
  }

  /** On a list with unique words, filtering out `w` removes exactly the one
      entry that `findIndex` locates: `filter` and `splice` agree. */
  lemma WithoutIsRemoveAt<E>(s: seq<E>, word: E -> string, w: string)
    requires UniqueWords(s, word)
    requires HasWord(s, word, w)
    ensures Without(s, word, w) == RemoveAt(s, FindIndex(s, word, w))
  {
    var i := FindIndex(s, word, w);
    NoWordInSuffix(s, word, i);
    NoWordInPrefix(s, word, w, i);
    WithoutSingle(s[..i], s[i], s[i + 1..], word, w);
    assert s == s[..i] + [s[i]] + s[i + 1..];
  }

  /** Filtering out the word of the one entry that holds it removes just
      that entry. */
  lemma WithoutSingle<E>(before: seq<E>, x: E, after: seq<E>, word: E -> string, w: string)
    requires word(x) == w
    requires !HasWord(before, word, w) && !HasWord(after, word, w)
    ensures Without(before + [x] + after, word, w) == before + after
  {
    assert before + [x] + after == before + ([x] + after);
    WithoutAppend(before, [x] + after, word, w);
    WithoutCons(x, after, word, w);
    WithoutAbsent(before, word, w);
    WithoutAbsent(after, word, w);
    assert [] + after == after;
  }

  /** The entries before the first match do not hold its word. */
  lemma NoWordInPrefix<E>(s: seq<E>, word: E -> string, w: string, i: nat)
    requires i < |s|
    requires forall j :: 0 <= j < i ==> word(s[j]) != w
    ensures !HasWord(s[..i], word, w)
  {
    assert forall j :: 0 <= j < i ==> s[..i][j] == s[j];
  }

  /** In a list with unique words, the entries after position `i` do not
      hold the word at `i`. */
  lemma NoWordInSuffix<E>(s: seq<E>, word: E -> string, i: nat)
    requires UniqueWords(s, word)
    requires i < |s|
    ensures !HasWord(s[i + 1..], word, word(s[i]))
  {
    var after := s[i + 1..];
    assert forall j :: 0 <= j < |after| ==> after[j] == s[i + 1 + j];
  }

  /** A list without `w` holds it zero times. */
  lemma {:induction false} CountAbsent<E>(s: seq<E>, word: E -> string, w: string)
    requires !HasWord(s, word, w)
    ensures CountWord(s, word, w) == 0
  {
    if |s| > 0 {
      assert forall j :: 0 <= j < |s| - 1 ==> s[1..][j] == s[j + 1];
      CountAbsent(s[1..], word, w);
    }
  }

  /** `Array.prototype.slice(0, n)`: at most the first `n` entries. */
  function Take<E>(s: seq<E>, n: nat): (r: seq<E>)
    ensures |r| == if |s| <= n then |s| else n
    ensures r == s[..|r|]
  {
    if |s| <= n then s else s[..n]
  }

  /** Cutting a list at `n` after putting `x` in front only looks at the
      first `n - 1` entries of the list. */
  lemma TakeConsPrefix<E>(x: E, s: seq<E>, n: nat, k: nat)
    requires 1 <= n
    requires k == if |s| < n then |s| else n - 1
    ensures Take([x] + s[..k], n) == Take([x] + s, n)
  {
    assert [x] + s[..k] == ([x] + s)[..k + 1];
  }

  /** Every prefix of a subsequence of `b` is itself a subsequence of `b`. */
  lemma {:induction false} PrefixOfSubsequence<E>(a: seq<E>, b: seq<E>, n: nat)
    requires n <= |a|
    requires IsSubsequence(a, b)
    ensures IsSubsequence(a[..n], b)
    decreases |b|
  {
    if n == 0 {
    } else if a[0] == b[0] && IsSubsequence(a[1..], b[1..]) {
      PrefixOfSubsequence(a[1..], b[1..], n - 1);
      assert a[..n][1..] == a[1..][..n - 1];
    } else {
      PrefixOfSubsequence(a, b[1..], n);
    }
  }

  /** A prefix of a list with unique words has unique words. */
  lemma PrefixUnique<E>(s: seq<E>, word: E -> string, n: nat)
    requires n <= |s|
    requires UniqueWords(s, word)
    ensures UniqueWords(s[..n], word)
  {
  }
}
