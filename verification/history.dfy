/** The search history: past searches, newest first, one entry per word,
    at most twenty of them. */
module History {
  import opened Outcomes
  import opened Keyed

  datatype HistoryEntry = HistoryEntry(word: string, timestamp: int)

  /** How many searches the history keeps (`slice(0, 20)`). */
  const MaxEntries: nat := 20

  const NoHistoryMessage := "No history to clear."

  function WordOf(e: HistoryEntry): string
  {
    e.word
  }

  /** The invariant the history is meant to keep. */
  predicate Valid(h: seq<HistoryEntry>)
  {
    |h| <= MaxEntries && UniqueWords(h, WordOf)
  }

  /** `addToHistory(w)` at time `now`: drop any earlier entry for `w`, put
      a new entry for `w` in front, keep the first twenty. */
  function AddToHistory(h: seq<HistoryEntry>, w: string, now: int): (r: seq<HistoryEntry>)
    ensures 1 <= |r| <= MaxEntries
    ensures r[0] == HistoryEntry(w, now)
    ensures CountWord(r, WordOf, w) == 1
    ensures |r| == if |h| - CountWord(h, WordOf, w) < MaxEntries
                   then |h| - CountWord(h, WordOf, w) + 1 else MaxEntries
    ensures IsSubsequence(r[1..], h)
  {
    var rest := Without(h, WordOf, w);
    var r := Take([HistoryEntry(w, now)] + rest, MaxEntries);
    WithoutSubsequence(h, WordOf, w);
    assert r[1..] == rest[..|r| - 1];
    PrefixOfSubsequence(rest, h, |r| - 1);
    assert r == [r[0]] + r[1..];
    assert !HasWord(r[1..], WordOf, w);
    CountAbsent(r[1..], WordOf, w);
    r
  }

  /** The entries behind the new one are old entries for other words, and
      when fewer than twenty entries are left every old entry for another
      word is still there. */
  lemma AddToHistoryKeepsOthers(h: seq<HistoryEntry>, w: string, now: int)
    ensures forall e :: e in AddToHistory(h, w, now)[1..] ==> e in h && e.word != w
    ensures |h| - CountWord(h, WordOf, w) < MaxEntries ==>
              forall e :: e in h && e.word != w ==> e in AddToHistory(h, w, now)
  {
    var rest := Without(h, WordOf, w);
    var r := AddToHistory(h, w, now);
    WithoutMembers(h, WordOf, w);
    assert r == [HistoryEntry(w, now)] + rest[..|r| - 1];
    assert forall e :: e in r[1..] ==> e in rest;
  }

  /** Adding a search keeps the history valid. */
  lemma AddToHistoryKeepsValid(h: seq<HistoryEntry>, w: string, now: int)
    requires UniqueWords(h, WordOf)
    ensures Valid(AddToHistory(h, w, now))
  {
    var rest := Without(h, WordOf, w);
    WithoutUnique(h, WordOf, w);
    var full := [HistoryEntry(w, now)] + rest;
    ConsUnique(HistoryEntry(w, now), rest, WordOf);
    var r := AddToHistory(h, w, now);
    assert r == full[..|r|];
    PrefixUnique(full, WordOf, |r|);
  }

  /** Searching the same word again only refreshes its timestamp: the
      history is as if the first of the two searches had not happened. */
  lemma AddToHistoryTwice(h: seq<HistoryEntry>, w: string, t1: int, t2: int)
    ensures AddToHistory(AddToHistory(h, w, t1), w, t2) == AddToHistory(h, w, t2)
    ensures |AddToHistory(AddToHistory(h, w, t1), w, t2)| == |AddToHistory(h, w, t1)|
  {
    var rest := Without(h, WordOf, w);
    var once := AddToHistory(h, w, t1);
    FilterAfterAdd(h, w, t1);
    TakeConsPrefix(HistoryEntry(w, t2), rest, MaxEntries, |once| - 1);
  }

  /** Filtering the new word back out of a history it was just added to
      leaves the old entries that survived the cut. */
  lemma FilterAfterAdd(h: seq<HistoryEntry>, w: string, now: int)
    ensures Without(AddToHistory(h, w, now), WordOf, w)
            == Without(h, WordOf, w)[..|AddToHistory(h, w, now)| - 1]
  {
    var rest := Without(h, WordOf, w);
    var once := AddToHistory(h, w, now);
    var k := |once| - 1;
    assert once[1..] == rest[..k];
    assert !HasWord(rest[..k], WordOf, w);
    WithoutAbsent(rest[..k], WordOf, w);
    assert once == [once[0]] + once[1..];
    WithoutCons(once[0], once[1..], WordOf, w);
  }

  /** On a valid history the search grows the list by one only when the
      word is new and there is room; a repeated word keeps the length. */
  lemma AddToHistoryLength(h: seq<HistoryEntry>, w: string, now: int)
    requires Valid(h)
    ensures HasWord(h, WordOf, w) ==> |AddToHistory(h, w, now)| == |h|
    ensures !HasWord(h, WordOf, w) ==>
              |AddToHistory(h, w, now)| == if |h| < MaxEntries then |h| + 1 else MaxEntries
  {
    if HasWord(h, WordOf, w) {
      WithoutIsRemoveAt(h, WordOf, w);
    } else {
      CountAbsent(h, WordOf, w);
    }
  }

  /** `clearHistory()` with the user's answer to the confirmation dialog:
      an empty history is reported and left alone; otherwise the history
      is emptied when the user confirms and kept when they decline. */
  function ClearHistory(h: seq<HistoryEntry>, confirmed: bool): (r: Update<seq<HistoryEntry>>)
    ensures r.error.Some? <==> |h| == 0
    ensures r.error.Some? ==> r.error.value == NoHistoryMessage
    ensures |r.next| == 0 <==> |h| == 0 || confirmed
    ensures |r.next| > 0 ==> r.next == h
  {
    if |h| == 0 then Update(h, Some(NoHistoryMessage))
    else if confirmed then Update([], None)
    else Update(h, None)
  }

  /** Clearing twice: the second attempt finds nothing to clear, whatever
      the user would have answered. */
  lemma ClearHistoryTwice(h: seq<HistoryEntry>, c1: bool, c2: bool)
    requires |h| == 0 || c1
    ensures ClearHistory(ClearHistory(h, c1).next, c2) == Update([], Some(NoHistoryMessage))
  {
  }
}
