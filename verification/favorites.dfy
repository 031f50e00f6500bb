/** The favorites list: starred words in the order they were starred, each
    with the phonetic text shown when it was starred. */
module Favorites {
  import opened Keyed

  datatype FavoriteEntry = FavoriteEntry(word: string, phonetic: string, timestamp: int)

  /** The favorites list after a toggle, and whether the star button is now
      lit (the `favorited` class and the filled star). */
  datatype Toggled = Toggled(favorites: seq<FavoriteEntry>, starred: bool)

  function WordOf(e: FavoriteEntry): string
  {
    e.word
  }

  /** The invariant the favorites list is meant to keep. */
  predicate Valid(f: seq<FavoriteEntry>)
  {
    UniqueWords(f, WordOf)
  }

  /** The membership test `favorites.some(fav => fav.word === word)`. */
  function IsFavorite(f: seq<FavoriteEntry>, w: string): (b: bool)
    ensures b <==> exists i :: 0 <= i < |f| && f[i].word == w
  {
    HasWord(f, WordOf, w)
  }

  /** `toggleFavorite(w, p)` at time `now`: remove the first entry for `w`
      if there is one, else append a new entry for `w`. */
  function ToggleFavorite(f: seq<FavoriteEntry>, w: string, p: string, now: int): (r: Toggled)
    ensures r.starred <==> !IsFavorite(f, w)
    ensures r.starred ==> r.favorites == f + [FavoriteEntry(w, p, now)]
    ensures !r.starred ==>
              exists i :: 0 <= i < |f| && f[i].word == w && !IsFavorite(f[..i], w) &&
                r.favorites == f[..i] + f[i + 1..]
    ensures |r.favorites| == if r.starred then |f| + 1 else |f| - 1
  {
    var i := FindIndex(f, WordOf, w);
    if i > -1 then
      assert f[i].word == w && !IsFavorite(f[..i], w);
      Toggled(RemoveAt(f, i), false)
    else
      Toggled(f + [FavoriteEntry(w, p, now)], true)
  }

  /** On a valid list the toggle keeps the list valid, and the word is a
      favorite afterwards exactly when the star is lit. */
  lemma ToggleFavoriteKeepsValid(f: seq<FavoriteEntry>, w: string, p: string, now: int)
    requires Valid(f)
    ensures Valid(ToggleFavorite(f, w, p, now).favorites)
    ensures IsFavorite(ToggleFavorite(f, w, p, now).favorites, w) == ToggleFavorite(f, w, p, now).starred
  {
    var r := ToggleFavorite(f, w, p, now);
    if r.starred {
      var g := r.favorites;
      assert forall i :: 0 <= i < |f| ==> g[i] == f[i];
      assert g[|f|].word == w;
    } else {
      WithoutIsRemoveAt(f, WordOf, w);
      WithoutUnique(f, WordOf, w);
    }
  }

  /** Starring a word that was not a favorite and then un-starring it gives
      back the original list. */
  lemma ToggleFavoriteTwiceAbsent(f: seq<FavoriteEntry>, w: string, p1: string, p2: string, t1: int, t2: int)
    requires !IsFavorite(f, w)
    ensures ToggleFavorite(ToggleFavorite(f, w, p1, t1).favorites, w, p2, t2) == Toggled(f, false)
  {
    var g := f + [FavoriteEntry(w, p1, t1)];
    var i := FindIndex(g, WordOf, w);
    assert forall j :: 0 <= j < |f| ==> g[j] == f[j];
    assert g[|f|].word == w;
    assert i == |f|;
    assert g[..i] == f;
  }

  /** Un-starring a favorite and starring it again keeps it a favorite but
      moves it to the end with the new phonetic text and timestamp. */
  lemma ToggleFavoriteTwicePresent(f: seq<FavoriteEntry>, w: string, p1: string, p2: string, t1: int, t2: int)
    requires Valid(f)
    requires IsFavorite(f, w)
    ensures ToggleFavorite(ToggleFavorite(f, w, p1, t1).favorites, w, p2, t2)
            == Toggled(Without(f, WordOf, w) + [FavoriteEntry(w, p2, t2)], true)
  {
    WithoutIsRemoveAt(f, WordOf, w);
  }

  /** `removeFavorite(w)`: drop every entry for `w`. */
  function RemoveFavorite(f: seq<FavoriteEntry>, w: string): (r: seq<FavoriteEntry>)
    ensures !IsFavorite(r, w)
    ensures forall e :: e in r <==> e in f && e.word != w
    ensures IsSubsequence(r, f)
    ensures |r| == |f| - CountWord(f, WordOf, w)
    ensures forall e :: multiset(r)[e] == if e.word == w then 0 else multiset(f)[e]
    ensures !IsFavorite(f, w) ==> r == f
    ensures Valid(f) ==> Valid(r)
  {
    WithoutMembers(f, WordOf, w);
    WithoutSubsequence(f, WordOf, w);
    WithoutMultiset(f, WordOf, w);
    assert !IsFavorite(f, w) ==> Without(f, WordOf, w) == f by {
      if !IsFavorite(f, w) {
        WithoutAbsent(f, WordOf, w);
      }
    }
    assert Valid(f) ==> Valid(Without(f, WordOf, w)) by {
      if Valid(f) {
        WithoutUnique(f, WordOf, w);
      }
    }
    Without(f, WordOf, w)
  }

  /** A loaded list may hold a word twice: then the first toggle removes
      the first copy, the second toggle finds and removes the second one,
      and the star ends unlit. */
  lemma ToggleFavoriteTwiceDuplicate(a: FavoriteEntry, x: FavoriteEntry, b: FavoriteEntry,
                                     w: string, p1: string, p2: string, t1: int, t2: int)
    requires a.word == w && b.word == w && x.word != w
    ensures ToggleFavorite(ToggleFavorite([a, x, b], w, p1, t1).favorites, w, p2, t2)
            == Toggled([x], false)
  {
    var f := [a, x, b];
    assert FindIndex(f, WordOf, w) == 0;
    assert RemoveAt(f, 0) == [x, b];
    var g := [x, b];
    assert g[1..] == [b];
    assert FindIndex(g, WordOf, w) == 1;
    assert RemoveAt(g, 1) == [x];
  }

  /** On a valid list, removing a favorite through its `✕` button and
      un-starring it on the word card leave the same list. */
  lemma RemoveFavoriteIsUnstar(f: seq<FavoriteEntry>, w: string, p: string, now: int)
    requires Valid(f)
    requires IsFavorite(f, w)
    ensures RemoveFavorite(f, w) == ToggleFavorite(f, w, p, now).favorites
  {
    WithoutIsRemoveAt(f, WordOf, w);
  }
}
