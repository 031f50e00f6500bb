/** The explorer's state manager: the search history and the favorites
    list, and what each user action does to them. */
module Explorer {
  import opened Outcomes
  import opened Text
  import opened Lookup
  import History
  import Favorites
  import Storage

  datatype State = State(history: seq<History.HistoryEntry>, favorites: seq<Favorites.FavoriteEntry>)

  /** The facts about an entry the word card shows: the headword, its
      phonetic text and audio clip (each "" when there is none) and whether
      the word is starred. */
  datatype Card = Card(word: string, phonetic: string, audio: string, favorited: bool)

  /** The result of one action: the next state, the word card shown (if a
      lookup succeeded) and the message for the error banner (if any). */
  datatype Step = Step(state: State, card: Option<Card>, error: Option<string>)

  /** One user action; the clock reading, the confirmation answer, the
      dictionary service's reply and the random pick come in with it. */
  datatype Action =
    | SearchBox(input: string, reply: Reply, now: int)
    | SearchFor(word: string, reply: Reply, now: int)
    | RandomSearch(pick: nat, reply: Reply, now: int)
    | ToggleStar(word: string, phonetic: string, now: int)
    | RemoveStar(word: string)
    | ClearAll(confirmed: bool)

  /** The words the "random word" button picks from, in their order,
      written in four groups of ten so that each group can be checked on
      its own. */
  const CommonWords: seq<string> := WordsA + WordsB + WordsC + WordsD

  const WordsA: seq<string> := [
    "serendipity", "ephemeral", "mellifluous", "petrichor", "aurora",
    "wanderlust", "euphoria", "solitude", "tranquil", "resilient"]

  const WordsB: seq<string> := [
    "eloquent", "ambitious", "innovative", "magnificent", "brilliant",
    "incredible", "fascinating", "extraordinary", "phenomenal", "remarkable"]

  const WordsC: seq<string> := [
    "adventure", "beautiful", "creative", "determined", "enthusiastic",
    "grateful", "harmonious", "inspiring", "joyful", "knowledge"]

  const WordsD: seq<string> := [
    "luminous", "mysterious", "optimistic", "peaceful", "radiant",
    "serene", "triumphant", "vivacious", "wisdom", "xenial"]

  /** The invariants of both lists: at most twenty history entries, and no
      word twice in either list. */
  predicate Valid(s: State)
  {
    History.Valid(s.history) && Favorites.Valid(s.favorites)
  }

  /** The pick `Math.floor(Math.random() * commonWords.length)` is an index
      of the word list. */
  predicate ValidAction(a: Action)
  {
    a.RandomSearch? ==> a.pick < |CommonWords|
  }

  /** What the word card shows for a found entry. */
  function ShowEntry(s: State, entry: WordData): (c: Card)
    ensures c.word == entry.word
    ensures c.favorited <==> exists i :: 0 <= i < |s.favorites| && s.favorites[i].word == entry.word
    ensures c.phonetic == "" <==> NoneSet(entry.phonetics, TextOf)
    ensures c.audio == "" <==> NoneSet(entry.phonetics, AudioOf)
    ensures c.phonetic == PhoneticText(entry.phonetics) && c.audio == AudioUrl(entry.phonetics)
  {
    Card(entry.word, PhoneticText(entry.phonetics), AudioUrl(entry.phonetics),
         Favorites.IsFavorite(s.favorites, entry.word))
  }

  /** `searchWord(word)` given the service's reply: on success the card is
      shown and the word moves to the front of the history; on any failure
      the message is shown and nothing changes. */
  function SearchWord(s: State, word: string, reply: Reply, now: int): (r: Step)
    ensures r.state.favorites == s.favorites
    ensures r.card.Some? <==> Interpret(word, reply).Found?
    ensures r.card.Some? ==>
              r.error == None && r.state.history == History.AddToHistory(s.history, word, now) &&
              r.card.value == ShowEntry(s, Interpret(word, reply).entry)
    ensures r.card.None? ==> r.state == s && r.error == Some(Interpret(word, reply).message)
  {
    match Interpret(word, reply)
    case Found(entry) =>
      Step(State(History.AddToHistory(s.history, word, now), s.favorites), Some(ShowEntry(s, entry)), None)
    case Failed(message) =>
      Step(s, None, Some(message))
  }

  /** `handleSearch()`: the search box's text is normalized, an empty term
      is refused before any request, anything else is searched for. */
  function HandleSearch(s: State, input: string, reply: Reply, now: int): (r: Step)
    ensures AllWhitespace(input) ==> r == Step(s, None, Some(EmptyInputMessage))
    ensures !AllWhitespace(input) ==> r == SearchWord(s, Normalize(input), reply, now)
  {
    match ParseInput(input)
    case Rejected(message) => Step(s, None, Some(message))
    case Search(word) => SearchWord(s, word, reply, now)
  }

  /** A search from the search box only ever records the normalized term,
      and only when the lookup succeeded. */
  lemma HandleSearchRecordsNormalizedTerm(s: State, input: string, reply: Reply, now: int)
    ensures var r := HandleSearch(s, input, reply, now);
      (r.card.None? && r.state == s) ||
      (r.state.history == History.AddToHistory(s.history, Normalize(input), now) &&
       r.state.history[0].word == Normalize(input) && |Normalize(input)| > 0)
  {
  }

  /** A refused input sends no request: the outcome is the same whatever
      the service would have answered. */
  lemma EmptyInputIgnoresReply(s: State, input: string, reply1: Reply, reply2: Reply, now: int)
    requires AllWhitespace(input)
    ensures HandleSearch(s, input, reply1, now) == HandleSearch(s, input, reply2, now)
    ensures HandleSearch(s, input, reply1, now).error == Some(EmptyInputMessage)
  {
  }

  /** `searchRandomWord()` with the index the random draw produced. */
  function SearchRandomWord(s: State, pick: nat, reply: Reply, now: int): (r: Step)
    requires pick < |CommonWords|
    ensures r.card.Some? ==> |r.state.history| > 0 && r.state.history[0].word == CommonWords[pick]
    ensures r.state.favorites == s.favorites
  {
    SearchWord(s, CommonWords[pick], reply, now)
  }

  /** A word of only lower-case ASCII letters. */
  predicate LowerAsciiWord(w: string)
  {
    |w| > 0 && forall k :: 0 <= k < |w| ==> 'a' <= w[k] <= 'z'
  }

  /** A non-empty word of lower-case letters is already a search term. */
  lemma LowerAsciiWordIsNormal(w: string)
    requires LowerAsciiWord(w)
    ensures Normalize(w) == w && !AllWhitespace(w)
  {
    assert !IsWhitespace(w[0]);
    TrimOfTrimmed(w);
    ToLowerOfLower(w);
  }

  /** Each group of the word list consists of lower-case words. */
  lemma WordsALower()
    ensures forall w :: w in WordsA ==> LowerAsciiWord(w)
  {
  }
  lemma WordsBLower()
    ensures forall w :: w in WordsB ==> LowerAsciiWord(w)
  {
  }
  lemma WordsCLower()
    ensures forall w :: w in WordsC ==> LowerAsciiWord(w)
  {
  }
  lemma WordsDLower()
    ensures forall w :: w in WordsD ==> LowerAsciiWord(w)
  {
  }

  /** The random word goes through the same path as typing it: every word
      of the list is already trimmed and lower-case. */
  lemma RandomSearchIsTypedSearch(s: State, pick: nat, reply: Reply, now: int)
    requires pick < |CommonWords|
    ensures SearchRandomWord(s, pick, reply, now) == HandleSearch(s, CommonWords[pick], reply, now)
  {
    WordsALower();
    WordsBLower();
    WordsCLower();
    WordsDLower();
    assert CommonWords[pick] in CommonWords;
    LowerAsciiWordIsNormal(CommonWords[pick]);
  }

  /** The new state, card and message after one user action. */
  function Apply(s: State, a: Action): (r: Step)
    requires ValidAction(a)
    ensures !(a.ToggleStar? || a.RemoveStar?) ==> r.state.favorites == s.favorites
    ensures a.ToggleStar? || a.RemoveStar? ==> r.state.history == s.history && r.card == None
    ensures a.ClearAll? ==> r.state.favorites == s.favorites && r.card == None
  {
    match a
    case SearchBox(input, reply, now) => HandleSearch(s, input, reply, now)
    case SearchFor(word, reply, now) => SearchWord(s, word, reply, now)
    case RandomSearch(pick, reply, now) => SearchRandomWord(s, pick, reply, now)
    case ToggleStar(word, phonetic, now) =>
      Step(s.(favorites := Favorites.ToggleFavorite(s.favorites, word, phonetic, now).favorites), None, None)
    case RemoveStar(word) =>
      Step(s.(favorites := Favorites.RemoveFavorite(s.favorites, word)), None, None)
    case ClearAll(confirmed) =>
      var u := History.ClearHistory(s.history, confirmed);
      Step(s.(history := u.next), None, u.error)
  }

  /** Every action keeps both lists valid. */
  lemma ApplyKeepsValid(s: State, a: Action)
    requires Valid(s) && ValidAction(a)
    ensures Valid(Apply(s, a).state)
  {
    match a
    case SearchBox(input, reply, now) =>
      History.AddToHistoryKeepsValid(s.history, Normalize(input), now);
    case SearchFor(word, reply, now) =>
      History.AddToHistoryKeepsValid(s.history, word, now);
    case RandomSearch(pick, reply, now) =>
      History.AddToHistoryKeepsValid(s.history, CommonWords[pick], now);
    case ToggleStar(word, phonetic, now) =>
      Favorites.ToggleFavoriteKeepsValid(s.favorites, word, phonetic, now);
    case RemoveStar(word) =>
    case ClearAll(confirmed) =>
  }

  /** The state after a session of actions. */
  function Run(s: State, actions: seq<Action>): State
    requires forall i :: 0 <= i < |actions| ==> ValidAction(actions[i])
    decreases |actions|
  {
    if |actions| == 0 then s
    else
      assert forall i :: 0 <= i < |actions| - 1 ==> actions[1..][i] == actions[i + 1];
      Run(Apply(s, actions[0]).state, actions[1..])
  }

  /** However long the session, the history holds at most twenty entries
      and neither list holds a word twice. */
  lemma {:induction false} RunKeepsValid(s: State, actions: seq<Action>)
    requires Valid(s)
    requires forall i :: 0 <= i < |actions| ==> ValidAction(actions[i])
    ensures Valid(Run(s, actions))
    ensures |Run(s, actions).history| <= History.MaxEntries
    decreases |actions|
  {
    if |actions| > 0 {
      ApplyKeepsValid(s, actions[0]);
      assert forall i :: 0 <= i < |actions| - 1 ==> actions[1..][i] == actions[i + 1];
      RunKeepsValid(Apply(s, actions[0]).state, actions[1..]);
    }
  }

  /** Both persisted lists. */
  datatype Store = Store(history: Storage.Slot<History.HistoryEntry>, favorites: Storage.Slot<Favorites.FavoriteEntry>)

  /** The state the explorer starts with. */
  function Boot(store: Store): (s: State)
    ensures store.history.Holds? ==> s.history == store.history.value
    ensures !store.history.Holds? ==> s.history == []
    ensures store.favorites.Holds? ==> s.favorites == store.favorites.value
    ensures !store.favorites.Holds? ==> s.favorites == []
  {
    State(Storage.Load(store.history), Storage.Load(store.favorites))
  }

  /** A first visit, or a store that cannot be read, starts valid. */
  lemma BootEmptyIsValid(store: Store)
    requires !store.history.Holds? && !store.favorites.Holds?
    ensures Valid(Boot(store))
  {
  }

  /** Whether the page writes the history slot after action `a` in state
      `s`: after a successful search (`addToHistory`) and after a confirmed
      clear of a non-empty history. A failed search, a declined clear and a
      clear of an empty history write nothing. */
  predicate WritesHistory(s: State, a: Action)
    requires ValidAction(a)
  {
    match a
    case SearchBox(_, _, _) => Apply(s, a).card.Some?
    case SearchFor(_, _, _) => Apply(s, a).card.Some?
    case RandomSearch(_, _, _) => Apply(s, a).card.Some?
    case ClearAll(confirmed) => |s.history| > 0 && confirmed
    case _ => false
  }

  /** Whether the page writes the favorites slot: after every toggle and
      every removal. */
  predicate WritesFavorites(a: Action)
  {
    a.ToggleStar? || a.RemoveStar?
  }

  /** The store after action `a` in state `s`: each list the action writes
      is saved with `saveToStorage`, whose failure is swallowed; the other
      slot is not touched, so it may still hold an older list after an
      earlier failed write. */
  function Persist(store: Store, s: State, a: Action, writable: bool): (r: Store)
    requires ValidAction(a)
    ensures !writable ==> r == store
    ensures !WritesHistory(s, a) ==> r.history == store.history
    ensures !WritesFavorites(a) ==> r.favorites == store.favorites
    ensures writable && WritesHistory(s, a) ==> Storage.Load(r.history) == Apply(s, a).state.history
    ensures writable && WritesFavorites(a) ==> Storage.Load(r.favorites) == Apply(s, a).state.favorites
  {
    var next := Apply(s, a).state;
    Store(if WritesHistory(s, a) then Storage.Save(store.history, next.history, writable) else store.history,
          if WritesFavorites(a) then Storage.Save(store.favorites, next.favorites, writable) else store.favorites)
  }

  /** An action that does not write a list leaves that list unchanged in
      memory, so the page never skips a write it needs. */
  lemma UnwrittenUnchanged(s: State, a: Action)
    requires ValidAction(a)
    ensures !WritesHistory(s, a) ==> Apply(s, a).state.history == s.history
    ensures !WritesFavorites(a) ==> Apply(s, a).state.favorites == s.favorites
  {
  }

  /** While every write succeeds, a store that agrees with the lists in
      memory still agrees with them after the action. */
  lemma PersistKeepsInSync(store: Store, s: State, a: Action)
    requires ValidAction(a)
    requires Boot(store) == s
    ensures Boot(Persist(store, s, a, true)) == Apply(s, a).state
  {
    UnwrittenUnchanged(s, a);
  }

  /** The store after a session of actions whose writes all succeed. */
  function RunStored(store: Store, s: State, actions: seq<Action>): Store
    requires forall i :: 0 <= i < |actions| ==> ValidAction(actions[i])
    decreases |actions|
  {
    if |actions| == 0 then store
    else
      assert forall i :: 0 <= i < |actions| - 1 ==> actions[1..][i] == actions[i + 1];
      RunStored(Persist(store, s, actions[0], true), Apply(s, actions[0]).state, actions[1..])
  }

  /** When every write succeeds, reloading the page after any session
      brings back the lists the session ended with. */
  lemma {:induction false} RunStoredInSync(store: Store, s: State, actions: seq<Action>)
    requires forall i :: 0 <= i < |actions| ==> ValidAction(actions[i])
    requires Boot(store) == s
    ensures Boot(RunStored(store, s, actions)) == Run(s, actions)
    decreases |actions|
  {
    if |actions| > 0 {
      PersistKeepsInSync(store, s, actions[0]);
      assert forall i :: 0 <= i < |actions| - 1 ==> actions[1..][i] == actions[i + 1];
      RunStoredInSync(Persist(store, s, actions[0], true), Apply(s, actions[0]).state, actions[1..]);
    }
  }
}
