# Word Explorer state manager, in Dafny

Word Explorer is a browser dictionary page: the user types a word, the page
asks a public dictionary service for it and shows the definition, the
phonetic text and a pronunciation clip. Alongside it keeps a search history
(newest first, one entry per word, at most twenty) and a list of favorite
words, both kept in the browser's local storage.

This project models the part of `WordExplorer` (in `script.js`) that is
logic rather than page markup, as pure functions over immutable lists:

- `Keyed` — the array methods the lists are updated with (`some`,
  `findIndex`, `filter`, `splice`, `slice`), written once for any record
  type, with their contracts (membership, order kept, counts, uniqueness).
- `Text` — `String.prototype.trim` (the ECMAScript white space and line
  terminator characters) and `toLowerCase`.
- `History` — `addToHistory` and `clearHistory`.
- `Favorites` — `toggleFavorite`, `removeFavorite` and the favorite test.
- `Lookup` — reading the search box in `handleSearch`, turning the
  dictionary service's reply into the entry or the user's message in
  `searchWord`, and choosing the phonetic text and the audio clip.
- `Storage` — the local-storage slots, as an abstract store.
- `Explorer` — the whole state, each user action as a step on it, and the
  invariant (history at most twenty entries, no word twice in either list)
  that every action keeps.

The clock (`Date.now()`), the answer to the confirmation dialog, the random
pick and the service's reply are parameters of the operations that use them.

Behaviours of the page a reader may not expect:

- An empty result array on a successful reply is reported like any other
  failure: `data[0]` is `undefined`, reading `.word` of it throws a
  `TypeError`, and the page shows that exception's text
  (`Lookup.MissingEntryMessage`, in V8's wording) without touching the history.
  A body that does not parse as JSON shows the parser's message the same way.
- Toggling a favorite twice restores the list only when the word was not a
  favorite. When the list holds the word once (as every action keeps it),
  the entry comes back at the end of the list with the new phonetic text and
  timestamp (`Favorites.ToggleFavoriteTwicePresent`). A loaded list that holds
  the word twice can lose both copies, the star ending unlit: for example
  `[a, x, b]` with `a` and `b` holding the word becomes `[x]`
  (`Favorites.ToggleFavoriteTwiceDuplicate`).
- The uniqueness of words in the lists is kept by every action, but it is not
  checked on loading: a stored list is taken as it is.
- `toggleFavorite` returns nothing. What it tells its caller is the star
  button's new state, modelled as `Toggled.starred`.
- The page writes a list to local storage after each action that may change it:
  the history after a successful search and after a confirmed clear of a
  non-empty history, the favorites after every toggle and removal. A failed
  write is swallowed, so a slot can keep an older list than the one in
  memory until the next write of that list (`Explorer.Persist`).

## Model

| member | source | states |
|---|---|---|
| `Keyed.HasWord` | script.js:97 | the `some` test holds exactly when some position holds the word |
| `Keyed.RemoveAt` | script.js:187 | `splice(i, 1)` shortens the list by one; entries before `i` stay in place and entries after it move one place forward |
| `Keyed.FindIndex` | script.js:183 | `findIndex` returns -1 exactly when the word is absent; otherwise the position of an entry with the word, with no such entry before it |
| `Keyed.Without` | script.js:207 | `filter` leaves no entry with the word and shortens the list by exactly the number of entries that had it |
| `Keyed.WithoutMembers` | script.js:207 | `filter` keeps an entry iff it was in the list with another word |
| `Keyed.WithoutSubsequence` | script.js:207 | `filter` keeps the surviving entries in their old order |
| `Keyed.WithoutAbsent` | script.js:256 | filtering out a word the list lacks gives back the same list |
| `Keyed.WithoutAppend` | script.js:207 | filtering a concatenation is the concatenation of the filtered parts |
| `Keyed.WithoutMultiset` | script.js:256 | every other entry survives the filter as many times as it occurred |
| `Keyed.WithoutUnique` | script.js:207 | filtering a list with unique words keeps them unique |
| `Keyed.WithoutIsRemoveAt` | script.js:183-187 | on a list with unique words, filtering a present word equals splicing out the entry `findIndex` finds |
| `Keyed.CountAbsent` | script.js:97 | a list the `some` test rejects holds the word zero times |
| `Keyed.Take` | script.js:216 | `slice(0, n)` is the first `n` entries, or the whole list when it is shorter |
| `Keyed.PrefixOfSubsequence` | script.js:216 | cutting an order-preserving subsequence short (`slice(0, n)`) leaves an order-preserving subsequence |
| `Text.Trim` | script.js:44 | the trimmed input is a contiguous piece of the input with only white space cut off either side, starts and ends with non-white space, and is empty iff the input is all white space |
| `Text.TrimIdempotent` | script.js:44 | trimming a trimmed string changes nothing |
| `Text.ToLower` | script.js:44 | lower-casing keeps the length, maps A to Z to a to z, leaves other characters alone and leaves no upper-case ASCII letter |
| `Text.ToLowerIdempotent` | script.js:44 | lower-casing a lower-cased string changes nothing |
| `Text.TrimToLowerCommute` | script.js:44 | trimming and lower-casing may be done in either order |
| `Lookup.Normalize` | script.js:44 | the search term is the lower case of a piece of the input with only white space before and after it; it starts and ends with a kept character, has no upper-case ASCII letter, and is empty iff the input is all white space |
| `Lookup.NormalizeIdempotent` | script.js:44 | normalizing a search term again changes nothing |
| `Lookup.ParseInput` | script.js:44-48 | an input that is all white space is refused with "Please enter a word to search for."; any other input is searched for as its non-empty normalized term |
| `Lookup.NotFoundMessage` | script.js:59-60 | the not-found message contains the searched word between double quotes, and differs from the failed-fetch, empty-input and missing-entry messages |
| `Lookup.NotFoundMessageInjective` | script.js:60 | two different words never give the same not-found message |
| `Lookup.FirstSet` | script.js:93-94 | the chosen text (or clip) is "" iff no variant has one; otherwise it is the value of a variant with all variants before it lacking one |
| `Lookup.PhoneticText` | script.js:93 | the phonetic text is "" iff no variant has a text; otherwise it is the text of a variant with every earlier variant lacking one |
| `Lookup.AudioUrl` | script.js:94 | the clip is "" iff no variant has a clip; otherwise it is the clip of a variant with every earlier variant lacking one |
| `Lookup.FirstSetOnlyReadsField` | script.js:93-94 | the phonetic text and the audio clip are chosen independently: each depends on its own field alone |
| `Lookup.TextAndAudioFromDifferentVariants` | script.js:93-94 | the text and the clip may come from different variants |
| `Lookup.Interpret` | script.js:56-67 | a rejected request shows the browser's message; a non-ok 404 reply gives a message naming the quoted word; any other non-ok reply gives "Failed to fetch word data. Please try again later."; an ok reply whose body does not parse shows the parser's message, and one with an empty array shows the `TypeError` text, never the not-found message; an entry is found iff the reply is ok with a non-empty parsed array, and it is the first element |
| `History.AddToHistory` | script.js:205-216 | the new history has 1 to 20 entries, the searched word in front with the current time and nowhere else, one more entry than the old entries with other words (capped at 20), and the entries behind the front in their old order |
| `History.AddToHistoryKeepsOthers` | script.js:207-216 | the entries behind the front are old entries with other words, and when fewer than 20 of those exist every one of them is kept |
| `History.FilterAfterAdd` | script.js:207-216 | filtering the just-added word back out leaves the old entries that survived the cut, in order |
| `History.AddToHistoryKeepsValid` | script.js:207-216 | a history with unique words stays unique and within 20 entries after a search |
| `History.AddToHistoryTwice` | script.js:207-216 | searching the same word twice gives the history of the second search alone, with the same length as after the first |
| `History.AddToHistoryLength` | script.js:207-216 | on a valid history a repeated word keeps the length and a new word adds one entry up to the cap |
| `History.ClearHistory` | script.js:271-282 | an empty history gives "No history to clear." and stays as it is; otherwise no message, and the history is emptied iff the user confirms |
| `History.ClearHistoryTwice` | script.js:271-282 | once cleared, clearing again reports that there is nothing to clear |
| `Favorites.IsFavorite` | script.js:97 | a word is a favorite iff some entry has it |
| `Favorites.ToggleFavorite` | script.js:182-199 | the star is lit iff the word was not a favorite; then a new entry is appended at the end, otherwise the first entry with the word is removed and the rest kept in order |
| `Favorites.ToggleFavoriteKeepsValid` | script.js:183-199 | on a list with unique words the toggle keeps them unique, and afterwards the word is a favorite iff the star is lit |
| `Favorites.ToggleFavoriteTwiceAbsent` | script.js:183-199 | starring a new word and un-starring it gives back the original list |
| `Favorites.ToggleFavoriteTwicePresent` | script.js:183-199 | on a list holding each word once, un-starring and re-starring a favorite moves it to the end with the new phonetic text and time |
| `Favorites.ToggleFavoriteTwiceDuplicate` | script.js:183-187 | on a loaded list `[a, x, b]` where `a` and `b` hold the word, two toggles remove both copies (the first, then the second), leave `[x]` and leave the star unlit |
| `Favorites.RemoveFavorite` | script.js:255-256 | removing drops every entry with the word and keeps every other entry as often as it occurred, in order; the list shrinks by the number of entries with the word; removing an absent word changes nothing; unique words stay unique |
| `Favorites.RemoveFavoriteIsUnstar` | script.js:256 | on a list with unique words, removing a favorite and un-starring it leave the same list |
| `Storage.Load` | script.js:317-325 | a slot holding a list reads as that list; anything read as non-empty came from a slot holding a list |
| `Storage.Save` | script.js:309-315 | a successful write reads back as the list written; a failed write leaves the slot as it was |
| `Explorer.ShowEntry` | script.js:88-97 | the card shows the entry's own headword, is starred iff that headword is a favorite, and shows the first variant's phonetic text and the first variant's clip ("" iff no variant has one) |
| `Explorer.SearchWord` | script.js:53-76 | favorites never change; a card is shown iff the reply yields an entry, and then it is that entry's card, the searched word is added to the history and no message is shown; otherwise the state is unchanged and the reply's message is shown |
| `Explorer.HandleSearch` | script.js:43-51 | an all-white-space input gives the empty-input message and changes nothing; any other input is searched for in its normalized form |
| `Explorer.HandleSearchRecordsNormalizedTerm` | script.js:44-68 | a typed search either changes nothing and shows no card, or puts the non-empty normalized term in front of the history |
| `Explorer.EmptyInputIgnoresReply` | script.js:45-48 | a refused input gives the same outcome whatever the service would answer, so no request matters |
| `Explorer.SearchRandomWord` | script.js:78-82 | a successful random search puts the picked word in front of the history and leaves the favorites alone |
| `Explorer.RandomSearchIsTypedSearch` | script.js:78-82 | every word of the random list is already a search term, so a random search is the same as typing the word |
| `Explorer.Apply` | script.js:27-34 | the actions are the listeners wired here plus the markup's handlers (toggle star at line 108; search a listed word at lines 140, 151, 231 and 246; remove a favorite at line 248): only the star actions change the favorites, and they leave the history alone; clearing leaves the favorites alone |
| `Explorer.ApplyKeepsValid` | script.js:205-216 | every action keeps the history within 20 entries and both lists free of repeated words |
| `Explorer.RunKeepsValid` | script.js:205-216 | after any sequence of actions the history has at most 20 entries and neither list repeats a word |
| `Explorer.Boot` | script.js:5-6 | each list starts as what its slot holds, or empty when the slot is missing or unreadable |
| `Explorer.BootEmptyIsValid` | script.js:5-6 | starting without stored lists gives a valid state |
| `Explorer.Persist` | script.js:309-315 | after an action only the lists it writes are saved; a successful write reads back as the list in memory, a failed one leaves the store as it was, and an unwritten slot keeps what it held |
| `Explorer.UnwrittenUnchanged` | script.js:271-281 | an action that writes no list to storage (a declined clear, a clear of an empty history, and likewise a failed search, which never reaches `addToHistory`) leaves that list unchanged in memory |
| `Explorer.PersistKeepsInSync` | script.js:182-282 | when writes succeed, a store that agrees with memory still agrees after any action |
| `Explorer.RunStoredInSync` | script.js:309-325 | when every write succeeds, reloading after any session brings back the lists the session ended with |

## Left out

- Page rendering: the word card markup, the history and favorites chips, the
  button classes and texts, and the star update in `removeFavorite` are
  presentation; the card is modelled only by the facts it shows (`Explorer.Card`).
- Meanings, definitions, examples, synonyms and antonyms are only rendered,
  so `Lookup.WordData` holds just the headword and the pronunciation variants.
  A reply whose entries lack a `word` field (which would make the markup code
  throw) is not modelled.
- The star, remove and listed-word actions (`Explorer.Action`) model the
  intended calls of the markup's click handlers. Those handlers are code
  built inside the HTML with the word pasted between single quotes
  (script.js:108, 231, 246 and 248), so a word containing `'` breaks the
  handler and a click does nothing; every run of the page is still a run of
  the model with fewer actions.
- Event wiring, focus, clearing the search box after a success, and the
  loading indicator are browser glue.
- The `fetch` call and `response.json()` are network input: the reply, its
  parsed body, and the browser's message on a rejection are parameters.
- `Math.random` is floating point; the random word is chosen by an index
  passed in (`Explorer.ValidAction` keeps it inside the list).
- `Date.now()` and `confirm()` are passed in as parameters.
- Audio playback, the five-second auto-hide of the error banner, and the
  service worker registration are media, timer and worker APIs.
- JSON (de)serialisation is abstracted: a slot either holds a list, is
  missing, or cannot be read back. A stored value that parses to something
  other than a list is not modelled.
- A search is modelled as one step taken when its reply arrives. `searchWord`
  awaits the request and the body (script.js:56 and 66), so searches can
  overlap and their history updates can land in either order; that
  interleaving is not modelled.
- Text.ToLower: lower-cases only the ASCII letters A to Z; the full Unicode
  case mapping of `toLowerCase` (accented and non-Latin letters) is not modelled.
- Lookup.Interpret: the message for an empty result array is V8's wording of
  the `TypeError`; other engines word it differently.
- Storage.Load: does not model an empty stored string or a stored value such
  as `0` or `false`, which the page also reads as the empty list.
