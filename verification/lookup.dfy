/** One dictionary lookup: reading the search box, turning the dictionary
    service's reply into either an entry or the message shown to the user,
    and picking the pronunciation to show from an entry. */
module Lookup {
  import opened Text

  /** One pronunciation variant; a field the service left out is "". */
  datatype Phonetic = Phonetic(text: string, audio: string)

  /** The parts of a dictionary entry the explorer reads outside of
      rendering: the headword and its pronunciation variants. */
  datatype WordData = WordData(word: string, phonetics: seq<Phonetic>)

  /** The parsed body of a successful reply: the JSON array of entries, or
      the parser's error message when `response.json()` rejects. */
  datatype Body = Entries(entries: seq<WordData>) | Unparsable(reason: string)

  /** What `fetch` produced: a response with its `ok` flag, status code and
      body, or a rejection (no response at all) with the browser's message. */
  datatype Reply = Reply(ok: bool, status: int, body: Body) | NetworkFailure(reason: string)

  /** A search either names the word to look up or is refused with a
      message before any request is made. */
  datatype Query = Rejected(message: string) | Search(word: string)

  /** The outcome of one lookup. */
  datatype Fetched = Found(entry: WordData) | Failed(message: string)

  const EmptyInputMessage := "Please enter a word to search for."

  const FetchFailedMessage := "Failed to fetch word data. Please try again later."

  /** What reading `.word` of the missing first entry throws when the
      service answers with an empty array; the wording is the V8 engine's. */
  const MissingEntryMessage := "Cannot read properties of undefined (reading 'word')"

  const NotFoundLead := "Sorry, we couldn't find the word "

  const NotFoundTail := ". Please check the spelling and try again."

  /** `t` occurs in `s` as a contiguous piece. */
  predicate Contains(s: string, t: string)
  {
    exists i, j :: 0 <= i <= j <= |s| && s[i..j] == t
  }

  /** `w` between double quotes, as the not-found message shows it. */
  function Quoted(w: string): string
  {
    "\"" + w + "\""
  }

  /** The message for a word the service does not know; it quotes the word. */
  function NotFoundMessage(w: string): (m: string)
    ensures Contains(m, Quoted(w))
    ensures m != FetchFailedMessage && m != EmptyInputMessage && m != MissingEntryMessage
  {
    var m := NotFoundLead + Quoted(w) + NotFoundTail;
    var i := |NotFoundLead|;
    assert m[i..i + |Quoted(w)|] == Quoted(w);
    assert m[0] == NotFoundLead[0] == 'S';
    m
  }

  /** Different searched words give different not-found messages. */
  lemma NotFoundMessageInjective(a: string, b: string)
    requires NotFoundMessage(a) == NotFoundMessage(b)
    ensures a == b
  {
    var n := |NotFoundLead| + 1;
    assert |a| == |b|;
    assert a == NotFoundMessage(a)[n..n + |a|];
    assert b == NotFoundMessage(b)[n..n + |b|];
  }

  /** `w` is the lower case of the piece of `input` that starts at `i`,
      with only white space before and after that piece. */
  predicate LowerPieceAt(w: string, input: string, i: nat)
  {
    i + |w| <= |input| &&
    AllWhitespace(input[..i]) && AllWhitespace(input[i + |w|..]) &&
    forall k :: 0 <= k < |w| ==> w[k] == LowerChar(input[i + k])
  }

  /** The search term: the input trimmed and lower-cased. */
  function Normalize(input: string): (w: string)
    ensures IsTrimmed(w)
    ensures forall k :: 0 <= k < |w| ==> !IsAsciiUpper(w[k])
    ensures |w| == 0 <==> AllWhitespace(input)
    ensures exists i: nat :: LowerPieceAt(w, input, i)
  {
    var t := Trim(input);
    LowerKeepsTrimmed(t);
    var w := ToLower(t);
    TrimmedLowerPiece(input, t, w);
    w
  }

  /** The lower case of the trimmed input is a lower-cased piece of it. */
  lemma TrimmedLowerPiece(input: string, t: string, w: string)
    requires t == Trim(input) && w == ToLower(t)
    ensures LowerPieceAt(w, input, LeadingSpace(input))
  {
    var i := LeadingSpace(input);
    TrimSurround(input);
    forall k | 0 <= k < |w|
      ensures w[k] == LowerChar(input[i + k])
    {
      assert t[k] == input[i + k];
    }
  }

  /** Normalizing a search term again leaves it as it is. */
  lemma NormalizeIdempotent(input: string)
    ensures Normalize(Normalize(input)) == Normalize(input)
  {
    var t := Trim(input);
    TrimToLowerCommute(t);
    TrimIdempotent(input);
    ToLowerIdempotent(t);
  }

  /** `handleSearch`'s reading of the search box: an input that is empty
      after trimming is refused with a message, anything else is searched
      for in its normalized form. */
  function ParseInput(input: string): (q: Query)
    ensures q.Rejected? <==> AllWhitespace(input)
    ensures q.Rejected? ==> q.message == EmptyInputMessage
    ensures q.Search? ==> |q.word| > 0 && q.word == Normalize(input)
  {
    var w := Normalize(input);
    if |w| == 0 then Rejected(EmptyInputMessage) else Search(w)
  }

  /** No entry of `xs` has a non-empty `field`. */
  predicate NoneSet<T>(xs: seq<T>, field: T -> string)
  {
    forall i :: 0 <= i < |xs| ==> field(xs[i]) == ""
  }

  /** `xs.find(x => x.field)?.field || ''`: the first non-empty value of
      `field`, or "" when every variant lacks it. */
  function FirstSet<T>(xs: seq<T>, field: T -> string): (r: string)
    ensures r == "" <==> NoneSet(xs, field)
    ensures r != "" ==> exists i :: 0 <= i < |xs| && field(xs[i]) == r && NoneSet(xs[..i], field)
  {
    if |xs| == 0 then ""
    else if field(xs[0]) != "" then
      assert NoneSet(xs[..0], field);
      field(xs[0])
    else
      var r := FirstSet(xs[1..], field);
      assert forall i :: 0 < i < |xs| ==> xs[i] == xs[1..][i - 1];
      if r == "" then r
      else
        var i :| 0 <= i < |xs[1..]| && field(xs[1..][i]) == r && NoneSet(xs[1..][..i], field);
        assert xs[..i + 1] == [xs[0]] + xs[1..][..i];
        r
  }

  function TextOf(p: Phonetic): string
  {
    p.text
  }

  function AudioOf(p: Phonetic): string
  {
    p.audio
  }

  /** The phonetic text shown for an entry: the text of the first variant
      that has one. */
  function PhoneticText(ps: seq<Phonetic>): (r: string)
    ensures r == "" <==> forall i :: 0 <= i < |ps| ==> ps[i].text == ""
    ensures r != "" ==> exists i :: 0 <= i < |ps| && ps[i].text == r &&
                          forall j :: 0 <= j < i ==> ps[j].text == ""
  {
    var r := FirstSet(ps, TextOf);
    assert forall i :: 0 <= i < |ps| ==> TextOf(ps[i]) == ps[i].text;
    assert forall i, j :: 0 <= j < i <= |ps| ==> ps[..i][j] == ps[j];
    r
  }

  /** The pronunciation clip offered for an entry: the clip of the first
      variant that has one. */
  function AudioUrl(ps: seq<Phonetic>): (r: string)
    ensures r == "" <==> forall i :: 0 <= i < |ps| ==> ps[i].audio == ""
    ensures r != "" ==> exists i :: 0 <= i < |ps| && ps[i].audio == r &&
                          forall j :: 0 <= j < i ==> ps[j].audio == ""
  {
    var r := FirstSet(ps, AudioOf);
    assert forall i :: 0 <= i < |ps| ==> AudioOf(ps[i]) == ps[i].audio;
    assert forall i, j :: 0 <= j < i <= |ps| ==> ps[..i][j] == ps[j];
    r
  }

  /** The first non-empty value of a field depends on that field alone: the
      audio URL is chosen without looking at the texts, and the phonetic
      text without looking at the clips. */
  lemma {:induction false} FirstSetOnlyReadsField<T>(xs: seq<T>, ys: seq<T>, field: T -> string)
    requires |xs| == |ys|
    requires forall i :: 0 <= i < |xs| ==> field(xs[i]) == field(ys[i])
    ensures FirstSet(xs, field) == FirstSet(ys, field)
  {
    if |xs| > 0 {
      FirstSetOnlyReadsField(xs[1..], ys[1..], field);
    }
  }

  /** The text and the clip may come from different variants. */
  lemma TextAndAudioFromDifferentVariants()
    ensures PhoneticText([Phonetic("/rʌn/", ""), Phonetic("", "run-us.mp3")]) == "/rʌn/"
    ensures AudioUrl([Phonetic("/rʌn/", ""), Phonetic("", "run-us.mp3")]) == "run-us.mp3"
  {
    var ps := [Phonetic("/rʌn/", ""), Phonetic("", "run-us.mp3")];
    assert ps[1..] == [Phonetic("", "run-us.mp3")];
  }

  /** `searchWord`'s reading of the reply to the request for `word`: the
      first entry of a successful reply, or the message the user is shown. */
  function Interpret(word: string, reply: Reply): (r: Fetched)
    ensures reply.NetworkFailure? ==> r == Failed(reply.reason)
    ensures reply.Reply? && !reply.ok && reply.status == 404 ==>
              r.Failed? && Contains(r.message, Quoted(word))
    ensures reply.Reply? && !reply.ok && reply.status != 404 ==> r == Failed(FetchFailedMessage)
    ensures r.Found? <==>
              reply.Reply? && reply.ok && reply.body.Entries? && |reply.body.entries| > 0
    ensures r.Found? ==> r.entry == reply.body.entries[0]
    ensures reply.Reply? && reply.ok && reply.body.Unparsable? ==> r == Failed(reply.body.reason)
    ensures reply.Reply? && reply.ok && reply.body.Entries? && |reply.body.entries| == 0 ==>
              r == Failed(MissingEntryMessage) && r.message != NotFoundMessage(word)
  {
    match reply
    case NetworkFailure(reason) => Failed(reason)
    case Reply(ok, status, body) =>
      if !ok then
        if status == 404 then Failed(NotFoundMessage(word)) else Failed(FetchFailedMessage)
      else
        match body
        case Unparsable(reason) => Failed(reason)
        case Entries(entries) =>
          if |entries| == 0 then Failed(MissingEntryMessage) else Found(entries[0])
  }
}
