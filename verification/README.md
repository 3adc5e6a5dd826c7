# MemeHustle client store, modelled in Dafny

MemeHustle is a web client for a shared gallery of memes that people vote
and bid on. The client keeps two lists: `memes`, the gallery, and
`leaderboard`, the top-ranked list. It changes them step by step. Pushes
from the server (`meme_created`, `vote_update`, `bid_update`) and the
responses to its own requests (snapshot load, leaderboard load, caption
generation) each apply a pure rule to the list. Two create forms turn what
the user typed into a create request: the inline one in `App` and the
`CreateMeme` component.

This project models that store and those forms:

- `text.dfy` (module `Text`): JavaScript's `trim` over ECMAScript's
  whitespace, `split` on one separator, and the tag pipeline
  `split(',').map(trim).filter(nonEmpty)`. It proves the split/join round
  trip in both directions, that parsing keeps input order, and what parsed
  tags look like.
- `memes.dfy` (module `Memes`): the meme record, the form fields and the
  create request.
- `store.dfy` (module `Store`): one pure function on `seq<Meme>` per
  update rule, with lemmas about those functions. The class `MemeStore`
  holds `memes`, `leaderboard` and the inline form, with one method per
  event or response. Each method's frame shows which list it may write.
- `create_meme.dfy` (module `CreateMeme`): the validator, the request
  builder, and the class `CreateMemeForm` holding `formData` and `errors`.
  Its methods are `validateForm`, `handleSubmit` and `handleInputChange`.

Every handler is one atomic step, applied in delivery order. The model uses
method inputs for what the network returns. A failed request (a thrown
`fetch` or `json`) is `None` and leaves the state unchanged. The awaited
result of the `onCreateMeme` callback is a `success` input.

The model follows the code as written. In particular:

- A `meme_created` event is always prepended. There is no duplicate-id
  check, so the same event delivered twice leaves two entries.
- The caption response replaces the whole record, not only its caption
  fields.
- The client never sorts or truncates the leaderboard. It stores whatever
  list the leaderboard request returns.
- An unknown id in a vote or bid event leaves the list unchanged. That is
  because `map` finds no match, not because of an explicit check.

Two consequences of the code are proved rather than assumed:

- A tags field holding only `","` passes the required-field check, yet it
  yields a request with no tags (`CreateMeme.CommaTagsPassWithoutTags`).
- Two bids with equal credits from different bidders do not commute: the
  bidder whose event arrived first keeps the top spot
  (`Store.BidTieKeepsFirstBidder`). The bid amount is order-independent in
  every case.

## Model

| member | source | states |
|---|---|---|
| `Text.TrimStart` | src/components/CreateMeme.jsx:15 | leading whitespace is dropped: the result is a suffix of the input and begins with a non-whitespace character or is empty |
| `Text.TrimStartDropsBlank` | src/components/CreateMeme.jsx:15 | everything `TrimStart` drops is whitespace |
| `Text.TrimEnd` | src/components/CreateMeme.jsx:15 | trailing whitespace is dropped: the result is a prefix of the input and ends with a non-whitespace character or is empty |
| `Text.TrimEndDropsBlank` | src/components/CreateMeme.jsx:15 | everything `TrimEnd` drops is whitespace |
| `Text.Trim` | src/components/CreateMeme.jsx:15 | the trimmed string is no longer than the input; `Text.TrimIsSlice` and `Text.TrimShape` pin down which string it is |
| `Text.TrimIsSlice` | src/components/CreateMeme.jsx:15 | the trimmed string is a contiguous slice of the input, and what lies before it and after it is whitespace only |
| `Text.TrimShape` | src/components/CreateMeme.jsx:15 | the trimmed string starts and ends with a non-whitespace character (or is empty); with `Text.TrimIsSlice` this fixes it uniquely. It also holds only characters of the input |
| `Text.TrimEmptyIffBlank` | src/components/CreateMeme.jsx:15-21 | `s.trim()` is empty exactly when every character of `s` is whitespace |
| `Text.TrimIdempotent` | src/App.jsx:100 | trimming a trimmed string changes nothing |
| `Text.Split` | src/components/CreateMeme.jsx:32 | `split(',')` always yields at least one piece |
| `Text.SplitPiecesHaveNoSep` | src/components/CreateMeme.jsx:32 | no piece of `split(sep)` contains the separator |
| `Text.JoinSplit` | src/components/CreateMeme.jsx:32 | joining the pieces of a split with the separator gives back the input |
| `Text.SplitJoin` | src/components/CreateMeme.jsx:32 | a non-empty list of separator-free pieces is exactly what splitting their join returns |
| `Text.TrimEach` | src/components/CreateMeme.jsx:32 | `.map(tag => tag.trim())`: one entry per piece, and the entry at each position is the trim of the piece there |
| `Text.SplitConcat` | src/components/CreateMeme.jsx:32 | splitting `a + sep + b` yields the pieces of `a` followed by the pieces of `b` |
| `Text.DropEmpty` | src/components/CreateMeme.jsx:32 | `filter(tag => tag)` keeps exactly the non-empty strings of the input and no more of them |
| `Text.DropEmptyConcat` | src/components/CreateMeme.jsx:32 | the filter keeps relative order: filtering a concatenation concatenates the filtered parts |
| `Text.ParseTags` | src/components/CreateMeme.jsx:32 | `split(',').map(trim).filter(tag => tag)` gives at most one tag per comma-separated piece, and no empty tag |
| `Text.ParseTagsWellFormed` | src/components/CreateMeme.jsx:32 | every parsed tag is non-empty, already trimmed, free of commas, and the trim of some comma-separated piece of the input |
| `Text.ParseTagsConcat` | src/App.jsx:100 | tags are parsed piece by piece in input order: the tags of `a,b` are those of `a` followed by those of `b` |
| `Text.ParseTagsSingle` | src/App.jsx:100 | input without a comma yields its trim as the only tag, or no tag when it is blank |
| `Text.ParseTagsOfSeparatorsOnly` | src/components/CreateMeme.jsx:32 | input made only of commas and whitespace yields no tag |
| `Text.CommaIsNotBlankButHasNoTags` | src/components/CreateMeme.jsx:19-32 | `","` trims to a non-empty string yet parses to an empty tag list |
| `Memes.BidOr0` | src/App.jsx:46 | the fallback to 0 on a missing `highest_bid`: a present bid reads as itself, a missing one as 0 |
| `Memes.WithField` | src/components/CreateMeme.jsx:47 | `{...prev, [field]: value}` sets the named field and keeps every other field |
| `Store.MapById` | src/App.jsx:151-153 | `prev.map(meme => meme.id === id ? f(meme) : meme)` keeps length and order, applies `f` to entries with that id and keeps the rest |
| `Store.Created` | src/App.jsx:29-31 | a created meme makes the list one longer, comes first, is followed by the old list in order, and adds one more entry with its id |
| `Store.CreatedTwiceDuplicates` | src/App.jsx:29-31 | the same creation event applied twice leaves two more entries with that id, because there is no duplicate check |
| `Store.VoteUpdated` | src/App.jsx:33-39 | a vote update keeps length and order, changes only `upvotes`, and only on entries whose id matches, which get the pushed count |
| `Store.VoteUpdateUnknownId` | src/App.jsx:33-39 | a vote update for an id that is not in the list leaves the list identical |
| `Store.VoteLastWins` | src/App.jsx:34-38 | two vote updates for one id leave the count of the last one applied, even when it is smaller |
| `Store.VoteUpdatesDoNotCommute` | src/App.jsx:34-38 | for an id in the list, two different counts delivered in the two orders give different lists |
| `Store.BidMerged` | src/App.jsx:44-48 | after a bid, the highest bid is present and equals the larger of the old bid (0 when missing) and the credits. The bidder becomes the new one when the credits are strictly higher, and stays the same otherwise. No other field changes |
| `Store.BidMergeIdempotent` | src/App.jsx:41-51 | applying the same bid event again changes nothing |
| `Store.BidMergeCommutes` | src/App.jsx:46-47 | two bids applied in either order give the same highest bid, and the same record unless they tie on credits from different bidders |
| `Store.BidTieKeepsFirstBidder` | src/App.jsx:47 | on equal credits above the current bid, the bidder whose event arrived first keeps the top spot |
| `Store.HighestCredits` | src/App.jsx:46 | the result is the largest of the floor and every bid's credits, and is one of them |
| `Store.ApplyBidsHighest` | src/App.jsx:41-51 | after any run of bid events, the highest bid equals the largest credits seen, starting from the meme's own bid or 0. It is present once a bid arrived, and no field other than bid and bidder changes |
| `Store.ApplyBidsBidder` | src/App.jsx:47 | the final bidder placed a bid equal to the final highest bid when that bid rose; otherwise the bidder is unchanged |
| `Store.ApplyBidsOrderIndependent` | src/App.jsx:46 | any reordering of the same bid events gives the same highest bid |
| `Store.ApplyBidsTwice` | src/App.jsx:41-51 | delivering a whole run of bid events a second time changes nothing |
| `Store.StaleBidsChangeNothing` | src/App.jsx:46-47 | bids no higher than a meme's present bid leave the meme as it is |
| `Store.BidUpdated` | src/App.jsx:41-51 | a bid update keeps length and order and leaves entries with other ids untouched. Each matching entry gets the larger of its bid (0 when missing) and the credits, the new bidder exactly when the credits are strictly higher, and no other change |
| `Store.BidUpdateIdempotent` | src/App.jsx:41-51 | delivering the same bid event to the list twice leaves it as after the first delivery |
| `Store.CaptionDiscardsEarlierUpdates` | src/App.jsx:151-153 | the caption overwrite erases any vote or bid update the entry received before it |
| `Store.CaptionMerged` | src/App.jsx:151-153 | after a caption response the list keeps its length, entries with the requested id are the returned record, others are unchanged |
| `Store.AppCreateRequest` | src/App.jsx:100-107 | the inline form's request carries title and image URL as typed and tags parsed from the tags field (each non-empty, trimmed and comma-free) |
| `Store.BidScenario` | src/App.jsx:44-48 | bids 50 by alice, 30 by bob and 75 by bob on a fresh meme leave (50, alice), (50, alice) and then (75, bob) |
| `Store.StoreSession` | src/App.jsx:29-51 | after a load of an empty list, one creation, bids of 50, 30 and 75 and vote counts 5 then 4, the gallery holds just that meme with count 4 and bid 75 by bob, and the leaderboard is still empty |
| `Store.MemeStore.constructor` | src/App.jsx:10-21 | the store starts with empty lists and an empty inline form |
| `Store.MemeStore.OnMemeCreated` | src/App.jsx:29-31 | the list becomes the new meme followed by the old list; leaderboard and form are untouched |
| `Store.MemeStore.OnVoteUpdate` | src/App.jsx:33-39 | the list becomes the vote-updated list; leaderboard and form are untouched |
| `Store.MemeStore.OnBidUpdate` | src/App.jsx:41-51 | the list becomes the bid-updated list; leaderboard and form are untouched |
| `Store.MemeStore.MemesFetched` | src/App.jsx:73-83 | a received snapshot overwrites the whole list, and a failed load changes nothing |
| `Store.MemeStore.LeaderboardFetched` | src/App.jsx:85-93 | the leaderboard is overwritten by a received list and by nothing else; a failed load changes nothing |
| `Store.MemeStore.CaptionGenerated` | src/App.jsx:145-157 | a caption response replaces the entries with that id, and a failed request changes nothing |
| `Store.MemeStore.EditNewMeme` | src/App.jsx:226-249 | an input change sets one field of the inline form and nothing else |
| `Store.MemeStore.MemeCreateSettled` | src/App.jsx:110-113 | the inline form is cleared only when the create response is ok; the lists are untouched |
| `CreateMeme.ValidationErrors` | src/components/CreateMeme.jsx:13-21 | the error map has a title entry exactly when the title trims to nothing, and a tags entry exactly when the tags trim to nothing. Each entry holds its fixed message, and there is no other key |
| `CreateMeme.ValidationPassesIffFilled` | src/components/CreateMeme.jsx:12-25 | validation passes exactly when neither title nor tags is all whitespace |
| `CreateMeme.BuildRequest` | src/components/CreateMeme.jsx:32-37 | the request keeps the title unchanged, keeps a non-empty image URL and otherwise uses the placeholder, and carries the tags parsed from the tags field |
| `CreateMeme.BuildRequestMatchesApp` | src/components/CreateMeme.jsx:33-37 | this form's request equals the inline form's except for the image URL, and equals it outright when an image URL was typed |
| `CreateMeme.CommaTagsPassWithoutTags` | src/components/CreateMeme.jsx:19-32 | with a title and tags `","`, validation passes and the request has no tag |
| `CreateMeme.ErrorCleared` | src/components/CreateMeme.jsx:48-50 | clearing keeps the same keys, leaves the field's message empty, and keeps every other field's message |
| `CreateMeme.CreateMemeForm.constructor` | src/components/CreateMeme.jsx:5-10 | the form starts with empty fields and no errors |
| `CreateMeme.CreateMemeForm.ValidateForm` | src/components/CreateMeme.jsx:12-25 | the errors become the validation error map of the current fields, and the result is true exactly when neither required field is blank |
| `CreateMeme.CreateMemeForm.HandleSubmit` | src/components/CreateMeme.jsx:27-44 | no request when validation fails, otherwise the built request. Fields and errors reset only when the callback reports success; otherwise the errors are the validation result |
| `CreateMeme.CreateMemeForm.HandleInputChange` | src/components/CreateMeme.jsx:46-51 | sets only the named field and empties only that field's error, keeping its key |

## Left out

- HTTP requests, JSON parsing and the socket connection and subscriptions
  are not modelled (src/App.jsx:7, 53-57, 73-157). Event payloads and
  request results are method inputs; a request that throws is `None`.
- `fetchMemes`, `fetchLeaderboard` and `generateCaption` never check
  `response.ok` (src/App.jsx:75-79, 87-89, 147-153). A non-ok response
  whose body parses as JSON (an error object) is stored as-is in `memes`,
  `leaderboard` or the meme's entry. The model types these responses as a
  list of memes or a meme, so it does not express that case.
- The `console.log` and `console.error` calls (src/App.jsx:78, 81, 91,
  115, 155) are output only and are left out.
- Asynchronous interleaving is not modelled. Each handler is one atomic
  step, applied in delivery order.
- The `vote` and `placeBid` requests (src/App.jsx:121-143) are left out.
  They only send a request and change no client state; their effects return
  as `vote_update` and `bid_update` events. `parseInt` on bid credits is
  left out too: credits are an `int` input.
- The bid form's positive-credits guard (src/components/MemeCard.jsx:15-22,
  src/App.jsx:299-306) is left out. It only decides whether a request is
  sent.
- `Date.now()` in the placeholder image URL is left out. The placeholder is
  a parameter of `CreateMeme.BuildRequest`.
- The `loading` flag, the view switch and the typing animation are left
  out (src/App.jsx:12-14, 60-71, 97, 117). They are presentation state and
  timers.
- All JSX rendering is left out: Header, LeaderBoard, MemeGallery,
  TerminalLoader, MemeCard and the markup of App.
- `Text.IsWhitespace` lists ECMAScript's whitespace and line terminators
  by code point. Strings are sequences of Unicode scalar values, not UTF-16
  code units.
- The input's `required` attribute in the inline form (src/App.jsx:228,
  251) is browser behaviour and is not modelled. `Store.AppCreateRequest`
  is built from the fields as they are.
