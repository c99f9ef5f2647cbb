# mixtape-club: playlist handlers and title decoding

A model of the domain logic of the mixtape-club web application. This is the
Express server's handling of stored playlists ("mixtapes") and the player's
decoding of search-result titles.

- `wrappers.dfy`, module `Wrappers`: an `Option` type for absent fields and failed lookups.
- `links.dfy`, module `LinkCodec`: the text that a tape side's links are stored as.
  `Encode` writes an array of strings in the form `JSON.stringify` produces: no
  whitespace; `"` and `\` escaped; control characters written as `\b`, `\t`,
  `\n`, `\f`, `\r` or `\u00XX`. `Decode` is `JSON.parse` restricted to arrays of
  strings without whitespace. Where it gives a list, `JSON.parse` gives the same
  list. It reads the standard escapes and, like `JSON.parse`, rejects raw control
  characters. Lemmas prove the round trip and injectivity.
- `playlists.dfy`, module `Playlists`: the playlist collection.
  - Records are values (`Details`, `Playlist`).
  - The class `Table` holds `records: map<Id, Playlist>`. Its methods are the
    database calls the handlers make: insert, find by id, find by A-side text,
    `$inc` of `views`, and filtered listing.
  - `Bump`/`BumpTimes` specify the increment. `BumpTimesAddsN` proves that n
    increments add exactly n.
- `server.dfy`, module `Server`: the handlers for POST /store, /getLink,
  /mixtape-player/ and /new-view, and GET /public and /userPlaylists, written as
  methods over a `Table`.
  - The record /store builds is the function `StoreDetails`.
  - The response shaping of /mixtape-player/ is the function `PlayerResponse`.
  - Two client methods (`StoreThenLoad`, `StoreThenGetLink`) chain handlers and
    state what a client gets back.
- `routes.dfy`, module `Routes`: the decision of the `GET /*` catch-all, as a
  function of the path and whether a user is logged in. It comes as written and
  corrected (see Findings).
- `title.dfy`, module `TitleDecoding`: `ReplaceAll` models a global replacement
  `s.replace(/p/g, r)` with a literal pattern. `DecodeTitle` chains the three
  replacements for `&amp;`, `&#39;` and `&quot;`, in that order.

Modelling decisions:
- A side, A or B, that the client leaves out of /store is `None`.
  `JSON.stringify(undefined)` is `undefined`, so the stored field is absent. For
  an absent A-side, /mixtape-player/ then calls `JSON.parse(undefined)`, which
  throws (`ParseError`).
- The `if (bSideLinks)` test is JavaScript truthiness (`Truthy`): the field is
  present and not empty. Encoded link text is never empty, so a stored tape has
  a B-side exactly when one was submitted.
- The database assigns `_id`. The model draws fresh ids from a counter, `nextId`,
  because only their freshness matters.
- A new record starts with `views` equal to 0.
- The /getLink filter `{ aSideLinks: key }` is read as equality of the stored
  A-side text with `key`. When several records match, any one of them may be
  returned.
- /mixtape-player/ fires its increment and its lookup without waiting on either.
  The model takes them in the order they are issued: increment, then lookup.
- /new-view answers with the count after the increment.
- A tape loaded without a B-side is answered without `views`
  (server/index.js:405-410). `WithoutBSide` has no views field.

## Model

| member | source | states |
|---|---|---|
| `LinkCodec.Encode` | server/index.js:337-338 | the stored link text is an array literal framed by brackets, hence never empty |
| `LinkCodec.Escape` | server/index.js:337-338 | the body of a written string literal holds no raw control character, as with `JSON.stringify` |
| `LinkCodec.Decode` | server/index.js:391-394 | text that parses is an array literal framed by brackets |
| `LinkCodec.DecodeRefusesControl` | server/index.js:391-394 | like `JSON.parse`, no text holding a raw control character parses |
| `LinkCodec.RoundTrip` | server/index.js:335-342 | parsing the text written for a link list gives back exactly that list, in order |
| `LinkCodec.EncodeInjective` | server/index.js:356-359 | different link lists are never stored as the same text, so an A-side key names one list |
| `Server.EncodeSide` | server/index.js:337-338 | an absent side stays absent; a present one is stored as text that parses back to it |
| `Server.StoredSideTruthy` | server/index.js:393 | a side that /store wrote passes the `if (bSideLinks)` truthiness test exactly when the request had that side, since link text is never empty |
| `Server.StoreDetails` | server/index.js:332-342 | /store copies userId, tapeDeck, tapeLabel and isPublic unchanged; each side is absent exactly when the request lacks it, and otherwise is re-encoded as text that parses back to the submitted list |
| `Server.PlayerResponse` | server/index.js:384-413 | no record gives 'No Results Found'; an absent A-side or unparsable link text gives a parse failure; the response has bSide and views exactly when the B-side field is truthy, and otherwise only aSide, tapeDeck, tapeLabel and userId; every field comes from the record |
| `Server.StoredTapeLoads` | server/index.js:335-411 | a record built by /store fails to load exactly when its A-side was left out; otherwise it loads with aSide equal to the submitted aSideLinks and the same metadata, and bSide and views come back exactly when a B-side was submitted |
| `Server.HandleStore` | server/index.js:330-348 | inserts exactly one record under a fresh id, with the built details and no views, and answers 'Playlist Stored'; the new record parses exactly when an A-side was sent, and then every record that parsed still parses |
| `Server.HandleGetLink` | server/index.js:356-366 | answers the id of a record whose A-side text is the key, and 'No Results Found' exactly when no record has it |
| `Server.HandleMixtapePlayer` | server/index.js:373-415 | raises the target record's views by one, leaves every other record unchanged, and answers the response shaped from the updated record; a table whose records all parse never yields a parse failure |
| `Server.HandleNewView` | server/index.js:456-463 | raises the record's views by one and answers the count after the increment; for an unknown id nothing changes and nothing is sent |
| `Server.PublicResponse` | server/index.js:191-195 | an empty list gives 'No public tapes found'; otherwise the list is sent as it is |
| `Server.HandlePublic` | server/index.js:186-202 | the answer lists every public record, each once (no two entries share an id), and no private one; it is 'No public tapes found' exactly when no record is public |
| `Server.HandleUserPlaylists` | server/index.js:170-179 | with a logged-in user, answers that user's display name and exactly that user's records, each once; without one, nothing is sent |
| `Server.StoreThenLoad` | server/index.js:330-415 | storing a tape and opening the new record by its id gives back its A-side, and its B-side with one view exactly when a B-side was submitted; without an A-side the player throws |
| `Server.StoreThenGetLink` | server/index.js:330-366 | after storing a tape with an A-side, /getLink with that A-side's text finds an id whose record holds the same A-side |
| `Playlists.Bump` | server/index.js:378 | `$inc: { views: 1 }` raises only the target's views by one; the key set, the other records and the target's details are unchanged |
| `Playlists.BumpTimesAddsN` | server/index.js:459 | n increments in a row raise the count by exactly n and change nothing else (no lost update) |
| `Playlists.Table.Store` | server/index.js:344 | one record is added under an id not used before; the table stays well formed |
| `Playlists.Table.RetrieveById` | server/index.js:384 | finds the record under the id, or nothing exactly when there is none |
| `Playlists.Table.RetrieveByASideKey` | server/index.js:358-359 | a found record is in the table with A-side text equal to the key; nothing is found exactly when no record has that text |
| `Playlists.Table.IncrementViews` | server/index.js:378 | the table becomes `Bump` of the old one, and the updated record is returned |
| `Playlists.Table.ListPublic` | server/index.js:188 | lists each public record of the table once, and nothing else |
| `Playlists.Table.ListForUser` | server/index.js:173 | lists each record of the given user once, and nothing else |
| `Routes.CatchAllAsWritten` | server/index.js:220-232 | no response exactly for the OAuth callback and for a logged-in user at /create-mixtapes; a redirect to login exactly at /create-mixtapes without a user; a redirect to the player exactly at `/`; index.html for every other path |
| `Routes.LoggedInCreateHangs` | server/index.js:222-225 | a logged-in user reloading /create-mixtapes gets no response |
| `Routes.CatchAll` | server/index.js:220-232 | the corrected decision: no response only for the OAuth callback; login redirect and player redirect as written; index.html for every other path, /create-mixtapes with a user included |
| `Routes.CatchAllDiffersOnlyThere` | server/index.js:222-225 | the correction changes the answer for a logged-in user at /create-mixtapes and for nothing else |
| `TitleDecoding.ReplaceAll` | src/components/SearchPlayer.jsx:13-15 | a replacement no longer than its pattern never lengthens the text |
| `TitleDecoding.ReplaceAllAbsent` | src/components/SearchPlayer.jsx:13-15 | text in which the pattern does not occur passes through unchanged |
| `TitleDecoding.ReplaceAllBeforeMatch` | src/components/SearchPlayer.jsx:13-15 | for a pattern that cannot overlap itself, text without the pattern is copied and the occurrence after it is replaced, the scan resuming behind it |
| `TitleDecoding.ReplaceAllJoin` | src/components/SearchPlayer.jsx:13-15 | every occurrence of a pattern that cannot overlap itself is replaced: pieces in which the pattern does not occur, joined by the pattern, come out joined by the replacement |
| `TitleDecoding.EntityStepsReplaceEvery` | src/components/SearchPlayer.jsx:13-15 | each of the three steps replaces every occurrence of its entity: pieces free of `&amp;` (or `&#39;`, or `&quot;`) joined by it come out joined by `&` (or `'`, or `"`) |
| `TitleDecoding.ReplaceAllCopies` | src/components/SearchPlayer.jsx:13-15 | text without the pattern's first character is copied unchanged |
| `TitleDecoding.ReplaceAllLeavesNone` | src/components/SearchPlayer.jsx:14-15 | when the replacement shares no character with the pattern, no occurrence of the pattern is left |
| `TitleDecoding.ReplaceAllKeepsAbsent` | src/components/SearchPlayer.jsx:15 | such a replacement never creates an occurrence of a pattern its replacement shares no character with |
| `TitleDecoding.DecodeTitle` | src/components/SearchPlayer.jsx:13-15 | the decoded title is never longer than the title |
| `TitleDecoding.TitleWithoutAmpersand` | src/components/SearchPlayer.jsx:13-15 | a title without `&` passes through unchanged |
| `TitleDecoding.TitleLeavesNoQuoteEntity` | src/components/SearchPlayer.jsx:14-15 | no `&#39;` and no `&quot;` is left in a decoded title |
| `TitleDecoding.TitleApostrophe` | src/components/SearchPlayer.jsx:14 | `&#39;` becomes `'` wherever it stands at the front of the rest |
| `TitleDecoding.TitleQuote` | src/components/SearchPlayer.jsx:15 | `&quot;` becomes `"` |
| `TitleDecoding.TitleAmpersand` | src/components/SearchPlayer.jsx:13 | `&amp;` followed by a non-empty piece without `&` that starts with neither `#` nor `q` becomes `&`, the piece is kept, and the rest is decoded on its own |
| `TitleDecoding.TitleDecodesAmpQuoteTwice` | src/components/SearchPlayer.jsx:13-15 | because `&amp;` is decoded first, `&amp;quot;` ends up as `"` |
| `TitleDecoding.TitleDecodesAmpApostropheTwice` | src/components/SearchPlayer.jsx:13-14 | because `&amp;` is decoded first, `&amp;#39;` ends up as `'` |
| `TitleDecoding.TitleAmpersandDecodedOnce` | src/components/SearchPlayer.jsx:13 | each replacement is a single scan: `&amp;amp;` decodes to `&amp;` |

## Left out

- Google OAuth, Passport and sessions (server/index.js:66-136). These are calls into foreign libraries. A session user enters only as the `user` or `loggedIn` parameter.
- File-system I/O in /upload, /soundFile and /recording. This is disk plumbing. Upload file names have the form `${id}-${ISO timestamp}`, and the clock is not modelled.
- The YouTube search proxy (/search). It forwards a request over the network unchanged.
- The commented-out ffmpeg and YouTube upload code. The `/update` placeholder, whose filter and update are literal FILL_ME_IN values. The `/getUser` find-or-create call, which has no logic of its own.
- The database module `../database/index.js` is not part of this model. The playlist collection is an abstract map, and storage failures are not modelled.
- Playlists.Table.IncrementViews: sequential. The atomicity of `$inc` under concurrent viewers is a property of the store. "No lost update" is proved for increments in sequence only (`BumpTimesAddsN`).
- Server.HandleMixtapePlayer: the model takes the unawaited increment and lookup in the order issued, so the response shows the incremented count. The source does not fix that order.
- Server.HandleNewView: the count in the reply is taken to be the one after the increment. The database module's update callback is not part of this model.
- Server.PublicResponse: states what /public is meant to do. The source sends a second response after the 300 'No public tapes found', because no `return` follows it; the model does not capture that.
- Playlists.Table.RetrieveByASideKey: it may return any matching record. Which record the store returns among several with the same A-side text is not modelled.
- LinkCodec.Encode: covers arrays of strings only. Non-string elements and a `null` side are left out. Lone surrogates are left out because a Dafny `char` is a Unicode scalar value, so `JSON.stringify`'s `\uD8XX` escapes for them never arise.
- LinkCodec.Decode: rejects some text that `JSON.parse` accepts: whitespace between tokens, `\u` escapes of surrogate halves, and non-string elements. It never accepts text that `JSON.parse` rejects.
- Server.StoreThenGetLink: covers a tape stored with an A-side only, because without one the client has no key to send.
- The tapeDeck styling object is kept as opaque text.
- The JSX rendering, icons and styles of SearchPlayer.jsx.

## Findings

| source | as written | input that shows it | evidently intended | confidence | as-written member | corrected member |
|---|---|---|---|---|---|---|
| server/index.js:222-225 | `if (!req.user)` has no `else`, so a logged-in user at /create-mixtapes gets no response | GET /create-mixtapes with a logged-in session (a page reload in the client router) | serve index.html, as the catch-all does for every other client route | medium, not executed | `Routes.CatchAllAsWritten`, `Routes.LoggedInCreateHangs` | `Routes.CatchAll`, `Routes.CatchAllDiffersOnlyThere` |
