# Job portal: request validation, login tokens, chat and appointment rules

This project models the decision logic of a small job portal as pure Dafny
functions and proves what they promise. The portal is an Express server
with a chat widget and a separate Flask upload service. The model covers:

- the server's input validators:
  - the half-hour appointment grid;
  - conversation-id normalisation and generation;
  - chat identity sanitisation against the e-mail pattern;
  - its own `Cookie` header reader.
- the signed login cookie (`jc_auth`):
  - how it is minted and verified;
  - how `getAuthenticatedUserId` prefers the session and falls back to the cookie;
  - the middleware that copies a cookie login into the session;
  - the `requireAuth` / `requireAdmin` gates.
- the route decisions, each as a function from the request and the current
  store contents to a rejection (with its HTTP status) or to the record the
  route would write:
  - `POST /api/chat/session` and `POST /api/chat/messages`;
  - `POST /api/admin/chats/:id/reply` and `PATCH /api/admin/chats/:id/status`;
  - `POST /api/termine` and `PATCH /api/termine/:id`.
- the chat widget's `escapeHtml` and the mine/support classification of
  `renderMessages`.
- the upload service's `allowed_file` and its extension list.

## Modules

- `Wrappers`: `Option` and `Result`.
- `Text`: JavaScript `trim` with its exact whitespace set, ASCII lower-casing, `indexOf` / `lastIndexOf`, `split` / `join`.
- `Decimal`: integer-to-text and text-to-integer.

The rest follow the program:

| module | models |
|---|---|
| `TimeSlot` | `isValidThirtyMinuteTimeSlot` |
| `ConversationId` | normalising and minting chat ids |
| `Email` | `EMAIL_REGEX` |
| `ChatIdentity` | `sanitizeChatIdentity`, `getSessionChatIdentity` |
| `Cookies` | `parseCookies` |
| `AuthToken` | the login token |
| `AuthResolver` | who is asking, and the gates |
| `ChatRoutes` | the chat routes |
| `Appointments` | the appointment routes |
| `HtmlEscape` | `escapeHtml` |
| `ChatWidget` | `renderMessages` |
| `Uploads` | `allowed_file` |

## Collaborators as parameters

Foreign calls and I/O are parameters or abstract values:

- **HMAC-SHA256 keyed with the session secret** is any function from text to a non-empty base64url digest.
- **The base64url codec** is any pair of functions where decoding undoes encoding and encodings use the base64url alphabet (section 5 of RFC 4648).
- **The clock** is an integer argument. Where a timestamp is stored (the closing time of a conversation), it is a text argument `now`.
- **`decodeURIComponent`** is a function that returns `None` where the JavaScript one throws.
- **`crypto.randomUUID` / `randomBytes`** are an entropy argument.
- **`Number(req.params.id)`** is a function to an optional real (`None` when the result is not finite).
- **The `Date` parse of the appointment time** is a predicate.

The store functions the server imports are modelled as data:

- the chat conversation meta is an `Option` or a map;
- the latest messages of a conversation are a sequence;
- the user table is a map;
- the appointment table is a map from row id to row.

## Model

| member | source | states |
|---|---|---|
| Text.Trim | server.js:412 | `trim()` never lengthens the text, leaves no whitespace at either end, and gives empty text iff the input is all whitespace |
| Text.TrimPieces | server.js:412 | the input is leading whitespace, then the trimmed text, then trailing whitespace |
| Text.TrimIdempotent | server.js:1129 | trimming twice is trimming once |
| Text.Lower | server.js:427 | `toLowerCase()` keeps the length and lowers each character on its own |
| Text.LowerIdempotent | server.js:427 | lowering twice is lowering once |
| Text.Split | server.js:899 | `split(sep)` yields separator-free pieces that `join` back to the input |
| Text.SplitJoin | server.js:237 | splitting joined separator-free pieces gives the pieces back |
| Decimal.ParseIntToString | server.js:246-248 | reading back the decimal text of an integer gives that integer |
| TimeSlot.ValidSlotIsGridPoint | server.js:894-909 | a time is accepted iff it is `HH:MM` with two digits each, `HH` at most 23 and `MM` 00 or 30 |
| TimeSlot.GridPointAccepted | server.js:904-908 | the two-digit text of an hour and minute is accepted iff the hour is at most 23 and the minute 0 or 30 |
| TimeSlot.AcceptedSlotExample | server.js:894-909 | `09:30` is accepted |
| TimeSlot.RejectedSlotExamples | server.js:894-909 | `09:15`, `24:00` and `9:30` are refused |
| ConversationId.KeepIdChars | server.js:414 | the filter never lengthens the text, and a character is in its result iff it is in the input and in `[a-zA-Z0-9_-]` |
| ConversationId.NormalizeConversationId | server.js:411-415 | the result has only id characters, at most 80 of them, and is empty for blank input |
| ConversationId.NormalizeIsTruncatedFilter | server.js:411-415 | normalising is filtering the id characters and keeping the first 80 |
| ConversationId.NormalizeFixesCleanIds | server.js:411-415 | an id of at most 80 id characters is left unchanged |
| ConversationId.NormalizeIdempotent | server.js:411-415 | normalising twice is normalising once |
| ConversationId.UuidWithoutDashes | server.js:419 | a canonical UUID without its dashes is 32 lower-case hex digits |
| ConversationId.CreateConversationId | server.js:417-423 | a minted id is `chat_` followed by 32 lower-case hex digits |
| ConversationId.CreatedIdIsNormalized | server.js:411-423 | a minted id is non-empty and normalising leaves it unchanged |
| Email.IsEmailAddressMatchesPattern | server.js:348 | the first-`@` check accepts exactly the texts the pattern accepts: three non-empty runs of `[^\s@]` separated by `@` and a later `.` |
| ChatIdentity.SanitizeChatIdentity | server.js:425-439 | success iff the trimmed names and address are non-empty and the lowered address is well-formed; missing fields are reported first; on success the fields are trimmed and the address lowered |
| ChatIdentity.SanitizeSucceedsIff | server.js:425-439 | success iff both trimmed names are non-empty and the lowered, trimmed address matches the e-mail pattern |
| ChatIdentity.SanitizedIsClean | server.js:430-438 | a sanitised identity has trimmed non-empty names and a trimmed, lower-case, well-formed address |
| ChatIdentity.SanitizeAcceptsCleanIdentity | server.js:425-439 | a clean identity is accepted unchanged |
| ChatIdentity.SanitizeIdempotent | server.js:425-439 | sanitising a sanitised identity changes nothing |
| ChatIdentity.SessionChatIdentity | server.js:441-456 | the stored identity is used iff all three fields are present, and then comes back trimmed with the address lowered |
| ChatIdentity.SessionIdentityRoundTrip | server.js:441-456 | a clean identity stored in the session is read back as it was |
| ChatIdentity.SanitizedIdentityRoundTrip | server.js:425-456 | an identity that passed `sanitizeChatIdentity` and was stored in the session is read back unchanged |
| Cookies.SegmentEntryShape | server.js:213-218 | a piece carries a cookie iff it has an `=` that is not its first character; the name is the trimmed text before the first `=`, the value the trimmed rest |
| Cookies.SegmentEntryOf | server.js:213-218 | `name=value` with an `=`-free name carries that name and value, `=` in the value included |
| Cookies.SkippedSegmentExamples | server.js:214 | `=orphan` and `flag` carry nothing |
| Cookies.LastCarrier | server.js:212-221 | the position found carries the name, and no later piece does |
| Cookies.ParseCookiesLastWins | server.js:209-222 | a name is present iff it is not `__proto__` and some piece carries it with a decodable value, and then the last such piece wins; the plain object's prototype setter ignores a string assigned to `__proto__` |
| Cookies.ParseCookiesAgreesWithAsWritten | server.js:209-222 | where the server's parse succeeds, the lenient parse returns the same map |
| Cookies.ParseCookiesAsWrittenFailsIff | server.js:209-222 | the server's parse of a non-empty header throws iff some piece carries a value `decodeURIComponent` rejects |
| AuthToken.TokenRoundTrip | server.js:224-255 | a minted token verifies to its user up to and including one day after minting, and to nothing later |
| AuthToken.TokenNonEmpty | server.js:228-233 | a minted token is non-empty base64url text |
| AuthToken.ExtraFieldsIgnored | server.js:238 | fields after the third do not change the verdict |
| AuthToken.AcceptedTokenIsSigned | server.js:235-255 | an accepted token has at least three fields: the third is the signature of the first two, the second an unexpired time, the first the user returned |
| AuthToken.ForgedSignatureRejected | server.js:242-244 | a wrong signature is refused whatever the clock says |
| AuthToken.ShortTokenRejected | server.js:238-240 | text with fewer than three fields is refused |
| AuthResolver.GetAuthenticatedUserId | server.js:290-300 | a truthy session id is returned without looking at cookies |
| AuthResolver.ResolversAgree | server.js:290-300 | where the server's resolver does not throw, it agrees with the lenient one |
| AuthResolver.AsWrittenThrowsIff | server.js:290-300 | without a session login the server's resolver throws iff some cookie, related or not, has an undecodable value |
| AuthResolver.SingleMalformedCookie | server.js:209-222 | a one-cookie header with an undecodable value makes the server's resolver throw and the lenient one find nobody |
| AuthResolver.MalformedCookieCounterexample | server.js:209-222 | with no session, the header `theme=%` makes the server's resolver throw; the lenient one answers "nobody" |
| AuthResolver.Base64UrlIsPlain | server.js:258 | base64url text has no `;`, `=` or `%` and no surrounding whitespace, so `encodeURIComponent` and the cookie reader leave it alone |
| AuthResolver.AuthCookieParses | server.js:257-271 | the header carrying only the login cookie parses back to exactly that token |
| AuthResolver.CookieLoginRoundTrip | server.js:224-300 | a browser without a session that sends the cookie minted at login is that user until the token expires, and nobody afterwards |
| AuthResolver.AuthenticateRequest | server.js:302-311 | the middleware records the resolved id; after it, a truthy id is also the session's, a session login is kept, and without a truthy id the session is untouched |
| AuthResolver.BackfillSticks | server.js:302-311 | once recognised, a user stays recognised for later requests of the session whatever cookies they send |
| AuthResolver.RequireAuth | server.js:314-320 | passes iff the id is truthy, and otherwise answers 401, never 403 |
| AuthResolver.RequireAdmin | server.js:322-338 | grants iff the id is truthy and names a user whose type is `admin`, handing on that user; otherwise 401 without a login and 403 with one |
| ChatRoutes.OrElse | server.js:1674 | `x \|\| y` on text: empty iff both are, `x` when `x` is non-empty, and `y` when `x` is empty |
| ChatRoutes.StartChatSessionSound | server.js:1060-1075 | the session starts iff the identity sanitises; then the id is the normalised requested one when that is non-empty, and otherwise the id minted from the entropy by `createConversationId`; either way normalisation keeps it, and the session stores the sanitised identity |
| ChatRoutes.ResolveConversation | server.js:1126-1128 | the conversation is the normalised body id when that is non-empty, and the normalised session id when it is empty; it is empty iff both are |
| ChatRoutes.ResolvedConversationIsNormal | server.js:1126-1128 | the chosen conversation id is a fixed point of normalisation |
| ChatRoutes.IdentityPrecedence | server.js:1152-1168 | a valid body identity wins; without one the session identity is used; without either a signed-in user known to the store gives the account's name and lower-cased address; there is none iff all three are missing |
| ChatRoutes.DecidePostRejections | server.js:1131-1172 | rejection order: no conversation, empty text, over 1200 characters, deleted (404), closed, no identity; the message is accepted iff none applies |
| ChatRoutes.DefaultStatusIsOpen | server.js:1186 | the default status `offen` is not a closed status |
| ChatRoutes.DecidePostAccepted | server.js:1174-1205 | the written message holds the text, no admin, the login if any, the stored status, or `offen` when there is no stored conversation or its status is empty, `deleted = false`, the stored closing time, or none for a new conversation, and the identity; the session remembers both; a mail goes out iff the conversation is new |
| ChatRoutes.PostAcceptedDraft | server.js:1124-1192 | an accepted post writes a normalised non-empty conversation id, the trimmed text of 1 to 1200 characters, and the resolved identity |
| ChatRoutes.FollowUpStaysInConversation | server.js:1126-1128 | a follow-up post without a conversation id lands in the conversation the session remembered |
| ChatRoutes.ClosedConversationRefusesPosts | server.js:1148-1150 | a conversation whose status is `geschlossen` or `erledigt` in any case accepts no post |
| ChatRoutes.DisplayNameBlankIff | server.js:1644-1674 | the display name is the trimmed override when one is given, else the trimmed full name when that is not blank, else the address; it is blank only when override, full name and address all are |
| ChatRoutes.AdminReplyAccepted | server.js:1640-1681 | an accepted reply comes from an admin, under a normalised non-empty id, into an existing, undeleted conversation; it carries the trimmed 1-to-1200-character text and the display-name fallback; the user id comes from the latest message, and so do the visitor's first name, last name and address, each falling back to that message's account value; the status is the stored one or `offen`, and the closing time is the stored one |
| ChatRoutes.AdminReplyRejections | server.js:1640-1667 | for an admin, each refusal happens exactly when its check fails after the earlier ones pass: a missing id (400), an empty text (400), a text over 1200 characters (400), then a missing or deleted conversation or one without messages (404); a reply is accepted iff all checks pass |
| ChatRoutes.AdminReplyGated | server.js:1640 | a request that fails `requireAdmin` is refused with that gate's status before anything else |
| ChatRoutes.SetStatusEffect | server.js:1562-1585 | an accepted status change comes from an admin; it sets the trimmed, lowered allowed status on that conversation only, clears `deleted`, sets the closing time to `now` for `erledigt` or `geschlossen` and clears it for `offen` or `in_bearbeitung`, and keeps every other conversation |
| ChatRoutes.SetStatusAcceptsIff | server.js:1565-1574 | for an admin and an existing conversation, the change is accepted iff the trimmed, lowered status is one of the four allowed |
| ChatRoutes.ClosingStopsVisitors | server.js:1148-1150 | after an admin sets `geschlossen` or `erledigt`, no visitor post to that conversation is accepted |
| ChatRoutes.ReopeningAcceptsPosts | server.js:1126-1172 | after an admin sets `offen` or `in_bearbeitung`, a visitor post to that conversation is accepted iff it names a conversation, has a text of 1 to 1200 characters and an identity |
| Appointments.CheckSlotPasses | server.js:1002-1008 | slot fields that pass are a `YYYY-MM-DD` date and a half-hour grid time |
| Appointments.CheckBookingPasses | server.js:936-950 | booking fields that pass have a name, an address matching the e-mail pattern, and a valid slot |
| Appointments.DecideCreateRejections | server.js:929-960 | rejection order: login (401), missing field, address, date, time, occupied slot (409), unparseable time; the booking succeeds iff none applies |
| Appointments.DecideCreateAccepted | server.js:929-968 | the inserted row belongs to the user, holds the fields, a valid date and grid time, a slot no row held, and a parseable time |
| Appointments.CreateTerminAccepted | server.js:929-968 | the inserted row holds the trimmed fields and the lowered address, with the guarantees above |
| Appointments.CreateSlotTakenIff | server.js:936-955 | 409 iff logged in, every field check passes, and some row holds the slot |
| Appointments.CreatePreservesExclusive | server.js:952-968 | inserting an accepted booking keeps every slot held by at most one row |
| Appointments.DecideRescheduleRejections | server.js:988-1032 | rejection order: login, id not positive and finite, missing date or time, date, time, slot held by another row (409), unparseable time, then 404 unless the id is integral and names a row the user owns |
| Appointments.RescheduleAccepted | server.js:988-1034 | only the owner moves a row, to a valid slot no other row holds; the row keeps its id, owner, name and address |
| Appointments.RescheduleToOwnSlotNotTaken | server.js:1010-1017 | moving a row onto the slot it already holds is not a conflict |
| Appointments.RescheduleOntoOtherRowTaken | server.js:1010-1017 | moving onto a slot another row holds is answered with 409 once the earlier checks pass |
| Appointments.ReschedulePreservesExclusive | server.js:1010-1028 | an accepted move keeps every slot held by at most one row and leaves every other row as it was |
| HtmlEscape.PassesAreEscape | chat-widget.js:7-12 | the five `replaceAll` passes, `&` first, escape each character on its own |
| HtmlEscape.EscapeHtml | chat-widget.js:6-13 | `escapeHtml` is the per-character escaping, and `''` for `null` or `undefined` |
| HtmlEscape.EscapeIsInert | chat-widget.js:6-13 | the output holds no `<`, `>`, `"` or `'` |
| HtmlEscape.EscapeAmpersandsBeginEntities | chat-widget.js:6-13 | every `&` in the output begins `&amp;`, `&lt;`, `&gt;`, `&quot;` or `&#039;` |
| HtmlEscape.EscapePlain | chat-widget.js:7-12 | text without the five characters is left unchanged |
| HtmlEscape.EscapeGrows | chat-widget.js:7-12 | escaping never shortens the text |
| HtmlEscape.UnescapeEscape | chat-widget.js:8-12 | decoding the five entities gives back the original text |
| HtmlEscape.EscapeInjective | chat-widget.js:8-12 | different texts never escape alike |
| ChatWidget.RenderBubble | chat-widget.js:152-162 | class `mine` iff the message has no truthy admin id or its admin is the viewer; label `Ich` iff class `mine`, else `Support` / `admin`; the text is escaped, inert, and decodes to the message |
| ChatWidget.RenderMessages | chat-widget.js:146-163 | an empty history gives the placeholder note only; otherwise one bubble per message, in order |
| ChatWidget.ClassificationCases | chat-widget.js:153-156 | visitor messages are always `mine`; a reply is `Ich` for the admin who wrote it and `Support` for every other viewer |
| Uploads.Extension | app.py:21 | the extension has no dot and is what follows some dot of the name |
| Uploads.AllowedFileIff | app.py:10-21 | a name is accepted iff it is `stem.ext` with a dot-free `ext` whose lower-case form is one of the 11 listed extensions |
| Uploads.NamesWithoutExtensionRefused | app.py:21 | a name without a dot, or ending in a dot, is refused |
| Uploads.OnlyLastDotCounts | app.py:21 | `stem.ext` is judged by `ext` alone, whatever dots the stem holds |
| Uploads.AllowedFileIgnoresCase | app.py:21 | a name and its lower-case form are judged alike |
| Uploads.LastDotRefusedExample | app.py:21 | `a.pdf.exe` is refused |
| Uploads.LastDotAcceptedExample | app.py:21 | `a.exe.pdf` is accepted |
| Uploads.UpperCaseExample | app.py:21 | `X.PDF` is accepted |
| Uploads.NoExtensionExamples | app.py:21 | `name` and `name.` are refused |

## Left out

- AuthToken.TokenRoundTrip: user ids and clock readings are assumed to be safe integers (absolute value at most 2^53 - 1). JavaScript prints numbers from 10^21 upwards in exponent form, and `Number()` rounds beyond 2^53, so the round trip is not promised outside that range. AuthResolver.CookieLoginRoundTrip rests on it and has the same assumption.
- **Text length.** JavaScript `.length` counts UTF-16 code units; the model counts characters. The 1200-character limit differs only for text outside the Basic Multilingual Plane.
- **Case folding.** `toLowerCase()` and Python's `str.lower()` are modelled on the ASCII letters only. For the upload extensions this makes no difference: no other character lowers to an ASCII letter that occurs in the list.
- **`Number()` on token fields** is modelled as an optional sign followed by decimal digits. Hexadecimal, exponent and whitespace-padded forms, which JavaScript also reads as integers, are left out.
- AuthToken.VerifyDecoded: it is weaker than the source for such fields. A token whose fields use those forms is refused by the model but could pass in the server.
- **The path id of `PATCH /api/termine/:id`** is the result of an abstract `Number()`. `updateTerminByUser` is assumed to find a row only under an integral id owned by the user. Its SQL is not part of this model.
- **`new Date(...)` and `toISOString()`** are one abstract validity predicate.
- **`database.js` is not part of this model.** The chat and appointment functions the server imports from it are not defined in the repository's `database.js`. The model assumes the following of them:
  - `isTerminSlotOccupied` looks for another row with the same date and time;
  - `getChatConversationMeta` returns the stored status, deleted flag and closing time;
  - `updateChatConversationState` answers `null` for an unknown conversation. It sets the closing time to the current time (`now`) for `erledigt` or `geschlossen` and clears it for the other statuses.
- **Concurrency.** The check and the insert of a booking are two awaits. Two simultaneous requests can both pass the check; the model treats each request as atomic.
- **Not modelled:**
  - sending notification mail (an accepted chat post only carries a "notify" flag);
  - Express plumbing, `express-session` storage, rate limiting and `bcrypt`;
  - the widget's DOM, fetch calls and polling;
  - the Flask routes and the file system.
- **The markup text of a bubble** (indentation, `div` wrappers) is abstracted to its class, label and escaped text.
- **Other routes:** the GET and DELETE routes and the other CRUD routes are outside the core. So are the status-500 `catch` branches, which only report errors thrown by the store.
- **Lone surrogates** in token text, which `Buffer` would replace, are outside the codec abstraction.
- **Non-string values** passed to `escapeHtml` (numbers and the like) are not modelled. Only text and `null` / `undefined` are.

## Findings

| source | as written | input that shows it | evidently intended | confidence | as-written member | corrected member |
|---|---|---|---|---|---|---|
| server.js:209-222 | `parseCookies` calls `decodeURIComponent` on every cookie value without a `try`, and `getAuthenticatedUserId` runs it in middleware for every request without a session login | a request with no session login whose `Cookie` header is `theme=%` (any cookie with a bad percent escape, not only `jc_auth`): the parse throws, so every route answers 500 | a cookie whose value does not decode is ignored and the visitor is treated as anonymous | not executed | Cookies.ParseCookiesAsWritten, AuthResolver.GetAuthenticatedUserIdAsWritten, AuthResolver.MalformedCookieCounterexample | Cookies.ParseCookies, AuthResolver.GetAuthenticatedUserId, Cookies.ParseCookiesLastWins, AuthResolver.ResolversAgree |
