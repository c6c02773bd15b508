# alebaz chat API: onboarding, contact search and conversations in Dafny

This project models the request handlers of the alebaz chat API, a Laravel
back end. It covers three parts.

- **Client onboarding.** `startEmail`, `verifyEmail`, `resendEmail`,
  `saveProfile`, `savePhonePin` and `loginWithPin` work on the `clients`
  table.
  - A six-digit email code is valid for 10 minutes.
  - A code can be resent at most 5 times, with a 10-second cooldown between sends.
  - The onboarding step runs from 1 to 4.
  - Login is by phone and PIN.
- **Phone numbers and contact search.** Phone numbers are normalised to
  the `+` international shape. A search query is classified as an email, a
  phone number or a username prefix, and the handler picks a display field
  for each hit.
- **Conversations and messages.** This part covers:
  - opening (or reusing) a direct conversation;
  - each member's own "clear", "hide" and "unhide" switches;
  - the conversation list;
  - the two message listings;
  - posting a message;
  - the `imagePath` normaliser used on profile images.

The handlers change state in place, so they are methods:
- on `ClientAuth.ClientStore`, a class holding the clients table;
- on `Chat.ChatDb`, which holds the conversations, participant rows and
  message log.

Both classes keep a table invariant:
- ids are assigned in insertion order;
- emails, phones and usernames are unique;
- a user has at most one row per conversation;
- two users share at most one direct conversation;
- every sender is a member.

The read-only handlers are functions: login, search, the conversation list
and the message views. Each handler runs as one atomic step.

Values the code gets from outside are parameters:
- the clock, as a number of seconds;
- the generated code;
- whether the mail was sent;
- the name of an uploaded file;
- the ids of existing clients.

Points where the code does more or less than its own comments and names
suggest, modelled as the code does it:
- **Code range.** Codes are drawn by `random_int(100000, 999999)`
  (app/Http/Controllers/ClientAuthController.php:62), so a submitted code
  with a leading zero never matches (`Decimal.SubmittedCodeMatches`).
- **Leading zeros.** The comment at
  app/Http/Controllers/ClientAuthController.php:295 says "remove leading
  zero", but `ltrim($phone, '0')` removes every leading zero of the local
  number, not just one.
- **`saveProfile` step.** `saveProfile` sets step 3 even on a completed
  account, whose login then answers "complete registration first". The
  uniqueness check of `savePhonePin` also counts the account's own row, so
  saving the same number again is refused as already registered. The
  account can log in again only after saving a different number
  (`ClientAuth.ResavedProfileLocksLogin`; see Findings).
- **`resendEmail` on a verified client.** The handler never checks
  verification state, so a resend to a verified client still issues a code.

Source paths below are relative to the repository root.

## Model

| member | source | states |
|---|---|---|
| Text.LTrim | app/Http/Controllers/ClientAuthController.php:296 | the result is a suffix of the input that does not start with the character, and everything removed was that character |
| Text.DigitsOf | app/Http/Controllers/ClientAuthController.php:293 | only digits remain, never more than the input had, and an all-digit input is returned unchanged |
| Text.DigitsOfConcat | app/Http/Controllers/ClientAuthController.php:293 | the digits of a concatenation are the digits of each part, in order |
| Text.DigitsOfChar | app/Http/Controllers/ClientAuthController.php:293 | one character contributes itself when it is a digit and nothing otherwise |
| Text.Trim | app/Http/Controllers/ClientAuthController.php:390-391 | the result is a slice of the input outside which every character is trimmable, with a non-trimmable character at each end; it is empty exactly when the input is all whitespace |
| Decimal.Render | app/Http/Controllers/ClientAuthController.php:62 | `(string)` of an int is a non-empty digit string that starts with `0` only for zero |
| Decimal.ValueOfRender | app/Http/Controllers/ClientAuthController.php:62 | reading a rendered number back gives the number |
| Decimal.RenderOfValue | app/Http/Controllers/ClientAuthController.php:140 | a digit string without a superfluous leading zero is the rendering of its value |
| Decimal.RenderLength | app/Http/Controllers/ClientAuthController.php:62 | a number between 10^(k-1) and 10^k renders to exactly k digits |
| Decimal.OtpCode | app/Http/Controllers/ClientAuthController.php:197 | every issued code has six digits, a non-zero first digit, and denotes the generated number |
| Decimal.SubmittedCodeMatches | app/Http/Controllers/ClientAuthController.php:139-145 | a submitted six-digit code equals the issued code exactly when its first digit is not `0` and it denotes the generated number |
| Phone.IsCountryCode | app/Http/Controllers/ClientAuthController.php:273 | the `country_code` rule: `+`, a non-zero digit, then at most three digits |
| Phone.IsLocalNumber | app/Http/Controllers/ClientAuthController.php:274 | the `phone` rule: 4 to 14 digits |
| Phone.IsE164 | app/Http/Controllers/ClientAuthController.php:302 | the final check: `+`, a non-zero digit, then 6 to 14 digits |
| Phone.Subscriber | app/Http/Controllers/ClientAuthController.php:292-296 | the subscriber part is all digits, no longer than the input, with no leading zero; for an all-digit input it is that input without its leading zeros |
| Phone.FullPhone | app/Http/Controllers/ClientAuthController.php:298-299 | the stored number is the country code followed by digits, the first not `0`; for an all-digit local number it is the country code followed by that number without its leading zeros |
| Phone.TrunkZeroDropped | app/Http/Controllers/ClientAuthController.php:292-299 | one trunk zero before a local number starting with a non-zero digit is dropped, and the rest is stored as typed |
| Phone.FullPhoneExample | app/Http/Controllers/ClientAuthController.php:292-299 | under `+234` the local number `08012345678` is stored as `+2348012345678` |
| Phone.FullPhoneFormat | app/Http/Controllers/ClientAuthController.php:301-307 | with a valid country code, the final format check passes exactly when the number has 7 to 15 digits in all |
| Phone.FullPhoneIgnoresTrunkZeros | app/Http/Controllers/ClientAuthController.php:292-296 | a leading `0` or `-` before the local number does not change the stored number |
| Phone.FullPhoneIgnoresPunctuation | app/Http/Controllers/ClientAuthController.php:292-299 | the stored number depends only on the digits of the typed local number |
| Phone.FullPhoneIgnoresSeparator | app/Http/Controllers/ClientAuthController.php:292-299 | removing any one non-digit character, wherever it stands in the local number, leaves the stored number unchanged |
| ImagePath.ImagePath | app/Http/Controllers/ConversationController.php:14-31 | null exactly for a null, empty or `"0"` path; otherwise the result never starts with `/` |
| ImagePath.SchemeLength | app/Http/Controllers/ConversationController.php:21 | 7 exactly when the value starts with `http://`, 8 exactly when it starts with `https://`, and 0 exactly when it starts with neither, in any letter case |
| ImagePath.DropPublic | app/Http/Controllers/ConversationController.php:27 | one leading `public/` is removed, and a path without it is unchanged |
| ImagePath.UrlPath | app/Http/Controllers/ConversationController.php:22 | the path of a URL starts with `/` and holds no `?` or `#` |
| ImagePath.PlainPathUnchanged | app/Http/Controllers/ConversationController.php:14-31 | a relative path with no scheme, no leading slash and no `public/` prefix is returned as is |
| ImagePath.StoredUploadUnchanged | app/Http/Controllers/ClientAuthController.php:251 | the `uploads/clients/...` paths `saveProfile` stores are returned unchanged |
| ImagePath.PublicPrefixRemovedOnce | app/Http/Controllers/ConversationController.php:26-30 | exactly one leading `public/` is removed, then any leading slashes |
| ImagePath.UrlReducedToPath | app/Http/Controllers/ConversationController.php:20-24 | an absolute `http://` or `https://` URL, its scheme in any letter case, is reduced to its path, then `public/` and leading slashes are stripped |
| Clients.FindByEmail | app/Http/Controllers/ClientAuthController.php:105 | the lookup finds a record with that email, or there is none |
| Clients.FindByPhone | app/Http/Controllers/ClientAuthController.php:338 | the lookup finds a record with that exact phone, or there is none |
| Clients.FindByEmailExact | database/migrations/2026_02_18_190934_create_clients_table.php:15 | with unique emails, a stored email finds its own record |
| Clients.FindByPhoneExact | database/migrations/2026_02_18_190934_create_clients_table.php:16 | with unique phones, a stored phone finds its own record |
| Clients.Elapsed | app/Http/Controllers/ClientAuthController.php:187 | the number of seconds between the two instants, whichever comes first |
| Clients.UpdateKeepsWellFormed | database/migrations/2026_02_18_190934_create_clients_table.php:15-17 | replacing one record keeps the table invariant when the new record keeps its id and email and takes no phone or username of another client |
| ClientAuth.LoginWithPin | app/Http/Controllers/ClientAuthController.php:331-363 | validation comes first; an unknown phone and a wrong PIN give the same reply; an unfinished registration is reported before the PIN is checked, carrying the client's own `onboarding_step`; a login succeeds only for a completed step-4 client whose PIN matches |
| ClientAuth.ResendReply | app/Http/Controllers/ClientAuthController.php:179-195 | the cap is checked before the cooldown; an early resend reports 10 minus the elapsed seconds, which lies in 1..10 |
| ClientAuth.WithNewCode | app/Http/Controllers/ClientAuthController.php:197-204 | the row gets a new six-digit code, expiry now + 600 s, sent-at now and a resend count one higher, and every other column is unchanged |
| ClientAuth.NewCodeKeepsWellFormed | app/Http/Controllers/ClientAuthController.php:197-204 | issuing a new code below the cap keeps the table invariant, so the count never passes 5 |
| ClientAuth.WithProfile | app/Http/Controllers/ClientAuthController.php:250-258 | the row gets the given username or keeps the old one, gets the uploaded path under `uploads/clients/` or keeps the old image, and moves to step 3; every other column is unchanged |
| ClientAuth.ProfileKeepsWellFormed | app/Http/Controllers/ClientAuthController.php:254-258 | saving a profile keeps the table invariant, and the only login reply it can change becomes "complete registration first" at step 3 |
| ClientAuth.PhonePinCompletesAccount | app/Http/Controllers/ClientAuthController.php:317-322 | storing a valid number no other client holds, and a PIN, keeps the table invariant, and that phone and PIN then log the client in |
| ClientAuth.ResavedProfileLocksLogin | app/Http/Controllers/ClientAuthController.php:309-315 | after a completed account saves its profile again, its own number logs in only to "complete registration first", and the uniqueness check finds that number on the account itself |
| ClientAuth.ResavedOwnNumberRestoresLogin | app/Http/Controllers/ClientAuthController.php:309-315 | with a uniqueness check that ignores the caller's row, that account may store its own number again, and its number and new PIN then log it in |
| ClientAuth.ClientStore.StartEmail | app/Http/Controllers/ClientAuthController.php:56-96 | an invalid or taken email changes nothing; otherwise exactly one record is appended at step 1, unverified and incomplete, with resend count 0, a six-digit code of at least 100000, expiry now + 600 and last-sent now; the record is kept when the mail fails (500) |
| ClientAuth.ClientStore.VerifyEmail | app/Http/Controllers/ClientAuthController.php:98-161 | checks run in order: unknown (404), already verified whatever the code (200), no code (400), expired even when the code matches (422), mismatch (422); success sets verified, step 2 and the verification time, clears code and expiry, and changes nothing else |
| ClientAuth.ClientStore.ResendEmail | app/Http/Controllers/ClientAuthController.php:164-224 | an unknown email gives 404; the reply is `ResendReply`; a new code, expiry, send time and count + 1 are written before the mail, so a failed send (500) still uses up a resend |
| ClientAuth.ClientStore.SaveProfile | app/Http/Controllers/ClientAuthController.php:226-267 | unknown gives 404 and unverified gives 403; otherwise it keeps the old username and image when none is given, sets step 3 whatever the step was, and the only login change is to "complete registration first" |
| ClientAuth.ClientStore.SavePhonePin | app/Http/Controllers/ClientAuthController.php:269-329 | checks run in order: unverified (403), step below 3 (403), bad E.164 shape (422), phone held by any client including the caller (422); success stores the phone, the PIN hash, completed and step 4, after which the same phone and PIN log in |
| Search.Classify | app/Http/Controllers/ClientAuthController.php:399-440 | a query is an email exactly when it contains `@`, and a phone exactly when it has no `@` and only digits, `+`, whitespace, `-`, `(` and `)` |
| Search.SearchPhone | app/Http/Controllers/ClientAuthController.php:407-431 | the rewritten phone query is `+` followed by digits |
| Search.SearchPhoneIgnoresPunctuation | app/Http/Controllers/ClientAuthController.php:410 | spaces, dashes, brackets and `+` in a phone query do not change the number searched for |
| Search.SearchPhoneOtherDigits | app/Http/Controllers/ClientAuthController.php:418-431 | a digit string that is not a local number (fewer than ten digits, or no leading zero) is searched for as `+` and those digits |
| Search.SearchFindsStoredPhone | app/Http/Controllers/ClientAuthController.php:419-428 | typing a stored number exactly as stored searches for that very number |
| Search.LocalNumberSearchMatchesSaved | app/Http/Controllers/ClientAuthController.php:412-417 | any all-digit query of 10 or more digits with a leading zero, of any length, is searched as `+234` and its digits without leading zeros, which is the number `savePhonePin` stores for it under +234 |
| Search.PunctuatedLocalNumberMatchesSaved | app/Http/Controllers/ClientAuthController.php:407-417 | the same holds when the local number is typed with any punctuation between its digits |
| Search.SpacedLocalNumberExample | app/Http/Controllers/ClientAuthController.php:407-417 | the query `0801 234 5678` is searched for as `+2348012345678` |
| Search.Display | app/Http/Controllers/ClientAuthController.php:449-460 | a hit shows the searched field when it is truthy; otherwise the username if truthy, else the phone if truthy, else the email. For hits the searched field is always truthy, so the fallback never fires (`Search.EmailHitsShowEmail`, `Search.PhoneHitsShowPhone`, `Search.UsernameMatchShown`) |
| Search.HitOf | app/Http/Controllers/ClientAuthController.php:461-467 | a result carries the client's id, the display value, the query kind, the username and the stored image |
| Search.Matching | app/Http/Controllers/ClientAuthController.php:393-440 | exactly the clients other than the caller, with a completed account, that meet the classified condition, each as often as in the table |
| Search.Search | app/Http/Controllers/ClientAuthController.php:382-470 | invalid exactly for a blank query or a length outside 2..120; at most 10 hits, each a matching client; fewer than 10 means every match is there; no hit occurs more often than its client among the matches, so distinct rows give distinct hits |
| Search.EmailHitsShowEmail | app/Http/Controllers/ClientAuthController.php:399-405 | every hit of an email query shows the email asked for, in any letter case |
| Search.PhoneHitsShowPhone | app/Http/Controllers/ClientAuthController.php:407-432 | every hit of a phone query shows the number searched for |
| Search.UsernameHitsShowUsername | app/Http/Controllers/ClientAuthController.php:433-440 | every hit of a username query shows a username that starts with the query, in any letter case |
| Search.UsernameMatchShown | app/Http/Controllers/ClientAuthController.php:456-459 | a username match is shown by its username and never falls back |
| Sorting.SortBy | app/Http/Controllers/ConversationController.php:282 | the ordered result is a permutation of its input, sorted by the key |
| Sorting.Filter | app/Http/Controllers/ConversationController.php:274-280 | exactly the rows satisfying the condition are kept, each as often as in the input |
| Sorting.FilterAppend | app/Http/Controllers/MessageController.php:56-61 | a row appended to the table is appended to the result when it satisfies the condition |
| Sorting.FilterKeepsOrder | app/Http/Controllers/MessageController.php:26-28 | filtering an id-ordered table keeps it id-ordered |
| Chat.FindParticipant | app/Http/Controllers/ConversationController.php:197-199 | the caller's row in the conversation, or none exactly when the caller is not a member |
| Chat.SameMembershipKeepsLookups | app/Http/Controllers/ConversationController.php:205-206 | changing only `cleared_at` and `hidden_at` does not change who is a member or which row is found |
| Chat.SameMembershipKeepsWellFormed | app/Http/Controllers/ConversationController.php:226-227 | changing only `cleared_at` and `hidden_at` keeps the table invariant |
| Conversations.FindDm | app/Http/Controllers/ConversationController.php:59-67 | the first direct conversation having both users as members, or none |
| Conversations.AppendDmKeepsWellFormed | app/Http/Controllers/ConversationController.php:77-95 | adding a direct conversation when none exists keeps the table invariant and makes it the conversation between the two |
| Conversations.AppendDmKeepsUnique | app/Http/Controllers/ConversationController.php:77-95 | the new conversation is the only direct conversation between the two users |
| Conversations.DmSameEitherWay | app/Http/Controllers/ConversationController.php:59-67 | the direct conversation found for (A, B) and for (B, A) is the same |
| Conversations.CreateOrGetDm | app/Http/Controllers/ConversationController.php:33-106 | an unknown client gives 422 and oneself gives 422, with nothing created; an existing conversation is returned with no row touched; otherwise exactly one conversation created by the caller and two member rows are added; the invariant is kept |
| Conversations.ClearForMe | app/Http/Controllers/ConversationController.php:190-209 | 404 or 403 change nothing; otherwise only the caller's own row gets `cleared_at` = now |
| Conversations.HideForMe | app/Http/Controllers/ConversationController.php:211-230 | 404 or 403 change nothing; otherwise only the caller's own row gets `hidden_at` = now |
| Conversations.UnhideForMe | app/Http/Controllers/ConversationController.php:232-251 | 404 or 403 change nothing; otherwise only the caller's own row gets `hidden_at` = null |
| Conversations.LatestAt | app/Http/Controllers/ConversationController.php:141-146 | the ordering key is the largest `created_at` among the conversation's messages, or -1 exactly when it has none |
| Conversations.LastMessage | app/Models/Conversation.php:34-39 | the conversation's latest message is the last one appended to it, or none exactly when it has none |
| Conversations.LastMessageHasHighestId | app/Models/Conversation.php:34-39 | with ids in insertion order, that message has the highest id in its conversation |
| Conversations.OtherMember | app/Http/Controllers/ConversationController.php:154 | `other` is a member other than the caller, or none exactly when every member row is the caller's |
| Conversations.OrderedVisible | app/Http/Controllers/ConversationController.php:132-147 | exactly the conversations with a non-hidden row of the caller, each as often as in the table, newest message first |
| Conversations.ListConversations | app/Http/Controllers/ConversationController.php:132-170 | the listed conversations are, as a multiset, exactly the visible ones; ordered by latest message time descending, each with its other member and its latest message |
| Conversations.ConversationMessages | app/Http/Controllers/ConversationController.php:253-295 | gives 404 for an unknown conversation, 403 for a non-member and 404 while hidden; otherwise exactly the messages after the caller's `cleared_at`, each as often as in the log, oldest first |
| Conversations.HiddenRowNotVisible | app/Http/Controllers/ConversationController.php:133-135 | once the caller's row is hidden, the conversation is not visible to them |
| Conversations.HideRemovesConversation | app/Http/Controllers/ConversationController.php:226-227 | after hiding, the conversation leaves the caller's list and its messages answer "Chat deleted" |
| Conversations.UnhideRestoresConversation | app/Http/Controllers/ConversationController.php:247-248 | after unhiding, the conversation is back in the list and its messages load |
| Conversations.ClearShowsOnlyLaterMessages | app/Http/Controllers/ConversationController.php:277-280 | after clearing at `now`, the caller sees exactly the conversation's messages created after `now` |
| Conversations.OtherMembersUnaffected | app/Http/Controllers/ConversationController.php:197-206 | one member's switches change neither the list nor the message view of any other member |
| Conversations.MessagesViewUnaffected | app/Http/Controllers/ConversationController.php:261-280 | the message view reads only the caller's own row, so a change to another member's row leaves it alone |
| Messages.MessagesOf | app/Http/Controllers/MessageController.php:26-28 | exactly the conversation's messages, in id order |
| Messages.MessagesOfAppend | app/Http/Controllers/MessageController.php:56-61 | a posted message joins the end of its conversation's messages |
| Messages.FirstPageHasLowestIds | app/Http/Controllers/MessageController.php:28-29 | in an id-ordered list, every message past the first page has a larger id than every message on it |
| Messages.FirstPage | app/Http/Controllers/MessageController.php:28-29 | the first (at most) 200 messages, in id order; any message left out has a larger id than every one kept |
| Messages.MessageIndex | app/Http/Controllers/MessageController.php:12-35 | gives 404 for an unknown conversation and 403 for a non-member, hidden or not; otherwise at most 200 messages of the conversation in increasing id, and any omitted one has a larger id than all listed |
| Messages.MessageIndexIgnoresVisibility | app/Http/Controllers/MessageController.php:18-20 | the listing does not depend on `cleared_at` or `hidden_at` |
| Messages.ClearedMessageStillServed | routes/api.php:29 | a message sent before the caller cleared the chat is still served by the routed listing but absent from the clear-aware view |
| Messages.ShortConversationServed | app/Http/Controllers/MessageController.php:26-30 | every message of a conversation holding at most 200 messages is served to every member |
| Messages.Store | app/Http/Controllers/MessageController.php:38-68 | checks run in order: 404, invalid body (422) before membership, then 403, each writing nothing; otherwise exactly one message with the next id is appended from the caller at `now`; conversations and participant rows are untouched, so nothing is unhidden |
| Messages.BodyOk | app/Http/Controllers/MessageController.php:44 | the `body` rule: present, not blank after trimming, at most 2000 characters |
| Messages.PostedMessageIsLatest | app/Http/Controllers/MessageController.php:56-61 | a posted message becomes its conversation's latest message and one of its messages; whether the listing serves it depends on the page (next rows) |
| Messages.PostedMessageServed | app/Http/Controllers/MessageController.php:26-30 | while the conversation holds fewer than 200 messages, a posted message is served to every member |
| Messages.PostedMessageMissedOnFullPage | app/Http/Controllers/MessageController.php:28-29 | once the conversation holds 200 messages, a posted message is never served |
| Messages.LatestPage | app/Http/Controllers/MessageController.php:28-29 | the last (at most) 200 messages, in id order; any message left out has a smaller id than every one kept |
| Messages.LatestMessageIndex | app/Http/Controllers/MessageController.php:12-35 | the listing with the cap on the newest messages: same 404 and 403, at most 200 messages, and any omitted one is older than all listed |
| Messages.PostedMessageAlwaysServed | app/Http/Controllers/MessageController.php:28-29 | with the cap on the newest messages, a posted message is always served to every member |

## Left out

- Mail delivery is a boolean input. The templates and the mail class are not part of this model.
- `random_int` is an input in 100000..999999.
- `Str::uuid`, the file move and the image rules (`image`, `mimes`, `max:2048`) are replaced by the name the upload was stored under.
- `Hash::make` / `Hash::check` are modelled as an exact comparison of PINs.
- Sanctum token issuance is not modelled. A successful login returns the client id.
- Laravel's `email` format rule is not modelled. `startEmail`, `verifyEmail` and `resendEmail` check their email field for `required` and `max:120`; `saveProfile` and `savePhonePin` check it for `required` only, as their rules have no length limit.
- `required` is modelled as "something is left after trim". Request middleware that trims strings or turns empty strings into null is not modelled.
- Regex `$` also accepts a trailing line feed. The phone rules are modelled as matching the whole string.
- The `integer` rule on `user_id` and the `auth:client` 401 replies are not modelled. The caller is an authenticated client id.
- `parse_url` is modelled for URLs whose authority runs up to the first `/`, `?` or `#`. Malformed URLs are not modelled.
- Carbon's `diffInSeconds` is modelled as the absolute number of whole seconds between the two instants.
- SQL `LIKE` wildcards (`%`, `_`) in a username query are taken literally. The prefix match is a plain lowercase prefix.
- Search results are returned in table (id) order. The SQL statement has no `ORDER BY`.
- In the conversation list, ties in latest message time may come back in any order.
- Conversations without messages sort last. SQL NULL ordering is database-specific.
- The JSON shaping of replies is not modelled. This covers the other member's username and image, `me`, and eager-loaded relations.
- `last_read_message_id` and the `role` of community conversations are not modelled.
- `logout` is routed but has no implementation in the controller. `me` only echoes the record.
- Concurrency is not modelled. Each handler and the `DB::transaction` block are one atomic step, so races such as a duplicate direct conversation or a double resend are not captured.
- Logging and `DB::listen` are not modelled.
- `onboarding_step` is not monotone, because `saveProfile` sets it to 3 even at step 4. No monotonicity is claimed.
- The verification code is not cleared for good once verified, because `resendEmail` issues new codes to verified clients. No such claim is made.

## Findings

| source | as written | input that shows it | evidently intended | confidence | as-written member | corrected member |
|---|---|---|---|---|---|---|
| routes/api.php:29 | the message GET route serves `MessageController::index`, which checks membership only, so the clear and hide switches never affect the messages a member reads | a member clears a conversation at time T while it holds a message created at or before T; the routed listing still returns that message, and a hidden conversation's messages still load | reading a conversation honours the reader's `cleared_at` and `hidden_at`, as `ConversationController::messages` does | medium, not executed | Messages.ClearedMessageStillServed | Conversations.ClearShowsOnlyLaterMessages |
| app/Http/Controllers/MessageController.php:28-29 | the listing orders by id ascending and keeps 200 rows, so it serves the oldest 200 messages | a conversation holding 200 messages receives a new one; the listing still returns the first 200, and never the new message or any later one | the cap keeps the newest 200 messages, so a member always sees what was just posted (`Messages.LatestMessageIndex`) | medium, not executed | Messages.PostedMessageMissedOnFullPage | Messages.PostedMessageAlwaysServed |
| app/Http/Controllers/ClientAuthController.php:309-315 | the uniqueness check counts the caller's own row | a completed account saves its profile (step back to 3) and then submits its own stored number; the reply is "Phone already registered", and login keeps answering "complete registration first" | the check ignores the caller's row, so re-saving one's own number completes the account again | low, not executed | ClientAuth.ResavedProfileLocksLogin | ClientAuth.ResavedOwnNumberRestoresLogin |
