# One-time scheduling links: the link registry

This project models the link registry of a small Express service. The service
issues single-use links that expire after 24 hours. A valid link redirects to a
fixed HubSpot meeting page. A `meetings.created` webhook marks a link used once
a meeting is booked. The registry is the `links` object in `server.js`, shared
by three handlers:

- `/generate` (`LinkRegistry.Generate`): returns the user's stored link while it is unused and
  not past its expiry. Otherwise it builds a new link from a token, stores it
  under the user, overwriting the old record, and returns it.
- `/redirect/:token` (`LinkRegistry.Resolve`): finds the first record whose URL contains the
  token as a substring. It answers NotFound, Expired, or a redirect to the
  record's scheduler target with `?custom_token=<token>` appended. It never
  looks at `used` and never changes the registry.
- `/webhook` (`LinkRegistry.Webhook`): on `meetings.created`, sets `used` on
  the first record whose URL contains the token (`LinkRegistry.MarkUsed`). Any
  other event is ignored. The reply is always `Webhook received`.

Modelling choices:

- The `links` object is a sequence of `(userId, record)` entries with distinct
  user ids, in property enumeration order. Assigning to an existing property
  keeps its place; a new property is appended (`LinkRegistry.Put`).
  `Object.values(links).find(...)` is the first matching entry in that order
  (`LinkRegistry.FindByToken`, built on `Seqs.FirstIndex`).
- `String.prototype.includes` is `Strings.Includes`. Its contract says the
  result is true exactly when the needle occurs at some position. The empty
  needle occurs everywhere.
- `Date.now()` is the parameter `now`, in milliseconds. `Math.random()` token
  generation is the parameter `token`. Any string is accepted, because the
  handler puts no condition on it.
- `req.query.userId` is an `Option<string>`. An absent or empty user id falls
  back to the key `"default"`, as JavaScript's `||` does.
- Each handler is a pure function returning the new registry and the response
  body (`Reply`), or a `Resolution` for the redirect.

Modules: `Wrappers` (Option), `Seqs` (first match), `Strings` (substring
search), `LinkRegistry` (data model and the three operations), `LinkProperties`
(lemmas relating the operations).

## Model

| member | source | states |
|---|---|---|
| Seqs.FirstIndex | server.js:39 | the index returned satisfies the predicate and no earlier element does; None exactly when no element satisfies it, as `find` scans in order |
| Strings.Includes | server.js:39 | `s.includes(t)` is true exactly when `t` occurs in `s` at some position (always true for empty `t`) |
| Strings.IncludesSuffix | server.js:23 | a URL ending in the token contains the token, so an issued link is found by its own token |
| Strings.IncludesFromPrefix | server.js:39 | anything contained in a prefix of a URL is contained in the URL |
| LinkRegistry.Get | server.js:15 | `links[userId]` is absent exactly when no entry has that user id, and otherwise is that entry's record |
| LinkRegistry.Put | server.js:26-31 | storing a record under a key makes the key map to it, leaves every other key's record unchanged, keeps keys unique, overwrites an existing key in place and appends a new one |
| LinkRegistry.UserKey | server.js:12 | the key is never empty; a non-empty user id is used as given; absent, empty and "default" all give "default" |
| LinkRegistry.Generate | server.js:11-34 | with an active stored link (unused, `now <= expirationTime`) the registry is unchanged and the body is "Your existing link: " plus its URL; otherwise the user's record becomes the redirect base plus token, the HubSpot target, expiry `now + 86400000`, unused, the body is "Your new link: " plus that URL, every other user's record is unchanged, and every existing user keeps its position, the user's entry being overwritten in place or appended at the end |
| LinkRegistry.FindByToken | server.js:39 | the position found is a first match: its URL contains the token and no earlier URL does; none exactly when no URL contains it |
| LinkRegistry.Resolve | server.js:37-47 | NotFound exactly when no stored URL contains the token; for the first match, Expired exactly when `now > expirationTime`, and a redirect goes to that record's `hubspotLink + "?custom_token=" + token` |
| LinkRegistry.MarkUsed | server.js:54-59 | only the first record whose URL contains the token changes, and it becomes used; no match leaves the registry unchanged; URLs, targets, expiries and keys are never changed |
| LinkRegistry.Webhook | server.js:50-65 | the body is always "Webhook received"; an event other than "meetings.created" leaves the registry unchanged; "meetings.created" marks the token's link used |
| LinkProperties.GenerateTwiceSameLink | server.js:15-18 | a second generate before the stored link's expiry returns the same URL as the first and changes nothing |
| LinkProperties.GenerateStoresLink | server.js:15-31 | after generate the user always has a stored link |
| LinkProperties.GenerateReplacesStaleLink | server.js:16-33 | a used or expired link is replaced by a new one built from the new token, with the registry size unchanged; the new URL differs from the old one unless the old URL already contained the new token |
| LinkProperties.ResolveIgnoresUsedFlags | server.js:39-46 | two registries whose entries differ at most in their `used` flags resolve every token identically |
| LinkProperties.ResolveIgnoresUsed | server.js:39-46 | marking any link used never changes what any token resolves to, so a booked link keeps redirecting |
| LinkProperties.WebhookMarksUserLink | server.js:53-59 | a booking webhook whose token reaches a user's link leaves that user's record used with its URL unchanged |
| LinkProperties.WebhookThenGenerateIssuesNew | server.js:16 | after a booking webhook for a user's link, the next generate for that user issues a new link at any time |
| LinkProperties.WebhookIdempotent | server.js:53-59 | delivering the same webhook twice has the same effect as delivering it once |
| LinkProperties.GeneratePreservesIssued | server.js:26-31 | generate keeps every stored record targeting the HubSpot page with a URL under the redirect base |
| LinkProperties.WebhookPreservesIssued | server.js:58 | the webhook keeps every stored record targeting the HubSpot page with a URL under the redirect base |
| LinkProperties.RedirectGoesToScheduler | server.js:45 | for issued records every redirect goes to the HubSpot page with `?custom_token=` and the queried token |
| LinkProperties.IssuedTokenResolves | server.js:23-39 | a token generate just stored is never NotFound afterwards |
| LinkProperties.BaseFragmentResolvesFirst | server.js:39 | any fragment of the redirect base (such as "redirect"; the empty string can arrive only as a webhook token) matches the first stored record and resolves through it |
| LinkProperties.ExpiryBoundary | server.js:42 | the matched link still redirects at exactly its expiration time and is Expired one millisecond later |
| LinkProperties.BookingLifecycle | server.js:11-65 | generate, generate again, booking webhook, redirect, generate: new link, same link, used, still redirects, new link |
| LinkProperties.DefaultUserAliases | server.js:12 | generate with no user id, an empty one, or "default" behaves identically |

## Left out

- HTTP plumbing: routing, body parsing, status codes (404, 400, 302, 200), `res.send`/`res.redirect`, `app.listen` and logging. Outcomes are datatypes instead.
- Token generation with `Math.random().toString(36).substr(2, 12)`: foreign and random, so the token is a parameter.
- `Date.now()`: a parameter. `/generate` reads the clock twice (lines 16 and 22); the model takes both readings as the same instant.
- Concurrent requests racing on the shared `links` object.
- Property enumeration order of JavaScript objects for integer-like keys (those come first, in ascending order): the model keeps plain insertion order.
- Keys inherited from `Object.prototype` (such as `"constructor"` or `"__proto__"`), whose lookup and assignment behave differently from ordinary properties.
- Query values that are arrays or objects rather than strings.
- Malformed webhook bodies: a missing `properties` throws, and a missing `custom_token` is coerced to the string `"undefined"` by `includes`. The webhook takes the event and the token as strings.
