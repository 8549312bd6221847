# Fables: the in-memory Fable aggregate

This project models the core of a storytelling REST back end. A *Fable* is a
story collection. It holds characters and messages, and its readers can like
or dislike it. The model covers the document schema and the handlers that
change a loaded Fable in memory before saving it: create, like, dislike, and
create/update/delete of the embedded messages and characters.

Layout, one module per file:

- `wrappers.dfy` (`Wrappers`): `Option`. `None` stands for a value that is not set.
- `fable_schema.dfy` (`FableSchema`): the schema of `api/models/fableModel.js`. It gives the
  records, the `locales` and `messageTypes` enums, the defaults (`FromBody`), and what validation
  reports (`Errors`, `Valid`). A body path that has a default is a `Path`: left out (`Absent`),
  an explicit `null` (`Null`) or given (`Given`). The document mapper applies a default only to a
  path that is left out, and keeps an explicit `null`.
- `strings.dfy` (`Strings`): `String.prototype.split` with a string separator, and `VideoId`,
  which is `split('v=')[1]`.
- `votes.dfy` (`Votes`): the `filter` predicates of the like/dislike handlers. It also gives the
  change each handler makes to the two lists and their counters (`Like`, `Dislike`), and the
  invariant they keep.
- `sub_docs.dfy` (`SubDocs`): the two embedded-array operations the handlers call. `Find` is
  `array.id(x)` (first match). `Pull` is `subdoc.remove()`, which pulls every entry with that `_id`.
- `outcomes.dfy` (`Outcomes`): the reply of each handler and its `message` text.
- `fables_controller.dfy` (`FablesController`): the `Fable` class. Its fields are the document's
  fields. It has one method per handler, and a constructor for `create_a_Fable`.

Inputs that the source reads from outside are parameters:

- the authenticated user (`caller`, a string, since the token encodes the username);
- the ids of new sub-documents (`newId`), which the store generates;
- the current time (`now`).

Where the code and the system's written design disagree, the model follows the code:

- **Counters.** The counters have no default. A new Fable has them unset unless the create body
  sends them, and create keeps whatever vote lists and counters the body sends. A like sets
  `dislikesCount` only when it removed a dislike, and the mirror holds for dislikes. So the
  invariant is "each counter is unset with an empty list, or equals the length"
  (`Votes.CountAgrees`), not "always equals the length". The invariant holds for a new Fable
  whose body leaves the four vote paths out (`NewFableVotesFresh`); a body that sends a counter
  without its list breaks it (`NewFableForgedCount`).
- **Video ids.** A video message keeps the text between the first `v=` and the *next* `v=`, not
  everything after the first one.
- **Locale.** `locale` is an array, not a set. `required` on an array rejects the empty array, as
  in the 4.x line of the document mapper, which the `usePushEach` option belongs to.
- **Empty caller.** An empty (falsy) caller gets the other list filtered in memory. Then nothing
  is appended, nothing is saved and no reply is sent (`NoCaller`).

## Model

| member | source | states |
|---|---|---|
| `FableSchema.ValidIff` | api/models/fableModel.js:4-57 | A Fable passes validation exactly when `name` and `creator` are non-empty strings, `locale` is a non-empty array drawn from `{en_us}`, and every `messageType` element is one of `text`, `image`, `video`, `narration` |
| `FableSchema.DefaultLocaleOk` | api/models/fableModel.js:47-54 | A body that leaves `locale` out gets `['en_us']`, which meets the locale rules; a given locale is kept as given; an explicit `null` locale is kept, and validation reports "Please enter the locale of the Fable" |
| `FableSchema.RequiredMessagesReported` | api/models/fableModel.js:8-54 | `name`, `creator` and `locale` each report their own `required` message exactly when the path is unset or empty (a `null` locale counts as empty), and no other `required` message is reported |
| `FableSchema.AppendMessageValid` | api/models/fableModel.js:31-42 | Appending a message to a valid Fable keeps it valid exactly when all of the message's types are in the enum |
| `FablesController.NewFableValid` | api/controllers/fablesController.js:54-56 | The new Fable's creator is the caller whatever the body says. It is valid exactly when the body has a name, the caller is non-empty, `locale` is left out or given within the enum (an explicit `null` is rejected), and the message types meet the schema |
| `FablesController.NewFableVotesFresh` | api/controllers/fablesController.js:54-56 | A body that leaves `likes`, `likesCount`, `dislikes` and `dislikesCount` out creates a Fable with no votes and unset counters, which meets the vote invariant |
| `FablesController.NewFableForgedCount` | api/controllers/fablesController.js:55 | A body that sends a non-zero `likesCount` and no `likes` creates a Fable that keeps that counter and breaks the vote invariant |
| `FablesController.Fable.FromRequest` | api/controllers/fablesController.js:54-56 | The constructed document is the body with the defaults applied to left-out paths, explicit `null`s kept, and `creator` overwritten by the caller |
| `Strings.IndexFrom` | api/controllers/fablesController.js:153 | The result is the first occurrence of the separator at or after the start position, and there is none exactly when no such occurrence exists |
| `Strings.Split` | api/controllers/fablesController.js:153 | `split` yields at least one piece, the pieces joined with the separator give back the string, no piece contains the separator, and there is one piece exactly when the separator is absent |
| `Strings.VideoIdIsSecondSegment` | api/controllers/fablesController.js:150-156 | `split('v=')[1]` is the text between the first `v=` and the next `v=` or the end of the string, and is undefined when there is no `v=` |
| `Strings.VideoIdOfWatchUrl` | api/controllers/fablesController.js:150-156 | A page and an id that hold no `v=`, joined by the `v=` marker, keep exactly the id |
| `Strings.VideoIdExample` | api/controllers/fablesController.js:150-156 | `https://yt.com/watch?v=ABC123` is stored as `ABC123` |
| `Strings.VideoIdWithVExample` | api/controllers/fablesController.js:150-156 | `https://yt.com/watch?v=vX9` is stored as `vX9`: a `v` inside the id is kept |
| `FablesController.StoredBodyIs` | api/controllers/fablesController.js:150-163 | A `video` message with content stores the second `v=` segment of it; every other message stores its content verbatim |
| `FablesController.TypeArrayOk` | api/controllers/fablesController.js:152 | The one-element `messageType` array built from the request is within the enum exactly when the type is absent or one of the four names |
| `Votes.By` | api/controllers/fablesController.js:187-188 | The filtered list holds exactly the entries cast by the user |
| `Votes.HasVoted` | api/controllers/fablesController.js:187-188 | `hasLiked`/`hasDisliked` hold exactly when some entry of the list has the user |
| `Votes.Without` | api/controllers/fablesController.js:197 | The filtered list holds exactly the entries not cast by the user, and is no longer than the input |
| `Votes.WithoutAbsent` | api/controllers/fablesController.js:197 | Filtering out a user who has no entry leaves the list unchanged |
| `Votes.WithoutAppend` | api/controllers/fablesController.js:243 | The filter works piecewise over concatenation, so the kept entries keep their order |
| `Votes.WithoutNoRepeats` | api/controllers/fablesController.js:197 | Filtering a list in which no user repeats gives a list in which no user repeats |
| `Votes.LikeRepeated` | api/controllers/fablesController.js:190-194 | A user who already likes is told "You cannot like more than once." and nothing changes |
| `Votes.LikeClearsDislikes` | api/controllers/fablesController.js:196-200 | Otherwise the dislikes become the user-free filter of the old ones, and `dislikesCount` is their new length when one was removed and is untouched otherwise |
| `Votes.LikeAppends` | api/controllers/fablesController.js:202-207 | Otherwise, for a non-empty caller, one `{user}` entry is appended at the end of the likes, `likesCount` is the new length and the reply carries both counters |
| `Votes.DislikeRepeated` | api/controllers/fablesController.js:236-240 | A user who already dislikes is told "You cannot dislike more than once." and nothing changes |
| `Votes.DislikeClearsLikes` | api/controllers/fablesController.js:242-246 | Otherwise the likes become the user-free filter of the old ones, and `likesCount` is their new length when one was removed and is untouched otherwise |
| `Votes.DislikeAppends` | api/controllers/fablesController.js:248-253 | Otherwise, for a non-empty caller, one `{user}` entry is appended at the end of the dislikes, `dislikesCount` is the new length and the reply carries both counters |
| `Votes.LikeKeepsInvariant` | api/controllers/fablesController.js:187-207 | Like keeps no-repeats in both lists, likes and dislikes disjoint, and each counter agreeing with its list |
| `Votes.DislikeKeepsInvariant` | api/controllers/fablesController.js:233-253 | Dislike keeps the same invariant |
| `Votes.LikeTwice` | api/controllers/fablesController.js:187-194 | A second like by the same user is refused and changes nothing |
| `Votes.DislikeTwice` | api/controllers/fablesController.js:233-240 | A second dislike by the same user is refused and changes nothing |
| `Votes.LikeThenDislike` | api/controllers/fablesController.js:187-253 | For a user with no vote, like then dislike leaves the likes and the shown like count as before and one more dislike at the end |
| `Votes.ReplayKeepsInvariant` | api/controllers/fablesController.js:184-265 | Any sequence of likes and dislikes keeps the invariant |
| `Votes.EmptyInvariant` | api/models/fableModel.js:19-30 | A Fable with no votes and unset counters meets the invariant |
| `SubDocs.Find` | api/controllers/fablesController.js:285 | `array.id(x)` gives the first entry with that id, none exactly when no entry has it |
| `SubDocs.Pull` | api/controllers/fablesController.js:316 | `remove()` keeps exactly the entries whose id differs, and no more of them than there were |
| `SubDocs.PullUnique` | api/controllers/fablesController.js:409 | With unique ids, removal drops exactly the entry found and keeps the rest in order |
| `SubDocs.AppendFreshUnique` | api/controllers/fablesController.js:151-163 | Appending an entry with an unused id keeps the ids unique |
| `SubDocs.SameKeyUnique` | api/controllers/fablesController.js:291-293 | Replacing an entry by one with the same id keeps the ids unique |
| `FablesController.Fable.Like` | api/controllers/fablesController.js:184-219 | The reply and the new lists and counters are those of `Votes.Like`; no other field changes; the invariant is kept |
| `FablesController.Fable.Dislike` | api/controllers/fablesController.js:230-265 | The reply and the new lists and counters are those of `Votes.Dislike`; no other field changes; the invariant is kept |
| `FablesController.Fable.CreateMessage` | api/controllers/fablesController.js:142-173 | A non-creator gets "Not authorized." and nothing changes. Otherwise exactly one message is appended after the untouched earlier ones; a valid Fable stays valid exactly when the type is in the enum; with a fresh id, ids stay unique |
| `FablesController.Fable.UpdateMessage` | api/controllers/fablesController.js:277-302 | A non-creator gets "Not authorized."; an absent id gives "Comment not found." with nothing changed; otherwise only the found message's `body` changes; unique ids stay unique |
| `FablesController.Fable.DeleteMessage` | api/controllers/fablesController.js:314-324 | With no creator check, every message with the id is removed and nothing else changes; with unique ids exactly the found one goes |
| `FablesController.Fable.CreateCharacter` | api/controllers/fablesController.js:338-357 | A non-creator gets "Not authorized." and nothing changes; otherwise exactly one `{name}` character is appended after the untouched earlier ones |
| `FablesController.Fable.UpdateCharacter` | api/controllers/fablesController.js:370-395 | A non-creator gets "Not authorized."; an absent id gives "Character not found." with nothing changed; otherwise only the found character's `name` changes; unique ids stay unique |
| `FablesController.Fable.DeleteCharacter` | api/controllers/fablesController.js:407-417 | With no creator check, every character with the id is removed and nothing else changes; with unique ids exactly the found one goes |
| `FablesController.AsWrittenUpdateNeverFinds` | api/controllers/fablesController.js:378 | Through its route, the character update as written never finds a character, since it reads a parameter the route does not bind |
| `FablesController.AsWrittenUpdateMissesExisting` | api/routes/fableRoutes.js:42-44 | A Fable with character 7, updated through the route with id 7, still finds nothing |
| `FablesController.CorrectedUpdateFinds` | api/routes/fableRoutes.js:42-44 | Read from `characterId`, the lookup finds the character with the id the route carries |

## Findings

| source | as written | input that shows it | evidently intended | confidence | as-written member | corrected member |
|---|---|---|---|---|---|---|
| api/controllers/fablesController.js:378 | `fable.characters.id(req.params.messageId)`, while the route binds `:characterId` (api/routes/fableRoutes.js:42-44) | `PUT /api/fable/characters/1/7` on a Fable whose only character has id 7: the lookup key is undefined and the reply is "Character not found." | look the character up by `req.params.characterId` | high; not executed | `FablesController.AsWrittenUpdateMissesExisting` | `FablesController.CorrectedUpdateFinds` |

`Fable.UpdateCharacter` takes the character id as the corrected handler would read it.

## Left out

- Persistence is not modelled: `findById`, `save`, `remove` and `findOneAndUpdate`. Each handler is a method on an already loaded document. Whether a save would be accepted is the `Valid` predicate; the reply sent when a save is rejected is not modelled.
- A failed load, or a missing Fable, is not modelled. In the source, `findById` returns `null` and the handler fails dereferencing it. Store errors reported through `handleError` are also left out; that helper does not return, so the handler goes on after it.
- After "Comment not found." and "Character not found.", the source goes on and fails on a `null` sub-document. The model stops there with a clean `CommentNotFound`/`CharacterNotFound` and no change.
- Deleting an absent message or character makes the source fail on `null.remove()`. The model reports `CommentNotFound`/`CharacterNotFound` and changes nothing.
- `list_all_Fables` is left out: its paging belongs to an external pagination library.
- `get_a_Fable`, `update_a_Fable`, `delete_a_Fable` and `list_all_Fable_Messages` are left out: they only call the store.
- Two concurrent saves of one Fable can lose an update. That is concurrency in the store, so it is left out.
- The clock and the store's id generator are not modelled; they are the `now` and `newId` parameters.
- Casting request values to the schema types is not modelled. A non-string `messages` value (where `split` would throw) and non-integer counters are out.
- The `date` the handlers push with a vote is not kept: the schema's vote records hold only `user`.
- An explicit `null` for `characters`, `likes`, `dislikes` or `messages` in a create body is not modelled: `FableBody` can only leave those paths out or give an array. The source would store `null` there, and the later handlers would throw on it.
- For `name`, `creator`, `likesCount` and `dislikesCount`, a create body's explicit `null` and a left-out path are the same `None`. Validation treats them alike; only the JSON of a reply that echoes a counter would differ.
- JavaScript strings are sequences of UTF-16 code units, while a Dafny `char` is a Unicode scalar value. So a lone surrogate in a name, body or URL cannot be represented in the model.
- A vote record without a `user` is not modelled (`Vote.user` is always a string).
- Messages supplied in a create body already carry their `date`; the `Date.now` default for them is not modelled.
- Registration, login and logout (api/controllers/userController.js) are not modelled: they delegate to the authentication library.
- Routing, server start-up and the start-up banner are not modelled.
