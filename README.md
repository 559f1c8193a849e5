# Sauce reactions and image lifecycle

A Dafny model of the sauce controller of the piiquante back end,
`backend/controllers/sauce.js`. The model covers two parts of it.

- **Reactions** (`likesAndDislikes`). A sauce document holds `likes`,
  `dislikes`, `usersLiked` and `usersDisliked`. A request `(userId, like)`
  with `like` 1, -1 or 0 issues MongoDB updates that move a counter and its
  user list together (`$inc` with `$push`, or `$inc: -1` with `$pull`). Each
  update is guarded by a membership test on the document as it was read.
- **Document and image lifecycle** (`createSauce`, `modifySauce`,
  `deleteSauce`). Each handler is a fixed sequence of steps. Some steps unlink
  a file in `images/`; others save, update or delete the document. The
  document's `imageUrl` is built as `${protocol}://${host}/images/${name}`.
  The name is read back with `split(...)[1]` before the image is unlinked.

Files:

- `wrappers.dfy`: `Option`. `None` stands for JavaScript's `undefined`.
- `reactions.dfy` (module `Reactions`): the reaction fields as a value
  (`Tally`), `$pull` (`Pull`), one transition per request kind (`Like`,
  `Dislike`, `Neutral`, `React`) and the lemmas about them.
- `image_urls.dfy` (module `ImageUrls`): JavaScript's `indexOf` and
  `split(sep)[1]`, the `imageUrl` template, the two name extractions and their
  round-trip lemmas.
- `sauces.dfy` (module `Sauces`):
  - class `Sauce` is one stored document, updated in place. It has one method
    per reaction kind, and its contracts tie it to `Reactions`.
  - class `SauceStore` holds the collection (a map from id to `Sauce`) and the
    image directory (a set of file names). Its methods are the handlers.

Some behaviours of the code are worth stating outright, since a reader might
expect otherwise.

- The code does not keep `usersLiked` and `usersDisliked` disjoint. A like
  checks only `usersLiked` (line 146) and a dislike only `usersDisliked`
  (line 160). A like then a dislike leaves the user in both lists
  (`LikeThenDislikeInBothLists`). Nothing here claims the lists are disjoint.
- There is no direct Liked-to-Disliked transition. A dislike from a user who
  likes the sauce is an independent second step.
- A `like` outside {1, -1, 0} is not answered with an error. The handler
  returns from the `switch` without a response (`NoReply`).
- `createSauce` calls neither `sauceDataValid` nor `heatValid`; its only
  validator call is `validateFilename` on the upload. Only a missing sauce
  part of the body is refused.
- A missing document is not a not-found error:
  - delete, and reactions with `like` 1, -1 or 0, end in the 500 handler;
  - a modify with a file ends in its `catch` with 400;
  - an intended modify without a file succeeds and changes nothing.

## Model

| member | source | states |
|---|---|---|
| `Reactions.Pull` | backend/controllers/sauce.js:179 | `$pull`: a user is in the result iff they were in the list and are not the pulled one; a list without that user is returned unchanged; the list never grows |
| `Reactions.PullKeepsNoDuplicates` | backend/controllers/sauce.js:178-179 | pulling from a duplicate-free list keeps it duplicate-free and, when the user was listed, shortens it by exactly one, in step with `$inc: -1` |
| `Reactions.PullUndoesPush` | backend/controllers/sauce.js:151 | `$pull` of a user just `$push`ed onto a list that did not hold them gives back the original list |
| `Reactions.Neutral` | backend/controllers/sauce.js:173-197 | after a neutral request the user is in neither list, and every other user's membership of each list is unchanged |
| `Reactions.LikeFromNewUser` | backend/controllers/sauce.js:145-156 | a like from a user not in `usersLiked` adds one like and appends the user; `dislikes` and `usersDisliked` are unchanged |
| `Reactions.ReactKeepsConsistent` | backend/controllers/sauce.js:143-200 | if each counter equals the length of its list and no list has duplicates, the same holds after any request, and neither counter is negative |
| `Reactions.Like` | backend/controllers/sauce.js:145-156 | after a like the user is in `usersLiked`; no other user's membership changes; `likes` moves in step with the length of `usersLiked`; the dislike side is untouched |
| `Reactions.Dislike` | backend/controllers/sauce.js:159-171 | after a dislike the user is in `usersDisliked`; no other user's membership changes; `dislikes` moves in step with the length of `usersDisliked`; the like side is untouched |
| `Reactions.React` | backend/controllers/sauce.js:143-200 | the `switch`: after 1 the user is in `usersLiked`, after -1 in `usersDisliked`, after 0 in neither list; any other value leaves the document unchanged |
| `Reactions.IssuesUpdate` | backend/controllers/sauce.js:146-186 | the membership guards (lines 146, 160, 174 and 186) pass exactly when the request changes the document, and never for a value outside {1, -1, 0} |
| `Reactions.ReactIdempotent` | backend/controllers/sauce.js:143-200 | repeating any request gives the same document as sending it once |
| `Reactions.ReactLeavesOthers` | backend/controllers/sauce.js:143-200 | a request by one user never changes whether another user is in either list |
| `Reactions.LikeThenNeutralRestores` | backend/controllers/sauce.js:145-197 | for a user in neither list, a like followed by a neutral restores counters and lists exactly |
| `Reactions.DislikeThenNeutralRestores` | backend/controllers/sauce.js:159-197 | for a user in neither list, a dislike followed by a neutral restores counters and lists exactly |
| `Reactions.NeutralDecrements` | backend/controllers/sauce.js:173-197 | on every document a neutral takes exactly one off each counter whose list held the user; on a consistent document the counters then still match the lists |
| `Reactions.LikeThenDislikeInBothLists` | backend/controllers/sauce.js:145-171 | a like then a dislike with no neutral between leaves the user in both lists and counted by both counters |
| `Reactions.LikeLikeNeutralScenario` | backend/controllers/sauce.js:145-197 | on a fresh sauce, like gives 1 like by u1, a second like changes nothing, and a neutral returns to no reactions |
| `ImageUrls.IndexOf` | backend/controllers/sauce.js:81 | the index found is an occurrence of the separator and no earlier one exists at or after the start; `None` means there is no occurrence at or after the start |
| `ImageUrls.SplitSecond` | backend/controllers/sauce.js:81 | `split(sep)[1]`: `None` exactly when `sep` never occurs; otherwise the text from the end of the first occurrence to the next occurrence or the end of the string, holding no occurrence of a non-empty `sep` |
| `ImageUrls.ExtractFilename` | backend/controllers/sauce.js:81 | the name modify unlinks: `None` exactly when the URL holds no `/images/`; otherwise a name that holds no `/images/` |
| `ImageUrls.ExtractFilenameAsWritten` | backend/controllers/sauce.js:124 | the name delete unlinks: `None` exactly when the URL holds no `/images`; otherwise a name that holds no `/images`; defined whenever the corrected split is |
| `ImageUrls.ImageUrl` | backend/controllers/sauce.js:23 | the built URL ends with `/images/` followed by the file name |
| `ImageUrls.ExtractFilenameRoundTrip` | backend/controllers/sauce.js:76-81 | splitting a URL built at line 76 on `/images/` recovers exactly the file name it was built from (for slash-free protocol and host, host not `images`, and a name holding no `/images/`) |
| `ImageUrls.ExtractFilenameImagesHost` | backend/controllers/sauce.js:81 | for the host `images` the split recovers `images/` followed by the name rather than the name |
| `ImageUrls.ExtractFilenameAsWrittenKeepsSlash` | backend/controllers/sauce.js:124 | for slash-free protocol, host and name, with a host and a name not beginning with `images`, splitting on `/images` recovers the name with a leading `/`, so never the name itself |
| `ImageUrls.ExtractFilenameAsWrittenEmptyName` | backend/controllers/sauce.js:124 | for a slash-free protocol and host, with a host not beginning with `images`, and a name beginning with `images`, splitting on `/images` recovers the empty name |
| `Sauces.Sauce.constructor` | backend/controllers/sauce.js:21-28 | a new document has the body's fields, the built URL, zero counters and empty lists, which is consistent |
| `Sauces.Sauce.Like` | backend/controllers/sauce.js:145-157 | the update is issued iff the user is not in `usersLiked`; the reaction fields become `Reactions.Like` of the old ones; other fields are kept |
| `Sauces.Sauce.Dislike` | backend/controllers/sauce.js:159-171 | the update is issued iff the user is not in `usersDisliked`; the reaction fields become `Reactions.Dislike` of the old ones; other fields are kept |
| `Sauces.Sauce.Neutral` | backend/controllers/sauce.js:173-197 | an update is issued iff the user is in either list; the reaction fields become `Reactions.Neutral` of the old ones; other fields are kept |
| `Sauces.Sauce.Update` | backend/controllers/sauce.js:83 | `updateOne` sets the new fields, replaces the URL only when one is given, and keeps the reaction fields |
| `Sauces.SauceStore.CreateSauce` | backend/controllers/sauce.js:11-33 | no file: 500 and no change; no sauce body: the upload is unlinked, 400 and no document; otherwise a fresh document under the assigned id (not the client's `_id`) with zero reactions and the built URL, or 400 with no change if that id is taken |
| `Sauces.SauceStore.ModifyWithFile` | backend/controllers/sauce.js:73-91 | a rejected body or a missing document: only the new upload is unlinked, 400; otherwise the old image (the name after `/images/`) is unlinked and the document takes the new fields and URL with its reactions kept |
| `Sauces.SauceStore.ModifyWithoutFile` | backend/controllers/sauce.js:92-103 | as intended: a rejected body gives 400 and no change; an accepted one gives 200 and sets the document's fields, keeping URL and reactions; no file is touched |
| `Sauces.SauceStore.ModifyWithoutFileAsWritten` | backend/controllers/sauce.js:93-102 | as written: every request without a file is answered 400 and changes nothing |
| `Sauces.SauceStore.DeleteSauce` | backend/controllers/sauce.js:117-133 | as intended: a missing document gives 500; a non-owner gets 401 and nothing changes; the owner's request unlinks the image named after `/images/` and removes the document |
| `Sauces.SauceStore.DeleteSauceAsWritten` | backend/controllers/sauce.js:117-133 | as written: any existing document is removed and its image (named after `/images`) unlinked, whoever asks; a non-owner is answered 401 |
| `Sauces.SauceStore.LikesAndDislikes` | backend/controllers/sauce.js:140-204 | a value outside {1, -1, 0} gets no reply; a missing document gives 500; otherwise the document's reactions become `Reactions.React` of the old ones, consistency of every document is preserved, and the reply is 200 exactly when an update was issued |

## Left out

- HTTP requests and responses are reduced to the handler's arguments and a
  `Status`. Where a handler answers twice (a neutral from a user in both
  lists, a non-owner's delete as written), the model records the first answer.
- MongoDB always completes. Failures of `save`, `updateOne` and `deleteOne`
  are not modelled; their `.catch` branches answer 400 or 401. The exception
  is `save` under an id already taken.
- `fs.unlink` has no error path: its callback ignores the error and carries
  on (lines 14, 82, 88 and 125). The model matches this: removing a name the
  directory does not hold leaves the directory as it was.
- Asynchrony and concurrent requests are not modelled. Each handler runs as
  one sequential step. The order "old image unlinked, then document updated"
  is kept in the code. Its consequence when the update fails is not modelled.
- The validators of `middleware/sauceValidation` are not part of this model:
  - `validateFilename`, `sauceDataValid` and `heatValid` are function values
    whose rules are left open;
  - a `validateFilename` that throws is not modelled;
  - `sauceDataValid` is given the six descriptive fields, not the URL that
    modifySauce adds to the object;
  - `idValid` is taken to return its argument.
- When the stored URL holds no `/images/` (modify, line 81) or no `/images`
  (delete as written, line 124), the name is `undefined`, and the model
  unlinks nothing. What `validateFilename(undefined)` and
  `fs.unlink` would then do is not modelled.
- The image directory is a flat set of names. Path resolution (a doubled
  slash read as one) is not modelled.
- The upload itself happens in the route's upload middleware before a
  handler runs (`backend/routes/sauce.js`), and is taken as done.
- `JSON.parse` of the body is not modelled. A body is its six descriptive
  fields plus an optional `_id`. Fields such as `likes`, `usersLiked` or
  `imageUrl` in a request body, which the object spread would pass into
  `updateOne`, are not modelled. The consistency that `ModifyWithFile` and
  `ModifyWithoutFile` preserve, and the reactions `Sauce.Update` keeps, rest
  on this: a body that carried reaction fields would overwrite them.
- The outer `.catch` of modifySauce (lines 105-109) is not modelled. It runs
  when `findOne` rejects, when `JSON.parse` throws, or when
  `validateFilename(req.file.filename)` at line 76 throws, since that call is
  outside the `try` at line 78. None of these happens in the model.
- `like` is an integer. Other JSON values reach the `default` branch in the
  code and are not modelled.
- `getAllSauces` and `getOneSauce` are read-only queries.
- The Express router, authentication and rate limiter are not modelled.
- ExtractFilenameAsWrittenKeepsSlash: holds only for a host and a name that
  do not begin with `images`. For a name that does, the split yields the
  empty name instead (`ExtractFilenameAsWrittenEmptyName`).
- ExtractFilenameRoundTrip: is proved for a slash-free protocol and host,
  with a host other than `images`, and a name that holds no `/images/`
  (other slashes in the name are allowed). `split` takes the first
  `/images/` and the text up to the next one, so an earlier one in the
  origin or a later one in the name breaks the round trip;
  `ExtractFilenameImagesHost` shows the first failure.

## Findings

| source | as written | input that shows it | evidently intended | confidence | as-written member | corrected member |
|---|---|---|---|---|---|---|
| backend/controllers/sauce.js:120-129 | after the 401 for a non-owner there is no `return`, so the image is still unlinked and the document deleted | a delete whose requester differs from the sauce's `userId` | a non-owner's delete changes nothing, as the comment at line 114 says | high; not executed | `Sauces.SauceStore.DeleteSauceAsWritten` | `Sauces.SauceStore.DeleteSauce` |
| backend/controllers/sauce.js:97 | the update object uses `id`, which is not declared; the ReferenceError is caught at line 100, so the request gets 400 and no update | any modify without a file, even with a body the validators accept | the fields are updated under the route's id | high; not executed | `Sauces.SauceStore.ModifyWithoutFileAsWritten` | `Sauces.SauceStore.ModifyWithoutFile` |
| backend/controllers/sauce.js:124 | the URL is split on `/images` with no trailing slash, so the recovered name keeps a leading `/` (`ExtractFilenameAsWrittenKeepsSlash`) | `http://localhost:3000/images/a.jpg` gives `/a.jpg`; `http://localhost:3000/images/imagesA.jpg` gives the empty name (`ExtractFilenameAsWrittenEmptyName`) | `a.jpg`, as the split on `/images/` at line 81 gives (`ExtractFilenameRoundTrip`) | medium; not executed; for an ordinary name harmless if `validateFilename` passes `/a.jpg` through unchanged and the file system treats the doubled slash in the unlinked path as a single one; for a name beginning with `images` the image is never unlinked, whatever the path resolution | `ImageUrls.ExtractFilenameAsWritten` | `ImageUrls.ExtractFilename` |
