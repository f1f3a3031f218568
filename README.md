# Meme backend core, modelled in Dafny

This project models the business core of a Ktor/MongoDB meme-sharing backend.
Users register and sign in. They post image memes with a caption and tags, like and
unlike them, count downloads, edit and soft-delete their own memes, and page through
feeds. The model follows the Kotlin code, not a description of it.

- **Records** (`Models`): `Meme` and `User` carry the defaults of their data classes.
  `stringId` is the lower-case hex form of the ObjectId, or `""` with no id.
  ObjectIds are 12 bytes (`ObjectIds`). `ObjectId(String)` parses 24 hex digits in
  either case. A malformed id is `None`, which stands for the exception the code
  catches.
- **Stores** (`Store`, `MemeStore`, `UserStore`): each MongoDB collection is a sequence
  of documents in insertion order. The Mongo primitives the repositories use are
  generic functions here:
  - `find(...).firstOrNull()`;
  - a stable descending sort on `createdAt`;
  - the skip/limit window, where the server applies `skip` before `limit`
    whatever order the cursor calls come in;
  - `updateOne`, which changes only the first match and reports
    `modifiedCount == 0` when the update leaves the document as it was;
  - `countDocuments`.
- **Repositories** (`MemeRepo.MemeRepository`, `UserRepo.UserRepository`): classes
  that own the mutable collection (`var memes: seq<Meme>`, `var users: seq<User>`).
  Every mutating method changes the field exactly as the matching store function
  describes, and it keeps the collection well formed (ids unique; in the meme
  collection no `likes` list holds a user twice). The read-only
  getters are store functions of the collection, so that lemmas can use them.
- **Routes** (`Routes`): the handlers of `Routes.kt`.
  - Read-only handlers are functions.
  - Registration, meme creation, edit, delete, download, like and unlike are
    methods on the two repositories. Each method is tied to a function that gives
    its whole effect (`RegisterFlow`, `LikeFlow`, `UnlikeFlow`, the store
    functions).
  - The page/limit/skip arithmetic, the `limit + 1` look-ahead, `hasMore` and
    `nextCursor`, and tag normalisation are in `Paging`.
- **Validation and tokens** (`Auth`): the four `ValidationUtils` predicates, and
  `VALIDITY_MS` with the token claims `generateToken` writes.
- **Kotlin runtime details**, modelled where the code depends on them:
  - 32-bit `Int` wrap-around (`KotlinInt.Wrap`);
  - `toIntOrNull` and `Int.toString`;
  - `String.length` in UTF-16 code units;
  - ASCII `trim()` and `lowercase()` (`AsciiText`).

Parameters stand for the clock (`nowSec`, `nowMs`) and for the id the driver
generates (`newId`). The same goes for the BCrypt hash and check functions, the
authenticated caller's id and name, and the `$text` search match (`textMatch`).

## Model

| member | source | states |
|---|---|---|
| KotlinInt.Wrap | src/main/kotlin/routes/Routes.kt:157 | the result is a 32-bit value congruent to the exact one modulo 2^32, and equal to it when that fits |
| KotlinInt.DigitValue | src/main/kotlin/routes/Routes.kt:155 | a decimal digit's value is below 10 |
| KotlinInt.DigitChar | src/main/kotlin/routes/Routes.kt:170 | the digit character for d is a digit whose value is d |
| KotlinInt.NatToDigits | src/main/kotlin/routes/Routes.kt:170 | the decimal form of a natural number is non-empty, all digits, with no leading zero |
| KotlinInt.NatToDigitsValue | src/main/kotlin/routes/Routes.kt:170 | the digits printed for n denote n |
| KotlinInt.IntToString | src/main/kotlin/routes/Routes.kt:170 | `toString` is non-empty, starts with '-' exactly for negatives, and is all digits otherwise |
| KotlinInt.ToIntOrNull | src/main/kotlin/routes/Routes.kt:155-156 | a parsed value is a 32-bit integer from a string starting with a digit or a sign followed by more |
| KotlinInt.IntToStringRoundTrip | src/main/kotlin/routes/Routes.kt:155-170 | every 32-bit integer printed by `toString` parses back to itself with `toIntOrNull` |
| ObjectIds.HexValue | src/main/kotlin/repositories/MemeRepository.kt:31 | a hex digit's value is below 16 |
| ObjectIds.HexChar | src/main/kotlin/data/models/Meme.kt:20 | the digit emitted for v is a lower-case hex digit of value v |
| ObjectIds.ToHex | src/main/kotlin/data/models/Meme.kt:20 | the hex form has two lower-case hex digits per byte |
| ObjectIds.ParseHex | src/main/kotlin/repositories/MemeRepository.kt:31 | parsing succeeds exactly for an even-length string of hex digits, giving half as many bytes |
| ObjectIds.HexString | src/main/kotlin/data/models/Meme.kt:20 | an id's hex form has 24 characters |
| ObjectIds.ParseObjectId | src/main/kotlin/repositories/MemeRepository.kt:31 | a string names an ObjectId exactly when it is 24 hex digits |
| ObjectIds.ParseHexOfToHex | src/main/kotlin/data/models/Meme.kt:20 | parsing the hex form of any bytes gives them back |
| ObjectIds.HexStringRoundTrip | src/main/kotlin/data/models/User.kt:18 | an id's `toHexString` parses back to the same id |
| ObjectIds.ParseHexIgnoresCase | src/main/kotlin/repositories/UserRepository.kt:43 | strings whose hex digits have the same values parse to the same bytes, whatever their case |
| AsciiText.TrimStart | src/main/kotlin/routes/Routes.kt:76 | the result is a suffix of the input, everything dropped is whitespace, and it does not start with whitespace |
| AsciiText.TrimEnd | src/main/kotlin/routes/Routes.kt:76 | the result is a prefix of the input, everything dropped is whitespace, and it does not end with whitespace |
| AsciiText.Trim | src/main/kotlin/routes/Routes.kt:76-77 | the result is a slice of the input with only whitespace around it and none at either end |
| AsciiText.TrimOfTrimmed | src/main/kotlin/routes/Routes.kt:76 | trimming a trimmed string changes nothing |
| AsciiText.LowerChar | src/main/kotlin/routes/Routes.kt:77 | the result is not upper case, is whitespace exactly when the input is, equals any non-upper-case input, and maps each of 'A'..'Z' to the letter 32 code points later |
| AsciiText.Lowercase | src/main/kotlin/routes/Routes.kt:77 | same length, every character lower-cased in place, and lower-case input is unchanged |
| AsciiText.LowercaseKeepsTrimmed | src/main/kotlin/routes/Routes.kt:198 | lower-casing a trimmed string leaves it trimmed |
| AsciiText.TrimStartSkips | src/main/kotlin/routes/Routes.kt:198 | a leading whitespace character is dropped by `trim` |
| AsciiText.TrimKeeps | src/main/kotlin/routes/Routes.kt:77 | every non-whitespace character of the input survives `trim` |
| AsciiText.LowercaseKeeps | src/main/kotlin/routes/Routes.kt:77 | every character that is not an upper-case letter survives `lowercase` |
| AsciiText.LowercaseCons | src/main/kotlin/routes/Routes.kt:198 | `lowercase` works character by character from the front |
| AsciiText.Utf16Length | src/main/kotlin/auth/JwtConfig.kt:61-67 | `String.length` lies between the number of characters and twice that |
| AsciiText.Utf16LengthOfBmp | src/main/kotlin/auth/JwtConfig.kt:61 | for text inside the Basic Multilingual Plane, `length` is the character count |
| Auth.GenerateToken | src/main/kotlin/auth/JwtConfig.kt:15-34 | the token carries the user id and name, the fixed issuer, audience and subject, and expires 604800000 ms (seven days) after issue |
| Auth.ValidUsernameExactly | src/main/kotlin/auth/JwtConfig.kt:60-64 | a username is valid exactly when it has 3 to 20 characters, each an ASCII letter, digit or underscore |
| Auth.UsernameRejectsSpaceAndDash | src/main/kotlin/auth/JwtConfig.kt:63 | a username containing a space or '-' is refused whatever its length |
| Auth.ValidUsernameIsTrimmed | src/main/kotlin/routes/Routes.kt:33-76 | the `trim()` applied to a valid username changes nothing |
| Auth.PasswordLengthBoundary | src/main/kotlin/auth/JwtConfig.kt:66-68 | five characters are refused and six are accepted |
| Auth.PasswordCountsUtf16Units | src/main/kotlin/auth/JwtConfig.kt:67 | three characters outside the Basic Multilingual Plane already make a valid password |
| Auth.EmailCheckIsPermissive | src/main/kotlin/auth/JwtConfig.kt:56-58 | "@." passes the email check and "alice@example" (no dot) fails it |
| Auth.ImageUrlNeedsHttpsHost | src/main/kotlin/auth/JwtConfig.kt:71 | an `http://` URL on the image host is refused |
| Auth.ImageUrlExtensionAnywhere | src/main/kotlin/auth/JwtConfig.kt:72 | an allowed extension in the middle of the URL is enough |
| Models.IdString | src/main/kotlin/data/models/Meme.kt:20 | `stringId` is "" exactly when there is no id, and otherwise 24 hex digits that parse back to the id |
| Models.NewMeme | src/main/kotlin/data/models/Meme.kt:7-18 | a new meme has no id, no likes, zero downloads, is active, and stores the given owner, name, URL, caption, tags and time |
| Models.NewUser | src/main/kotlin/data/models/User.kt:7-16 | a new user has no id, no profile image, zero total likes, is active, and stores username, email and hash as supplied |
| Models.MalformedIdMatchesNothing | src/main/kotlin/repositories/MemeRepository.kt:31-41 | a malformed id string matches no meme and no user |
| Models.StringIdSelectsRecord | src/main/kotlin/data/models/User.kt:18 | a record's own `stringId` selects it |
| Responses.MemeToResponse | src/main/kotlin/data/responses/MemeResponse.kt:27-37 | `likesCount` is the size of `likes`; `isLiked` holds exactly when a viewer is given and is in `likes`; the id is `stringId`; every other field is copied |
| Responses.UserToResponse | src/main/kotlin/data/responses/UserResponse.kt:17-23 | the id is `stringId` ("" without one); username, email, profile image, total likes and creation time are copied |
| Responses.UserResponseHidesSecrets | src/main/kotlin/data/responses/UserResponse.kt:6-14 | the shaped user does not depend on the password hash or the active flag |
| Store.FirstIndex | src/main/kotlin/repositories/MemeRepository.kt:127-133 | the index of the first matching document, and None exactly when none matches |
| Store.FindOne | src/main/kotlin/repositories/MemeRepository.kt:32-37 | `firstOrNull` returns a matching document of the collection, and null exactly when none matches |
| Store.Filter | src/main/kotlin/repositories/MemeRepository.kt:64 | the result holds exactly the documents the filter matches |
| Store.Count | src/main/kotlin/repositories/MemeRepository.kt:209-214 | `countDocuments` never exceeds the collection size |
| Store.CountAfterReplace | src/main/kotlin/repositories/MemeRepository.kt:207-219 | replacing one document changes the count by what the old and new documents contribute |
| Store.SortedCons | src/main/kotlin/repositories/MemeRepository.kt:65 | a key no smaller than the head keeps a descending list sorted |
| Store.InsertDescending | src/main/kotlin/repositories/MemeRepository.kt:65 | insertion into a descending list keeps it sorted and adds exactly that element |
| Store.SortDescending | src/main/kotlin/repositories/MemeRepository.kt:65 | `sort(descending)` gives a sorted permutation of its input |
| Store.Window | src/main/kotlin/repositories/MemeRepository.kt:66-67 | rows from `skip` onwards, at most `|limit|` of them (all for limit 0), in order; a negative skip fails and gives none |
| Store.UpdateOne | src/main/kotlin/repositories/MemeRepository.kt:127-134 | only the first matching document is rewritten; `modifiedCount` is at most 1, and 0 exactly when nothing changed |
| MemeStore.AddToSet | src/main/kotlin/repositories/MemeRepository.kt:132 | the user is in `likes` afterwards; it is appended when absent and nothing changes when present |
| MemeStore.Pull | src/main/kotlin/repositories/MemeRepository.kt:146 | exactly the other entries remain, and the list shrinks when the user was there |
| MemeStore.Edited | src/main/kotlin/repositories/MemeRepository.kt:172-174 | tags are always overwritten, the caption only when one is given, and no other field changes |
| MemeStore.IndexOfId | src/main/kotlin/repositories/MemeRepository.kt:157-159 | the first meme carrying the id the string names; None for a malformed or unknown id |
| MemeStore.OwnedIndex | src/main/kotlin/repositories/MemeRepository.kt:176-180 | the first meme with that id and that owner; None exactly when there is none |
| MemeStore.IndexOfUniqueId | src/main/kotlin/repositories/MemeRepository.kt:29-37 | with unique ids the lookup finds the one meme that carries the id |
| MemeStore.InsertMeme | src/main/kotlin/repositories/MemeRepository.kt:18-27 | the meme is appended under its id or the generated one; a duplicate id stores nothing; unique ids and duplicate-free likes are kept |
| MemeStore.GetMemeById | src/main/kotlin/repositories/MemeRepository.kt:29-42 | returns an active meme with that id from the collection, and null exactly when there is none (malformed ids included) |
| MemeStore.ActiveWhere | src/main/kotlin/repositories/MemeRepository.kt:64 | exactly the active memes the filter matches |
| MemeStore.Newest | src/main/kotlin/repositories/MemeRepository.kt:64-65 | the active matches as a permutation sorted by non-increasing `createdAt` |
| MemeStore.Query | src/main/kotlin/repositories/MemeRepository.kt:44-60 | active matches, newest first, at most `|limit|` of them, being the sorted matches from position `skip` on; nothing for a negative skip |
| MemeStore.WindowKeepsNewestFirst | src/main/kotlin/repositories/MemeRepository.kt:65-67 | windowing a newest-first list keeps it newest first |
| MemeStore.GetMemesByUserId | src/main/kotlin/repositories/MemeRepository.kt:44-60 | only the user's active memes, newest first, and exactly the rows of that sorted list from `skip` on, `WindowSize` many; none for a negative `skip` |
| MemeStore.GetFeed | src/main/kotlin/repositories/MemeRepository.kt:62-73 | active memes, newest first, and exactly the rows of that sorted list from `skip` on, `WindowSize` many; none for a negative `skip` |
| MemeStore.GetFeedByPopularity | src/main/kotlin/repositories/MemeRepository.kt:75-86 | active memes, newest first, and exactly the rows of that sorted list from `skip` on, `WindowSize` many; none for a negative `skip` (the same window as `GetFeed`) |
| MemeStore.SearchMemes | src/main/kotlin/repositories/MemeRepository.kt:88-104 | active memes the text match accepts, newest first, and exactly the rows of that sorted list from `skip` on, `WindowSize` many; none for a negative `skip` |
| MemeStore.GetMemesByTags | src/main/kotlin/repositories/MemeRepository.kt:106-122 | active memes sharing a tag with the list, newest first, and exactly the rows of that sorted list from `skip` on, `WindowSize` many; none for a negative `skip`; none for an empty list |
| MemeStore.GetUserMemeCount | src/main/kotlin/repositories/MemeRepository.kt:207-219 | the number of the user's active memes |
| MemeStore.LikeMeme | src/main/kotlin/repositories/MemeRepository.kt:124-139 | true exactly when a meme with the id exists whose likes lack the user; then the user is appended to that meme's likes and nothing else changes; otherwise nothing changes |
| MemeStore.UnlikeMeme | src/main/kotlin/repositories/MemeRepository.kt:141-153 | the user is pulled from the meme with the id; true exactly when the user was there, and the user is absent afterwards |
| MemeStore.IncrementDownloadCount | src/main/kotlin/repositories/MemeRepository.kt:155-167 | an existing meme's `downloadCount` rises by exactly one and nothing else changes; false for an unknown or malformed id |
| MemeStore.UpdateMeme | src/main/kotlin/repositories/MemeRepository.kt:169-188 | only the caller's own meme is edited; true exactly when the caption or the tags actually changed |
| MemeStore.DeleteMeme | src/main/kotlin/repositories/MemeRepository.kt:190-205 | only the caller's own meme is marked inactive; true exactly when it was active |
| MemeProperties.PullAfterAppend | src/main/kotlin/repositories/MemeRepository.kt:132-146 | pulling a user just appended restores the list |
| MemeProperties.PullKeepsNoDuplicates | src/main/kotlin/repositories/MemeRepository.kt:146 | a pull keeps a duplicate-free list duplicate-free |
| MemeProperties.LookupOfUniqueId | src/main/kotlin/repositories/MemeRepository.kt:29-42 | with unique ids, lookup by id gives the meme carrying it when that meme is active, and null otherwise |
| MemeProperties.SameIdentitiesKeepWellFormed | src/main/kotlin/data/models/Meme.kt:8-10 | updates that keep ids, owners and creation times keep ids unique |
| MemeProperties.LikeKeepsLikesSets | src/main/kotlin/repositories/MemeRepository.kt:128-132 | a like never makes `likes` hold a user twice |
| MemeProperties.UnlikeKeepsLikesSets | src/main/kotlin/repositories/MemeRepository.kt:146 | an unlike never makes `likes` hold a user twice |
| MemeProperties.OtherUpdatesKeepLikes | src/main/kotlin/repositories/MemeRepository.kt:155-205 | downloads, edits and deletes leave every meme's `likes` as it was |
| MemeProperties.DownloadKeepsLikes | src/main/kotlin/repositories/MemeRepository.kt:155-167 | a download leaves every `likes` list as it was |
| MemeProperties.SameLikesKeepSets | src/main/kotlin/repositories/MemeRepository.kt:155-205 | an update that leaves every `likes` list alone keeps them all free of duplicates |
| MemeProperties.EditKeepsLikes | src/main/kotlin/repositories/MemeRepository.kt:169-188 | an edit leaves every `likes` list as it was |
| MemeProperties.DeleteKeepsLikes | src/main/kotlin/repositories/MemeRepository.kt:190-205 | a delete leaves every `likes` list as it was |
| MemeProperties.LikeTwiceIsRefused | src/main/kotlin/repositories/MemeRepository.kt:128-134 | a second like by the same user returns false and changes nothing |
| MemeProperties.LikeThenUnlikeRestores | src/main/kotlin/repositories/MemeRepository.kt:124-153 | an unlike right after a successful like succeeds and restores the collection exactly |
| MemeProperties.LikeShowsInResponse | src/main/kotlin/data/responses/MemeResponse.kt:34-35 | after a like, the liker's view of the meme turns liked and its count rises by one, and an active meme is found in its new state |
| MemeProperties.DeleteHidesMeme | src/main/kotlin/repositories/MemeRepository.kt:190-205 | after a delete the meme is missing from lookup by id and every active view, the owner's count drops by one, and a second delete fails |
| MemeProperties.DeleteClearsLookup | src/main/kotlin/repositories/MemeRepository.kt:29-42 | after a delete, lookup by id gives null and deleting again fails without changes |
| MemeProperties.DeleteLeavesActiveViews | src/main/kotlin/repositories/MemeRepository.kt:64 | after a delete no active view holds the meme |
| MemeProperties.DeleteLowersCount | src/main/kotlin/repositories/MemeRepository.kt:207-219 | a successful delete lowers the owner's meme count by exactly one |
| MemeProperties.DeletedMemeLeavesListings | src/main/kotlin/repositories/MemeRepository.kt:44-122 | a deleted meme is absent from the feed, the owner's list and every tag listing |
| MemeProperties.NonOwnerIsRefused | src/main/kotlin/repositories/MemeRepository.kt:176-199 | edits and deletes by anyone but the owner return false and change nothing |
| MemeProperties.UpdateWithCurrentValuesFails | src/main/kotlin/repositories/MemeRepository.kt:176-183 | re-sending the current caption and tags changes nothing and reports false |
| MemeProperties.PopularFeedIsRecencyFeed | src/main/kotlin/repositories/MemeRepository.kt:62-86 | the popularity feed is the same list as the recency feed |
| MemeProperties.DownloadsAccumulate | src/main/kotlin/repositories/MemeRepository.kt:155-167 | two downloads add exactly two and change nothing else of the meme, active or not |
| MemeRepo.MemeRepository.constructor | src/main/kotlin/repositories/MemeRepository.kt:18-27 | a new repository holds an empty, well-formed collection |
| MemeRepo.MemeRepository.CreateMeme | src/main/kotlin/repositories/MemeRepository.kt:18-27 | the collection becomes the insert's result, ids stay unique and no `likes` list holds a user twice, and the argument is returned unchanged even when the insert fails |
| MemeRepo.MemeRepository.LikeMeme | src/main/kotlin/repositories/MemeRepository.kt:124-139 | the collection and the answer are those of `MemeStore.LikeMeme`, ids stay unique and no `likes` list holds a user twice |
| MemeRepo.MemeRepository.UnlikeMeme | src/main/kotlin/repositories/MemeRepository.kt:141-153 | the collection and the answer are those of `MemeStore.UnlikeMeme`, ids stay unique and no `likes` list holds a user twice |
| MemeRepo.MemeRepository.IncrementDownloadCount | src/main/kotlin/repositories/MemeRepository.kt:155-167 | the collection and the answer are those of `MemeStore.IncrementDownloadCount`, ids stay unique and no `likes` list holds a user twice |
| MemeRepo.MemeRepository.UpdateMeme | src/main/kotlin/repositories/MemeRepository.kt:169-188 | the collection and the answer are those of `MemeStore.UpdateMeme`, ids stay unique and no `likes` list holds a user twice |
| MemeRepo.MemeRepository.DeleteMeme | src/main/kotlin/repositories/MemeRepository.kt:190-205 | the collection and the answer are those of `MemeStore.DeleteMeme`, ids stay unique and no `likes` list holds a user twice |
| UserStore.IndexOfId | src/main/kotlin/repositories/UserRepository.kt:103-106 | the first user carrying the id the string names; None for a malformed or unknown id |
| UserStore.IndexOfUniqueId | src/main/kotlin/repositories/UserRepository.kt:40-53 | with unique ids the lookup finds the one user that carries the id |
| UserStore.CreateUser | src/main/kotlin/repositories/UserRepository.kt:15-38 | returns the user with its id set to the inserted one and every other field as given, and appends it; a duplicate id stores nothing and returns null |
| UserStore.GetUserById | src/main/kotlin/repositories/UserRepository.kt:40-53 | returns only an active user with that id, and null exactly when there is none (malformed ids included) |
| UserStore.GetUserByUsername | src/main/kotlin/repositories/UserRepository.kt:55-67 | an exact, case-sensitive match among active users; null exactly when there is none |
| UserStore.GetUserByEmail | src/main/kotlin/repositories/UserRepository.kt:69-81 | an exact, case-sensitive match among active users; null exactly when there is none |
| UserStore.GetUserByUsernameOrEmail | src/main/kotlin/repositories/UserRepository.kt:83-98 | a found user is active and has that username or that email |
| UserStore.UpdateUserLikes | src/main/kotlin/repositories/UserRepository.kt:100-112 | adds the step to `totalLikes` with no clamping, changes no other field, and reports true exactly for a non-zero step |
| UserStore.UpdateUserProfile | src/main/kotlin/repositories/UserRepository.kt:114-126 | sets only `profileImage`; true exactly when it changed |
| UserStore.SameAccountsKeepWellFormed | src/main/kotlin/repositories/UserRepository.kt:100-126 | updates that keep ids keep them unique |
| UserStore.UsernameOrEmailFindsEither | src/main/kotlin/repositories/UserRepository.kt:83-98 | the combined lookup finds nobody exactly when both the username and the email lookup find nobody |
| UserStore.CreditThenDebitRestores | src/main/kotlin/repositories/UserRepository.kt:103-106 | +1 followed by -1 on the same account restores the collection, both reporting success |
| UserStore.CreatedUserIsFoundById | src/main/kotlin/repositories/UserRepository.kt:15-53 | a created active user is found by its string id |
| UserRepo.UserRepository.constructor | src/main/kotlin/repositories/UserRepository.kt:15-38 | a new repository holds an empty, well-formed collection |
| UserRepo.UserRepository.CreateUser | src/main/kotlin/repositories/UserRepository.kt:15-38 | the collection and the returned user are those of `UserStore.CreateUser`, and ids stay unique |
| UserRepo.UserRepository.UpdateUserLikes | src/main/kotlin/repositories/UserRepository.kt:100-112 | the collection and the answer are those of `UserStore.UpdateUserLikes`, and ids stay unique |
| UserRepo.UserRepository.UpdateUserProfile | src/main/kotlin/repositories/UserRepository.kt:114-126 | the collection and the answer are those of `UserStore.UpdateUserProfile`, and ids stay unique |
| Paging.CoerceIn | src/main/kotlin/routes/Routes.kt:156 | the result lies in the range: the input when inside, the nearer bound otherwise |
| Paging.PageParam | src/main/kotlin/routes/Routes.kt:155 | the parsed page, or 1 when it is absent or no integer |
| Paging.LimitParam | src/main/kotlin/routes/Routes.kt:156 | the parsed limit clamped to 1..50, or 20 when it is absent or no integer |
| Paging.Skip | src/main/kotlin/routes/Routes.kt:157 | `(page - 1) * limit` in 32-bit arithmetic, exact when the product fits |
| Paging.Paginate | src/main/kotlin/routes/Routes.kt:162-171 | `hasMore` exactly when more than `limit` rows came back; the last row is dropped then; the cursor is `(page + 1).toString()` exactly when `hasMore`; at most `limit` memes |
| Paging.PageShowsRows | src/main/kotlin/routes/Routes.kt:162-168 | a page built from a window of a sorted list shows that window's rows in order, each shaped for the viewer |
| Paging.NextCursorSelectsNextPage | src/main/kotlin/routes/Routes.kt:155-170 | the cursor, sent back as `page`, parses to the next page number |
| Paging.LookAheadOpensNextWindow | src/main/kotlin/routes/Routes.kt:162-164 | when no two matches share `createdAt`, the look-ahead row of one window is the first row of the window `limit` rows later |
| Paging.ScaleBounds | src/main/kotlin/routes/Routes.kt:157 | multiplying by a positive limit does not move a value towards zero |
| Paging.NextSkip | src/main/kotlin/routes/Routes.kt:157 | the next page's skip is one limit further |
| Paging.SkipsOfConsecutivePages | src/main/kotlin/routes/Routes.kt:157 | page skips are exact and one limit apart when they fit in 32 bits |
| Paging.PagesTile | src/main/kotlin/routes/Routes.kt:155-171 | when no two matches share `createdAt`, page n shows the ordered matches from `(n - 1) * limit` on and its look-ahead row is the first row of page n+1, so consecutive pages neither skip nor repeat a row |
| Paging.NormalizeTag | src/main/kotlin/routes/Routes.kt:198 | a normalised tag is trimmed, lower case and no longer than the input |
| Paging.NormalizeTags | src/main/kotlin/routes/Routes.kt:198-239 | every stored tag is non-empty, trimmed and lower case, and there are no more tags than given |
| Paging.NormalizeTagFixesNormalTags | src/main/kotlin/routes/Routes.kt:198 | a trimmed lower-case tag is left as it is |
| Paging.NormalizeTagsDistributes | src/main/kotlin/routes/Routes.kt:198 | normalisation works tag by tag and keeps their order |
| Paging.NormalizeTagsIdempotent | src/main/kotlin/routes/Routes.kt:198-239 | normalising twice is normalising once |
| Paging.NormalTagsAreFixed | src/main/kotlin/routes/Routes.kt:198 | a list of normal tags is left as it is |
| Paging.NormalizeTagsOfNormalHead | src/main/kotlin/routes/Routes.kt:198 | a normal first tag is kept at the front |
| Paging.NormalizeTagsExample | src/main/kotlin/routes/Routes.kt:198 | ["Fun ", " cats"] is stored as ["fun", "cats"], and a blank tag disappears |
| Routes.RegisterCheck | src/main/kotlin/routes/Routes.kt:33-72 | no failure exactly when all five checks pass; otherwise the first failing check's reply, in the order username format, email format, password length (400s), username taken (409 "Username already taken"), email taken (409 "Email already registered") |
| Routes.Applicant | src/main/kotlin/routes/Routes.kt:75-79 | the user built has the trimmed username, the trimmed lower-cased email, the hash and the clock reading, and a valid username is kept exactly |
| Routes.SignedIn | src/main/kotlin/routes/Routes.kt:83-109 | the reply carries the shaped user and a token for that user that expires seven days later |
| Routes.RegisterFlow | src/main/kotlin/routes/Routes.kt:29-94 | 201 exactly when all checks pass and the insert succeeds, and only then is the user stored; the first failing check is the answer; a failed insert is a 500 |
| Routes.Login | src/main/kotlin/routes/Routes.kt:96-110 | 200 exactly when the identifier finds an active account whose hash checks; every failure is the same 401 |
| Routes.Register | src/main/kotlin/routes/Routes.kt:29-94 | the repository and the reply are those of `RegisterFlow` |
| Routes.GetUser | src/main/kotlin/routes/Routes.kt:117-147 | 200 with the shaped user exactly when an active user has the id; 404 otherwise |
| Routes.UserMemes | src/main/kotlin/routes/Routes.kt:149-173 | at most `limit` of the user's memes, newest first, each marked liked exactly when the caller is among its likes; for a non-negative skip they are exactly the user's newest-first active memes from the skip on, shown to the caller; a cursor is given exactly when `hasMore` is set |
| Routes.UserPageShowsWindow | src/main/kotlin/routes/Routes.kt:155-170 | the page built from the user's query window shows the user's newest-first active memes from the skip on, in order |
| Routes.PageMarksCallersLikes | src/main/kotlin/routes/Routes.kt:162-171 | each shown meme is marked liked exactly when the caller is in its likes |
| Routes.Submitted | src/main/kotlin/routes/Routes.kt:193-199 | the meme built has the caller as owner, the trimmed caption and normalised tags |
| Routes.CreateMeme | src/main/kotlin/routes/Routes.kt:178-203 | a bad image URL is a 400 and stores nothing; otherwise the meme is inserted and the 201 reply shows it with id "", no likes and not liked |
| Routes.GetMeme | src/main/kotlin/routes/Routes.kt:205-223 | 200 with the shaped meme exactly when an active meme has the id; 404 otherwise |
| Routes.UpdateMeme | src/main/kotlin/routes/Routes.kt:225-250 | the collection is `MemeStore.UpdateMeme`'s result with trimmed caption and normalised tags; 200 on success, 404 otherwise |
| Routes.DeleteMeme | src/main/kotlin/routes/Routes.kt:252-270 | the collection is `MemeStore.DeleteMeme`'s result; 200 on success, 404 otherwise |
| Routes.Download | src/main/kotlin/routes/Routes.kt:320-335 | the collection is `MemeStore.IncrementDownloadCount`'s result; 200 on success, 404 otherwise |
| Routes.OwnerCredit | src/main/kotlin/routes/Routes.kt:284-309 | only `totalLikes` can change, and nothing at all when the active-only reread misses the meme |
| Routes.LikeFlow | src/main/kotlin/routes/Routes.kt:272-294 | the memes are the like's result; 200 exactly when the like succeeds, then the owner is credited; otherwise a 400 and no user changes |
| Routes.UnlikeFlow | src/main/kotlin/routes/Routes.kt:296-318 | the memes are the unlike's result; 200 exactly when it succeeds, then the owner is debited; otherwise a 400 and no user changes |
| Routes.Like | src/main/kotlin/routes/Routes.kt:272-294 | both repositories and the reply are those of `LikeFlow` |
| Routes.Unlike | src/main/kotlin/routes/Routes.kt:296-318 | both repositories and the reply are those of `UnlikeFlow` |
| Routes.PageKeepsOrder | src/main/kotlin/routes/Routes.kt:352-358 | a page cut from newest-first rows is shown newest first |
| Routes.Feed | src/main/kotlin/routes/Routes.kt:341-362 | at most `limit` memes, newest first, none marked liked, and a cursor exactly when `hasMore` |
| Routes.Search | src/main/kotlin/routes/Routes.kt:364-385 | a missing `q` is a 400; otherwise a 200 page of at most `limit` memes, newest first, with a cursor exactly when `hasMore` is set |
| Routes.TagFeed | src/main/kotlin/routes/Routes.kt:387-408 | at most `limit` memes, newest first, each carrying the lower-cased tag, with a cursor exactly when `hasMore` is set |
| Routes.RowsCarryTag | src/main/kotlin/routes/Routes.kt:397 | rows that share a tag with the one-tag list carry that tag |
| RouteProperties.LikeCreditsOwnerOnce | src/main/kotlin/routes/Routes.kt:281-293 | a first like of an active meme answers success, adds the caller to its likes and adds exactly one to its owner's `totalLikes`, and nothing else |
| RouteProperties.RepeatedLikeChangesNothing | src/main/kotlin/routes/Routes.kt:281-293 | repeating a successful like answers `already_liked` and changes neither collection |
| RouteProperties.LikingDeletedMemeCreditsNobody | src/main/kotlin/routes/Routes.kt:281-290 | liking a soft-deleted meme succeeds, yet no counter moves |
| RouteProperties.UnlikeDebitsOwnerOnce | src/main/kotlin/routes/Routes.kt:305-317 | unliking an active meme one liked answers success and takes exactly one from its owner's `totalLikes` |
| RouteProperties.LikeThenUnlikeRestoresBoth | src/main/kotlin/routes/Routes.kt:272-318 | a like request and then an unlike request by the same caller restore both collections |
| RouteProperties.AppendedKeepsUsernamesDistinct | src/main/kotlin/routes/Routes.kt:58-64 | appending a user whose name no active account has keeps active usernames distinct |
| RouteProperties.RegisterKeepsUsernamesDistinct | src/main/kotlin/routes/Routes.kt:58-81 | registration never creates a second active account with a taken username |
| RouteProperties.AtSurvivesNormalisation | src/main/kotlin/routes/Routes.kt:77 | the '@' of an email survives `trim().lowercase()` |
| RouteProperties.RegistrationCreated | src/main/kotlin/routes/Routes.kt:33-81 | a successful registration passed every check and stored the built user |
| RouteProperties.AppendedKeepsEmailsWithAt | src/main/kotlin/routes/Routes.kt:41-77 | appending a user whose email has an '@' keeps every active email with one |
| RouteProperties.RegisterKeepsEmailsWithAt | src/main/kotlin/routes/Routes.kt:41-81 | registration stores only emails that contain '@' |
| RouteProperties.ValidUsernameHasNoAt | src/main/kotlin/auth/JwtConfig.kt:60-64 | a valid username contains no '@' |
| RouteProperties.RegisterThenLogin | src/main/kotlin/routes/Routes.kt:29-110 | a user who just registered signs in with the same username and password and gets their own account with a fresh seven-day token |
| RouteProperties.OnlyAccountIsFound | src/main/kotlin/repositories/UserRepository.kt:83-98 | an identifier that only the last account matches finds that account |
| RouteProperties.UserMemesHasMoreExactly | src/main/kotlin/routes/Routes.kt:149-173 | `hasMore` is set exactly when the user's meme count exceeds `skip + limit`, and the page holds the rest of the count after `skip`, capped at `limit` |
| RouteProperties.EmailCaseVariantIsAdmitted | src/main/kotlin/routes/Routes.kt:66-77 | with "a@b.c" registered, "A@b.c" passes the email check and leaves two active accounts with equal stored emails |
| RouteProperties.ExampleCheckPasses | src/main/kotlin/routes/Routes.kt:33-72 | the example registration passes all five checks and its id is free |
| RouteProperties.ExampleLookupsMiss | src/main/kotlin/routes/Routes.kt:58-66 | neither duplicate lookup matches the one stored account |
| RouteProperties.ExampleApplicantIsValid | src/main/kotlin/auth/JwtConfig.kt:56-68 | the example username, password and email pass validation |
| RouteProperties.ExampleEmailNormalises | src/main/kotlin/routes/Routes.kt:77 | "A@b.c" is stored as "a@b.c", which differs from the raw input |
| RouteProperties.FeedIgnoresSort | src/main/kotlin/routes/Routes.kt:344-350 | the `sort` parameter makes no difference to the feed |
| RouteProperties.TagFeedIgnoresCase | src/main/kotlin/routes/Routes.kt:397 | the tag route gives the same page for a tag and its lower-cased form |
| RouteProperties.LimitParamExamples | src/main/kotlin/routes/Routes.kt:342-343 | absent or non-numeric limits give 20, "0" gives 1, "7" gives 7, "100" gives 50, and a non-numeric page gives 1 |
| RouteProperties.FeedHasMoreExactly | src/main/kotlin/routes/Routes.kt:341-362 | `hasMore` holds exactly when active memes lie beyond the page; the page size is `limit` or what is left after the skip, and the page holds exactly the newest-first active memes from the skip on, shown with no viewer |
| RouteProperties.SearchHasMoreExactly | src/main/kotlin/routes/Routes.kt:364-385 | with `q` given, the page holds exactly the newest-first active memes the text match accepts, from the skip on, shown with no viewer; `hasMore` holds exactly when more of them lie beyond the page |
| RouteProperties.TagFeedHasMoreExactly | src/main/kotlin/routes/Routes.kt:387-408 | the page holds exactly the newest-first active memes carrying the lower-cased tag, from the skip on, shown with no viewer; `hasMore` holds exactly when more of them lie beyond the page |
| RouteProperties.ExampleParams | src/main/kotlin/routes/Routes.kt:342-359 | pages "1" and "2" with limit "2" skip 0 and 2, and the cursor after page 1 is "2" |
| RouteProperties.NewestOfThree | src/main/kotlin/repositories/MemeRepository.kt:64-65 | three memes sorted newest first start with the newest |
| RouteProperties.ActiveFeedOfThree | src/main/kotlin/repositories/MemeRepository.kt:64 | three active memes are all in the feed |
| RouteProperties.FeedPagesExample | src/main/kotlin/routes/Routes.kt:341-361 | three memes at limit 2: page 1 shows two (the newest first), `hasMore` and cursor "2"; page 2 shows one and ends the feed |

## Left out

- JWT signing and verification (HMAC-SHA256 through the auth0 library), `verifier`, `extractUserId` and `extractUsername`. A token is the record of claims `generateToken` writes, and the authenticated caller's id and name are route parameters.
- BCrypt in `PasswordUtils` is a foreign call. `hashPassword` and `checkPassword` are function parameters.
- The MongoDB `$text` engine behind `searchMemes` is not visible. It is the match parameter `textMatch`.
- Concurrency and atomicity. The two steps of a like or unlike (the meme update and then the owner's counter) can interleave with other requests in the service. The model runs requests one after another.
- Wall-clock time (`Instant.now()`, `System.currentTimeMillis()`) is a parameter. The same goes for the ObjectId the driver generates on insert.
- Logging, printed stack traces and exception messages. A caught exception is modelled only through the null, false or empty result it produces.
- Store failures other than the ones the model names are left out: the network, a connection that is down, timeouts. The model names a malformed ObjectId, a duplicate `_id` on insert and a negative skip.
- HTTP plumbing: `call.receive`, JSON serialisation, and the `missing_parameter` 400 answers for an absent path parameter. A route takes its path parameter as a string, and a reply is a status and a body datatype.
- The getters return the first match. Only `_id` is unique, and the model keeps ids unique through `WellFormed`. `DatabaseFactory.kt` creates plain, non-unique indexes on `username` and `email`, so `getUserByUsername` and `getUserByEmail` return the first of possibly several matches, and two active accounts can share an email (`EmailCaseVariantIsAdmitted`). Indexes only speed up queries, so `DatabaseFactory.kt`, `Application.kt` and `build.gradle.kts` are not part of this model.
- MemeRepo.MemeRepository.CreateMeme: requires the new meme's `likes` to be free of duplicates, so that the class invariant holds; the code inserts any meme, and every meme the routes build has empty `likes`.
- Unicode `trim()` and `lowercase()`: only ASCII whitespace and letters are handled, and `toIntOrNull` reads ASCII digits only.
- MongoDB's order for memes with equal `createdAt` is unspecified. The model's sort is stable, which is one of the orders the server may produce.
- Paging.PagesTile and Paging.LookAheadOpensNextWindow: the tiling is stated only for matches with distinct `createdAt`. The code sorts on `createdAt` alone, an epoch second, so ties are ordinary, and the server may break them differently in the query for page n and the query for page n+1; a tied meme at the boundary can then appear twice or not at all. The model's single stable sort would hide that.
- MemeStore.IncrementDownloadCount: `downloadCount` and `totalLikes` are 32-bit `Int` fields, and the model's `$inc` does not wrap at 2^31.
- UserStore.UpdateUserLikes: no 32-bit wrap of `totalLikes`, for the same reason.
- UserStore.GetUserByUsernameOrEmail: states only what a found user satisfies. Which user comes first is given through `UsernameOrEmailFindsEither` and `OnlyAccountIsFound`.
- MemeStore.GetFeedByPopularity: the code sorts by `createdAt`. A feed by likes, as the method's name suggests, is not what the code does, so the model follows the code. `PopularFeedIsRecencyFeed` proves the two feeds equal.
- The behaviour-free request and response records (`AuthRequest.kt`, `UpdateCreateMemeRequest.kt`, `AuthResponse.kt`, `CommonResponses.kt`) appear only as datatypes. The `tags = emptyList()` default is the caller's job.
- `GET /users/me` is `GetUser` called with the caller's id.

### Where the code differs from what one might expect

- The duplicate-email check of registration compares the raw request email. The stored email is its trimmed, lower-cased form. So "A@b.c" is admitted next to a stored "a@b.c" (`EmailCaseVariantIsAdmitted`). The model keeps the code's behaviour.
- `likeMeme`, `unlikeMeme`, `incrementDownloadCount`, `updateMeme` and `deleteMeme` do not filter on `isActive`. An inactive meme can therefore be liked and downloaded.
- The owner credit rereads the meme through the active-only `getMemeById`. Liking a deleted meme therefore answers success but credits nobody (`LikingDeletedMemeCreditsNobody`).
- `totalLikes` has no lower bound and can go negative.
- `POST /memes/{id}/download` takes no authenticated caller in the model, because the handler does not read one.
