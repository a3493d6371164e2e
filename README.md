# Chirpy store and chirp filter, modelled in Dafny

The project models a small Go web server. Users post short messages called
chirps. The server keeps everything in one JSON document on disk.

Two parts are modelled.

- **The store, `Db`, over `db/db.go`.**
  - It holds three maps: chirps by id, users by id, and revoked refresh tokens with their revocation time.
  - Every operation loads the document. The read operations (GetChirps, GetChirp, GetUsers, ValidateUser, CheckTokenRevocation) only read it; every write operation changes the maps and writes the document back.
  - The model's `DB` class keeps the three maps as fields and changes them in place.
  - Its invariant `Valid()` says that every chirp and user is stored under its own id.
  - Ordering step: Go's `sort.Slice` on ids becomes an insertion sort over sequences, in `Sorting`.
- **The request-side text handling of `main.go`, in `Server`.**
  - `caseInsensitiveReplace`: reads the body piece by piece with `bufio.Reader.ReadString(' ')` and masks every piece whose text, without trailing spaces, equals the search word ignoring case.
  - `profanityFilter`: runs `caseInsensitiveReplace` once for each word of `gProfanity`, masking it with `****`.
  - The 140-byte limit on chirp bodies in `handlePostChirp`.
  - The `Bearer ` prefix that `validateJWT` requires on the Authorization header.

The loops keep their source form in the model:

- Go's map iterations (`for id := range m`) become `while rest != {}` loops that pick an arbitrary remaining key, since Go promises no order.
- The reader loop of `caseInsensitiveReplace` and the word loop of `profanityFilter` are `while` and `for` loops.
- Each loop is proved against a functional specification:
  - `MaxOrZero` and `NextId` for the id scan;
  - `IndexBy` for `NewDBStruct`;
  - `Pieces`, `ReplacePiece` and `ReplaceWords` for the reader loop;
  - `FilterWords` for the filter.

Properties are then proved about those functions.

Foreign calls become parameters:

- The bcrypt hash of a new password arrives as `Option<Hash>`. `None` stands for `GenerateFromPassword` failing.
- `bcrypt.CompareHashAndPassword` is a `matches` function argument.
- `time.Now()` is a `now` argument.

`DbScenarios` runs the store test's call sequences and further client runs on fresh stores, and states the results they must give.

Files:

- `results.dfy`: `Option`, `Result` and `Outcome`.
- `sorting.dfy`: sorting by id.
- `db.dfy`: the store.
- `db_scenarios.dfy`: client runs of the store.
- `server.dfy`: the filter, the length limit, the header check and the chirp-posting pipeline.

Behaviour of the code worth knowing:

- **Id reuse.** New ids are one more than the largest id present (db/db.go:162-168). When the chirp with the largest id is deleted, the next chirp gets that id again (`DbScenarios.DeleteScenario`).
- **Chirp length.** The limit at main.go:136 counts UTF-8 bytes, since `len` on a Go string is its byte length (`Server.TwoByteCharsCountTwice`).
- **UpdateUser's missing-id error.** At db/db.go:234 it is built by wrapping the `err` of the preceding load, which is `nil` there, together with the id. The model gives it its own value, `UnknownUserId(id)`.
- **Wrong password.** `ValidateUser` returns bcrypt's own mismatch error, which `ErrWrongPassword` aliases (db/db.go:47). A failing comparison is modelled as `WrongPassword`.

## Model

| member | source | states |
|---|---|---|
| Db.MaxKey | db/db.go:162-167 | the `maxID` scan over the map keys, in any order, yields the largest key, or 0 when no key is positive |
| Db.MaxOrZero | db/db.go:196-201 | the value is non-negative, bounds every key from above, and is either 0 or one of the keys |
| Db.FirstIdIsOne | db/db.go:168 | in an empty namespace the first assigned id is 1 |
| Db.NextIdAfterRange | db/db.go:202 | when the ids in use are exactly 1..n, the next assigned id is n + 1 |
| Db.IndexBy | db/db.go:60-70 | inserting elements by id gives a map keyed by each element's own id, holding every element's id, holding only given elements, with the last element winning for its id |
| Db.IndexByLastWins | db/db.go:62-67 | an element that no later element shares an id with is the one stored under that id, so a later duplicate overwrites an earlier one |
| Db.IndexStep | db/db.go:62-64 | one loop iteration of NewDBStruct adds the next element under its id, overwriting an earlier element with the same id |
| Db.NewDocument | db/db.go:60-70 | NewDBStruct builds the chirp and user maps by insertion in slice order, with no revoked tokens, and every entry is stored under its own id |
| Db.DtoHidesHash | db/db.go:72-74 | the public view keeps id and email and does not depend on the password hash |
| Db.DB.constructor | db/db.go:88-94 | a new store holds no chirps, users or revoked tokens |
| Db.DB.Open | db/db.go:311-328 | a document whose entries are keyed by their ids is loaded as it is |
| Db.DB.GetChirps | db/db.go:105-119 | the result is strictly ascending by id and has one entry per stored chirp; every stored chirp is in it, and it holds only stored chirps |
| Db.DB.GetChirp | db/db.go:123-136 | the chirp stored under the id, or ChirpNotFound exactly when the id is absent |
| Db.DB.GetUsers | db/db.go:138-152 | the public views of all users, strictly ascending by id, one per user and nothing else |
| Db.DB.CreateChirp | db/db.go:154-174 | the new chirp gets the largest chirp id plus one (1 on an empty store), which is above every existing id; it is added and nothing else changes |
| Db.DB.CreateUser | db/db.go:176-208 | a hashing failure or an email already held by any user leaves the store unchanged and reports HashFailed or EmailTaken; otherwise the user is added under a fresh id (largest plus one), its public view is returned, and unique emails stay unique |
| Db.DB.DeleteChirp | db/db.go:211-225 | the chirp is removed and Pass returned when present; otherwise ChirpNotFound and no change |
| Db.DB.UpdateUser | db/db.go:227-254 | an unknown id or a hashing failure changes nothing and reports its error; otherwise the user's email and hash are replaced under the same id and the new public view is returned |
| Db.UpdateCanDuplicateEmail | db/db.go:247-250 | an update may give a user another user's email, so unique emails are not an invariant of the store |
| Db.DB.ValidateUser | db/db.go:259-278 | UnregisteredEmail exactly when no user holds the email; success only for a user with that email whose hash matches the password; with unique emails, the result is decided by that user's hash alone |
| Db.DB.CheckTokenRevocation | db/db.go:282-293 | TokenRevoked exactly when the token has been revoked, Pass otherwise |
| Db.DB.AddTokenRevocation | db/db.go:295-308 | the token is recorded with the given time, replacing an earlier time, and chirps and users are untouched |
| Sorting.SortByKey | db/db.go:116 | the result is strictly ascending by the key and is a permutation of the input |
| Sorting.Insert | db/db.go:149 | inserting an element with a fresh key into a strictly sorted sequence keeps it strictly sorted and adds exactly that element |
| Sorting.SortedUnique | db/db.go:116 | two strictly sorted permutations of each other are equal, so the listing order is fully determined by the ids |
| DbScenarios.ChirpScenario | db/db_test.go:40-52 | an empty store lists nothing; two chirps get ids 1 and 2 and are listed in that order |
| DbScenarios.RegisterTwo | db/db_test.go:54-55 | two registrations with distinct emails get ids 1 and 2 and store exactly those users, with no chirps and no revoked tokens |
| DbScenarios.UserScenario | db/db_test.go:54-59 | re-registering an email gives EmailTaken; the two users are listed by id |
| DbScenarios.LoginScenario | db/db_test.go:61-66 | each user validates with their own password; a wrong password gives WrongPassword |
| DbScenarios.DeleteScenario | db/db.go:211-225 | a deleted chirp cannot be read or deleted again, others stay readable, and the id of a deleted last chirp is handed out again |
| DbScenarios.RevocationScenario | db/db.go:282-308 | a token reads as revoked right after it is revoked; other tokens stay unrevoked |
| DbScenarios.CreateMany | db/db_test.go:69-91 | chirps created one after another on a fresh store get ids 1..n in creation order and are listed in exactly that order |
| DbScenarios.CreateAll | db/db.go:154-174 | after n creations on an empty store, the ids present are exactly 1..n, id i holds the i-th chirp, and users and revoked tokens are unchanged |
| DbScenarios.ListedInOrder | db/db_test.go:82-88 | a strictly sorted listing of the chirps with ids 1..n holds at position i the chirp with id i + 1 |
| Server.Utf8Length | main.go:136 | the byte length Go's `len` sees lies between the number of characters and four times it |
| Server.AsciiLength | main.go:136 | for ASCII text, bytes and characters coincide |
| Server.AsciiLimit | main.go:136-142 | an ASCII body is rejected exactly when it has more than 140 characters |
| Server.TwoByteCharsCountTwice | main.go:136 | n copies of a two-byte character count as 2n bytes, so 71 of them are rejected |
| Server.DotsRejected | main_test.go:51-52 | 141 dots are rejected and 140 are accepted |
| Server.BearerToken | main.go:613-618 | the token is returned exactly when the header starts with "Bearer ", and the header is the prefix followed by the token; otherwise ErrBadAuthHeader |
| Server.BearerRoundTrip | main.go:613-618 | stripping the prefix from "Bearer " + token gives back the token |
| Server.BearerIsExact | main.go:613-618 | the prefix is case-sensitive and must include the space |
| Server.FirstSpace | main.go:184 | where ReadString(' ') stops: at a space, or at the end of the input |
| Server.FirstSpaceShape | main.go:184 | no space occurs before that position |
| Server.Pieces | main.go:184 | the successive results of ReadString(' ') form a non-empty sequence |
| Server.TrimRightSpacesShape | main.go:186 | strings.TrimRight(s, " ") is a prefix of s that does not end in a space, and only spaces follow it in s |
| Server.ReplaceAll | main.go:186-193 | piece-wise replacement keeps the number of pieces |
| Server.ReadString | main.go:184 | one read returns the text up to and including the next space and advances past it, or returns the rest with EOF when no space is left |
| Server.WritePiece | main.go:186-193 | the builder receives the replacement (plus the piece's space, if it had one) for a matching piece, and the piece itself otherwise |
| Server.ReplaceWordsAt | main.go:183-194 | the replaced unread input is the replaced first piece followed by the replaced rest after it |
| Server.Advance | main.go:183-194 | a piece ending in a space keeps the reader loop's invariant: the output so far, followed by the replaced rest, is the replaced input |
| Server.Finish | main.go:183-196 | the final piece, read with EOF, completes the output |
| Server.CaseInsensitiveReplace | main.go:178-201 | the output is the input with every matching piece replaced, in order, and the error is nil after EOF |
| Server.ProfanityFilter | main.go:166-176 | the result is the body passed through caseInsensitiveReplace once for each profane word, in list order, with no error |
| Server.PostChirp | main.go:136-163 | an over-long body is rejected before the store is touched; otherwise the filtered body is stored as a new chirp under the next id and returned |
| Server.ReplaceWordsPieces | main.go:183-194 | the reader loop's output is the concatenation of the replaced pieces |
| Server.ConcatPieces | main.go:184 | the pieces read join back to the input: reading loses nothing |
| Server.ReplaceAllNoMatch | main.go:186-193 | when no piece matches, every piece is kept |
| Server.NoMatchUnchanged | main.go:178-201 | an input with no matching word comes back unchanged |
| Server.PiecesWellFormed | main.go:184 | every piece but the last ends in its only space, and the last holds no space |
| Server.FirstSpaceOfPiece | main.go:184 | reading a piece followed by anything stops at that piece's space |
| Server.FirstSpaceNone | main.go:184 | reading space-free text reaches the end |
| Server.PiecesOfConcat | main.go:184 | reading back well-formed pieces joined together gives exactly those pieces |
| Server.TrimPiece | main.go:186 | trimming a space-free word, with or without its trailing space, gives the word |
| Server.ReplaceAllWellFormed | main.go:186-193 | a space-free replacement keeps the pieces well formed, piece by piece |
| Server.ReplaceAllAt | main.go:186-193 | the i-th replaced piece is the replacement of the i-th piece |
| Server.PiecesOfReplaceWords | main.go:178-201 | with a space-free replacement, the output reads back as the replaced input pieces |
| Server.PieceCount | main.go:184 | there is one piece more than there are spaces |
| Server.SpacesPreserved | main.go:186-193 | with a space-free replacement, the output has as many spaces as the input |
| Server.PieceAvoids | main.go:186-193 | a replaced piece matches neither the search word nor any word the piece and the replacement already avoided |
| Server.ReplaceAvoids | main.go:178-201 | one pass removes its word from every piece and brings back none of the words already removed |
| Server.FilterAvoids | main.go:166-176 | after the remaining passes, no piece matches any word removed so far or still to remove |
| Server.FilterRemovesProfanity | main.go:72 | after profanityFilter no space-delimited word, trimmed of trailing spaces, equals a gProfanity word ignoring case |
| Server.ReplaceWordsCons | main.go:183-194 | a leading piece that ends in its only space is replaced independently of what follows |
| Server.MaskedWord | main.go:186-191 | a word equal to the search word ignoring case becomes the replacement, keeping the space after it |
| Server.EmbeddedWordKept | main.go:186 | only whole words match: the search word with anything attached before or after it is kept |
| Server.MixedCaseMasked | main_test.go:54-56 | "keRfUfFle", with or without its following space, is masked as "****" |
| Server.PunctuationKept | main.go:186 | "keRfUfFle!" followed by a space is not masked |

## Left out

- File handling (`New`, `ensureDB`, `loadDB`, `writeDB`), JSON encoding and the directory check: the store's document lives in memory. A missing file is the empty document (`Db.DB.constructor`); an existing one is `Db.DB.Open`. `writeDB` opens the file without truncating it, which can leave stale bytes after a shorter document; this is not modelled.
- Read and write errors of the file: the in-memory document cannot fail. CreateChirp, CreateUser and AddTokenRevocation return their write error; DeleteChirp (db/db.go:222) and UpdateUser (db/db.go:248) discard theirs.
- The `sync.RWMutex`, and the fact that load and write take the lock separately so concurrent updates can be lost: the model is sequential.
- bcrypt internals: hashing is a parameter. A comparison failure other than a mismatch is not distinguished from a mismatch.
- `time.Now()`: the time is an argument of AddTokenRevocation.
- The zero-id DTO (`{0, email}`) that CreateUser returns alongside its errors: the model returns only the error.
- Go's 64-bit `int`: `maxID + 1` could wrap, but ids are unbounded integers here, because the largest id grows by at most one per creation, so an id near 2^63 takes that many creations.
- Server.EqualFold: folds ASCII letters only. Go's `strings.EqualFold` also applies Unicode simple case folding, so the model matches fewer non-ASCII words.
- Server.CaseInsensitiveReplace: requires that the search word is non-empty or the input does not end with an empty piece. On such input Go reads `s[len(s)-1]` of an empty string and panics. profanityFilter never passes an empty word.
- Server.PostChirp: takes the author id as an argument. `main.go:154` calls `CreateChirp(filtered)` with one argument, while `db/db.go:154` takes `(userID, body)`. The tests (`db/db_test.go:71`) are also written against the one-argument form.
- The 500 branch after profanityFilter in handlePostChirp: an in-memory reader never returns an error other than EOF, so it cannot be taken.
- JSON decoding of the request, HTTP routing, responses, CORS, metrics, JWT creation and parsing, the login, refresh and revoke handlers, and `main`: outside the modelled core. Only the header-prefix check of validateJWT (also at main.go:401-406 and main.go:465-470) is modelled.
- The full handler-test sentence at main_test.go:54-55 is covered piece by piece (`Server.MixedCaseMasked`, `Server.ReplaceWordsCons`, `Server.NoMatchUnchanged`) rather than evaluated as a whole string.
- Sorting.SortByKey: an insertion sort stands in for `sort.Slice`. Because ids are distinct, `Sorting.SortedUnique` shows any correct sort gives the same result.
