# Game service of ddockddack, in Dafny

ddockddack is a web game in which members make picture games. Each game has a
title, a description, a thumbnail and a set of images stored in S3. Other
members can star (favourite) a game and report it. This project models the
service that owns those operations, `GameService`:

- create a game, uploading its images first;
- modify a game's title, description and images;
- remove a game together with its images, favourites and reports;
- star and unstar a game, keeping its favourite count;
- report a game;
- the lookups: one game's detail, a member's own games, a member's starred
  games;
- the guards used by all of the above: the game must exist, and only its
  owner or an admin may change it.

The model has four parts:

- **`Domain`**: the rows (games, images, favourites, reports), the requests,
  the errors (a not-found or already-exists error names the table its error
  code is about), the content-type filter (Java's `String.contains` against
  `"image/jpeg"`), and the integrity `Valid` that the tables keep between
  calls. `Valid` requires that:
  - every foreign key points at a row that exists;
  - each game's `starredCnt` equals its number of favourite rows;
  - every game has an image;
  - a report names the game's owner.
- **`GameRules`**: each operation as a function from the store before the
  call to the result and the store after it.
  - The service class is `@Transactional`, so a failing call leaves the store
    exactly as it found it.
  - Object storage is outside the transaction. It is passed in as the number
    of files it already holds, which fixes the keys the uploads receive.
- **`Properties`**: lemmas about those functions:
  - the error cases of each operation, both directions;
  - what a successful call changes, and that nothing else changes;
  - round trips (star then unstar), and what a repeated call does;
  - the cascade of `removeGame`;
  - that every operation preserves `Valid`;
  - a whole session from creation to removal.
- **`Storage` and `Service`**: the imperative side.
  - `AwsS3` is an append-only store of uploaded files.
  - `GameService` is a class whose fields are the tables. Its methods follow
    the Java code step by step, loops included.
  - Each method is proved equal to its `GameRules` function, and proved to
    preserve `Valid`.
  - The methods that upload also state exactly which files reached storage.
    Files uploaded before a failure stay there, because the rollback does not
    reach S3.

Two behaviours of the code are stated as lemmas:

- **`modifyGame` looks images up by id alone.** It checks access to the game
  named in the request, then rewrites any image id listed in that request,
  whichever game the image belongs to (`Properties.ModifyReachesOtherGamesImages`).
- **The content-type filter accepts only JPEG.** A comment beside the filter
  says JPEG and PNG are accepted, but the code checks only for `"image/jpeg"`.
  The model follows the code (`Properties.JpegOnly`).

All paths below are relative to the repository root. `GS` stands for
`Backend/src/main/java/com/ddockddack/domain/game/service/GameService.java`.
The table cells spell the path out in full.

## Model

| member | source | states |
|---|---|---|
| GameRules.CheckGameValidation | Backend/src/main/java/com/ddockddack/domain/game/service/GameService.java:289-293 | succeeds exactly when the game exists, with its row; otherwise the game's NotFound |
| GameRules.CheckAccessValidation | Backend/src/main/java/com/ddockddack/domain/game/service/GameService.java:267-282 | the game's NotFound exactly when the game is absent; AccessDenied exactly when it exists and the caller is neither ADMIN nor its owner; success exactly when it exists and the caller is ADMIN or owner, returning the game row |
| GameRules.FindGame | Backend/src/main/java/com/ddockddack/domain/game/service/GameService.java:70-76 | succeeds exactly when the game exists, with its id, its row and exactly the image rows whose game it is, each as stored; otherwise the game's NotFound |
| GameRules.FindAllGamesByMemberId | Backend/src/main/java/com/ddockddack/domain/game/service/GameService.java:230-235 | the member's NotFound exactly for an unknown member; otherwise exactly the games the member owns |
| GameRules.FindAllStarredGames | Backend/src/main/java/com/ddockddack/domain/game/service/GameService.java:244-248 | the member's NotFound exactly for an unknown member; otherwise exactly the games with a favourite row of that member |
| GameRules.NewImages | Backend/src/main/java/com/ddockddack/domain/game/service/GameService.java:94-96 | saveAll gives the i-th row the identity first + i, and uses no other identity |
| GameRules.SaveGame | Backend/src/main/java/com/ddockddack/domain/game/service/GameService.java:84-99 | saveGame as a function of the store and of the number of files already in storage; a failing call leaves the store exactly as it was (the transaction rolls back); its outcomes are stated by Properties.SaveGameOutcome, SaveGameCreates and SaveGameThumbnail |
| GameRules.UpdateImages | Backend/src/main/java/com/ddockddack/domain/game/service/GameService.java:115-130 | the image loop of modifyGame: it fails only with Missing or BadExtension, and on success the same image ids exist; its outcomes are stated by Properties.UpdateImagesOkIff, UpdateImagesFirstError and UpdateImagesResult |
| GameRules.ModifyGame | Backend/src/main/java/com/ddockddack/domain/game/service/GameService.java:107-131 | modifyGame: a failing call leaves the store exactly as it was, so the title change and the image rewrites before the failure are rolled back; its outcomes are stated by Properties.ModifyGameOutcome and ModifyGameFirstError |
| GameRules.RemoveGame | Backend/src/main/java/com/ddockddack/domain/game/service/GameService.java:139-148 | removeGame: a failing call leaves the store exactly as it was; its outcomes are stated by Properties.RemoveGameOutcome and RemoveGameCascades |
| GameRules.StarredGame | Backend/src/main/java/com/ddockddack/domain/game/service/GameService.java:156-174 | starredGame: a failing call leaves the store exactly as it was; its outcomes are stated by Properties.StarredGameOutcome |
| GameRules.UnStarredGame | Backend/src/main/java/com/ddockddack/domain/game/service/GameService.java:182-193 | unStarredGame: a failing call leaves the store exactly as it was; its outcomes are stated by Properties.UnStarredGameOutcome |
| GameRules.ReportGame | Backend/src/main/java/com/ddockddack/domain/game/service/GameService.java:201-221 | reportGame: a failing call leaves the store exactly as it was; its outcomes are stated by Properties.ReportGameOutcome |
| Service.GameService.FindGame | Backend/src/main/java/com/ddockddack/domain/game/service/GameService.java:70-76 | returns exactly what GameRules.FindGame states: the game's detail row when it exists, the game's NotFound otherwise; changes nothing |
| Service.GameService.FindAllGamesByMemberId | Backend/src/main/java/com/ddockddack/domain/game/service/GameService.java:230-235 | returns what GameRules.FindAllGamesByMemberId states; changes nothing |
| Service.GameService.FindAllStarredGames | Backend/src/main/java/com/ddockddack/domain/game/service/GameService.java:244-248 | NotFound exactly for an unknown member; otherwise exactly the member's starred games; changes nothing |
| Service.GameService.SaveGame | Backend/src/main/java/com/ddockddack/domain/game/service/GameService.java:84-99 | result and new tables are those of GameRules.SaveGame; storage grows by exactly the files uploaded before the first refused one; keeps Valid |
| Service.GameService.UploadGameImages | Backend/src/main/java/com/ddockddack/domain/game/service/GameService.java:301-318 | BadExtension when any content type lacks "image/jpeg", otherwise one fresh consecutive key per image; storage grows by the files before the first refused one |
| Service.GameService.CreateGameImage | Backend/src/main/java/com/ddockddack/domain/game/service/GameService.java:328-338 | one image row per submitted image, the i-th with the i-th file name and description |
| Service.GameService.SaveAllImages | Backend/src/main/java/com/ddockddack/domain/game/service/GameService.java:96 | inserts the rows under consecutive fresh identities and changes no other table |
| Service.GameService.ModifyGame | Backend/src/main/java/com/ddockddack/domain/game/service/GameService.java:107-131 | result and new tables are those of GameRules.ModifyGame (rolled back on any error); storage grows by the files of the requests before the first inadmissible one, and by nothing when the access check fails; keeps Valid |
| Service.GameService.UpdateGameImages | Backend/src/main/java/com/ddockddack/domain/game/service/GameService.java:115-130 | the loop rewrites the images exactly as GameRules.UpdateImages does and fails with its error; storage grows by exactly the files of the requests before the first that is not admissible |
| Service.GameService.RemoveGame | Backend/src/main/java/com/ddockddack/domain/game/service/GameService.java:139-148 | result and new tables are those of GameRules.RemoveGame; keeps Valid |
| Service.GameService.StarredGame | Backend/src/main/java/com/ddockddack/domain/game/service/GameService.java:156-174 | result and new tables are those of GameRules.StarredGame; keeps Valid |
| Service.GameService.UnStarredGame | Backend/src/main/java/com/ddockddack/domain/game/service/GameService.java:182-193 | result and new tables are those of GameRules.UnStarredGame; keeps Valid |
| Service.GameService.ReportGame | Backend/src/main/java/com/ddockddack/domain/game/service/GameService.java:201-221 | result and new tables are those of GameRules.ReportGame; keeps Valid |
| Storage.AwsS3.MultipartFileUpload | Backend/src/main/java/com/ddockddack/domain/game/service/GameService.java:312 | appends the file and returns a key no earlier upload received |
| Domain.Contains | Backend/src/main/java/com/ddockddack/domain/game/service/GameService.java:307 | String.contains: holds exactly when the substring occurs at some position of the string |
| Properties.JpegOnly | Backend/src/main/java/com/ddockddack/domain/game/service/GameService.java:306-309 | "image/jpeg" and a type containing it pass; "image/png" is refused, whatever the comment says |
| Properties.UploadedFilesPrefix | Backend/src/main/java/com/ddockddack/domain/game/service/GameService.java:303-316 | the files uploaded are exactly those before the first refused content type, all of them when none is refused |
| Properties.SaveGameOutcome | Backend/src/main/java/com/ddockddack/domain/game/service/GameService.java:84-91 | BadExtension exactly when some image is refused; then IndexOutOfRange exactly for no images; then Dangling exactly for an unknown member; success otherwise |
| Properties.SaveGameCreates | Backend/src/main/java/com/ddockddack/domain/game/service/GameService.java:88-96 | a successful save adds exactly one new game, owned by the caller, with zero favourites and the request's title and description; it adds one image row per request image under fresh ids, with key base + i; every earlier row is unchanged |
| Properties.SaveGameThumbnail | Backend/src/main/java/com/ddockddack/domain/game/service/GameService.java:91 | the thumbnail is the file name of the new game's first image, which carries the first request's description |
| Properties.ModifyUploadsPrefix | Backend/src/main/java/com/ddockddack/domain/game/service/GameService.java:115-125 | the files the image loop uploads are the requests' files, in order, each of an admissible request, and they stop exactly at the first request whose image is absent or whose type is refused |
| Properties.UpdateImagesOkIff | Backend/src/main/java/com/ddockddack/domain/game/service/GameService.java:115-130 | the image loop succeeds exactly when every request names an existing image and has a JPEG type |
| Properties.UpdateImagesFirstError | Backend/src/main/java/com/ddockddack/domain/game/service/GameService.java:116-124 | the first inadmissible request decides the error: Missing when its image is absent, BadExtension otherwise |
| Properties.UpdateImagesResult | Backend/src/main/java/com/ddockddack/domain/game/service/GameService.java:115-130 | after the loop the same image ids exist and each image keeps its game; an image no request names is unchanged; a named one has the key and description of the last request naming it |
| Properties.ModifyGameOutcome | Backend/src/main/java/com/ddockddack/domain/game/service/GameService.java:107-131 | access errors come first; then failure exactly when some request is inadmissible; on success only the game's title and description and the images change |
| Properties.ModifyGameFirstError | Backend/src/main/java/com/ddockddack/domain/game/service/GameService.java:109-124 | after a passed access check, the first inadmissible request decides the error, and the store is unchanged |
| Properties.ModifyReachesOtherGamesImages | Backend/src/main/java/com/ddockddack/domain/game/service/GameService.java:115-128 | the owner of one game rewrites an image of another member's game by naming its id |
| Properties.RemoveGameOutcome | Backend/src/main/java/com/ddockddack/domain/game/service/GameService.java:139-142 | removeGame fails exactly when the access check fails, with its error |
| Properties.RemoveGameCascades | Backend/src/main/java/com/ddockddack/domain/game/service/GameService.java:143-146 | after removal no game, image, favourite or report row refers to the game; rows of other games are all still there, unchanged |
| Properties.RemoveThenFindGame | Backend/src/main/java/com/ddockddack/domain/game/service/GameService.java:70-76 | after removal findGame of the game fails with NotFound |
| Properties.StarredGameOutcome | Backend/src/main/java/com/ddockddack/domain/game/service/GameService.java:156-174 | AlreadyExists exactly for an existing pair; otherwise Dangling exactly for a missing game or member; on success exactly the pair is added and the count goes up by one |
| Properties.StarredGameTwice | Backend/src/main/java/com/ddockddack/domain/game/service/GameService.java:158-162 | starring the same pair again fails with AlreadyExists and changes nothing |
| Properties.StarredThenUnStarred | Backend/src/main/java/com/ddockddack/domain/game/service/GameService.java:182-193 | unStarredGame right after a successful starredGame succeeds and gives back the original store |
| Properties.UnStarredGameOutcome | Backend/src/main/java/com/ddockddack/domain/game/service/GameService.java:182-193 | the game's NotFound exactly when the game is absent, whether or not the pair exists; the favourite's NotFound exactly when the game exists but the pair does not; on success exactly the pair is removed and the count goes down by one |
| Properties.UnStarredGameTwice | Backend/src/main/java/com/ddockddack/domain/game/service/GameService.java:187-189 | a second unstar fails with NotFound and changes nothing |
| Properties.ReportGameOutcome | Backend/src/main/java/com/ddockddack/domain/game/service/GameService.java:201-221 | AlreadyExists exactly for an existing report; then NotFound for a missing game; then Dangling for an unknown member; on success exactly one report naming the game's owner and the type |
| Properties.ReportGameTwice | Backend/src/main/java/com/ddockddack/domain/game/service/GameService.java:204-208 | reporting the same game again, with any type, fails with AlreadyExists and changes nothing |
| Properties.StarCountAdd | Backend/src/main/java/com/ddockddack/domain/game/service/GameService.java:171-172 | adding a new favourite row raises the count of its game by one and of no other game |
| Properties.StarCountRemove | Backend/src/main/java/com/ddockddack/domain/game/service/GameService.java:191-192 | removing a favourite row lowers the count of its game by one and of no other game |
| Properties.StarCountWithoutGame | Backend/src/main/java/com/ddockddack/domain/game/service/GameService.java:144 | deleting a game's favourites leaves it none and other games their count |
| Properties.ValidCountsNonNegative | Backend/src/main/java/com/ddockddack/domain/game/service/GameService.java:191 | in a valid store no game's favourite count is negative, so decreaseStarredCnt never goes below zero |
| Properties.StarredGameKeepsValid | Backend/src/main/java/com/ddockddack/domain/game/service/GameService.java:156-174 | starredGame preserves the integrity of the tables |
| Properties.UnStarredGameKeepsValid | Backend/src/main/java/com/ddockddack/domain/game/service/GameService.java:182-193 | unStarredGame preserves the integrity of the tables |
| Properties.ReportGameKeepsValid | Backend/src/main/java/com/ddockddack/domain/game/service/GameService.java:201-221 | reportGame preserves the integrity of the tables |
| Properties.RemoveGameKeepsValid | Backend/src/main/java/com/ddockddack/domain/game/service/GameService.java:139-148 | removeGame preserves the integrity of the tables: no row is left pointing at the removed game |
| Properties.SaveGameKeepsValid | Backend/src/main/java/com/ddockddack/domain/game/service/GameService.java:84-99 | saveGame preserves the integrity of the tables: the new game has an image and valid keys |
| Properties.ModifyGameKeepsValid | Backend/src/main/java/com/ddockddack/domain/game/service/GameService.java:107-131 | modifyGame preserves the integrity of the tables |
| Properties.Session | Backend/src/main/java/com/ddockddack/domain/game/service/GameService.java:70-193 | a game created with two images shows them and no favourites. A star raises the count to one. A second star is refused. An unstar lowers the count to zero. A stranger cannot remove the game. The owner can, after which it is not found |

## Left out

- findAllGames and findAllReportedGames (`GS`:58-61, 256-259) are not modelled.
  They only pass a repository query through, and those queries (search,
  paging, projection into response objects) are not part of this model.
- FindAllGamesByMemberId: returns the whole set of owned games. Paging and
  ordering of the repository query are not modelled.
- FindAllStarredGames: returns the set of starred game ids. The response
  objects the query projects are not modelled.
- CheckAccessValidation: compares member ids by value. At `GS`:278 the code
  compares two boxed `Long` values with `!=`, which compares references. For
  ids outside the JVM's small-value cache, an owner could then be refused.
  Object identity is not modelled.
- A null content type is not modelled. The code would throw a
  NullPointerException on `contains`.
- Game.starredCnt: is an unbounded integer. The 32-bit overflow of the
  counter is not modelled.
- The repositories are modelled by their observable effect. The assumed
  behaviour is:
  - `getReferenceById` on a missing row fails when the insert is flushed
    (the `Dangling` error).
  - The game-detail query returns one row for an existing game and none for
    a missing one.
  - `deleteByGameId` deletes exactly the rows of that game.
- Identities: the next game and image identities are part of the store, so a
  rollback also restores them. A database sequence would not reuse them. No
  contract depends on an identity being unused after a failed call.
- S3 is modelled as a list of files. The key of a file is its position.
  Network failures and S3's own naming are not modelled.
- ReportType is an opaque string. The enum's constants are not part of this
  model.
- Concurrency between requests, HTTP mapping, authentication and the
  controller are not modelled. The caller's identity and role arrive as a
  `MemberDetail`.
