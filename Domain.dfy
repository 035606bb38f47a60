/** The entities the game service works on, the requests it receives, the errors
    it raises and the abstract relational store behind its repositories. */
module Domain {

  type MemberId = nat
  type GameId = nat
  type ImageId = nat

  /** The key under which the object storage keeps an uploaded file. */
  type FileName = nat

  /** The report reason the client sends; the enum's constants are not part of this model. */
  type ReportType = string

  datatype Role = USER | ADMIN

  /** The authenticated principal: its member id and its role. */
  datatype MemberDetail = MemberDetail(id: MemberId, role: Role)

  /** The kind of row an error code names. */
  datatype Table = Games | Members | Favourites | Reports

  /** The exceptions the service raises or lets escape; the ones with a
      table carry the error code naming it (GAME_NOT_FOUND, MEMBER_NOT_FOUND,
      STARREDGAME_NOT_FOUND, ALREADY_EXIST_STTAREDGAME, ALREADY_EXIST_REPORTEDGAME). */
  datatype Error =
    | NotFound(what: Table)       // NotFoundException
    | AlreadyExists(what: Table)  // AlreadyExistResourceException
    | AccessDenied     // AccessDeniedException: neither owner nor admin
    | BadExtension     // ImageExtensionException: content type is not JPEG
    | Missing          // Optional.get() on an empty Optional
    | IndexOutOfRange  // List.get(0) on an empty list
    | Dangling         // a reference from getReferenceById to a row that does not exist

  datatype Outcome<+T> = Ok(value: T) | Err(error: Error)

  // ---- requests ----

  datatype MultipartFile = MultipartFile(originalName: string, contentType: string)
  datatype GameImageParam = GameImageParam(gameImage: MultipartFile, gameImageDesc: string)
  datatype GameSaveReq = GameSaveReq(gameTitle: string, gameDesc: string, images: seq<GameImageParam>)
  datatype GameImageModifyReq = GameImageModifyReq(gameImageId: ImageId, gameImage: MultipartFile, gameImageDesc: string)
  datatype GameModifyReq = GameModifyReq(gameId: GameId, gameTitle: string, gameDesc: string, images: seq<GameImageModifyReq>)

  // ---- rows ----

  datatype Game = Game(owner: MemberId, title: string, desc: string, thumbnail: FileName, starredCnt: int)
  datatype GameImage = GameImage(game: GameId, fileName: FileName, desc: string)
  /** A StarredGame row (a favourite): the pair (member, game) is its identity. */
  datatype Star = Star(member: MemberId, game: GameId)
  /** The identity of a report: who reported which game. */
  datatype ReportKey = ReportKey(reporter: MemberId, game: GameId)
  datatype ReportedGame = ReportedGame(reported: MemberId, reportType: ReportType)

  /** The tables the repositories read and write, and the next identity each insert receives. */
  datatype Store = Store(
    members: set<MemberId>,
    games: map<GameId, Game>,
    images: map<ImageId, GameImage>,
    starred: set<Star>,
    reports: map<ReportKey, ReportedGame>,
    nextGameId: nat,
    nextImageId: nat)

  /** A service call's result together with the store it leaves behind. */
  datatype Step<+T> = Step(result: Outcome<T>, store: Store)

  // ---- content-type filter ----

  /** `sub` occurs in `s` starting at index `i`. */
  predicate OccursAt(s: string, sub: string, i: nat) {
    i + |sub| <= |s| && s[i..i + |sub|] == sub
  }

  /** Java's String.contains: `sub` occurs in `s` at some position. */
  function Contains(s: string, sub: string): (r: bool)
    ensures r <==> exists i: nat :: OccursAt(s, sub, i)
    decreases |s|
  {
    if |sub| > |s| then
      assert forall i: nat :: !OccursAt(s, sub, i);
      false
    else if s[..|sub|] == sub then
      assert OccursAt(s, sub, 0);
      true
    else
      var rest := Contains(s[1..], sub);
      assert rest ==> exists i: nat :: OccursAt(s, sub, i) by {
        if rest {
          var i: nat :| OccursAt(s[1..], sub, i);
          assert s[1..][i..i + |sub|] == s[i + 1..i + 1 + |sub|];
          assert OccursAt(s, sub, i + 1);
        }
      }
      assert (exists i: nat :: OccursAt(s, sub, i)) ==> rest by {
        if exists i: nat :: OccursAt(s, sub, i) {
          var i: nat :| OccursAt(s, sub, i);
          assert i != 0;
          assert s[1..][i - 1..i - 1 + |sub|] == s[i..i + |sub|];
          assert OccursAt(s[1..], sub, i - 1);
        }
      }
      rest
  }

  const JpegType: string := "image/jpeg"

  /** The only upload the service accepts: a content type that contains "image/jpeg". */
  predicate IsJpeg(contentType: string) {
    Contains(contentType, JpegType)
  }

  // ---- integrity of the store ----

  /** The number of favourite rows that point at game `g`. */
  function StarCount(starred: set<Star>, g: GameId): nat {
    |set k | k in starred && k.game == g|
  }

  /** Game `g` has at least one image row. */
  predicate HasImage(s: Store, g: GameId) {
    exists i :: i in s.images && s.images[i].game == g
  }

  /** The integrity the tables keep between calls: every foreign key points at a
      row that exists, identities lie below the next identity, a game's
      favourite count equals its number of favourite rows, every game has an
      image, and a report names the reported game's owner. */
  predicate Valid(s: Store) {
    && (forall g :: g in s.games ==>
          && g < s.nextGameId
          && s.games[g].owner in s.members
          && s.games[g].starredCnt == StarCount(s.starred, g)
          && HasImage(s, g))
    && (forall i :: i in s.images ==> i < s.nextImageId && s.images[i].game in s.games)
    && (forall k :: k in s.starred ==> k.member in s.members && k.game in s.games)
    && (forall k :: k in s.reports ==>
          && k.reporter in s.members
          && k.game in s.games
          && s.reports[k].reported == s.games[k.game].owner)
  }
}
