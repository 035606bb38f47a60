/** What each operation of the game service does to the store, as functions of
    the store before the call. A transition returns the store after the call;
    when it fails, the transaction rolls back and the store is the one it was
    given. */
module GameRules {
  import opened Domain

  // ---- guards ----

  /** checkGameValidation: the game row, or NotFound. */
  function CheckGameValidation(s: Store, gameId: GameId): (r: Outcome<Game>)
    ensures r.Ok? <==> gameId in s.games
    ensures r.Ok? ==> r.value == s.games[gameId]
    ensures r.Err? ==> r.error == NotFound(Games)
  {
    if gameId in s.games then Ok(s.games[gameId]) else Err(NotFound(Games))
  }

  /** checkAccessValidation: an existing game may be changed by an admin or by its owner. */
  function CheckAccessValidation(s: Store, who: MemberDetail, gameId: GameId): (r: Outcome<Game>)
    ensures r == Err(NotFound(Games)) <==> gameId !in s.games
    ensures r == Err(AccessDenied) <==>
              gameId in s.games && who.role != ADMIN && who.id != s.games[gameId].owner
    ensures r.Ok? <==> gameId in s.games && (who.role == ADMIN || who.id == s.games[gameId].owner)
    ensures r.Ok? ==> r.value == s.games[gameId]
  {
    match CheckGameValidation(s, gameId)
    case Err(e) => Err(e)
    case Ok(game) =>
      if who.role == ADMIN then Ok(game)
      else if who.id != game.owner then Err(AccessDenied)
      else Ok(game)
  }

  // ---- reads ----

  /** A row of the game-detail query: the game and its images. */
  datatype GameDetail = GameDetail(gameId: GameId, game: Game, images: map<ImageId, GameImage>)

  /** The images of game `g`. */
  function ImagesOf(images: map<ImageId, GameImage>, g: GameId): map<ImageId, GameImage> {
    map i | i in images && images[i].game == g :: images[i]
  }

  /** The game-detail query of the game repository: one row for a game that exists, none otherwise. */
  function GameDetailQuery(s: Store, gameId: GameId): seq<GameDetail> {
    if gameId in s.games then [GameDetail(gameId, s.games[gameId], ImagesOf(s.images, gameId))] else []
  }

  /** findGame: the first row of the detail query, or NotFound when it has none. */
  function FindGame(s: Store, gameId: GameId): (r: Outcome<GameDetail>)
    ensures r.Ok? <==> gameId in s.games
    ensures r.Err? ==> r.error == NotFound(Games)
    ensures r.Ok? ==> r.value.game == s.games[gameId]
    ensures r.Ok? ==> r.value.gameId == gameId
    ensures r.Ok? ==> forall i :: i in r.value.images <==> i in s.images && s.images[i].game == gameId
    ensures r.Ok? ==> forall i :: i in r.value.images ==> r.value.images[i] == s.images[i]
  {
    var rows := GameDetailQuery(s, gameId);
    if |rows| == 0 then Err(NotFound(Games)) else Ok(rows[0])
  }

  /** findAllGamesByMemberId without paging: the games the member owns, or NotFound for an unknown member. */
  function FindAllGamesByMemberId(s: Store, memberId: MemberId): (r: Outcome<set<GameId>>)
    ensures r.Ok? <==> memberId in s.members
    ensures r.Err? ==> r.error == NotFound(Members)
    ensures r.Ok? ==> forall g :: g in r.value <==> g in s.games && s.games[g].owner == memberId
  {
    if memberId !in s.members then Err(NotFound(Members))
    else Ok(set g | g in s.games && s.games[g].owner == memberId)
  }

  /** findAllStarredGames: the games the member has starred, or NotFound for an unknown member. */
  function FindAllStarredGames(s: Store, memberId: MemberId): (r: Outcome<set<GameId>>)
    ensures r.Ok? <==> memberId in s.members
    ensures r.Err? ==> r.error == NotFound(Members)
    ensures r.Ok? ==> forall g :: g in r.value <==> Star(memberId, g) in s.starred
  {
    if memberId !in s.members then Err(NotFound(Members))
    else
      var gs := set k | k in s.starred && k.member == memberId :: k.game;
      assert forall g :: Star(memberId, g) in s.starred ==> g in gs by {
        forall g | Star(memberId, g) in s.starred ensures g in gs {
          var k := Star(memberId, g);
          assert k in s.starred && k.member == memberId;
        }
      }
      Ok(gs)
  }

  // ---- saveGame ----

  /** Every submitted image passes the content-type filter. */
  predicate AllJpeg(params: seq<GameImageParam>) {
    forall i :: 0 <= i < |params| ==> IsJpeg(params[i].gameImage.contentType)
  }

  /** The files uploadGameImages hands to the object storage: each one before
      the first that fails the content-type filter. */
  function UploadedFiles(params: seq<GameImageParam>): seq<MultipartFile> {
    if params == [] || !IsJpeg(params[0].gameImage.contentType) then []
    else [params[0].gameImage] + UploadedFiles(params[1..])
  }

  /** The keys the object storage hands out for `n` uploads when it already holds `base` files. */
  function FileKeys(base: FileName, n: nat): seq<FileName> {
    seq(n, i => base + i)
  }

  /** The image rows createGameImage builds: the i-th gets the i-th file name. */
  function ImageRows(gameId: GameId, params: seq<GameImageParam>, fileNames: seq<FileName>): seq<GameImage>
    requires |fileNames| >= |params|
  {
    seq(|params|, i requires 0 <= i < |params| => GameImage(gameId, fileNames[i], params[i].gameImageDesc))
  }

  /** The rows saveAll inserts, one after the other, under consecutive
      identities starting at `first`. */
  function NewImages(first: ImageId, rows: seq<GameImage>): (m: map<ImageId, GameImage>)
    ensures forall k :: k in m <==> first <= k < first + |rows|
    ensures forall j :: 0 <= j < |rows| ==> m[first + j] == rows[j]
    decreases |rows|
  {
    if rows == [] then map[]
    else
      var init := rows[..|rows| - 1];
      var m := NewImages(first, init)[first + |rows| - 1 := rows[|rows| - 1]];
      assert forall j :: 0 <= j < |rows| - 1 ==> init[j] == rows[j];
      m
  }

  /** saveGame, when the object storage holds `base` files before the call. */
  function SaveGame(s: Store, memberId: MemberId, req: GameSaveReq, base: FileName): (r: Step<GameId>)
    ensures r.result.Err? ==> r.store == s
  {
    if !AllJpeg(req.images) then Step(Err(BadExtension), s)
    else if |req.images| == 0 then Step(Err(IndexOutOfRange), s)
    else if memberId !in s.members then Step(Err(Dangling), s)
    else
      var gameId := s.nextGameId;
      var fileNames := FileKeys(base, |req.images|);
      var rows := ImageRows(gameId, req.images, fileNames);
      Step(Ok(gameId),
           s.(games := s.games[gameId := Game(memberId, req.gameTitle, req.gameDesc, fileNames[0], 0)],
              images := s.images + NewImages(s.nextImageId, rows),
              nextGameId := s.nextGameId + 1,
              nextImageId := s.nextImageId + |rows|))
  }

  // ---- modifyGame ----

  /** The image loop of modifyGame: each request looks its image up by id
      (Missing when absent), checks the content type, and gives the image the
      next upload key and the new description. */
  function UpdateImages(images: map<ImageId, GameImage>, reqs: seq<GameImageModifyReq>, key: FileName)
    : (r: Outcome<map<ImageId, GameImage>>)
    ensures r.Err? ==> r.error == Missing || r.error == BadExtension
    ensures r.Ok? ==> r.value.Keys == images.Keys
    decreases |reqs|
  {
    if reqs == [] then Ok(images)
    else
      var req := reqs[0];
      if req.gameImageId !in images then Err(Missing)
      else if !IsJpeg(req.gameImage.contentType) then Err(BadExtension)
      else
        var image := images[req.gameImageId];
        UpdateImages(images[req.gameImageId := image.(fileName := key, desc := req.gameImageDesc)], reqs[1..], key + 1)
  }

  /** An image request modifyGame gets past: its image exists and its content type is accepted. */
  predicate Admissible(ids: set<ImageId>, req: GameImageModifyReq) {
    req.gameImageId in ids && IsJpeg(req.gameImage.contentType)
  }

  /** The files modifyGame's image loop uploads: each request's file until the
      first request whose image is absent or whose content type is refused. */
  function ModifyUploads(ids: set<ImageId>, reqs: seq<GameImageModifyReq>): seq<MultipartFile> {
    if reqs == [] || !Admissible(ids, reqs[0]) then []
    else [reqs[0].gameImage] + ModifyUploads(ids, reqs[1..])
  }

  /** modifyGame, when the object storage holds `base` files before the call. */
  function ModifyGame(s: Store, who: MemberDetail, req: GameModifyReq, base: FileName): (r: Step<()>)
    ensures r.result.Err? ==> r.store == s
  {
    match CheckAccessValidation(s, who, req.gameId)
    case Err(e) => Step(Err(e), s)
    case Ok(game) =>
      match UpdateImages(s.images, req.images, base)
      case Err(e) => Step(Err(e), s)
      case Ok(images) =>
        Step(Ok(()), s.(games := s.games[req.gameId := game.(title := req.gameTitle, desc := req.gameDesc)],
                        images := images))
  }

  // ---- removeGame ----

  /** gameImageRepository.deleteByGameId */
  function ImagesWithoutGame(images: map<ImageId, GameImage>, g: GameId): map<ImageId, GameImage> {
    map i | i in images && images[i].game != g :: images[i]
  }

  /** starredGameRepository.deleteByGameId */
  function StarsWithoutGame(starred: set<Star>, g: GameId): set<Star> {
    set k | k in starred && k.game != g
  }

  /** reportedGameRepository.deleteByGameId */
  function ReportsWithoutGame(reports: map<ReportKey, ReportedGame>, g: GameId): map<ReportKey, ReportedGame> {
    map k | k in reports && k.game != g :: reports[k]
  }

  /** removeGame: the access check, then the dependent rows, then the game row. */
  function RemoveGame(s: Store, who: MemberDetail, gameId: GameId): (r: Step<()>)
    ensures r.result.Err? ==> r.store == s
  {
    match CheckAccessValidation(s, who, gameId)
    case Err(e) => Step(Err(e), s)
    case Ok(_) =>
      Step(Ok(()), s.(images := ImagesWithoutGame(s.images, gameId),
                      starred := StarsWithoutGame(s.starred, gameId),
                      reports := ReportsWithoutGame(s.reports, gameId),
                      games := s.games - {gameId}))
  }

  // ---- favourites and reports ----

  /** starredGame: refuses a duplicate; otherwise adds the pair and raises the
      game's count. The game is not looked up first: the references from
      getReferenceById fail (Dangling) when their rows are missing. */
  function StarredGame(s: Store, memberId: MemberId, gameId: GameId): (r: Step<()>)
    ensures r.result.Err? ==> r.store == s
  {
    if Star(memberId, gameId) in s.starred then Step(Err(AlreadyExists(Favourites)), s)
    else if gameId !in s.games || memberId !in s.members then Step(Err(Dangling), s)
    else
      var game := s.games[gameId];
      Step(Ok(()), s.(games := s.games[gameId := game.(starredCnt := game.starredCnt + 1)],
                      starred := s.starred + {Star(memberId, gameId)}))
  }

  /** unStarredGame: the game must exist, then the pair; removes the pair and lowers the count. */
  function UnStarredGame(s: Store, memberId: MemberId, gameId: GameId): (r: Step<()>)
    ensures r.result.Err? ==> r.store == s
  {
    match CheckGameValidation(s, gameId)
    case Err(e) => Step(Err(e), s)
    case Ok(game) =>
      if Star(memberId, gameId) !in s.starred then Step(Err(NotFound(Favourites)), s)
      else
        Step(Ok(()), s.(games := s.games[gameId := game.(starredCnt := game.starredCnt - 1)],
                        starred := s.starred - {Star(memberId, gameId)}))
  }

  /** reportGame: refuses a duplicate before it looks the game up; the report
      names the game's owner as the reported member. */
  function ReportGame(s: Store, memberId: MemberId, gameId: GameId, reportType: ReportType): (r: Step<()>)
    ensures r.result.Err? ==> r.store == s
  {
    if ReportKey(memberId, gameId) in s.reports then Step(Err(AlreadyExists(Reports)), s)
    else
      match CheckGameValidation(s, gameId)
      case Err(e) => Step(Err(e), s)
      case Ok(game) =>
        if memberId !in s.members then Step(Err(Dangling), s)
        else Step(Ok(()), s.(reports := s.reports[ReportKey(memberId, gameId) := ReportedGame(game.owner, reportType)]))
  }
}
