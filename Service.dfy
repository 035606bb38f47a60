/** The game service: its repositories are the fields of one object, and each
    operation changes them step by step as the service does. Every method is
    proved against the function of GameRules that describes it, and keeps the
    integrity of the store. */
module Service {
  import opened Domain
  import opened GameRules
  import opened Properties
  import opened Storage

  class GameService {
    var members: set<MemberId>
    var games: map<GameId, Game>
    var images: map<ImageId, GameImage>
    var starred: set<Star>
    var reports: map<ReportKey, ReportedGame>
    var nextGameId: nat
    var nextImageId: nat
    const awsS3: AwsS3

    /** The tables as one value. */
    function State(): Store
      reads this
    {
      Store(members, games, images, starred, reports, nextGameId, nextImageId)
    }

    constructor (s: Store, storage: AwsS3)
      ensures State() == s && awsS3 == storage
    {
      members, games, images, starred, reports := s.members, s.games, s.images, s.starred, s.reports;
      nextGameId, nextImageId := s.nextGameId, s.nextImageId;
      awsS3 := storage;
    }

    // ---- reads: no modifies clause, so they leave the store as it is ----

    method FindGame(gameId: GameId) returns (r: Outcome<GameDetail>)
      ensures r.Ok? <==> gameId in games
      ensures r.Err? ==> r.error == NotFound(Games)
      ensures r.Ok? ==> r.value.gameId == gameId && r.value.game == games[gameId]
      ensures r == GameRules.FindGame(State(), gameId)
    {
      var rows := GameDetailQuery(State(), gameId);
      if |rows| == 0 {
        return Err(NotFound(Games));
      }
      return Ok(rows[0]);
    }

    method FindAllGamesByMemberId(memberId: MemberId) returns (r: Outcome<set<GameId>>)
      ensures r == GameRules.FindAllGamesByMemberId(State(), memberId)
    {
      r := GameRules.FindAllGamesByMemberId(State(), memberId);
    }

    method FindAllStarredGames(memberId: MemberId) returns (r: Outcome<set<GameId>>)
      ensures r.Ok? <==> memberId in members
      ensures r.Err? ==> r.error == NotFound(Members)
      ensures r.Ok? ==> forall g :: g in r.value <==> Star(memberId, g) in starred
    {
      r := GameRules.FindAllStarredGames(State(), memberId);
    }

    // ---- saveGame ----

    method SaveGame(memberId: MemberId, req: GameSaveReq) returns (r: Outcome<GameId>)
      modifies this, awsS3
      ensures Step(r, State()) == GameRules.SaveGame(old(State()), memberId, req, old(|awsS3.blobs|))
      ensures awsS3.blobs == old(awsS3.blobs) + UploadedFiles(req.images)
      ensures Valid(old(State())) ==> Valid(State())
    {
      ghost var before := State();
      var uploaded := UploadGameImages(req);
      if uploaded.Err? {
        return Err(uploaded.error);
      }
      var fileNames := uploaded.value;
      if |fileNames| == 0 {
        return Err(IndexOutOfRange);
      }
      if memberId !in members {
        return Err(Dangling);
      }
      var gameId := nextGameId;
      games := games[gameId := Game(memberId, req.gameTitle, req.gameDesc, fileNames[0], 0)];
      nextGameId := nextGameId + 1;
      var gameImages := CreateGameImage(gameId, req, fileNames);
      assert gameImages == ImageRows(gameId, req.images, fileNames);
      SaveAllImages(gameImages);
      r := Ok(gameId);
      assert State() == GameRules.SaveGame(before, memberId, req, old(|awsS3.blobs|)).store;
      if Valid(before) {
        SaveGameKeepsValid(before, memberId, req, old(|awsS3.blobs|));
      }
    }

    /** uploadGameImages: checks each content type and uploads the file, in
        order; the first refused one stops the loop. */
    method UploadGameImages(req: GameSaveReq) returns (r: Outcome<seq<FileName>>)
      modifies awsS3
      ensures r == if AllJpeg(req.images) then Ok(FileKeys(old(|awsS3.blobs|), |req.images|)) else Err(BadExtension)
      ensures awsS3.blobs == old(awsS3.blobs) + UploadedFiles(req.images)
    {
      var params := req.images;
      var fileNames: seq<FileName> := [];
      for i := 0 to |params|
        invariant forall j :: 0 <= j < i ==> IsJpeg(params[j].gameImage.contentType)
        invariant fileNames == FileKeys(old(|awsS3.blobs|), i)
        invariant |awsS3.blobs| == old(|awsS3.blobs|) + i
        invariant awsS3.blobs + UploadedFiles(params[i..]) == old(awsS3.blobs) + UploadedFiles(params)
      {
        var gameImageParam := params[i];
        if !IsJpeg(gameImageParam.gameImage.contentType) {
          return Err(BadExtension);
        }
        assert params[i..][1..] == params[i + 1..];
        var fileName := awsS3.MultipartFileUpload(gameImageParam.gameImage);
        fileNames := fileNames + [fileName];
      }
      assert params[|params|..] == [];
      return Ok(fileNames);
    }

    /** createGameImage: one image row per submitted image, the i-th with the i-th file name. */
    method CreateGameImage(gameId: GameId, req: GameSaveReq, fileNames: seq<FileName>) returns (gameImages: seq<GameImage>)
      requires |fileNames| >= |req.images|
      ensures |gameImages| == |req.images|
      ensures forall i :: 0 <= i < |req.images| ==>
                gameImages[i] == GameImage(gameId, fileNames[i], req.images[i].gameImageDesc)
    {
      gameImages := [];
      for idx := 0 to |req.images|
        invariant |gameImages| == idx
        invariant forall i :: 0 <= i < idx ==>
                    gameImages[i] == GameImage(gameId, fileNames[i], req.images[i].gameImageDesc)
      {
        var gameImage := GameImage(gameId, fileNames[idx], req.images[idx].gameImageDesc);
        gameImages := gameImages + [gameImage];
      }
    }

    /** gameImageRepository.saveAll: inserts the rows one by one under fresh identities. */
    method SaveAllImages(rows: seq<GameImage>)
      modifies this
      ensures images == old(images) + NewImages(old(nextImageId), rows)
      ensures nextImageId == old(nextImageId) + |rows|
      ensures members == old(members) && games == old(games) && starred == old(starred)
      ensures reports == old(reports) && nextGameId == old(nextGameId)
    {
      for i := 0 to |rows|
        invariant images == old(images) + NewImages(old(nextImageId), rows[..i])
        invariant nextImageId == old(nextImageId) + i
        invariant members == old(members) && games == old(games) && starred == old(starred)
        invariant reports == old(reports) && nextGameId == old(nextGameId)
      {
        assert rows[..i + 1][..i] == rows[..i];
        images := images[nextImageId := rows[i]];
        nextImageId := nextImageId + 1;
      }
      assert rows[..|rows|] == rows;
    }

    // ---- modifyGame ----

    method ModifyGame(who: MemberDetail, req: GameModifyReq) returns (r: Outcome<()>)
      modifies this, awsS3
      ensures Step(r, State()) == GameRules.ModifyGame(old(State()), who, req, old(|awsS3.blobs|))
      ensures awsS3.blobs == old(awsS3.blobs) +
                if CheckAccessValidation(old(State()), who, req.gameId).Ok?
                then ModifyUploads(old(images).Keys, req.images) else []
      ensures Valid(old(State())) ==> Valid(State())
    {
      if Valid(State()) {
        ModifyGameKeepsValid(State(), who, req, |awsS3.blobs|);
      }
      var checked := CheckAccessValidation(State(), who, req.gameId);
      if checked.Err? {
        return Err(checked.error);
      }
      var game := checked.value;
      // what a rollback restores
      var savedGames, savedImages := games, images;
      games := games[req.gameId := game.(title := req.gameTitle, desc := req.gameDesc)];
      r := UpdateGameImages(req.images);
      if r.Err? {
        games, images := savedGames, savedImages;
      }
      assert State() == GameRules.ModifyGame(old(State()), who, req, old(|awsS3.blobs|)).store;
    }

    /** The image loop of modifyGame: each request looks its image up by id,
        checks the content type, uploads the file and rewrites the image. A
        failing request stops the loop; the images rewritten before it stay
        rewritten until the caller rolls back. */
    method UpdateGameImages(reqs: seq<GameImageModifyReq>) returns (r: Outcome<()>)
      modifies this`images, awsS3
      ensures var u := UpdateImages(old(images), reqs, old(|awsS3.blobs|));
        && (u.Ok? ==> r == Ok(()) && images == u.value)
        && (u.Err? ==> r == Err(u.error))
      ensures awsS3.blobs == old(awsS3.blobs) + ModifyUploads(old(images).Keys, reqs)
    {
      var base := |awsS3.blobs|;
      for j := 0 to |reqs|
        invariant images.Keys == old(images).Keys
        invariant UpdateImages(images, reqs[j..], base + j) == UpdateImages(old(images), reqs, base)
        invariant |awsS3.blobs| == base + j
        invariant awsS3.blobs + ModifyUploads(old(images).Keys, reqs[j..]) ==
                  old(awsS3.blobs) + ModifyUploads(old(images).Keys, reqs)
      {
        var imageReq := reqs[j];
        if imageReq.gameImageId !in images {
          return Err(Missing);
        }
        var getGameImage := images[imageReq.gameImageId];
        var contentType := imageReq.gameImage.contentType;
        if !IsJpeg(contentType) {
          return Err(BadExtension);
        }
        assert reqs[j..][1..] == reqs[j + 1..];
        var fileName := awsS3.MultipartFileUpload(imageReq.gameImage);
        images := images[imageReq.gameImageId := getGameImage.(fileName := fileName, desc := imageReq.gameImageDesc)];
      }
      assert reqs[|reqs|..] == [];
      return Ok(());
    }

    // ---- removeGame ----

    method RemoveGame(who: MemberDetail, gameId: GameId) returns (r: Outcome<()>)
      modifies this
      ensures Step(r, State()) == GameRules.RemoveGame(old(State()), who, gameId)
      ensures Valid(old(State())) ==> Valid(State())
    {
      if Valid(State()) {
        RemoveGameKeepsValid(State(), who, gameId);
      }
      var checked := CheckAccessValidation(State(), who, gameId);
      if checked.Err? {
        return Err(checked.error);
      }
      images := ImagesWithoutGame(images, gameId);
      starred := StarsWithoutGame(starred, gameId);
      reports := ReportsWithoutGame(reports, gameId);
      games := games - {gameId};
      return Ok(());
    }

    // ---- favourites and reports ----

    method StarredGame(memberId: MemberId, gameId: GameId) returns (r: Outcome<()>)
      modifies this
      ensures Step(r, State()) == GameRules.StarredGame(old(State()), memberId, gameId)
      ensures Valid(old(State())) ==> Valid(State())
    {
      if Valid(State()) {
        StarredGameKeepsValid(State(), memberId, gameId);
      }
      var isExist := Star(memberId, gameId) in starred;
      if isExist {
        return Err(AlreadyExists(Favourites));
      }
      // the references from getReferenceById fail on rows that do not exist
      if gameId !in games || memberId !in members {
        return Err(Dangling);
      }
      var game := games[gameId];
      games := games[gameId := game.(starredCnt := game.starredCnt + 1)];
      starred := starred + {Star(memberId, gameId)};
      return Ok(());
    }

    method UnStarredGame(memberId: MemberId, gameId: GameId) returns (r: Outcome<()>)
      modifies this
      ensures Step(r, State()) == GameRules.UnStarredGame(old(State()), memberId, gameId)
      ensures Valid(old(State())) ==> Valid(State())
    {
      if Valid(State()) {
        UnStarredGameKeepsValid(State(), memberId, gameId);
      }
      var checked := CheckGameValidation(State(), gameId);
      if checked.Err? {
        return Err(checked.error);
      }
      var game := checked.value;
      if Star(memberId, gameId) !in starred {
        return Err(NotFound(Favourites));
      }
      games := games[gameId := game.(starredCnt := game.starredCnt - 1)];
      starred := starred - {Star(memberId, gameId)};
      return Ok(());
    }

    method ReportGame(memberId: MemberId, gameId: GameId, reportType: ReportType) returns (r: Outcome<()>)
      modifies this
      ensures Step(r, State()) == GameRules.ReportGame(old(State()), memberId, gameId, reportType)
      ensures Valid(old(State())) ==> Valid(State())
    {
      if Valid(State()) {
        ReportGameKeepsValid(State(), memberId, gameId, reportType);
      }
      var isExist := ReportKey(memberId, gameId) in reports;
      if isExist {
        return Err(AlreadyExists(Reports));
      }
      var checked := CheckGameValidation(State(), gameId);
      if checked.Err? {
        return Err(checked.error);
      }
      var game := checked.value;
      if memberId !in members {
        return Err(Dangling);
      }
      reports := reports[ReportKey(memberId, gameId) := ReportedGame(game.owner, reportType)];
      return Ok(());
    }
  }
}
