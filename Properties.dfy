/** Properties of the game service's operations, proved about the functions of
    GameRules. */
module Properties {
  import opened Domain
  import opened GameRules

  // ---- the content-type filter ----

  /** The filter passes a JPEG type, also with parameters after it or other
      text before it, and refuses PNG, although the comment beside it names
      PNG as allowed. */
  lemma JpegOnly()
    ensures IsJpeg("image/jpeg")
    ensures IsJpeg("image/jpeg; charset=binary")
    ensures IsJpeg("multipart/image/jpeg")
    ensures !IsJpeg("image/png")
  {
    assert OccursAt("image/jpeg; charset=binary", JpegType, 0);
    assert "multipart/image/jpeg"[10..20] == JpegType;
    assert OccursAt("multipart/image/jpeg", JpegType, 10);
  }

  // ---- favourite counts ----

  lemma StarCountAdd(starred: set<Star>, k: Star, g: GameId)
    requires k !in starred
    ensures StarCount(starred + {k}, g) == StarCount(starred, g) + (if k.game == g then 1 else 0)
  {
    var before := set x | x in starred && x.game == g;
    var after := set x | x in starred + {k} && x.game == g;
    if k.game == g {
      assert after == before + {k};
    } else {
      assert after == before;
    }
  }

  lemma StarCountRemove(starred: set<Star>, k: Star, g: GameId)
    requires k in starred
    ensures StarCount(starred - {k}, g) + (if k.game == g then 1 else 0) == StarCount(starred, g)
  {
    var before := set x | x in starred && x.game == g;
    var after := set x | x in starred - {k} && x.game == g;
    if k.game == g {
      assert before == after + {k};
    } else {
      assert after == before;
    }
  }

  lemma StarCountWithoutGame(starred: set<Star>, g: GameId, h: GameId)
    ensures StarCount(StarsWithoutGame(starred, g), h) == if h == g then 0 else StarCount(starred, h)
  {
    var after := set x | x in StarsWithoutGame(starred, g) && x.game == h;
    if h == g {
      assert after == {};
    } else {
      assert after == set x | x in starred && x.game == h;
    }
  }

  // ---- uploads ----

  /** The files of `params`, in order. */
  function Files(params: seq<GameImageParam>): seq<MultipartFile> {
    seq(|params|, i requires 0 <= i < |params| => params[i].gameImage)
  }

  /** uploadGameImages uploads everything when every image passes, and
      otherwise exactly the images before the first refused one. */
  lemma {:induction false} UploadedFilesPrefix(params: seq<GameImageParam>, n: nat)
    requires n <= |params|
    requires forall j :: 0 <= j < n ==> IsJpeg(params[j].gameImage.contentType)
    requires n < |params| ==> !IsJpeg(params[n].gameImage.contentType)
    ensures UploadedFiles(params) == Files(params[..n])
    decreases n
  {
    if n == 0 {
      assert Files(params[..0]) == [];
    } else {
      UploadedFilesPrefix(params[1..], n - 1);
      assert params[1..][..n - 1] == params[1..n];
      assert Files(params[..n]) == [params[0].gameImage] + Files(params[1..n]);
    }
  }

  // ---- the image loop of modifyGame ----

  /** The image loop of modifyGame uploads the file of each request, in order,
      up to the first request that is not admissible, and no further. */
  lemma {:induction false} ModifyUploadsPrefix(ids: set<ImageId>, reqs: seq<GameImageModifyReq>)
    ensures var r := ModifyUploads(ids, reqs);
      && |r| <= |reqs|
      && (forall i :: 0 <= i < |r| ==> r[i] == reqs[i].gameImage && Admissible(ids, reqs[i]))
      && (|r| < |reqs| ==> !Admissible(ids, reqs[|r|]))
    decreases |reqs|
  {
    if reqs != [] && Admissible(ids, reqs[0]) {
      ModifyUploadsPrefix(ids, reqs[1..]);
    }
  }

  /** The loop succeeds exactly when every request is admissible. */
  lemma {:induction false} UpdateImagesOkIff(images: map<ImageId, GameImage>, reqs: seq<GameImageModifyReq>, key: FileName)
    ensures UpdateImages(images, reqs, key).Ok? <==>
              forall j :: 0 <= j < |reqs| ==> Admissible(images.Keys, reqs[j])
    decreases |reqs|
  {
    if reqs != [] && Admissible(images.Keys, reqs[0]) {
      var req := reqs[0];
      var next := images[req.gameImageId := images[req.gameImageId].(fileName := key, desc := req.gameImageDesc)];
      assert next.Keys == images.Keys;
      UpdateImagesOkIff(next, reqs[1..], key + 1);
      assert forall j :: 1 <= j < |reqs| ==> reqs[j] == reqs[1..][j - 1];
    }
  }

  /** The first request that is not admissible decides the error: Missing when
      its image is absent (the lookup comes first), BadExtension otherwise. */
  lemma {:induction false} UpdateImagesFirstError(images: map<ImageId, GameImage>, reqs: seq<GameImageModifyReq>, key: FileName, n: nat)
    requires n < |reqs|
    requires forall j :: 0 <= j < n ==> Admissible(images.Keys, reqs[j])
    requires !Admissible(images.Keys, reqs[n])
    ensures UpdateImages(images, reqs, key) ==
              if reqs[n].gameImageId !in images then Err(Missing) else Err(BadExtension)
    decreases n
  {
    if n > 0 {
      var req := reqs[0];
      assert Admissible(images.Keys, req);
      var next := images[req.gameImageId := images[req.gameImageId].(fileName := key, desc := req.gameImageDesc)];
      assert next.Keys == images.Keys;
      UpdateImagesFirstError(next, reqs[1..], key + 1, n - 1);
    }
  }

  /** No request after the j-th names the j-th request's image. */
  predicate LastRequestFor(reqs: seq<GameImageModifyReq>, j: nat)
    requires j < |reqs|
  {
    forall j' :: j < j' < |reqs| ==> reqs[j'].gameImageId != reqs[j].gameImageId
  }

  /** After a successful loop the same images exist; an image no request names
      is unchanged; a named image carries the key and description of the last
      request that names it, and keeps its game. */
  lemma {:induction false} UpdateImagesResult(images: map<ImageId, GameImage>, reqs: seq<GameImageModifyReq>, key: FileName)
    requires UpdateImages(images, reqs, key).Ok?
    ensures UpdateImages(images, reqs, key).value.Keys == images.Keys
    ensures forall id :: id in images ==> UpdateImages(images, reqs, key).value[id].game == images[id].game
    ensures forall id :: id in images && (forall j :: 0 <= j < |reqs| ==> reqs[j].gameImageId != id) ==>
              UpdateImages(images, reqs, key).value[id] == images[id]
    ensures forall j :: 0 <= j < |reqs| && LastRequestFor(reqs, j) ==>
              reqs[j].gameImageId in images &&
              UpdateImages(images, reqs, key).value[reqs[j].gameImageId] ==
                images[reqs[j].gameImageId].(fileName := key + j, desc := reqs[j].gameImageDesc)
    decreases |reqs|
  {
    if reqs != [] {
      var req := reqs[0];
      var next := images[req.gameImageId := images[req.gameImageId].(fileName := key, desc := req.gameImageDesc)];
      var rest := reqs[1..];
      UpdateImagesResult(next, rest, key + 1);
      var m := UpdateImages(images, reqs, key).value;
      assert m == UpdateImages(next, rest, key + 1).value;
      forall id | id in images && (forall j :: 0 <= j < |reqs| ==> reqs[j].gameImageId != id)
        ensures m[id] == images[id]
      {
        assert reqs[0].gameImageId != id;
        assert forall j :: 0 <= j < |rest| ==> rest[j] == reqs[j + 1];
      }
      forall j | 0 <= j < |reqs| && LastRequestFor(reqs, j)
        ensures reqs[j].gameImageId in images
        ensures m[reqs[j].gameImageId] == images[reqs[j].gameImageId].(fileName := key + j, desc := reqs[j].gameImageDesc)
      {
        var id := reqs[j].gameImageId;
        if j == 0 {
          assert forall j' :: 0 <= j' < |rest| ==> rest[j'] == reqs[j' + 1];
        } else {
          assert rest[j - 1] == reqs[j];
          assert LastRequestFor(rest, j - 1);
        }
      }
    }
  }

  // ---- starredGame and unStarredGame ----

  /** starredGame refuses an existing pair before anything else; without it,
      it fails only on a missing game or member row; on success it adds exactly
      the pair, raises that game's count by one and changes nothing else. */
  lemma StarredGameOutcome(s: Store, memberId: MemberId, gameId: GameId)
    ensures var r := StarredGame(s, memberId, gameId);
      && (r.result == Err(AlreadyExists(Favourites)) <==> Star(memberId, gameId) in s.starred)
      && (r.result == Err(Dangling) <==>
            Star(memberId, gameId) !in s.starred && (gameId !in s.games || memberId !in s.members))
      && (r.result.Ok? <==>
            Star(memberId, gameId) !in s.starred && gameId in s.games && memberId in s.members)
      && (r.result.Ok? ==>
            && r.store.starred == s.starred + {Star(memberId, gameId)}
            && r.store.games.Keys == s.games.Keys
            && r.store.games[gameId] == s.games[gameId].(starredCnt := s.games[gameId].starredCnt + 1)
            && (forall h :: h in s.games && h != gameId ==> r.store.games[h] == s.games[h])
            && r.store.(games := s.games, starred := s.starred) == s)
  {
  }

  /** Starring the same pair again fails with AlreadyExists and changes nothing. */
  lemma StarredGameTwice(s: Store, memberId: MemberId, gameId: GameId)
    requires StarredGame(s, memberId, gameId).result.Ok?
    ensures var t := StarredGame(s, memberId, gameId).store;
      StarredGame(t, memberId, gameId) == Step(Err(AlreadyExists(Favourites)), t)
  {
  }

  /** unStarredGame undoes starredGame: the store is back where it was. */
  lemma StarredThenUnStarred(s: Store, memberId: MemberId, gameId: GameId)
    requires StarredGame(s, memberId, gameId).result.Ok?
    ensures UnStarredGame(StarredGame(s, memberId, gameId).store, memberId, gameId) == Step(Ok(()), s)
  {
    var k := Star(memberId, gameId);
    var t := StarredGame(s, memberId, gameId).store;
    assert t.starred - {k} == s.starred;
    assert t.games[gameId := t.games[gameId].(starredCnt := t.games[gameId].starredCnt - 1)] == s.games;
  }

  /** unStarredGame checks the game first: a missing game is reported as such
      whether or not the pair exists. Only for an existing game does a missing
      pair fail, with the favourite's NotFound. On success it removes exactly
      the pair, lowers that game's count by one and changes nothing else. */
  lemma UnStarredGameOutcome(s: Store, memberId: MemberId, gameId: GameId)
    ensures var r := UnStarredGame(s, memberId, gameId);
      && (r.result == Err(NotFound(Games)) <==> gameId !in s.games)
      && (r.result == Err(NotFound(Favourites)) <==> gameId in s.games && Star(memberId, gameId) !in s.starred)
      && (r.result.Ok? <==> gameId in s.games && Star(memberId, gameId) in s.starred)
      && (r.result.Ok? ==>
            && r.store.starred == s.starred - {Star(memberId, gameId)}
            && r.store.games.Keys == s.games.Keys
            && r.store.games[gameId] == s.games[gameId].(starredCnt := s.games[gameId].starredCnt - 1)
            && (forall h :: h in s.games && h != gameId ==> r.store.games[h] == s.games[h])
            && r.store.(games := s.games, starred := s.starred) == s)
  {
  }

  /** An immediate second unStarredGame fails with NotFound and changes nothing. */
  lemma UnStarredGameTwice(s: Store, memberId: MemberId, gameId: GameId)
    requires UnStarredGame(s, memberId, gameId).result.Ok?
    ensures var t := UnStarredGame(s, memberId, gameId).store;
      UnStarredGame(t, memberId, gameId) == Step(Err(NotFound(Favourites)), t)
  {
  }

  // ---- reportGame ----

  /** reportGame refuses a duplicate report before it checks that the game
      exists; on success it stores exactly one report naming the game's owner
      and the given type. */
  lemma ReportGameOutcome(s: Store, memberId: MemberId, gameId: GameId, reportType: ReportType)
    ensures var r := ReportGame(s, memberId, gameId, reportType);
      var key := ReportKey(memberId, gameId);
      && (r.result == Err(AlreadyExists(Reports)) <==> key in s.reports)
      && (r.result == Err(NotFound(Games)) <==> key !in s.reports && gameId !in s.games)
      && (r.result == Err(Dangling) <==> key !in s.reports && gameId in s.games && memberId !in s.members)
      && (r.result.Ok? <==> key !in s.reports && gameId in s.games && memberId in s.members)
      && (r.result.Ok? ==>
            r.store == s.(reports := s.reports[key := ReportedGame(s.games[gameId].owner, reportType)]))
  {
  }

  /** Reporting the same game again fails with AlreadyExists and changes nothing. */
  lemma ReportGameTwice(s: Store, memberId: MemberId, gameId: GameId, reportType: ReportType, again: ReportType)
    requires ReportGame(s, memberId, gameId, reportType).result.Ok?
    ensures var t := ReportGame(s, memberId, gameId, reportType).store;
      ReportGame(t, memberId, gameId, again) == Step(Err(AlreadyExists(Reports)), t)
  {
  }

  // ---- removeGame ----

  /** removeGame fails exactly when the access check fails, with its error. */
  lemma RemoveGameOutcome(s: Store, who: MemberDetail, gameId: GameId)
    ensures var r := RemoveGame(s, who, gameId);
      && (r.result.Ok? <==> gameId in s.games && (who.role == ADMIN || who.id == s.games[gameId].owner))
      && (r.result.Err? ==> r.result.error == CheckAccessValidation(s, who, gameId).error)
  {
  }

  /** After removeGame no game, image, favourite or report row refers to the
      game, and every row of another game is still there, unchanged. */
  lemma RemoveGameCascades(s: Store, who: MemberDetail, gameId: GameId)
    requires RemoveGame(s, who, gameId).result.Ok?
    ensures var t := RemoveGame(s, who, gameId).store;
      && gameId !in t.games
      && (forall i :: i in t.images ==> t.images[i].game != gameId)
      && (forall k :: k in t.starred ==> k.game != gameId)
      && (forall k :: k in t.reports ==> k.game != gameId)
      && (forall h :: h in t.games <==> h in s.games && h != gameId)
      && (forall h :: h in t.games ==> t.games[h] == s.games[h])
      && (forall i :: i in t.images <==> i in s.images && s.images[i].game != gameId)
      && (forall i :: i in t.images ==> t.images[i] == s.images[i])
      && (forall k :: k in t.starred <==> k in s.starred && k.game != gameId)
      && (forall k :: k in t.reports <==> k in s.reports && k.game != gameId)
      && (forall k :: k in t.reports ==> t.reports[k] == s.reports[k])
      && t.members == s.members
  {
  }

  /** After removeGame the detail lookup of the game fails with NotFound. */
  lemma RemoveThenFindGame(s: Store, who: MemberDetail, gameId: GameId)
    requires RemoveGame(s, who, gameId).result.Ok?
    ensures FindGame(RemoveGame(s, who, gameId).store, gameId) == Err(NotFound(Games))
  {
  }

  // ---- saveGame ----

  /** saveGame fails with BadExtension when any image is not JPEG, then with
      IndexOutOfRange when there is no image, then on an unknown member; it
      succeeds otherwise. */
  lemma SaveGameOutcome(s: Store, memberId: MemberId, req: GameSaveReq, base: FileName)
    ensures var r := SaveGame(s, memberId, req, base);
      && (r.result == Err(BadExtension) <==> exists j :: 0 <= j < |req.images| && !IsJpeg(req.images[j].gameImage.contentType))
      && (r.result == Err(IndexOutOfRange) <==> AllJpeg(req.images) && |req.images| == 0)
      && (r.result == Err(Dangling) <==> AllJpeg(req.images) && |req.images| > 0 && memberId !in s.members)
      && (r.result.Ok? <==> AllJpeg(req.images) && |req.images| > 0 && memberId in s.members)
  {
  }

  /** A successful saveGame adds exactly one game, owned by the caller, with no
      favourites and the first upload as thumbnail, and one image per
      submitted image, in order, the i-th with the i-th upload; no existing row
      changes. */
  lemma SaveGameCreates(s: Store, memberId: MemberId, req: GameSaveReq, base: FileName)
    requires Valid(s)
    requires SaveGame(s, memberId, req, base).result.Ok?
    ensures var r := SaveGame(s, memberId, req, base);
      var t, g, n := r.store, r.result.value, |req.images|;
      && g !in s.games
      && (forall h :: h in t.games <==> h in s.games || h == g)
      && t.games[g] == Game(memberId, req.gameTitle, req.gameDesc, base, 0)
      && (forall h :: h in s.games ==> t.games[h] == s.games[h])
      && (forall i :: i in t.images <==> i in s.images || s.nextImageId <= i < s.nextImageId + n)
      && (forall i :: i in s.images ==> t.images[i] == s.images[i])
      && (forall j :: 0 <= j < n ==>
            t.images[s.nextImageId + j] == GameImage(g, base + j, req.images[j].gameImageDesc))
      && t.starred == s.starred && t.reports == s.reports && t.members == s.members
  {
    var g, n := s.nextGameId, |req.images|;
    var rows := ImageRows(g, req.images, FileKeys(base, n));
    var added := NewImages(s.nextImageId, rows);
    var t := SaveGame(s, memberId, req, base).store;
    assert t.images == s.images + added;
    forall j | 0 <= j < n ensures t.images[s.nextImageId + j] == GameImage(g, base + j, req.images[j].gameImageDesc) {
      assert added[s.nextImageId + j] == rows[j];
    }
    forall i | i in s.images ensures t.images[i] == s.images[i] {
      assert i !in added;
    }
  }

  /** The thumbnail of a saved game is the file of its first image. */
  lemma SaveGameThumbnail(s: Store, memberId: MemberId, req: GameSaveReq, base: FileName)
    requires SaveGame(s, memberId, req, base).result.Ok?
    ensures var r := SaveGame(s, memberId, req, base);
      var first := r.store.images[s.nextImageId];
      && first.game == r.result.value
      && r.store.games[r.result.value].thumbnail == first.fileName
      && first.desc == req.images[0].gameImageDesc
  {
    var g, n := s.nextGameId, |req.images|;
    var rows := ImageRows(g, req.images, FileKeys(base, n));
    var added := NewImages(s.nextImageId, rows);
    assert SaveGame(s, memberId, req, base).store.images == s.images + added;
    assert added[s.nextImageId + 0] == rows[0] == GameImage(g, base, req.images[0].gameImageDesc);
  }

  // ---- modifyGame ----

  /** modifyGame fails with the access check's error first; after it, exactly
      when some image request is not admissible. On success only the game's
      title and description change, no image is added or removed, an image no
      request names is unchanged and a named one carries the last request's
      upload and description. */
  lemma ModifyGameOutcome(s: Store, who: MemberDetail, req: GameModifyReq, base: FileName)
    ensures var r := ModifyGame(s, who, req, base);
      var access := CheckAccessValidation(s, who, req.gameId);
      && (access.Err? ==> r.result == Err(access.error))
      && (access.Ok? ==>
            (r.result.Ok? <==> forall j :: 0 <= j < |req.images| ==> Admissible(s.images.Keys, req.images[j])))
      && (r.result.Ok? ==>
            && r.store.games == s.games[req.gameId := s.games[req.gameId].(title := req.gameTitle, desc := req.gameDesc)]
            && r.store.images.Keys == s.images.Keys
            && (forall id :: id in s.images && (forall j :: 0 <= j < |req.images| ==> req.images[j].gameImageId != id) ==>
                  r.store.images[id] == s.images[id])
            && (forall j :: 0 <= j < |req.images| && LastRequestFor(req.images, j) ==>
                  r.store.images[req.images[j].gameImageId] ==
                    s.images[req.images[j].gameImageId].(fileName := base + j, desc := req.images[j].gameImageDesc))
            && r.store.(games := s.games, images := s.images) == s)
  {
    UpdateImagesOkIff(s.images, req.images, base);
    if ModifyGame(s, who, req, base).result.Ok? {
      UpdateImagesResult(s.images, req.images, base);
    }
  }

  /** After the access check, the first request that is not admissible decides
      the error: Missing when its image does not exist, BadExtension otherwise. */
  lemma ModifyGameFirstError(s: Store, who: MemberDetail, req: GameModifyReq, base: FileName, n: nat)
    requires CheckAccessValidation(s, who, req.gameId).Ok?
    requires n < |req.images|
    requires forall j :: 0 <= j < n ==> Admissible(s.images.Keys, req.images[j])
    requires !Admissible(s.images.Keys, req.images[n])
    ensures ModifyGame(s, who, req, base) ==
              Step(if req.images[n].gameImageId !in s.images then Err(Missing) else Err(BadExtension), s)
  {
    UpdateImagesFirstError(s.images, req.images, base, n);
  }

  /** Images are looked up by id alone: a member who owns game 1 and nothing
      else rewrites the image of member 2's game 2 through modifyGame of game 1. */
  lemma ModifyReachesOtherGamesImages()
    ensures var s := Store({1, 2},
                           map[1 := Game(1, "mine", "", 0, 0), 2 := Game(2, "theirs", "", 1, 0)],
                           map[10 := GameImage(1, 0, ""), 11 := GameImage(2, 1, "")],
                           {}, map[], 3, 12);
            var req := GameModifyReq(1, "mine", "", [GameImageModifyReq(11, MultipartFile("x.jpg", "image/jpeg"), "changed")]);
            var r := ModifyGame(s, MemberDetail(1, USER), req, 2);
            && Valid(s)
            && r.result.Ok?
            && r.store.images[11] == GameImage(2, 2, "changed")
  {
    JpegOnly();
    var s := Store({1, 2},
                   map[1 := Game(1, "mine", "", 0, 0), 2 := Game(2, "theirs", "", 1, 0)],
                   map[10 := GameImage(1, 0, ""), 11 := GameImage(2, 1, "")],
                   {}, map[], 3, 12);
    assert HasImage(s, 1) by { assert s.images[10].game == 1; }
    assert HasImage(s, 2) by { assert s.images[11].game == 2; }
    assert StarCount({}, 1) == 0 && StarCount({}, 2) == 0;
  }

  // ---- the integrity of the store is kept ----

  /** Every game's favourite count equals its number of favourite rows, so it is never negative. */
  lemma ValidCountsNonNegative(s: Store, gameId: GameId)
    requires Valid(s) && gameId in s.games
    ensures s.games[gameId].starredCnt >= 0
  {
  }

  lemma StarredGameKeepsValid(s: Store, memberId: MemberId, gameId: GameId)
    requires Valid(s)
    ensures Valid(StarredGame(s, memberId, gameId).store)
  {
    var r := StarredGame(s, memberId, gameId);
    if r.result.Ok? {
      var t, k := r.store, Star(memberId, gameId);
      forall h | h in t.games
        ensures t.games[h].starredCnt == StarCount(t.starred, h) && HasImage(t, h)
      {
        StarCountAdd(s.starred, k, h);
        var i :| i in s.images && s.images[i].game == h;
        assert t.images[i].game == h;
      }
    }
  }

  lemma UnStarredGameKeepsValid(s: Store, memberId: MemberId, gameId: GameId)
    requires Valid(s)
    ensures Valid(UnStarredGame(s, memberId, gameId).store)
  {
    var r := UnStarredGame(s, memberId, gameId);
    if r.result.Ok? {
      var t, k := r.store, Star(memberId, gameId);
      forall h | h in t.games
        ensures t.games[h].starredCnt == StarCount(t.starred, h) && HasImage(t, h)
      {
        StarCountRemove(s.starred, k, h);
        var i :| i in s.images && s.images[i].game == h;
        assert t.images[i].game == h;
      }
    }
  }

  lemma ReportGameKeepsValid(s: Store, memberId: MemberId, gameId: GameId, reportType: ReportType)
    requires Valid(s)
    ensures Valid(ReportGame(s, memberId, gameId, reportType).store)
  {
    var r := ReportGame(s, memberId, gameId, reportType);
    if r.result.Ok? {
      var t := r.store;
      forall h | h in t.games ensures HasImage(t, h) {
        var i :| i in s.images && s.images[i].game == h;
        assert t.images[i].game == h;
      }
    }
  }

  lemma RemoveGameKeepsValid(s: Store, who: MemberDetail, gameId: GameId)
    requires Valid(s)
    ensures Valid(RemoveGame(s, who, gameId).store)
  {
    var r := RemoveGame(s, who, gameId);
    if r.result.Ok? {
      var t := r.store;
      forall h | h in t.games
        ensures t.games[h].starredCnt == StarCount(t.starred, h) && HasImage(t, h)
      {
        StarCountWithoutGame(s.starred, gameId, h);
        var i :| i in s.images && s.images[i].game == h;
        assert i in t.images && t.images[i].game == h;
      }
    }
  }

  lemma SaveGameKeepsValid(s: Store, memberId: MemberId, req: GameSaveReq, base: FileName)
    requires Valid(s)
    ensures Valid(SaveGame(s, memberId, req, base).store)
  {
    var r := SaveGame(s, memberId, req, base);
    if r.result.Ok? {
      SaveGameOutcome(s, memberId, req, base);
      SaveGameCreates(s, memberId, req, base);
      var t, g, n := r.store, r.result.value, |req.images|;
      assert (set k | k in s.starred && k.game == g) == {};
      assert req.images[0] in req.images;
      assert t.images[s.nextImageId + 0].game == g;
      forall i | i in t.images ensures i < t.nextImageId && t.images[i].game in t.games {
        if i !in s.images {
          var j := i - s.nextImageId;
          assert req.images[j] in req.images;
          assert t.images[s.nextImageId + j].game == g;
        }
      }
      forall h | h in t.games
        ensures t.games[h].starredCnt == StarCount(t.starred, h) && HasImage(t, h)
      {
        if h != g {
          var i :| i in s.images && s.images[i].game == h;
          assert t.images[i].game == h;
        }
      }
    }
  }

  lemma ModifyGameKeepsValid(s: Store, who: MemberDetail, req: GameModifyReq, base: FileName)
    requires Valid(s)
    ensures Valid(ModifyGame(s, who, req, base).store)
  {
    var r := ModifyGame(s, who, req, base);
    if r.result.Ok? {
      var t := r.store;
      UpdateImagesResult(s.images, req.images, base);
      assert t.images == UpdateImages(s.images, req.images, base).value;
      forall h | h in t.games ensures HasImage(t, h) {
        var i :| i in s.images && s.images[i].game == h;
        assert t.images[i].game == h;
      }
    }
  }

  // ---- a whole session ----

  /** Member 1 creates "Quiz A" with two images; its detail shows the title,
      both images and no favourites. Member 5 stars it (count 1), stars it
      again (AlreadyExists) and unstars it (count 0). Member 9, neither owner
      nor admin, cannot remove it; member 1 can, and the game is gone. */
  lemma Session()
    ensures
      var s0 := Store({1, 5, 9}, map[], map[], {}, map[], 0, 0);
      var jpeg := MultipartFile("q.jpg", "image/jpeg");
      var req := GameSaveReq("Quiz A", "d", [GameImageParam(jpeg, "one"), GameImageParam(jpeg, "two")]);
      var created := SaveGame(s0, 1, req, 0);
      var g := created.result.value;
      var s1 := created.store;
      var s2 := StarredGame(s1, 5, g).store;
      var s3 := UnStarredGame(s2, 5, g).store;
      && created.result == Ok(0)
      && FindGame(s1, g).Ok?
      && FindGame(s1, g).value.game.title == "Quiz A"
      && FindGame(s1, g).value.images.Keys == {0, 1}
      && FindGame(s1, g).value.game.starredCnt == 0
      && StarredGame(s1, 5, g).result.Ok? && s2.games[g].starredCnt == 1
      && StarredGame(s2, 5, g) == Step(Err(AlreadyExists(Favourites)), s2)
      && UnStarredGame(s2, 5, g).result.Ok? && s3.games[g].starredCnt == 0
      && RemoveGame(s3, MemberDetail(9, USER), g) == Step(Err(AccessDenied), s3)
      && RemoveGame(s3, MemberDetail(1, USER), g).result.Ok?
      && FindGame(RemoveGame(s3, MemberDetail(1, USER), g).store, g) == Err(NotFound(Games))
  {
    JpegOnly();
    var s0 := Store({1, 5, 9}, map[], map[], {}, map[], 0, 0);
    var jpeg := MultipartFile("q.jpg", "image/jpeg");
    var req := GameSaveReq("Quiz A", "d", [GameImageParam(jpeg, "one"), GameImageParam(jpeg, "two")]);
    assert AllJpeg(req.images);
    var created := SaveGame(s0, 1, req, 0);
    var s1 := created.store;
    var rows := ImageRows(0, req.images, FileKeys(0, 2));
    assert s1.images == NewImages(0, rows);
    assert rows[0].game == 0 && rows[1].game == 0;
    assert s1.images.Keys == {0, 1};
    assert ImagesOf(s1.images, 0).Keys == {0, 1};
    StarredGameTwice(s1, 5, 0);
    var s2 := StarredGame(s1, 5, 0).store;
    RemoveThenFindGame(UnStarredGame(s2, 5, 0).store, MemberDetail(1, USER), 0);
  }
}
