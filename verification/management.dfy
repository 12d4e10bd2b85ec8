/** `ManagementController`: the notice board and advertisement screens as
    transformers of the `Notices` and `Banners` tables. */
module Management {
  import opened Types
  import opened Annotations
  import opened Listing
  import opened Tables
  import opened NoticeModel
  import opened BannerModel

  /** Where uploaded banner images are served from. */
  const ImageFolder := "/images/banners/"

  /** The name an uploader without an identity is recorded under. */
  const SystemName := "System"

  // ---------------------------------------------------------------- notices

  /** GET `Notice`: every notice, newest entry first. */
  method ListNotices(notices: Table<Notice>) returns (r: seq<Notice>)
    requires TableWf(notices, NoticeId)
    ensures Distinct(r)
    ensures forall k :: k in notices.rows ==> notices.rows[k] in r
    ensures forall j :: 0 <= j < |r| ==> r[j].id in notices.rows && notices.rows[r[j].id] == r[j]
    ensures SortedDesc(r, EntryKey)
  {
    var rows := Rows(notices, NoticeId);
    r := SortDesc(rows, EntryKey);
    DistinctMultiset(rows, r);
    SameMembers(rows, r);
  }

  /** POST `CreateNotice`: a valid notice is stored under a new key, with a
      default entry date replaced by the current UTC time. */
  function CreateNotice(notices: Table<Notice>, model: Notice, utcNow: Ticks): (r: Result<Table<Notice>>)
    requires TableWf(notices, NoticeId)
    ensures TableWf(r.store, NoticeId)
    ensures r.outcome == Ok <==> NoticeValid(model)
    ensures r.outcome != Ok ==> r == Result(notices, Invalid)
    ensures r.outcome == Ok ==>
      && r.store.rows.Keys == notices.rows.Keys + {notices.nextId}
      && |r.store.rows| == |notices.rows| + 1
      && (forall k :: k in notices.rows ==> r.store.rows[k] == notices.rows[k])
    ensures r.outcome == Ok ==>
      var n := r.store.rows[notices.nextId];
      && n.subject == model.subject
      && n.description == model.description
      && n.expireDate == model.expireDate
      && n.isActive == model.isActive
      && (model.entryDate == DefaultTicks ==> n.entryDate == utcNow)
      && (model.entryDate != DefaultTicks ==> n.entryDate == model.entryDate)
  {
    if !NoticeValid(model) then Result(notices, Invalid)
    else
      var entry := if model.entryDate == DefaultTicks then utcNow else model.entryDate;
      Result(Insert(notices, model.(id := notices.nextId, entryDate := entry)), Ok)
  }

  /** POST `EditNotice(id, model)`: the route id must match the posted one, the
      model must be valid and the notice must exist; then its editable fields
      are overwritten. */
  function EditNotice(notices: Table<Notice>, id: int, model: Notice): (r: Result<Table<Notice>>)
    requires TableWf(notices, NoticeId)
    ensures TableWf(r.store, NoticeId)
    ensures id != model.id ==> r == Result(notices, IdMismatch)
    ensures id == model.id && !NoticeValid(model) ==> r == Result(notices, Invalid)
    ensures id == model.id && NoticeValid(model) && id !in notices.rows ==> r == Result(notices, NotFound)
    ensures r.outcome == Ok <==> id == model.id && NoticeValid(model) && id in notices.rows
    ensures r.outcome == Ok ==>
      && r.store.rows.Keys == notices.rows.Keys
      && r.store.nextId == notices.nextId
      && (forall k :: k in notices.rows && k != id ==> r.store.rows[k] == notices.rows[k])
    ensures r.outcome == Ok ==>
      var n := r.store.rows[id];
      && n.id == id
      && n.subject == model.subject
      && n.description == model.description
      && n.entryDate == model.entryDate
      && n.expireDate == model.expireDate
      && n.isActive == model.isActive
  {
    if id != model.id then Result(notices, IdMismatch)
    else if !NoticeValid(model) then Result(notices, Invalid)
    else if id !in notices.rows then Result(notices, NotFound)
    else
      var existing := notices.rows[id];
      var updated := existing.(subject := model.subject, description := model.description,
                               entryDate := model.entryDate, expireDate := model.expireDate,
                               isActive := model.isActive);
      Result(Replace(notices, id, updated), Ok)
  }

  /** Posting the same edit twice leaves the board as one post does. */
  lemma EditNoticeIdempotent(notices: Table<Notice>, id: int, model: Notice)
    requires TableWf(notices, NoticeId)
    ensures var once := EditNotice(notices, id, model).store;
            EditNotice(once, id, model).store == once
  {
    var once := EditNotice(notices, id, model).store;
    if EditNotice(notices, id, model).outcome == Ok {
      assert once.rows[id := once.rows[id]] == once.rows;
    }
  }

  // ---------------------------------------------------------------- banners

  /** GET `Advertisement`: every banner, latest start date first. */
  method ListAdvertisements(banners: Table<Banner>) returns (r: seq<Banner>)
    requires TableWf(banners, BannerId)
    ensures Distinct(r)
    ensures forall k :: k in banners.rows ==> banners.rows[k] in r
    ensures forall j :: 0 <= j < |r| ==> r[j].id in banners.rows && banners.rows[r[j].id] == r[j]
    ensures SortedDesc(r, StartKey)
  {
    var rows := Rows(banners, BannerId);
    r := SortDesc(rows, StartKey);
    DistinctMultiset(rows, r);
    SameMembers(rows, r);
  }

  /** POST `CreateAdvertisement`. A valid banner with a non-empty image is
      stored under a new key, pointing at the uploaded file `fileName`, active,
      with no impressions, one click, and the uploader's name. */
  function CreateAdvertisement(banners: Table<Banner>, model: Banner, image: Option<Upload>,
                               fileName: string, identity: Option<string>, now: Ticks): (r: Result<Table<Banner>>)
    requires TableWf(banners, BannerId)
    ensures TableWf(r.store, BannerId)
    ensures !BannerValid(model) ==> r == Result(banners, Invalid)
    ensures BannerValid(model) && !HasContent(image) ==> r == Result(banners, MissingImage)
    ensures r.outcome == Ok <==> BannerValid(model) && HasContent(image)
    ensures r.outcome == Ok ==>
      && r.store.rows.Keys == banners.rows.Keys + {banners.nextId}
      && |r.store.rows| == |banners.rows| + 1
      && (forall k :: k in banners.rows ==> r.store.rows[k] == banners.rows[k])
    ensures r.outcome == Ok ==>
      var b := r.store.rows[banners.nextId];
      && b.imagePath == Some(ImageFolder + fileName)
      && b.isActive && b.impressions == 0 && b.clicks == 1
      && b.createdAt == now
      && b.createdBy == Some(identity.GetOr(SystemName))
      && b.companyName == model.companyName && b.title == model.title
      && b.clickUrl == model.clickUrl && b.bannerType == model.bannerType
      && b.target == model.target && b.startDate == model.startDate
      && b.endDate == model.endDate && b.priority == model.priority
      && b.description == model.description
      && b.updatedAt == model.updatedAt && b.updatedBy == model.updatedBy
  {
    if !BannerValid(model) then Result(banners, Invalid)
    else if !HasContent(image) then Result(banners, MissingImage)
    else
      var b := model.(id := banners.nextId, imagePath := Some(ImageFolder + fileName),
                      createdAt := now, isActive := true, impressions := 0, clicks := 1,
                      createdBy := Some(identity.GetOr(SystemName)));
      Result(Insert(banners, b), Ok)
  }

  /** The folder prefix takes 16 code units of an image path. */
  lemma ImageFolderLength(fileName: string)
    ensures Utf16Length(ImageFolder + fileName) == 16 + Utf16Length(fileName)
  {
    var folder := ImageFolder;
    assert |folder| == 16;
    assert forall i :: 0 <= i < |folder| ==> folder[i] as int <= 0xFFFF;
    Utf16LengthBmp(folder);
    Utf16LengthAppend(folder, fileName);
  }

  /** The image path `CreateAdvertisement` stores, `ImageFolder + fileName`, stays
      within its 1000-unit column exactly when the file name takes at most 984 units. */
  lemma CreatedImagePathFits(fileName: string)
    ensures StringLength(Some(ImageFolder + fileName), 1000) <==> Utf16Length(fileName) <= 984
  {
    ImageFolderLength(fileName);
  }

  /** POST `EditAdvertisement`. The image path is exempt from validation; a
      banner that exists gets its content fields from the form, a new image
      path only when a file arrives, and the editor's stamp. Activity, counters
      and the creation stamp stay as they were. */
  function EditAdvertisement(banners: Table<Banner>, model: Banner, image: Option<Upload>,
                             fileName: string, identity: Option<string>, now: Ticks): (r: Result<Table<Banner>>)
    requires TableWf(banners, BannerId)
    ensures TableWf(r.store, BannerId)
    ensures !BannerFieldsValid(model) ==> r == Result(banners, Invalid)
    ensures BannerFieldsValid(model) && model.id !in banners.rows ==> r == Result(banners, NotFound)
    ensures r.outcome == Ok <==> BannerFieldsValid(model) && model.id in banners.rows
    ensures r.outcome == Ok ==>
      && r.store.rows.Keys == banners.rows.Keys
      && r.store.nextId == banners.nextId
      && (forall k :: k in banners.rows && k != model.id ==> r.store.rows[k] == banners.rows[k])
    ensures r.outcome == Ok ==>
      var before := banners.rows[model.id];
      var b := r.store.rows[model.id];
      && b.id == before.id
      && b.isActive == before.isActive
      && b.impressions == before.impressions && b.clicks == before.clicks
      && b.createdAt == before.createdAt && b.createdBy == before.createdBy
      && b.imagePath == (if HasContent(image) then Some(ImageFolder + fileName) else before.imagePath)
      && b.companyName == model.companyName && b.title == model.title
      && b.clickUrl == model.clickUrl && b.bannerType == model.bannerType
      && b.target == model.target && b.startDate == model.startDate
      && b.endDate == model.endDate && b.priority == model.priority
      && b.description == model.description
      && b.updatedAt == Some(now)
      && b.updatedBy == Some(identity.GetOr(SystemName))
  {
    if !BannerFieldsValid(model) then Result(banners, Invalid)
    else if model.id !in banners.rows then Result(banners, NotFound)
    else
      var existing := banners.rows[model.id];
      var withImage := if HasContent(image) then existing.(imagePath := Some(ImageFolder + fileName)) else existing;
      var updated := withImage.(companyName := model.companyName, title := model.title,
                                clickUrl := model.clickUrl, bannerType := model.bannerType,
                                target := model.target, startDate := model.startDate,
                                endDate := model.endDate, priority := model.priority,
                                description := model.description, updatedAt := Some(now),
                                updatedBy := Some(identity.GetOr(SystemName)));
      Result(Replace(banners, model.id, updated), Ok)
  }

  /** `DeactivateAdvertisement(id)`: a soft delete that clears one banner's
      active flag and touches nothing else. */
  function DeactivateAdvertisement(banners: Table<Banner>, id: int): (r: Result<Table<Banner>>)
    requires TableWf(banners, BannerId)
    ensures TableWf(r.store, BannerId)
    ensures id !in banners.rows ==> r == Result(banners, NotFound)
    ensures id in banners.rows ==>
      && r.outcome == Ok
      && r.store.rows.Keys == banners.rows.Keys
      && r.store.nextId == banners.nextId
      && !r.store.rows[id].isActive
      && r.store.rows[id].(isActive := true) == banners.rows[id].(isActive := true)
      && (forall k :: k in banners.rows && k != id ==> r.store.rows[k] == banners.rows[k])
  {
    if id !in banners.rows then Result(banners, NotFound)
    else Result(Replace(banners, id, banners.rows[id].(isActive := false)), Ok)
  }

  /** Deactivating twice leaves the table as deactivating once. */
  lemma DeactivateIdempotent(banners: Table<Banner>, id: int)
    requires TableWf(banners, BannerId)
    ensures var once := DeactivateAdvertisement(banners, id).store;
            DeactivateAdvertisement(once, id).store == once
  {
    var once := DeactivateAdvertisement(banners, id).store;
    if id in banners.rows {
      assert once.rows[id := once.rows[id].(isActive := false)] == once.rows;
    }
  }

  /** An edit never reactivates a deactivated banner. */
  lemma EditKeepsDeactivation(banners: Table<Banner>, id: int, model: Banner, image: Option<Upload>,
                              fileName: string, identity: Option<string>, now: Ticks)
    requires TableWf(banners, BannerId)
    requires id in banners.rows
    ensures var off := DeactivateAdvertisement(banners, id).store;
            !EditAdvertisement(off, model, image, fileName, identity, now).store.rows[id].isActive
  {
  }
}
