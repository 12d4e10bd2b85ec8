/** The `Banner` entity: an advertisement with a display window and counters. */
module BannerModel {
  import opened Types
  import opened Annotations

  /** `BannerTypeEnum`; only its default member is named in the entity. */
  datatype BannerType = Slider | OtherType(code: int)

  datatype Banner = Banner(
    id: int,
    companyName: Option<string>,
    title: Option<string>,
    imagePath: Option<string>,
    startDate: Ticks,
    endDate: Ticks,
    isActive: bool,
    clickUrl: Option<string>,
    target: Option<string>,
    bannerType: BannerType,
    priority: int,
    impressions: int,
    clicks: int,
    createdAt: Ticks,
    updatedAt: Option<Ticks>,
    createdBy: Option<string>,
    updatedBy: Option<string>,
    description: Option<string>)

  function BannerId(b: Banner): int { b.id }

  function StartKey(b: Banner): int { b.startDate }

  const DefaultTarget := "_blank"

  /** Every validation rule of the entity except the one on `ImagePath`.
      `Target` is a non-nullable `string`, hence implicitly `[Required]`. */
  function BannerFieldsValid(b: Banner): (ok: bool)
    ensures ok ==> b.companyName.Some? && 1 <= |b.companyName.value| <= 1000
    ensures ok ==> b.target.Some? && 1 <= |b.target.value| <= 20
  {
    && Required(b.companyName) && StringLength(b.companyName, 1000)
    && StringLength(b.title, 500)
    && StringLength(b.clickUrl, 5000)
    && Required(b.target) && StringLength(b.target, 20)
    && StringLength(b.createdBy, 100)
    && StringLength(b.updatedBy, 100)
    && StringLength(b.description, 5000)
  }

  /** `ModelState.IsValid` for a posted banner. */
  function BannerValid(b: Banner): (ok: bool)
    ensures ok ==> BannerFieldsValid(b)
    ensures ok && b.imagePath.Some? ==> |b.imagePath.value| <= 1000
  {
    BannerFieldsValid(b) && StringLength(b.imagePath, 1000)
  }

  /** `new Banner()` constructed at local time `now`. */
  function NewBanner(now: Ticks): (b: Banner)
    ensures b.isActive && b.impressions == 0 && b.clicks == 0 && b.priority == 1
    ensures b.target == Some(DefaultTarget) && b.bannerType == Slider && b.createdAt == now
    ensures !BannerValid(b)
  {
    Banner(0, None, None, None, 0, 0, true, None, Some(DefaultTarget), Slider,
           1, 0, 0, now, None, None, None, None)
  }

  /** The construction defaults satisfy every bound: a new banner is valid
      as soon as a company name is supplied. */
  lemma NewBannerNeedsOnlyCompany(now: Ticks, company: string)
    requires Required(Some(company)) && Utf16Length(company) <= 1000
    ensures BannerValid(NewBanner(now).(companyName := Some(company)))
  {
    var target := DefaultTarget;
    assert |target| == 6 && !IsWhiteSpace(target[0]);
    assert forall i :: 0 <= i < |target| ==> target[i] as int <= 0xFFFF;
    Utf16LengthBmp(target);
    var b := NewBanner(now).(companyName := Some(company));
    assert b.target == Some(target);
    assert Required(b.target) && StringLength(b.target, 20);
    assert BannerFieldsValid(b);
  }
}
