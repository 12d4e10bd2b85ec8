/** `StudentsController.Index`: the notices a student sees on the landing page. */
module Students {
  import opened Types
  import opened Listing
  import opened Tables
  import opened NoticeModel

  /** How many notices the landing page shows. */
  const PageSize := 5

  /** Active, and either never expiring or expiring strictly after `now`. */
  function IsVisible(n: Notice, now: Ticks): (ok: bool)
    ensures ok ==> n.isActive
    ensures n.expireDate.Some? && n.expireDate.value <= now ==> !ok
    ensures n.isActive && n.expireDate.None? ==> ok
  {
    n.isActive && (n.expireDate.None? || n.expireDate.value > now)
  }

  /** A freshly constructed notice is active and never expires. */
  lemma NewNoticeVisible(utcNow: Ticks, now: Ticks)
    ensures IsVisible(NewNotice(utcNow), now)
  {
  }

  /** Every visible notice left off the page is no newer than any on it. */
  lemma PageHoldsNewest(rows: seq<Notice>, now: Ticks, sorted: seq<Notice>)
    requires SortedDesc(sorted, EntryKey)
    requires forall x :: x in rows && IsVisible(x, now) ==> x in sorted
    ensures forall x :: x in rows && IsVisible(x, now) && x !in Take(sorted, PageSize) ==>
      forall j :: 0 <= j < |Take(sorted, PageSize)| ==> x.entryDate <= Take(sorted, PageSize)[j].entryDate
  {
    forall x | x in rows && IsVisible(x, now) && x !in Take(sorted, PageSize) {
      TakeKeepsTop(sorted, PageSize, EntryKey, x);
    }
  }

  /** The LINQ query over the materialised rows: `Where` visible,
      `OrderByDescending(EntryDate)`, `Take(5)`. */
  function LatestVisible(rows: seq<Notice>, now: Ticks): (r: seq<Notice>)
    ensures |r| <= PageSize
    ensures Distinct(rows) ==> Distinct(r)
    ensures forall j :: 0 <= j < |r| ==> r[j] in rows && IsVisible(r[j], now)
    ensures SortedDesc(r, EntryKey)
    ensures forall x :: x in rows && IsVisible(x, now) && x !in r ==>
      forall j :: 0 <= j < |r| ==> x.entryDate <= r[j].entryDate
    ensures |r| < PageSize ==> forall x :: x in rows && IsVisible(x, now) ==> x in r
  {
    var visible := Filter(rows, n => IsVisible(n, now));
    var sorted := SortDesc(visible, EntryKey);
    SameMembers(visible, sorted);
    assert Distinct(rows) ==> Distinct(sorted) by {
      if Distinct(rows) {
        DistinctMultiset(visible, sorted);
      }
    }
    PageHoldsNewest(rows, now, sorted);
    Take(sorted, PageSize)
  }

  /** GET `Index`: the visible notices, newest entry first, at most five of
      them: the five most recent visible ones, or all of them when there are fewer. */
  method VisibleNotices(notices: Table<Notice>, now: Ticks) returns (r: seq<Notice>)
    requires TableWf(notices, NoticeId)
    ensures |r| <= PageSize
    ensures Distinct(r)
    ensures forall j :: 0 <= j < |r| ==>
      r[j].id in notices.rows && notices.rows[r[j].id] == r[j] && IsVisible(r[j], now)
    ensures forall k :: k in notices.rows && notices.rows[k].expireDate == Some(now) ==> notices.rows[k] !in r
    ensures SortedDesc(r, EntryKey)
    ensures forall k, j :: (k in notices.rows && IsVisible(notices.rows[k], now) && notices.rows[k] !in r
                            && 0 <= j < |r|) ==> notices.rows[k].entryDate <= r[j].entryDate
    ensures |r| < PageSize ==>
      forall k :: k in notices.rows && IsVisible(notices.rows[k], now) ==> notices.rows[k] in r
  {
    var rows := Rows(notices, NoticeId);
    r := LatestVisible(rows, now);
  }
}
