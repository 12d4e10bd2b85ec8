/** The `Notice` entity: a board announcement with an entry date and an optional expiry. */
module NoticeModel {
  import opened Types
  import opened Annotations

  datatype Notice = Notice(
    id: int,
    subject: Option<string>,
    description: Option<string>,
    entryDate: Ticks,
    expireDate: Option<Ticks>,  // null: never expires
    isActive: bool)

  function NoticeId(n: Notice): int { n.id }

  function EntryKey(n: Notice): int { n.entryDate }

  /** `ModelState.IsValid` for a posted notice: `Subject` is `[Required, StringLength(200)]`;
      `Description` is a non-nullable `string` in a nullable-enabled project, which
      MVC validates as implicitly `[Required]`. */
  function NoticeValid(n: Notice): (ok: bool)
    ensures ok ==> n.subject.Some? && 1 <= |n.subject.value| <= 200
    ensures ok ==> n.description.Some? && |n.description.value| >= 1
  {
    && Required(n.subject) && StringLength(n.subject, 200)
    && Required(n.description)
  }

  /** `new Notice()` constructed at UTC time `utcNow`. */
  function NewNotice(utcNow: Ticks): (n: Notice)
    ensures n.entryDate == utcNow
    ensures n.isActive && n.expireDate.None?
    ensures !NoticeValid(n)
  {
    Notice(0, None, None, utcNow, None, true)
  }
}
