# DNN portal core in Dafny

A model of the logic inside a small ASP.NET Core portal: the admin notice
board and advertisement (banner) screens, student registration with its
password hash, and the student landing page's list of current notices.
Database tables are immutable values, each controller action is a pure
function (or, for list pages, a method) from a table to a new table and an
outcome, and the validation attributes on the entity classes are predicates.

Layout, one module per file:

- `types.dfy` (`Types`): nullable values, `DateTime` as ticks, bytes, uploads, outcomes.
- `annotations.dfy` (`Annotations`): `[Required]`, `[StringLength]`, format attributes; .NET string length in UTF-16 code units.
- `listing.dfy` (`Listing`): `Where`, `OrderByDescending` (order of equal keys left open), `Take` over sequences.
- `tables.dfy` (`Tables`): a table with an identity primary key (seed 1, step 1), insert, replace, and materialising all rows.
- `notice.dfy`, `banner.dfy`, `user.dfy`, `registration.dfy`: the entities, their defaults and validity predicates.
- `hex.dfy` (`Hex`): `byte.ToString("x2")` over a byte array and its inverse.
- `home.dfy` (`Home`): `HashPassword` and POST `Register`.
- `management.dfy` (`Management`): notice and banner list/create/edit/deactivate.
- `students.dfy` (`Students`): the landing page's notice query.

Inputs that the running program takes from its environment are parameters:
the clock (`utcNow` for notice creation, `now` elsewhere, as the source uses
`DateTime.UtcNow` and `DateTime.Now` respectively), the signed-in identity's
name, the generated upload file name (a GUID plus the original extension),
the SHA-256 function and the framework's e-mail and phone format checks.
The database supplies keys: `Table.nextId` is the identity column's next
value, so an insert never reuses a key. Every operation takes a table that
satisfies `TableWf` (each row stored under its own id, every id below
`nextId`), the invariant a primary key with an identity column maintains,
and returns one that still satisfies it.

Behaviour of the code worth knowing:

- Validation uses the .NET semantics: `[Required]` rejects null, empty and
  all-white-space strings (`Char.IsWhiteSpace`); `[StringLength(n)]` lets null
  through and counts UTF-16 code units; model binding turns an empty field into null.
- The project has nullable reference types enabled (`string?` in
  `Models/Banner.cs`, `NOT NULL` columns for non-nullable strings in the
  migration). MVC then validates every non-nullable `string` property as
  implicitly `[Required]`, so `Notice.Description` and `Banner.Target` are
  required in `NoticeValid` and `BannerFieldsValid`.
- The password hash is unsalted: one fixed digest, the same at every call.
- Only banners can be deactivated; the notice screens have no deactivate
  action. The advertisement list orders by start date; no controller
  filters banners by their date window.
- `EditNotice` checks the route id before validity; `EditAdvertisement` has
  no route id check and validates everything except `ImagePath`.

## Model

| member | source | states |
|---|---|---|
| `NoticeModel.NewNotice` | Models/Notice.cs:6-22 | a new notice is dated at construction time, active, never expires, and is not yet valid because it has no subject |
| `BannerModel.NewBanner` | Models/Banner.cs:28-45 | a new banner is active, targets `_blank`, has priority 1, no impressions or clicks, type `Slider`, and is not yet valid because it has no company |
| `BannerModel.NewBannerNeedsOnlyCompany` | Models/Banner.cs:11-56 | the construction defaults meet every length bound: supplying a non-blank company name of at most 1000 code units makes a new banner valid |
| `RegistrationModel.MismatchedConfirmationInvalid` | Models/ViewModels/RegistrationViewModel.cs:15-17 | a confirmation that differs from the password makes the form invalid |
| `RegistrationModel.ProfileImageIrrelevant` | Models/ViewModels/RegistrationViewModel.cs:36-38 | the attached profile image never changes whether the form is valid |
| `Hex.ByteToHex` | Controllers/HomeController.cs:89 | one byte becomes two lower-case hex digits whose values, high first, make up the byte |
| `Hex.BytesToHex` | Controllers/HomeController.cs:88-90 | the rendering has exactly two characters per byte, all lower-case hex digits |
| `Hex.ParseHex` | Controllers/HomeController.cs:89 | the reader accepts exactly the even-length strings of lower-case hex digits, giving one byte per digit pair |
| `Hex.ParseBytesToHex` | Controllers/HomeController.cs:89 | reading back a rendering recovers the bytes |
| `Hex.BytesToHexParse` | Controllers/HomeController.cs:89 | every string the reader accepts is the rendering of the bytes it reads, so the rendering is a bijection onto lower-case hex strings |
| `Hex.BytesToHexInjective` | Controllers/HomeController.cs:89 | different byte arrays never render to the same string |
| `Home.HashPassword` | Controllers/HomeController.cs:83-91 | the stored hash has 64 lower-case hex characters and decodes to the password's SHA-256 digest |
| `Home.SameHashIffSameDigest` | Controllers/HomeController.cs:83-91 | two passwords share a stored hash exactly when their digests agree; with no salt, equal passwords always share it |
| `Home.Register` | Controllers/HomeController.cs:40-80 | an invalid form or a taken user name leaves the users unchanged with the matching outcome; otherwise exactly one user is added under a new key, active, dated now, holding the password's hash and the form's name, full name, e-mail, phone and role; unique user names stay unique |
| `Annotations.Required` | Models/Notice.cs:10 | `[Required]`: a non-null string with at least one non-white-space character |
| `Annotations.StringLength` | Models/Notice.cs:10 | `[StringLength(n)]`: null passes; otherwise at most n UTF-16 code units, hence at most n characters |
| `NoticeModel.NoticeValid` | Models/Notice.cs:10-13 | a valid notice has a non-blank subject of at most 200 code units and a non-blank description |
| `BannerModel.BannerFieldsValid` | Controllers/ManagementController.cs:201 | the banner rules with the `ImagePath` entry removed: non-blank company of at most 1000 units, non-blank target of at most 20, and the title, URL, creator, editor and description bounds |
| `BannerModel.BannerValid` | Models/Banner.cs:11-56 | every banner attribute, including an image path of at most 1000 units |
| `RegistrationModel.RegistrationValid` | Models/ViewModels/RegistrationViewModel.cs:7-30 | a valid form has a user name of 1-50 units, a password of 1-256 units confirmed by an equal value, a full name of 1-100 units, an e-mail and a phone number of 1-20 units accepted by the format checks |
| `UserModel.UserValid` | Models/User.cs:13-39 | the `User` attributes: user name 1-50, hash 1-256, full name 1-100, e-mail and phone (1-20) present and well-formed, image path at most 200 |
| `UserModel.UniqueUsernames` | Models/User.cs:7 | the unique index: a user name identifies at most one row |
| `UserModel.UsernameTaken` | Controllers/HomeController.cs:48 | a name is free exactly when no stored user has it |
| `Students.IsVisible` | Controllers/StudentsController.cs:18 | a visible notice is active; an expiry at or before now hides it, the comparison being strict; an active notice without expiry is always shown |
| `Management.CreatedImagePathFits` | Controllers/ManagementController.cs:131-141 | the image path the create action stores, the banner folder followed by the generated file name, fits its 1000-unit bound exactly when the generated file name takes at most 984 units |
| `Home.RegisterSameNameTwice` | Controllers/HomeController.cs:48-52 | after a successful registration, a second valid form with the same user name gets `UserExists` and leaves the users, the first one included, as they were |
| `Home.RegisteredUserValid` | Models/User.cs:13-39 | a user created from a valid form meets every validation attribute of `User`, the 64-character hash fitting the 256 limit |
| `Management.ListNotices` | Controllers/ManagementController.cs:17-25 | the list holds every stored notice exactly once and nothing else, ordered by entry date, newest first |
| `Management.CreateNotice` | Controllers/ManagementController.cs:34-50 | an invalid notice leaves the table unchanged; a valid one is added under a new key with its fields as posted and its entry date replaced by the UTC time only when it was the default date; no other notice changes |
| `Management.EditNotice` | Controllers/ManagementController.cs:66-98 | a route id different from the posted id, an invalid model or a missing notice each leave the table unchanged with their own outcome; a successful edit overwrites subject, description, entry date, expiry and activity of that one notice, keeping its id and every other notice |
| `Management.EditNoticeIdempotent` | Controllers/ManagementController.cs:84-90 | posting the same edit twice gives the same table as posting it once |
| `Management.ListAdvertisements` | Controllers/ManagementController.cs:100-107 | the list holds every stored banner exactly once and nothing else, ordered by start date, latest first |
| `Management.CreateAdvertisement` | Controllers/ManagementController.cs:116-182 | an invalid banner gives `Invalid` and a missing or empty image gives `MissingImage`, both with the table unchanged; otherwise one banner is added under a new key with the image under `/images/banners/`, active, no impressions, one click, created now by the identity or `System`, other fields as posted |
| `Management.EditAdvertisement` | Controllers/ManagementController.cs:199-262 | invalid fields or a missing banner leave the table unchanged; a successful edit takes the content fields from the form, stamps the editor and time, changes the image path only when a file arrives, and keeps activity, counters, creation stamp and every other banner |
| `Management.DeactivateAdvertisement` | Controllers/ManagementController.cs:266-281 | a missing id leaves the table unchanged; otherwise only that banner's active flag changes, to false |
| `Management.DeactivateIdempotent` | Controllers/ManagementController.cs:268-272 | deactivating twice gives the same table as deactivating once |
| `Management.EditKeepsDeactivation` | Controllers/ManagementController.cs:233-243 | editing a deactivated banner never makes it active again |
| `Students.NewNoticeVisible` | Models/Notice.cs:19-21 | a newly constructed notice passes the student filter at any time |
| `Students.LatestVisible` | Controllers/StudentsController.cs:18-20 | the query returns at most five visible rows, newest first, without repeats; a visible row left out is no newer than any returned one, and with fewer than five returned none is left out |
| `Students.VisibleNotices` | Controllers/StudentsController.cs:15-25 | the landing page shows at most five stored notices, each active and unexpired, none expiring exactly now, newest first, and they are the newest visible ones: all of them when fewer than five are visible |

## Left out

- Sending mail, the realtime hub, application start-up, the database context and migrations: I/O and wiring with no logic of their own.
- Password reset, login and the user management screens: no code for them is part of this model.
- File-system work in the banner actions (creating the folder, writing the file, generating the GUID name): the stored file name is a parameter.
- The `try`/`catch` around banner creation and editing: the model assumes the file write and `SaveChanges` succeed, so no I/O failure outcome exists.
- SHA-256 and UTF-8 encoding: one function parameter with a 32-byte result.
- The `[EmailAddress]` and `[Phone]` checks: framework predicates, passed in as `Formats`.
- Database-side checks at `SaveChanges` (column lengths, `NOT NULL`, the unique index rejecting a concurrent duplicate), and concurrency between requests.
- Home.Register: user names are compared with exact equality; SQL Server's `=` under the usual collation ignores case and trailing spaces (`"bob "` matches `"bob"`), which is not modelled.
- Home.Register: the new user's `ProfileImagePath` is stored as null and the uploaded profile image is discarded, as the action never sets it. That property is a non-nullable `string`, so under nullable reference types its column would be `NOT NULL` and `SaveChanges` would refuse every registration; the `Users` table's migration is not part of this model, so the model assumes the column accepts null.
- Model binding failures (an unparseable date or number): `[Required]` on `DateTime`, `int` and enum properties is always met once binding succeeds, so it adds nothing to the predicates.
- The posted `Id` on create is ignored and the identity value used; the failure an explicit non-zero id would cause is not modelled.
- The offset between `DateTime.Now` and `DateTime.UtcNow`: they are separate parameters.
- Lone UTF-16 surrogates: Dafny strings hold only Unicode scalar values.
- `TempData` messages, views, antiforgery tokens and the GET actions that only find a row and render it.
- 32-bit ranges of ids, priority and counters: the model does no arithmetic on them except the identity increment.
