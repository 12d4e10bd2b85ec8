/** The registration form and the validity predicate its annotations define. */
module RegistrationModel {
  import opened Types
  import opened Annotations

  datatype RegistrationForm = RegistrationForm(
    userName: Option<string>,
    password: Option<string>,
    confirmPassword: Option<string>,
    fullName: Option<string>,
    email: Option<string>,
    mobileNumber: Option<string>,
    roleId: int,
    profileImage: Option<Upload>)

  /** `ModelState.IsValid` for a posted registration form. `[Compare("Password")]`
      on the confirmation demands equal values; the profile image is unconstrained. */
  function RegistrationValid(f: RegistrationForm, fmt: Formats): (ok: bool)
    ensures ok ==> f.userName.Some? && 1 <= |f.userName.value| <= 50
    ensures ok ==> f.password.Some? && 1 <= |f.password.value| <= 256 && f.confirmPassword == f.password
    ensures ok ==> f.fullName.Some? && 1 <= |f.fullName.value| <= 100
    ensures ok ==> f.email.Some? && fmt.isEmail(f.email.value)
    ensures ok ==> f.mobileNumber.Some? && fmt.isPhone(f.mobileNumber.value) && 1 <= |f.mobileNumber.value| <= 20
  {
    && Required(f.userName) && StringLength(f.userName, 50)
    && Required(f.password) && StringLength(f.password, 256)
    && Required(f.confirmPassword) && f.confirmPassword == f.password
    && Required(f.fullName) && StringLength(f.fullName, 100)
    && Required(f.email) && Format(f.email, fmt.isEmail)
    && Required(f.mobileNumber) && Format(f.mobileNumber, fmt.isPhone) && StringLength(f.mobileNumber, 20)
  }

  /** A confirmation that differs from the password rejects the form. */
  lemma MismatchedConfirmationInvalid(f: RegistrationForm, fmt: Formats)
    requires f.confirmPassword != f.password
    ensures !RegistrationValid(f, fmt)
  {
  }

  /** Whatever image is attached, validity is decided by the other fields. */
  lemma ProfileImageIrrelevant(f: RegistrationForm, fmt: Formats, image: Option<Upload>)
    ensures RegistrationValid(f.(profileImage := image), fmt) == RegistrationValid(f, fmt)
  {
  }
}
