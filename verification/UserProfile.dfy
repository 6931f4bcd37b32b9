/** The user-profile form: its validation schema (name length, e-mail syntax
    and the new/confirm password refinement) and the avatar initials. */
module UserProfile {
  import opened Wrappers
  import opened Strings
  import opened Validation

  /** The form's values; the three password fields may be absent. */
  datatype ProfileForm = ProfileForm(
    name: string,
    email: string,
    currentPassword: Option<string>,
    newPassword: Option<string>,
    confirmPassword: Option<string>,
    emailNotifications: bool,
    scheduleEmailTime: string)

  /** JavaScript truthiness of an optional string: present and non-empty. */
  predicate Truthy(o: Option<string>) {
    o.Some? && o.value != ""
  }

  /** The refinement: once either password field is filled in, the two must
      be identical (`===`, so an absent field differs from an empty one). */
  predicate PasswordsAgree(f: ProfileForm) {
    if Truthy(f.newPassword) || Truthy(f.confirmPassword) then f.newPassword == f.confirmPassword
    else true
  }

  const NameIssue := Issue("name", "Name must be at least 2 characters")
  const EmailIssue := Issue("email", "Invalid email address")
  const MismatchIssue := Issue("confirmPassword", "Passwords don't match")

  /** The issues `profileSchema` reports, field checks first, then the refinement. */
  function ProfileIssues(f: ProfileForm, isEmail: EmailSyntax): (issues: seq<Issue>)
    ensures issues == [] <==> |f.name| >= 2 && isEmail(f.email) && PasswordsAgree(f)
    ensures NameIssue in issues <==> |f.name| < 2
    ensures EmailIssue in issues <==> !isEmail(f.email)
    ensures MismatchIssue in issues <==> !PasswordsAgree(f)
  {
    (if |f.name| < 2 then [NameIssue] else [])
    + (if !isEmail(f.email) then [EmailIssue] else [])
    + (if !PasswordsAgree(f) then [MismatchIssue] else [])
  }

  /** The refinement passes exactly when both fields are empty or absent, or
      when they are equal; equal and filled in means both hold the same text. */
  lemma PasswordRule(f: ProfileForm)
    ensures PasswordsAgree(f) <==>
              (!Truthy(f.newPassword) && !Truthy(f.confirmPassword)) || f.newPassword == f.confirmPassword
    ensures (Truthy(f.newPassword) || Truthy(f.confirmPassword)) && PasswordsAgree(f) ==>
              f.newPassword.Some? && f.confirmPassword.Some?
              && f.newPassword.value == f.confirmPassword.value != ""
  {
  }

  // ---------------------------------------------------------------------
  // Initials

  function FirstChar(part: string): string {
    if part == "" then "" else [part[0]]
  }

  /** `getInitials`: split on spaces, take each part's first character (an
      empty part contributes nothing), join, uppercase. */
  function Initials(name: string): (r: string)
    ensures r == InitialsOf(Split(name, ' '))
  {
    var parts := Split(name, ' ');
    UpperJoinFirsts(parts);
    Upper(Join(seq(|parts|, i requires 0 <= i < |parts| => FirstChar(parts[i])), ""))
  }

  /** The initials read part by part: the uppercased first character of each
      non-empty part, in order. */
  function InitialsOf(parts: seq<string>): string
    decreases |parts|
  {
    if |parts| == 0 then ""
    else (if parts[0] == "" then "" else [UpperChar(parts[0][0])]) + InitialsOf(parts[1..])
  }

  function NonEmptyParts(parts: seq<string>): nat
    decreases |parts|
  {
    if |parts| == 0 then 0 else (if parts[0] == "" then 0 else 1) + NonEmptyParts(parts[1..])
  }

  lemma {:induction false} UpperJoinFirsts(parts: seq<string>)
    ensures Upper(Join(seq(|parts|, i requires 0 <= i < |parts| => FirstChar(parts[i])), ""))
            == InitialsOf(parts)
    decreases |parts|
  {
    var firsts := seq(|parts|, i requires 0 <= i < |parts| => FirstChar(parts[i]));
    if |parts| > 1 {
      var rest := seq(|parts| - 1, i requires 0 <= i < |parts| - 1 => FirstChar(parts[1..][i]));
      assert firsts[1..] == rest;
      UpperJoinFirsts(parts[1..]);
      assert Join(firsts, "") == firsts[0] + Join(rest, "");
      assert Upper(firsts[0] + Join(rest, "")) == Upper(firsts[0]) + Upper(Join(rest, ""));
    } else if |parts| == 1 {
      assert InitialsOf(parts) == (if parts[0] == "" then "" else [UpperChar(parts[0][0])]) + "";
    }
  }

  lemma {:induction false} InitialsOfLength(parts: seq<string>)
    ensures |InitialsOf(parts)| == NonEmptyParts(parts) <= |parts|
    decreases |parts|
  {
    if |parts| > 0 {
      InitialsOfLength(parts[1..]);
    }
  }

  /** The initials are the uppercased first characters of the non-empty
      space-separated parts, one per part, so never more than the parts. */
  lemma InitialsSpec(name: string)
    ensures Initials(name) == InitialsOf(Split(name, ' '))
    ensures |Initials(name)| == NonEmptyParts(Split(name, ' ')) <= |Split(name, ' ')|
  {
    InitialsOfLength(Split(name, ' '));
  }

  /** The default name splits into its two words. */
  lemma AdminUserParts()
    ensures Split("Admin User", ' ') == ["Admin", "User"]
  {
    var parts := ["Admin", "User"];
    assert Join(parts[1..], [' ']) == "User";
    assert Join(parts, [' ']) == "Admin User";
    SplitJoin(parts, ' ');
  }

  /** The default name gives "AU". */
  lemma AdminUserInitials()
    ensures Initials("Admin User") == "AU"
  {
    AdminUserParts();
    InitialsSpec("Admin User");
    var parts := ["Admin", "User"];
    assert InitialsOf(parts[1..]) == [UpperChar('U')] + InitialsOf([]);
    assert InitialsOf(parts) == [UpperChar('A')] + InitialsOf(parts[1..]);
  }
}
