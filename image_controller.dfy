/** The query accepted by the image endpoint (src/controllers/image.rs, `GithubUserViewModel`). */
module ImageController {
  import opened Wrappers
  import Validators

  /** GitHub caps user names at 39 characters; the check counts bytes. */
  const MAX_USER_LEN: nat := 39

  datatype GithubUserViewModel = GithubUserViewModel(user: string, pronouns: Option<string>)

  /** The user-name half of the check: length bounds, then the delimiter check. */
  function IsUserValid(user: string, isDelimiterFree: string -> bool): bool
  {
    Validators.IsStrValidLength(user, 0, MAX_USER_LEN) && isDelimiterFree(user)
  }

  /** The pronouns half of the check: absent pronouns pass. */
  function IsPronounsValid(pronouns: Option<string>, isDelimiterFree: string -> bool): bool
  {
    match pronouns
    case Some(p) => isDelimiterFree(p)
    case None => true
  }

  /**
   * `is_valid`. The delimiter check `validators::is_str_delimiter_free` is not
   * defined in the source this model covers, so it is the parameter
   * `isDelimiterFree`.
   */
  function IsValid(vm: GithubUserViewModel, isDelimiterFree: string -> bool): (ok: bool)
    ensures ok ==> Validators.Utf8Len(vm.user) <= MAX_USER_LEN && isDelimiterFree(vm.user)
    ensures vm.pronouns.Some? && ok ==> isDelimiterFree(vm.pronouns.value)
  {
    IsUserValid(vm.user, isDelimiterFree) && IsPronounsValid(vm.pronouns, isDelimiterFree)
  }

  /** Validity is exactly both user checks together with the pronouns check. */
  lemma IsValidIsConjunction(vm: GithubUserViewModel, isDelimiterFree: string -> bool)
    ensures IsValid(vm, isDelimiterFree) <==>
      && Validators.Utf8Len(vm.user) <= MAX_USER_LEN
      && isDelimiterFree(vm.user)
      && (vm.pronouns.Some? ==> isDelimiterFree(vm.pronouns.value))
  {
  }

  /** A valid query names a user of at most 39 characters. */
  lemma ValidUserHasAtMost39Chars(vm: GithubUserViewModel, isDelimiterFree: string -> bool)
    requires IsValid(vm, isDelimiterFree)
    ensures |vm.user| <= MAX_USER_LEN
  {
    Validators.ValidLengthBoundsChars(vm.user, 0, MAX_USER_LEN);
  }

  /**
   * GitHub user names are ASCII, and for ASCII names the byte count is the
   * character count: the length check admits exactly the names of at most 39
   * characters.
   */
  lemma AsciiUserLengthIsCharCount(user: string)
    requires forall i :: 0 <= i < |user| ==> user[i] as int < 0x80
    ensures Validators.IsStrValidLength(user, 0, MAX_USER_LEN) <==> |user| <= MAX_USER_LEN
  {
    Validators.Utf8LenAscii(user);
  }

  /** The minimum length is 0, so the empty user name passes the length check. */
  lemma EmptyUserPassesLength()
    ensures Validators.IsStrValidLength([], 0, MAX_USER_LEN)
  {
  }

  /** Without pronouns, validity depends on the user name alone. */
  lemma NoPronounsNoConstraint(user: string, isDelimiterFree: string -> bool)
    ensures IsValid(GithubUserViewModel(user, None), isDelimiterFree) <==> IsUserValid(user, isDelimiterFree)
  {
  }
}
