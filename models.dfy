/** The user as decoded from the GitHub API (src/models/github_user.rs). */
module Models {
  import opened Wrappers
  import opened Numeric

  /** The API record: the lookup name is `login`, and there is no expiry. */
  datatype GithubUser = GithubUser(
    id: Int32,
    login: string,
    name: Option<string>,
    location: Option<string>,
    avatarUrl: string)
}
