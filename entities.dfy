/** The row shape stored in the GitHubUser table (src/entities/github_user.rs). */
module Entities {
  import opened Wrappers
  import opened Numeric

  /**
   * One stored GitHub user. `expiration` is the epoch timestamp after which
   * the row is stale; the repository reads and writes it as the sixth column
   * although the Rust struct does not declare it. `name` and `location` are
   * optional, as their uses in the image controller require.
   */
  datatype GithubUser = GithubUser(
    id: Int32,
    username: string,
    name: Option<string>,
    location: Option<string>,
    avatarUrl: string,
    expiration: int)
}
