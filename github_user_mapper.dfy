/** Conversions between the API model and the stored entity (src/mappers/github_user_mapper.rs). */
module GithubUserMapper {
  import Entities
  import Models

  /**
   * Builds the stored row from the API record: `login` becomes `username`,
   * everything else is copied. The Rust function leaves the expiry column
   * unset, so the caller supplies it.
   */
  function ToEntity(model: Models.GithubUser, expiration: int): (e: Entities.GithubUser)
    ensures e.username == model.login
    ensures e.id == model.id && e.name == model.name && e.location == model.location
    ensures e.avatarUrl == model.avatarUrl && e.expiration == expiration
  {
    Entities.GithubUser(model.id, model.login, model.name, model.location, model.avatarUrl, expiration)
  }

  /** Builds the API record from a stored row: `username` becomes `login`; the expiry is dropped. */
  function ToModel(entity: Entities.GithubUser): (m: Models.GithubUser)
    ensures m.login == entity.username
    ensures m.id == entity.id && m.name == entity.name && m.location == entity.location
    ensures m.avatarUrl == entity.avatarUrl
  {
    Models.GithubUser(entity.id, entity.username, entity.name, entity.location, entity.avatarUrl)
  }

  /** Mapping a model to a row and back gives the model again. */
  lemma ModelRoundTrip(model: Models.GithubUser, expiration: int)
    ensures ToModel(ToEntity(model, expiration)) == model
  {
  }

  /** Mapping a row to a model and back, with the row's own expiry, gives the row again. */
  lemma EntityRoundTrip(entity: Entities.GithubUser)
    ensures ToEntity(ToModel(entity), entity.expiration) == entity
  {
  }
}
