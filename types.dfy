/** The record the application passes between its services. */
module Types {
  import opened Wrappers

  /** A GitHub repository as the application keeps it: `description` and
      `language` may be missing (`null`), and the counts are whole
      numbers. */
  datatype Repo = Repo(
    name: string,
    description: Option<string>,
    language: Option<string>,
    stargazersCount: int,
    forksCount: int)
}
