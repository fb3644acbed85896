/** A repository as the organisation listing reports it. */
module Repos {
  import opened Wrappers

  /** The fields of one item of `GET /orgs/{org}/repos` that the report reads:
      `name`, `html_url`, `pushed_at` (null for a never-pushed repository),
      `stargazers_count` and `language` (null when the host detected none). */
  datatype Repo = Repo(
    name: string,
    htmlUrl: string,
    pushedAt: Option<string>,
    stars: nat,
    language: Option<string>)

  /** Python's `field or default` on an optional string: both a missing value
      and the empty string are falsy and give way to `default`. */
  function OrDefault(field: Option<string>, default: string): (s: string)
    ensures field == None || field == Some("") ==> s == default
    ensures field.Some? && field.value != "" ==> s == field.value
  {
    if field.Some? && field.value != "" then field.value else default
  }

  /** The recency sort key, `r["pushed_at"] or ""`. */
  function PushedKey(r: Repo): string
  {
    OrDefault(r.pushedAt, "")
  }

  /** True when the push timestamp is missing or empty. */
  predicate NeverPushed(r: Repo)
  {
    r.pushedAt == None || r.pushedAt == Some("")
  }
}
