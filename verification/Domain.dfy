/** Values shared by the whole model: optional values, upstream replies, repositories and cursor entries. */
module Domain {
  datatype Option<+T> = None | Some(value: T)

  /** What one GitHub call can answer: a value, the rate-limit signal, or any other error. */
  datatype Reply<+T> = Ok(value: T) | RateLimited | Failed

  /** A repository in the watcher's scope. */
  datatype Repo = Repo(owner: string, name: string, defaultBranch: string, fork: bool) {
    /** Host-qualified key, used for the cursor and the allowlist. */
    function Key(): string {
      "github.com/" + owner + "/" + name
    }

    /** Short "owner/name" form, used by webhook scopes and build requests. */
    function Short(): string {
      owner + "/" + name
    }
  }

  /** The persisted part of one cursor entry. */
  datatype Entry = Entry(lastSeen: string, lastBuilt: string)

  /** The persisted cursor: host-qualified repo key to entry. */
  type Repos = map<string, Entry>

  /** The recorded master head of a key, "" when the key was never seen. */
  function LastSeen(c: Repos, key: string): string {
    if key in c then c[key].lastSeen else ""
  }

  /** The tag last handled by the backstop for a key, "" when there is none. */
  function LastBuilt(c: Repos, key: string): string {
    if key in c then c[key].lastBuilt else ""
  }

  /** The entry of a key as the watcher sees it before writing: absent entries start blank. */
  function EntryOf(c: Repos, key: string): Entry {
    if key in c then c[key] else Entry("", "")
  }
}
