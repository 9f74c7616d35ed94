/** Repo printers and parsers, the task-id key and the tag-ref parser, and how they undo each other. */
module Codecs {
  import opened Domain
  import opened Strings

  /** Parses an "owner/name" webhook scope for a watcher of one owner. */
  function ScopeRepo(scope: string, owner: string): Option<Repo> {
    var parts := Split(scope, '/');
    if |parts| != 2 || parts[0] != owner || parts[1] == "" then None
    else Some(Repo(parts[0], parts[1], "", false))
  }

  /** Splits an "owner/name" key at the first slash. */
  function RepoFromKey(key: string): Option<Repo> {
    var i := IndexOf(key, '/');
    if i == |key| || i == 0 || key[i + 1..] == "" then None
    else Some(Repo(key[..i], key[i + 1..], "", false))
  }

  /** The text hashed into the name-based task identifier. */
  function TaskKey(owner: string, name: string, sha: string): string {
    owner + "/" + name + "@" + sha
  }

  const TAG_REF_PREFIX: string := "refs/tags/"

  /** The bare tag of a tag ref. */
  function ParseTagRef(ref: string): Option<string> {
    if TAG_REF_PREFIX <= ref && ref != TAG_REF_PREFIX then Some(ref[|TAG_REF_PREFIX|..]) else None
  }

  /** The scopes a watcher accepts are exactly its own owner, one slash and a slash-free non-empty name. */
  lemma ScopeRepoExact(scope: string, owner: string, repo: Repo)
    ensures ScopeRepo(scope, owner) == Some(repo) <==>
            && repo == Repo(owner, repo.name, "", false)
            && '/' !in owner && '/' !in repo.name && repo.name != ""
            && scope == repo.Short()
  {
    if ScopeRepo(scope, owner) == Some(repo) {
      JoinSplit(scope, '/');
      var parts := Split(scope, '/');
      assert Join(parts[1..], '/') == parts[1];
    }
    if '/' !in owner && '/' !in repo.name && scope == owner + "/" + repo.name {
      SplitFree(owner, '/');
      SplitFree(repo.name, '/');
      SplitConcat(owner, repo.name, '/');
      assert scope == owner + ['/'] + repo.name;
    }
  }

  /** Exactly the short forms with a slash-free non-empty owner and a non-empty name are read as keys. */
  lemma RepoFromKeyExact(key: string, repo: Repo)
    ensures RepoFromKey(key) == Some(repo) <==>
            && repo == Repo(repo.owner, repo.name, "", false)
            && '/' !in repo.owner && repo.owner != "" && repo.name != ""
            && key == repo.owner + "/" + repo.name
  {
    var i := IndexOf(key, '/');
    if i < |key| {
      assert key == key[..i] + ['/'] + key[i + 1..];
    }
    if '/' !in repo.owner && key == repo.owner + "/" + repo.name {
      assert key[|repo.owner|] == '/';
      assert key == repo.owner + ['/'] + repo.name;
      CutUnique(key[..i], key[i + 1..], repo.owner, repo.name, '/');
    }
  }

  /** Both parsers recover owner and name from the short form. */
  lemma ShortFormRoundTrip(r: Repo)
    requires '/' !in r.owner && '/' !in r.name && r.owner != "" && r.name != ""
    ensures ScopeRepo(r.Short(), r.owner) == Some(Repo(r.owner, r.name, "", false))
    ensures RepoFromKey(r.Short()) == Some(Repo(r.owner, r.name, "", false))
  {
    ScopeRepoExact(r.Short(), r.owner, Repo(r.owner, r.name, "", false));
    var s := r.Short();
    var i := IndexOf(s, '/');
    assert s[|r.owner|] == '/';
    assert i < |s|;
    assert s == s[..i] + ['/'] + s[i + 1..];
    CutUnique(s[..i], s[i + 1..], r.owner, r.name, '/');
  }

  /** A key parsed as a short form names another repository, for every repository:
      the host becomes the owner. */
  lemma RepoFromKeyMisreadsKey(r: Repo)
    ensures RepoFromKey(r.Key()) == Some(Repo("github.com", r.Short(), "", false))
    ensures RepoFromKey(r.Key()).value.Key() != r.Key()
  {
    var s := r.Key();
    var host := "github.com";
    assert s == host + ['/'] + r.Short();
    assert s[|host|] == '/';
    var i := IndexOf(s, '/');
    assert i < |s|;
    assert s == s[..i] + ['/'] + s[i + 1..];
    assert forall j | 0 <= j < |host| :: host[j] != '/';
    CutUnique(s[..i], s[i + 1..], host, r.Short(), '/');
  }

  /** Keys identify owner and name. */
  lemma KeyInjective(a: Repo, b: Repo)
    requires '/' !in a.owner && '/' !in b.owner
    ensures a.Key() == b.Key() <==> a.owner == b.owner && a.name == b.name
  {
    if a.Key() == b.Key() {
      var host := "github.com/";
      assert a.Key()[|host|..] == a.owner + ['/'] + a.name;
      assert b.Key()[|host|..] == b.owner + ['/'] + b.name;
      CutUnique(a.owner, a.name, b.owner, b.name, '/');
    }
  }

  /** A key stands for one owner and name only exactly when neither holds a slash. */
  lemma KeyUniqueExactly(r: Repo)
    ensures (forall other: Repo :: other.Key() == r.Key() ==> other.owner == r.owner && other.name == r.name) <==>
            '/' !in r.owner && '/' !in r.name
  {
    if '/' !in r.owner && '/' !in r.name {
      forall other: Repo | other.Key() == r.Key()
        ensures other.owner == r.owner && other.name == r.name
      {
        var host := "github.com/";
        assert other.Key()[|host|..] == other.owner + ['/'] + other.name;
        assert r.Key()[|host|..] == r.owner + ['/'] + r.name;
        OnlySlash(r.owner, r.name, other.owner, other.name);
      }
    } else {
      var other := SharesKey(r);
    }
  }

  lemma OnlySlash(a: string, x: string, b: string, y: string)
    requires '/' !in a && '/' !in x && a + ['/'] + x == b + ['/'] + y
    ensures a == b && x == y
  {
    var s := a + ['/'] + x;
    assert s[|b|] == '/';
    assert forall i | 0 <= i < |s| && i != |a| :: s[i] in a || s[i] in x;
    assert |a| == |b|;
    assert a == s[..|a|] && x == s[|a| + 1..];
  }

  /** Moving the boundary to another slash gives another repository with the same key. */
  lemma SharesKey(r: Repo) returns (other: Repo)
    requires '/' in r.owner || '/' in r.name
    ensures other.Key() == r.Key() && other.owner != r.owner
  {
    var o, n := r.owner, r.name;
    if i :| 0 <= i < |o| && o[i] == '/' {
      other := Repo(o[..i], o[i + 1..] + "/" + n, "", false);
      assert o == o[..i] + "/" + o[i + 1..];
      assert other.Key() == "github.com/" + (o[..i] + "/" + o[i + 1..]) + "/" + n;
    } else {
      var i :| 0 <= i < |n| && n[i] == '/';
      other := Repo(o + "/" + n[..i], n[i + 1..], "", false);
      assert n == n[..i] + "/" + n[i + 1..];
      assert other.Key() == "github.com/" + o + "/" + (n[..i] + "/" + n[i + 1..]);
    }
  }

  /** The task-id text identifies owner, name and head. */
  lemma TaskKeyInjective(owner: string, name: string, sha: string, owner': string, name': string, sha': string)
    requires '/' !in owner && '/' !in owner' && '@' !in sha && '@' !in sha'
    ensures TaskKey(owner, name, sha) == TaskKey(owner', name', sha') <==>
            owner == owner' && name == name' && sha == sha'
  {
    if TaskKey(owner, name, sha) == TaskKey(owner', name', sha') {
      CutLastUnique(owner + "/" + name, sha, owner' + "/" + name', sha', '@');
      assert owner + ['/'] + name == owner' + ['/'] + name';
      CutUnique(owner, name, owner', name', '/');
    }
  }

  /** The task-id text is the short form, an at sign and the head: cut at its last at sign and read by the
      short-form parser it gives back all three. */
  lemma TaskKeyReadsBack(r: Repo, sha: string)
    requires '/' !in r.owner && r.owner != "" && r.name != "" && '@' !in sha
    ensures var text := TaskKey(r.owner, r.name, sha);
            forall cut | 0 <= cut < |text| && text[cut] == '@' && '@' !in text[cut + 1..] ::
              RepoFromKey(text[..cut]) == Some(Repo(r.owner, r.name, "", false)) && text[cut + 1..] == sha
    ensures exists cut :: 0 <= cut < |TaskKey(r.owner, r.name, sha)| && TaskKey(r.owner, r.name, sha)[cut] == '@'
                          && '@' !in TaskKey(r.owner, r.name, sha)[cut + 1..]
  {
    var text := TaskKey(r.owner, r.name, sha);
    assert text == r.Short() + ['@'] + sha;
    forall cut | 0 <= cut < |text| && text[cut] == '@' && '@' !in text[cut + 1..]
      ensures RepoFromKey(text[..cut]) == Some(Repo(r.owner, r.name, "", false)) && text[cut + 1..] == sha
    {
      assert text == text[..cut] + ['@'] + text[cut + 1..];
      CutLastUnique(text[..cut], text[cut + 1..], r.Short(), sha, '@');
      RepoFromKeyExact(r.Short(), Repo(r.owner, r.name, "", false));
    }
    assert text[|r.Short()|] == '@' && text[|r.Short()| + 1..] == sha;
  }

  /** Exactly the refs made of the prefix and a non-empty tag are tag refs, and they give that tag. */
  lemma ParseTagRefExact(ref: string, tag: string)
    ensures ParseTagRef(ref) == Some(tag) <==> tag != "" && ref == TAG_REF_PREFIX + tag
  {
    if ParseTagRef(ref) == Some(tag) {
      assert ref == ref[..|TAG_REF_PREFIX|] + ref[|TAG_REF_PREFIX|..];
    }
    if tag != "" && ref == TAG_REF_PREFIX + tag {
      assert ref[|TAG_REF_PREFIX|..] == tag;
    }
  }
}
