/** Forges and the case rule each forge kind imposes (crates/flotilla-address/src/forge.rs). */
module Casing {
  import opened Text

  /**
   What the model assumes of `str::to_lowercase`, which stands for the Unicode case tables: it is
   idempotent, lowers around a `/` independently, never makes or removes a `/`, never erases text,
   and keeps trimmed text trimmed.
   */
  ghost predicate Lowercase(lower: string -> string) {
    && (forall s {:trigger lower(lower(s))} :: lower(lower(s)) == lower(s))
    && (forall a: string, b: string {:trigger lower(a + "/" + b)} :: lower(a + "/" + b) == lower(a) + "/" + lower(b))
    && (forall s {:trigger lower(s)} :: '/' !in s ==> '/' !in lower(s))
    && (forall s {:trigger lower(s)} :: s != "" ==> lower(s) != "")
    && (forall s {:trigger lower(s)} :: Trimmed(s) ==> Trimmed(lower(s)))
  }

  /** The laws hold of lowering ASCII, so they do not contradict each other. */
  lemma AsciiIsLowercase()
    ensures Lowercase(ToAsciiLower)
  {
    forall a: string, b: string
      ensures ToAsciiLower(a + "/" + b) == ToAsciiLower(a) + "/" + ToAsciiLower(b)
    {
    }
    forall s: string
      ensures ToAsciiLower(ToAsciiLower(s)) == ToAsciiLower(s)
    {
    }
  }
}

module Forges {
  import opened Outcomes
  import opened Text
  import opened Casing
  import opened Kinds
  import opened Errors

  const GITHUB_FORGE_ID := "github"

  datatype ForgeKind = Github | Forgejo

  /** A `forge_id` is a lowercase DNS label. */
  predicate ValidForgeId(id: string) {
    && id != "" && |id| <= 63
    && IsAlphanumeric(id[0]) && IsAlphanumeric(id[|id| - 1])
    && forall i | 0 <= i < |id| :: IsLowerCase(id[i]) || IsDigit(id[i]) || id[i] == '-'
  }

  datatype ForgeRecord = ForgeRecord(id: string, kind: ForgeKind)

  predicate ValidForge(forge: ForgeRecord) {
    ValidForgeId(forge.id) && (forge.id == GITHUB_FORGE_ID ==> forge.kind == Github)
  }

  /** A forge as `Forge::new` admits it: `github` is public GitHub and takes only that kind. */
  type Forge = forge: ForgeRecord | ValidForge(forge) witness ForgeRecord("github", Github)

  function GithubForge(): Forge {
    ForgeRecord(GITHUB_FORGE_ID, Github)
  }

  /** GitHub and Forgejo both compare owners and repositories without case. */
  function NormaliseRepository(lower: string -> string, kind: ForgeKind, repository: string): string {
    match kind
    case Github | Forgejo => lower(repository)
  }

  /** GitHub and Forgejo repositories are `owner/repo`. */
  predicate ValidRepository(repository: string) {
    match SplitOnce(repository, '/')
    case Some((owner, name)) => owner != "" && name != "" && '/' !in name
    case None => false
  }

  /** Applying the case rule twice changes nothing more, and an `owner/repo` stays one. */
  lemma NormalisedRepository(lower: string -> string, repository: string)
    requires Lowercase(lower) && ValidRepository(repository)
    ensures ValidRepository(lower(repository)) && lower(lower(repository)) == lower(repository)
    ensures lower(repository) != ""
  {
    var (owner, name) := SplitOnce(repository, '/').value;
    assert repository == owner + "/" + name;
    SplitOnceOf(lower(owner), '/', lower(name));
  }

  /** Forge records, by id and by host, as lenient input looks them up. */
  datatype ForgeLookup = ForgeLookup(byId: string -> Option<Forge>, byHost: string -> Option<Forge>) {

    /** A record found by its id is the record with that id. */
    ghost predicate Faithful() {
      forall id {:trigger byId(id)} :: byId(id).Some? ==> byId(id).value.id == id
    }
  }

  const GITHUB_HOSTS := {"github.com", "www.github.com", "ssh.github.com"}

  function ForgeById(forges: ForgeLookup, id: string): Option<Forge> {
    if id == GITHUB_FORGE_ID then Some(GithubForge()) else forges.byId(id)
  }

  function ForgeByHost(forges: ForgeLookup, name: string): Option<Forge> {
    var host := ToAsciiLower(name);
    match forges.byHost(host)
    case Some(forge) => Some(forge)
    case None => if host in GITHUB_HOSTS then Some(GithubForge()) else None
  }
}
