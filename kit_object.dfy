/** The naming rules of a kit: the version string stored in the database,
    the archive and directory names, the repository directory and the short
    display string. Every field of a kit may be absent (`None`). */
module KitObject {
  import opened Wrappers
  import Strings

  datatype Kit = Kit(name: Option<string>, version: Option<string>, iteration: Option<string>)

  /** `'%s' % value`: the text itself, or `None` for an absent value. */
  function Show(o: Option<string>): string
  {
    if o.Some? then o.value else "None"
  }

  /** `getDbVersion`: version and iteration joined by '-', or the version
      alone when there is no iteration, or nothing without a version. */
  function DbVersion(k: Kit): (r: Option<string>)
    ensures r.Some? <==> Truthy(k.version)
    ensures r.Some? ==> Strings.StartsWith(r.value, k.version.value)
  {
    if Truthy(k.version) && Truthy(k.iteration) then Some(k.version.value + "-" + k.iteration.value)
    else if Truthy(k.version) then k.version
    else None
  }

  /** A version and an iteration without dashes are recovered by splitting
      the stored version; without an iteration the stored version is the
      version alone. */
  lemma DbVersionParts(k: Kit)
    requires Truthy(k.version)
    requires '-' !in k.version.value && (Truthy(k.iteration) ==> '-' !in k.iteration.value)
    ensures Strings.Split(DbVersion(k).value, "-") ==
      [k.version.value] + (if Truthy(k.iteration) then [k.iteration.value] else [])
  {
    if Truthy(k.iteration) {
      var parts := [k.version.value, k.iteration.value];
      assert parts[1..] == [k.iteration.value];
      assert Strings.Join(parts, "-") == DbVersion(k).value;
      Strings.SplitJoin(parts, '-');
    } else {
      var parts := [k.version.value];
      assert Strings.Join(parts, "-") == DbVersion(k).value;
      Strings.SplitJoin(parts, '-');
    }
  }

  /** `getTarBz2FileName`. */
  function TarBz2FileName(k: Kit): (r: string)
    ensures Strings.StartsWith(r, "kit-")
  {
    "kit-" + Show(k.name) + "-" + Show(DbVersion(k)) + ".tar.bz2"
  }

  /** `getDirName`. */
  function DirName(k: Kit): (r: string)
    ensures Strings.StartsWith(r, "kit-")
  {
    "kit-" + Show(k.name) + "-" + Show(DbVersion(k))
  }

  /** The archive unpacks into the directory of the same name. */
  lemma TarBallOfDir(k: Kit)
    ensures TarBz2FileName(k) == DirName(k) + ".tar.bz2"
  {
  }

  /** `getKitRepoDir`. */
  function KitRepoDir(k: Kit): string
  {
    Show(k.name) + "/" + Show(DbVersion(k)) + "/noarch"
  }

  /** The repository directory is three path components: name, stored version, `noarch`. */
  lemma KitRepoDirParts(k: Kit)
    requires '/' !in Show(k.name) && '/' !in Show(DbVersion(k))
    ensures Strings.Split(KitRepoDir(k), "/") == [Show(k.name), Show(DbVersion(k)), "noarch"]
  {
    var parts := [Show(k.name), Show(DbVersion(k)), "noarch"];
    assert parts[1..][1..] == ["noarch"];
    assert Strings.Join(parts[1..], "/") == Show(DbVersion(k)) + "/noarch";
    assert Strings.Join(parts, "/") == KitRepoDir(k);
    assert '/' !in "noarch";
    Strings.SplitJoin(parts, '/');
  }

  /** `__repr__`: name and stored version, or the name alone without a version. */
  function Repr(k: Kit): Option<string>
  {
    var version := DbVersion(k);
    if Truthy(version) then Some(Show(k.name) + "-" + version.value) else k.name
  }

  /** With a version, the display string is the directory name without its
      `kit-` prefix; without one it is the bare name. */
  lemma ReprIsDirName(k: Kit)
    ensures Truthy(k.version) ==> Repr(k) == Some(DirName(k)[4..])
    ensures !Truthy(k.version) ==> Repr(k) == k.name
  {
    if Truthy(k.version) {
      assert DirName(k) == "kit-" + Repr(k).value;
    }
  }
}
