/** Kit descriptor strings and kit URL helpers. */
module KitUtils {
  import opened Wrappers
  import Strings
  import KitObject

  /** `format_kit_descriptor`: `<name>-<version>-<iteration>`. */
  function FormatKitDescriptor(name: string, version: string, iteration: string): string
  {
    name + "-" + version + "-" + iteration
  }

  /** `format_component_descriptor`: `<name>-<version>`. */
  function FormatComponentDescriptor(name: string, version: string): string
  {
    name + "-" + version
  }

  /** A kit descriptor is the component-style descriptor of its name and
      version, followed by '-' and the iteration. */
  lemma KitDescriptorExtends(name: string, version: string, iteration: string)
    ensures FormatKitDescriptor(name, version, iteration) ==
      FormatComponentDescriptor(name, version) + "-" + iteration
  {
  }

  /** A kit descriptor is the display string of the kit it describes. */
  lemma KitDescriptorIsRepr(name: string, version: string, iteration: string)
    requires version != "" && iteration != ""
    ensures KitObject.Repr(KitObject.Kit(Some(name), Some(version), Some(iteration))) ==
      Some(FormatKitDescriptor(name, version, iteration))
  {
    var k := KitObject.Kit(Some(name), Some(version), Some(iteration));
    assert Truthy(k.version) && Truthy(k.iteration);
    assert KitObject.DbVersion(k) == Some(version + "-" + iteration);
    assert KitObject.Repr(k) == Some(name + "-" + (version + "-" + iteration));
    assert name + "-" + (version + "-" + iteration) == FormatKitDescriptor(name, version, iteration);
  }

  /** Parts without dashes are recovered by splitting the descriptor on '-'. */
  lemma KitDescriptorParts(name: string, version: string, iteration: string)
    requires '-' !in name && '-' !in version && '-' !in iteration
    ensures Strings.Split(FormatKitDescriptor(name, version, iteration), "-") == [name, version, iteration]
  {
    var parts := [name, version, iteration];
    assert parts[1..][1..] == [iteration];
    assert Strings.Join(parts[1..], "-") == version + "-" + iteration;
    assert Strings.Join(parts, "-") == FormatKitDescriptor(name, version, iteration);
    Strings.SplitJoin(parts, '-');
  }

  /** The index of the last '/' in `p`, or -1. */
  function LastSlash(p: string): (r: int)
    ensures -1 <= r < |p|
    ensures r >= 0 ==> p[r] == '/'
    ensures forall k :: r < k < |p| ==> p[k] != '/'
  {
    if |p| == 0 then -1
    else if p[|p| - 1] == '/' then |p| - 1
    else LastSlash(p[..|p| - 1])
  }

  /** `os.path.basename`: the text after the last '/'. */
  function Basename(p: string): (r: string)
    ensures '/' !in r
    ensures |r| <= |p| && p[|p| - |r|..] == r
    ensures |r| < |p| ==> p[|p| - |r| - 1] == '/'
  {
    p[LastSlash(p) + 1..]
  }

  /** The basename of `dir/name` is `name`, for a name without '/'. */
  lemma BasenameOfJoin(dir: string, name: string)
    requires '/' !in name
    ensures Basename(dir + "/" + name) == name
  {
    var p := dir + "/" + name;
    assert p[|dir|] == '/';
    assert forall k :: |dir| < k < |p| ==> p[k] == name[k - |dir| - 1];
    assert p[|dir| + 1..] == name;
  }

  /** `assembleKitUrl`: the URL itself when it already names the file, else the URL with '/file' appended. */
  function AssembleKitUrl(srcUrl: string, kitFileName: string): string
  {
    if Basename(srcUrl) != kitFileName then srcUrl + "/" + kitFileName else srcUrl
  }

  /** The assembled URL extends the given one, leaves a URL that already
      names the file alone, and always names the file, so assembling again
      changes nothing. */
  lemma AssembleKitUrlIdempotent(srcUrl: string, kitFileName: string)
    requires '/' !in kitFileName
    ensures Strings.StartsWith(AssembleKitUrl(srcUrl, kitFileName), srcUrl)
    ensures Basename(srcUrl) == kitFileName ==> AssembleKitUrl(srcUrl, kitFileName) == srcUrl
    ensures Basename(AssembleKitUrl(srcUrl, kitFileName)) == kitFileName
    ensures AssembleKitUrl(AssembleKitUrl(srcUrl, kitFileName), kitFileName) == AssembleKitUrl(srcUrl, kitFileName)
  {
    assert AssembleKitUrl(srcUrl, kitFileName)[..|srcUrl|] == srcUrl;
    if Basename(srcUrl) != kitFileName {
      BasenameOfJoin(srcUrl, kitFileName);
    }
  }

  /** `checkSupportedScheme`. */
  predicate CheckSupportedScheme(srcUrl: string)
  {
    Strings.StartsWith(srcUrl, "http://") || Strings.StartsWith(srcUrl, "https://") ||
    Strings.StartsWith(srcUrl, "file://") || Strings.StartsWith(srcUrl, "ftp://")
  }

  /** Assembling a URL keeps its scheme: a supported URL stays supported. */
  lemma AssembleKeepsScheme(srcUrl: string, kitFileName: string)
    requires CheckSupportedScheme(srcUrl)
    ensures CheckSupportedScheme(AssembleKitUrl(srcUrl, kitFileName))
  {
    var r := AssembleKitUrl(srcUrl, kitFileName);
    assert r[..|srcUrl|] == srcUrl;
    assert forall n :: 0 <= n <= |srcUrl| ==> r[..n] == srcUrl[..n];
  }
}
