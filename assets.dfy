/**
 * src/lib/assets.js: resolving an asset path against the blob storage base
 * URL. The environment variable is a parameter.
 */
module Assets {
  import opened Text

  /** The fallback base URL used when NEXT_PUBLIC_BLOB_STORAGE_URL is unset or empty. */
  const DefaultBlobStorageUrl: string := "https://" + "7fzwxvblhjtadxkp.public.blob.vercel-storage.com"

  /** BLOB_STORAGE_URL: the variable when it is non-empty, else the default; never empty. */
  function BlobStorageUrl(env: string): (url: string)
    ensures url != []
    ensures env != [] ==> url == env
    ensures env == [] || StartsWith(env, "https://") ==> StartsWith(url, "https://")
  {
    if env != [] then env else DefaultIsFullUrl(); DefaultBlobStorageUrl
  }

  /** A path getAssetUrl hands back unchanged as a full URL. */
  predicate IsFullUrl(path: string) {
    StartsWith(path, "http://") || StartsWith(path, "https://")
  }

  /**
   * getAssetUrl: an empty path and a full URL come back unchanged; any other
   * path is appended to the base with exactly one `/` added when it lacks one.
   */
  function GetAssetUrl(base: string, path: string): (url: string)
    ensures path == [] || IsFullUrl(path) ==> url == path
    ensures path != [] && !IsFullUrl(path) ==>
      && StartsWith(url, base + "/")
      && EndsWith(url, path)
      && |url| == |base| + |path| + (if path[0] == '/' then 0 else 1)
  {
    if path == [] then path
    else if IsFullUrl(path) then path
    else
      var normalized := if StartsWith(path, "/") then path else "/" + path;
      base + normalized
  }

  /** The part of a resolved URL after the base: the inverse of getAssetUrl on rooted paths. */
  function AssetPath(base: string, url: string): (path: string)
    requires StartsWith(url, base)
    ensures |path| == |url| - |base|
  {
    url[|base|..]
  }

  /** Both URL prefixes start with `h`. */
  lemma FullUrlStartsWithH(path: string)
    ensures IsFullUrl(path) ==> path != [] && path[0] == 'h'
  {
    if StartsWith(path, "http://") {
      assert path[..7][0] == 'h';
    }
    if StartsWith(path, "https://") {
      assert path[..8][0] == 'h';
    }
  }

  /** A rooted relative path is recovered from its URL. */
  lemma AssetPathRoundTrip(base: string, path: string)
    requires path != [] && path[0] == '/'
    ensures StartsWith(GetAssetUrl(base, path), base)
    ensures AssetPath(base, GetAssetUrl(base, path)) == path
  {
    FullUrlStartsWithH(path);
    assert GetAssetUrl(base, path)[..|base|] == base;
  }

  /** `"x"` and `"/x"` resolve to the same URL. */
  lemma LeadingSlashOptional(base: string, path: string)
    requires path != [] && path[0] != '/' && !IsFullUrl(path)
    ensures GetAssetUrl(base, path) == GetAssetUrl(base, "/" + path)
  {
    var rooted := "/" + path;
    assert rooted[0] == '/';
    FullUrlStartsWithH(rooted);
    assert StartsWith(rooted, "/");
  }

  /**
   * With a base that is itself a full URL (the default is), resolving a
   * resolved URL changes nothing.
   */
  lemma GetAssetUrlIdempotent(base: string, path: string)
    requires IsFullUrl(base)
    ensures GetAssetUrl(base, GetAssetUrl(base, path)) == GetAssetUrl(base, path)
  {
    var url := GetAssetUrl(base, path);
    if path != [] && !IsFullUrl(path) {
      assert url[..|base|] == base;
      if StartsWith(base, "http://") {
        assert url[..7] == base[..7];
      } else {
        assert url[..8] == base[..8];
      }
    }
  }

  /** The default base URL is an https URL, so the idempotence above applies to it. */
  lemma DefaultIsFullUrl()
    ensures StartsWith(DefaultBlobStorageUrl, "https://")
  {
    assert DefaultBlobStorageUrl[..8] == "https://";
  }
}
