/** The web client's file URL builder (apps/web/src/lib/cdn.ts). The database stores
    relative storage paths; `getCdnUrl` turns them into full URLs under the CDN base
    taken from NEXT_PUBLIC_CDN_URL, which is an input here. */
module Cdn {
  import opened Wrappers

  const DefaultBase: string := "http://localhost:9000"

  /** A full URL: one starting with `http://` or `https://`. */
  predicate IsFullUrl(s: string) {
    StartsWith(s, "http://") || StartsWith(s, "https://")
  }

  /** `.replace(/\/$/, '')`: one trailing slash, if any, is removed. */
  function StripTrailingSlash(s: string): (r: string)
    ensures |s| > 0 && s[|s| - 1] == '/' ==> r + "/" == s
    ensures !(|s| > 0 && s[|s| - 1] == '/') ==> r == s
  {
    if |s| > 0 && s[|s| - 1] == '/' then s[..|s| - 1] else s
  }

  /** The base: the configured value when it is defined (even an empty one, since the
      source uses `??`), otherwise the local MinIO address, with one trailing slash removed. */
  function Base(env: Option<string>): (r: string)
    ensures env.None? ==> r == DefaultBase
    ensures env.Some? ==> r == StripTrailingSlash(env.value)
  {
    StripTrailingSlash(if env.Some? then env.value else DefaultBase)
  }

  /** `getCdnUrl(path)`. */
  function GetCdnUrl(path: Option<string>, env: Option<string>): (r: Option<string>)
    ensures !Truthy(path) <==> r.None?
    ensures Truthy(path) && IsFullUrl(path.value) ==> r == path
    ensures Truthy(path) && !IsFullUrl(path.value) ==> r == Some(Base(env) + "/" + path.value)
  {
    if !Truthy(path) then None
    else if IsFullUrl(path.value) then path
    else Some(Base(env) + "/" + path.value)
  }

  /** A defined result always ends with the path it was built from. */
  lemma GetCdnUrlEndsWithPath(path: Option<string>, env: Option<string>)
    requires GetCdnUrl(path, env).Some?
    ensures path.Some? && EndsWith(GetCdnUrl(path, env).value, path.value)
  {
    var r := GetCdnUrl(path, env).value;
    if !IsFullUrl(path.value) {
      var prefix := Base(env) + "/";
      assert r == prefix + path.value;
      assert r[|prefix|..] == path.value;
    }
  }

  /** Only one trailing slash is removed: a base ending in `//` keeps one of them. */
  lemma StripsOnlyOneSlash(s: string)
    requires |s| >= 2 && s[|s| - 1] == '/' && s[|s| - 2] == '/'
    ensures var r := StripTrailingSlash(s); |r| == |s| - 1 && r[|r| - 1] == '/'
  {
  }

  /** A prefix of a string is a prefix of every extension of it. */
  lemma {:induction false} StartsWithAppend(s: string, t: string, prefix: string)
    requires StartsWith(s, prefix)
    ensures StartsWith(s + t, prefix)
  {
    assert (s + t)[..|prefix|] == s[..|prefix|];
  }

  /** Applying `getCdnUrl` to its own result changes nothing when the base is a full URL:
      relative paths become full URLs, and full URLs are kept. */
  lemma {:induction false} GetCdnUrlIdempotent(path: Option<string>, env: Option<string>)
    requires IsFullUrl(Base(env))
    ensures GetCdnUrl(GetCdnUrl(path, env), env) == GetCdnUrl(path, env)
  {
    var r := GetCdnUrl(path, env);
    if r.Some? && !IsFullUrl(path.value) {
      var base := Base(env);
      assert r.value == base + ("/" + path.value);
      if StartsWith(base, "http://") {
        StartsWithAppend(base, "/" + path.value, "http://");
      } else {
        StartsWithAppend(base, "/" + path.value, "https://");
      }
      assert IsFullUrl(r.value);
      assert r.value != "";
    }
  }
}
