/** The URL resolver `applyURL` (fetcher.js): plain string surgery on the
    `/`-separated pieces of the playlist URL. Nothing is normalised: `.` and
    `..` pieces are kept as written. */
module Url {
  import opened JsText

  /** `parts[i]` read in JavaScript and then concatenated into a string: a
      missing element is `undefined`, which concatenation renders as the
      text "undefined". */
  function PieceOrUndefined(parts: seq<string>, i: nat): string
  {
    if i < |parts| then parts[i] else "undefined"
  }

  /** Resolve a segment or key reference `target` against `base`, the URL
      the playlist came from. A reference that begins with "http" is taken as
      absolute, one that begins with '/' is rooted at the scheme and host
      pieces of `base`, and anything else replaces the last piece of `base`. */
  function ApplyUrl(target: string, base: string): (r: string)
    ensures StartsWith(target, "http") ==> r == target
    ensures |target| <= |r| && r[|r| - |target|..] == target
    ensures |r| > 0
  {
    if StartsWith(target, "http") then target
    else if |target| > 0 && target[0] == '/' then
      var domain := Split(base, '/');
      domain[0] + "//" + PieceOrUndefined(domain, 2) + target
    else
      var domain := Split(base, '/');
      Join(domain[..|domain| - 1], '/') + "/" + target
  }

  /** A root-relative reference keeps the scheme and host of a URL of the
      shape `scheme//host[/path]` and drops its whole path. */
  lemma ApplyUrlRootRelative(scheme: string, host: string, path: string, target: string)
    requires '/' !in scheme && '/' !in host
    requires path == [] || path[0] == '/'
    requires |target| > 0 && target[0] == '/'
    ensures ApplyUrl(target, scheme + "//" + host + path) == scheme + "//" + host + target
  {
    var base := scheme + "//" + host + path;
    assert !StartsWith(target, "http") by {
      if |target| >= 4 { assert target[..4][0] == target[0]; }
    }
    assert base == scheme + ['/'] + ([] + ['/'] + (host + path));
    SplitAppend(scheme, [] + ['/'] + (host + path), '/');
    SplitAppend([], host + path, '/');
    SplitNoSeparator(scheme, '/');
    SplitNoSeparator(host, '/');
    if path == [] {
      assert host + path == host;
    } else {
      assert host + path == host + ['/'] + path[1..];
      SplitAppend(host, path[1..], '/');
    }
    var domain := Split(base, '/');
    assert domain[0] == scheme && domain[2] == host;
  }

  /** A relative reference replaces the last `/`-piece of the base URL; the
      directory part is kept verbatim. */
  lemma ApplyUrlRelative(dir: string, file: string, target: string)
    requires '/' !in file
    requires !StartsWith(target, "http")
    requires !(|target| > 0 && target[0] == '/')
    ensures ApplyUrl(target, dir + "/" + file) == dir + "/" + target
  {
    SplitAppend(dir, file, '/');
    SplitNoSeparator(file, '/');
    var domain := Split(dir + "/" + file, '/');
    assert domain[..|domain| - 1] == Split(dir, '/');
  }

  /** A relative reference against a base with no '/' at all hangs off the
      root: the only piece is dropped and the join of nothing is empty. */
  lemma ApplyUrlRelativeNoSlash(base: string, target: string)
    requires '/' !in base
    requires !StartsWith(target, "http")
    requires !(|target| > 0 && target[0] == '/')
    ensures ApplyUrl(target, base) == "/" + target
  {
    SplitNoSeparator(base, '/');
  }

  // The examples below name their strings through parameters and write each
  // URL as the concatenation of its pieces: stated on literal arguments,
  // `Split` would be unfolded character by character.

  /** The documented relative example: the last piece is replaced. */
  lemma ApplyUrlExampleRelative(target: string, base: string)
    requires target == "seg1.ts" && base == "http://host/path" + "/" + "index.m3u8"
    ensures ApplyUrl(target, base) == "http://host/path" + "/" + "seg1.ts"
  {
    assert !StartsWith(target, "http") by { assert target[..4][0] == 's'; }
    ApplyUrlRelative("http://host/path", "index.m3u8", target);
  }

  /** The documented root-relative example: the path of the base is dropped. */
  lemma ApplyUrlExampleRootRelative(target: string, base: string)
    requires target == "/seg1.ts" && base == "http:" + "//" + "host" + "/path/index.m3u8"
    ensures ApplyUrl(target, base) == "http:" + "//" + "host" + "/seg1.ts"
  {
    ApplyUrlRootRelative("http:", "host", "/path/index.m3u8", target);
  }

  /** `..` is not normalised away. */
  lemma ApplyUrlExampleDotDot(target: string, base: string)
    requires target == "../seg.ts" && base == "http://host/path" + "/" + "index.m3u8"
    ensures ApplyUrl(target, base) == "http://host/path" + "/" + "../seg.ts"
  {
    assert !StartsWith(target, "http") by { assert target[..4][0] == '.'; }
    ApplyUrlRelative("http://host/path", "index.m3u8", target);
  }

  /** Anything that begins with the four letters "http" is returned as is,
      whether or not it is a URL. */
  lemma ApplyUrlExampleAbsolute()
    ensures ApplyUrl("http://other/seg.ts", "http://host/x.m3u8") == "http://other/seg.ts"
    ensures ApplyUrl("httpx/seg.ts", "http://host/x.m3u8") == "httpx/seg.ts"
  {
    assert "http://other/seg.ts"[..4] == "http";
    assert "httpx/seg.ts"[..4] == "http";
  }

  /** A root-relative reference against a base with no '/' (so fewer than
      three pieces) picks up the literal text "undefined" as its host. */
  lemma ApplyUrlMissingHost(target: string, base: string)
    requires |target| > 0 && target[0] == '/'
    requires '/' !in base
    ensures ApplyUrl(target, base) == base + "//undefined" + target
  {
    assert !StartsWith(target, "http") by {
      if |target| >= 4 { assert target[..4][0] == target[0]; }
    }
    SplitNoSeparator(base, '/');
  }
}
