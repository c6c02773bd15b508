/**
 * `imagePath`, the normaliser the controllers apply to a stored profile image
 * before returning it: it reduces an absolute URL to its path, drops one
 * leading `public/` and every leading slash, and maps an empty value to null.
 */
module ImagePath {
  import opened Wrappers
  import opened Text

  /** Length of a leading `http://` or `https://`, in any letter case; 0 when there is none. */
  function SchemeLength(s: string): (n: nat)
    ensures n == 0 || n == 7 || n == 8
    ensures n > 0 ==> n <= |s| && Lower(s[..n - 3]) <= "https" && s[n - 3..n] == "://"
    ensures n == 7 <==> |s| >= 7 && Lower(s[..7]) == "http://"
    ensures n == 8 <==> |s| >= 8 && Lower(s[..8]) == "https://"
    ensures n == 0 <==> !(|s| >= 7 && Lower(s[..7]) == "http://") && !(|s| >= 8 && Lower(s[..8]) == "https://")
  {
    if |s| >= 7 && Lower(s[..7]) == "http://" then
      assert !(|s| >= 8 && Lower(s[..8]) == "https://") by {
        if |s| >= 8 { SchemesDiffer(s); }
      }
      7
    else if |s| >= 8 && Lower(s[..8]) == "https://" then 8
    else 0
  }

  /** No value starts with both schemes: the fifth character is `:` in one and `s` in the other. */
  lemma SchemesDiffer(s: string)
    requires |s| >= 8
    ensures Lower(s[..7]) == "http://" ==> Lower(s[..8]) != "https://"
  {
    assert Lower(s[..7])[4] == LowerChar(s[4]) == Lower(s[..8])[4];
  }

  /** Characters that end the path component of a URL. */
  predicate EndsComponent(c: char) { c == '?' || c == '#' }

  /** Characters that end the authority (host and port) of a URL. */
  predicate EndsAuthority(c: char) { c == '/' || EndsComponent(c) }

  /** The longest prefix of `s` that holds none of the given stop characters. */
  function TakeUntil(s: string, stop: char -> bool): (r: string)
    ensures r <= s && forall i :: 0 <= i < |r| ==> !stop(r[i])
    ensures |r| < |s| ==> stop(s[|r|])
  {
    if s == [] || stop(s[0]) then [] else [s[0]] + TakeUntil(s[1..], stop)
  }

  /**
   * The path component of `s` after a scheme of length `n`, as `parse_url`
   * returns it for a well-formed URL: the authority runs to the first `/`,
   * `?` or `#`, and the path from that `/` to the first `?` or `#`. A URL
   * without a path has a null path component.
   */
  function UrlPath(s: string, n: nat): (r: Option<string>)
    requires n <= |s|
    ensures r.Some? ==> |r.value| > 0 && r.value[0] == '/' && forall i :: 0 <= i < |r.value| ==> !EndsComponent(r.value[i])
  {
    var authority := TakeUntil(s[n..], EndsAuthority);
    var rest := s[n + |authority|..];
    if rest != [] && rest[0] == '/' then Some(TakeUntil(rest, EndsComponent)) else None
  }

  /** `preg_replace('#^public/#', '', $p)`: removes one leading `public/`. */
  function DropPublic(p: string): (r: string)
    ensures "public/" <= p ==> p == "public/" + r
    ensures !("public/" <= p) ==> r == p
  {
    if "public/" <= p then p[7..] else p
  }

  function ImagePath(path: Option<string>): (r: Option<string>)
    ensures r.None? <==> !Truthy(path)
    ensures r.Some? ==> r.value == [] || r.value[0] != '/'
  {
    if !Truthy(path) then None
    else
      var s := path.value;
      var n := SchemeLength(s);
      var p := if n == 0 then s else match UrlPath(s, n) { case None => "" case Some(u) => LTrim(u, '/') };
      Some(LTrim(DropPublic(p), '/'))
  }

  /** A value whose first letter is not an `h` in either case has no scheme. */
  lemma NoScheme(s: string)
    requires s != [] && LowerChar(s[0]) != 'h'
    ensures SchemeLength(s) == 0
  {
    if |s| >= 7 {
      assert Lower(s[..7])[0] != 'h';
    }
    if |s| >= 8 {
      assert Lower(s[..8])[0] != 'h';
    }
  }

  /** A relative path that needs no rewriting is returned as it is. */
  lemma PlainPathUnchanged(p: string)
    requires Truthy(Some(p)) && p[0] != '/' && !("public/" <= p) && SchemeLength(p) == 0
    ensures ImagePath(Some(p)) == Some(p)
  {
  }

  /** The paths `saveProfile` stores come back unchanged. */
  lemma StoredUploadUnchanged(file: string)
    ensures ImagePath(Some("uploads/clients/" + file)) == Some("uploads/clients/" + file)
  {
    var p := "uploads/clients/" + file;
    assert p[0] == 'u';
    NoScheme(p);
    assert !("public/" <= p);
    PlainPathUnchanged(p);
  }

  /** Exactly one leading `public/` is removed. */
  lemma PublicPrefixRemovedOnce(p: string)
    ensures ImagePath(Some("public/" + p)) == Some(LTrim(p, '/'))
  {
    var s := "public/" + p;
    assert s[0] == 'p';
    NoScheme(s);
    assert "public/" <= s && s[7..] == p;
  }

  /** An absolute URL, with either scheme in any letter case, is reduced to its path. */
  lemma UrlReducedToPath(scheme: string, host: string, path: string)
    requires Lower(scheme) == "http://" || Lower(scheme) == "https://"
    requires forall i :: 0 <= i < |host| ==> !EndsAuthority(host[i])
    requires forall i :: 0 <= i < |path| ==> !EndsComponent(path[i])
    ensures ImagePath(Some(scheme + host + "/" + path)) == Some(LTrim(DropPublic(LTrim(path, '/')), '/'))
  {
    var s := scheme + host + "/" + path;
    UrlParts(scheme, host, path);
    SchemeOf(s, scheme);
    PathAfterAuthority(s, |scheme|, host, path);
    UrlImagePath(s, |scheme|, path);
  }

  lemma UrlParts(scheme: string, host: string, path: string)
    ensures var s := scheme + host + "/" + path; s[..|scheme|] == scheme && s[|scheme|..] == host + "/" + path
  {
    var s := scheme + host + "/" + path;
    assert s == scheme + (host + "/" + path);
  }

  /** A value that starts with a scheme has that scheme's length. */
  lemma SchemeOf(s: string, scheme: string)
    requires |scheme| <= |s| && s[..|scheme|] == scheme
    requires Lower(scheme) == "http://" || Lower(scheme) == "https://"
    ensures SchemeLength(s) == |scheme|
  {
    assert |Lower(scheme)| == |scheme|;
  }

  lemma UrlImagePath(s: string, n: nat, path: string)
    requires n > 0 && SchemeLength(s) == n && UrlPath(s, n) == Some("/" + path)
    ensures ImagePath(Some(s)) == Some(LTrim(DropPublic(LTrim(path, '/')), '/'))
  {
    assert Truthy(Some(s)) by { assert |s| >= 7; }
    assert LTrim("/" + path, '/') == LTrim(path, '/') by { assert ("/" + path)[1..] == path; }
  }

  lemma PathAfterAuthority(s: string, n: nat, host: string, path: string)
    requires n <= |s| && s[n..] == host + "/" + path
    requires forall i :: 0 <= i < |host| ==> !EndsAuthority(host[i])
    requires forall i :: 0 <= i < |path| ==> !EndsComponent(path[i])
    ensures UrlPath(s, n) == Some("/" + path)
  {
    assert s[n..] == host + ("/" + path);
    TakeUntilStops(host, "/" + path, EndsAuthority);
    assert s[n + |host|..] == "/" + path;
    TakeUntilAll("/" + path, EndsComponent);
  }

  lemma {:induction false} TakeUntilStops(a: string, b: string, stop: char -> bool)
    requires forall i :: 0 <= i < |a| ==> !stop(a[i])
    requires b != [] && stop(b[0])
    ensures TakeUntil(a + b, stop) == a
  {
    if a != [] {
      assert (a + b)[1..] == a[1..] + b;
      TakeUntilStops(a[1..], b, stop);
    }
  }

  lemma {:induction false} TakeUntilAll(a: string, stop: char -> bool)
    requires forall i :: 0 <= i < |a| ==> !stop(a[i])
    ensures TakeUntil(a, stop) == a
  {
    if a != [] {
      TakeUntilAll(a[1..], stop);
    }
  }
}
