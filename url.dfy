/** `get_host_of_url`: the host part of a URL, copied into a caller's
    buffer. The buffer is a C character array; the string it holds is what
    precedes its first NUL. */
module Url {
  import opened Optional
  import opened CText

  /** The host of `url`: what follows the first "://" up to the next '/' or
      the end; none when there is no "://". */
  function HostOfUrl(url: string): (r: Option<string>)
    ensures r.None? <==> IndexOf(url, "://").None?
    ensures r.Some? ==>
      var p := IndexOf(url, "://").value + 3;
      && p + |r.value| <= |url| && url[p..p + |r.value|] == r.value
      && '/' !in r.value
      && (p + |r.value| == |url| || url[p + |r.value|] == '/')
  {
    match IndexOf(url, "://")
    case None => None
    case Some(k) =>
      var after := url[k + 3..];
      match CharIndex(after, '/')
      case None => Some(after)
      case Some(e) => Some(after[..e])
  }

  /** Whether a '/' follows the host, so that the host is copied with
      `strncpy` rather than `strcpy`. */
  predicate HasPath(url: string)
    requires HostOfUrl(url).Some?
  {
    CharIndex(url[IndexOf(url, "://").value + 3..], '/').Some?
  }

  /** The C string held by a character buffer. */
  function CString(buf: seq<char>): (r: string)
    ensures '\0' !in r && |r| <= |buf| && buf[..|r|] == r
    ensures |r| < |buf| ==> buf[|r|] == '\0'
  {
    match CharIndex(buf, '\0')
    case None => buf
    case Some(k) => buf[..k]
  }

  /** The buffer after `get_host_of_url` as written: the host over its first
      characters, then a NUL only when `strcpy` did the copy; `strncpy` of
      exactly the host's length writes none. */
  function AfterCopy(url: string, buf: seq<char>): (r: seq<char>)
    requires HostOfUrl(url).Some? && |HostOfUrl(url).value| < |buf|
    ensures |r| == |buf| && r[..|HostOfUrl(url).value|] == HostOfUrl(url).value
  {
    var host := HostOfUrl(url).value;
    if HasPath(url) then host + buf[|host|..]
    else host + ['\0'] + buf[|host| + 1..]
  }

  /** `strncpy(dst, src, n)` when `src` has no NUL among its first `n`
      characters: exactly those characters are copied and no terminator is
      written. */
  method Strncpy(dst: array<char>, src: string, n: nat)
    requires n <= |src| && n <= dst.Length && '\0' !in src[..n]
    modifies dst
    ensures dst[..] == src[..n] + old(dst[..])[n..]
  {
    var i := 0;
    while i < n
      invariant 0 <= i <= n
      invariant forall j :: 0 <= j < i ==> dst[j] == src[j]
      invariant forall j :: i <= j < dst.Length ==> dst[j] == old(dst[j])
    {
      dst[i] := src[i];
      i := i + 1;
    }
    assert dst[..] == src[..n] + old(dst[..])[n..];
  }

  /** `strcpy(dst, src)`: the characters of `src`, then its terminator. */
  method Strcpy(dst: array<char>, src: string)
    requires '\0' !in src && |src| < dst.Length
    modifies dst
    ensures dst[..] == src + ['\0'] + old(dst[..])[|src| + 1..]
  {
    var i := 0;
    while i < |src|
      invariant 0 <= i <= |src|
      invariant forall j :: 0 <= j < i ==> dst[j] == src[j]
      invariant forall j :: i <= j < dst.Length ==> dst[j] == old(dst[j])
    {
      dst[i] := src[i];
      i := i + 1;
    }
    dst[i] := '\0';
    assert dst[..] == src + ['\0'] + old(dst[..])[|src| + 1..];
  }

  /** `get_host_of_url`: `found` is false (the source returns NULL) when the
      URL has no "://", and the buffer is then untouched. */
  method GetHostOfUrl(url: string, buffer: array<char>) returns (found: bool)
    requires '\0' !in url
    requires HostOfUrl(url).Some? ==> |HostOfUrl(url).value| < buffer.Length
    modifies buffer
    ensures found <==> HostOfUrl(url).Some?
    ensures !found ==> buffer[..] == old(buffer[..])
    ensures found ==> buffer[..] == AfterCopy(url, old(buffer[..]))
  {
    var k := IndexOf(url, "://");
    if k.None? {
      return false;
    }
    var ptr := url[k.value + 3..];
    assert '\0' !in ptr;
    var end := CharIndex(ptr, '/');
    if end.None? {
      assert HostOfUrl(url) == Some(ptr) && !HasPath(url);
      Strcpy(buffer, ptr);
    } else {
      var n := end.value;
      assert HostOfUrl(url) == Some(ptr[..n]) && HasPath(url);
      assert '\0' !in ptr[..n] by {
        assert forall j :: 0 <= j < n ==> ptr[..n][j] == ptr[j];
      }
      Strncpy(buffer, ptr, n);
    }
    return true;
  }

  /** Without a path the copy is terminated and the buffer holds the host. */
  lemma HostWithoutPath(url: string, buf: seq<char>)
    requires '\0' !in url
    requires HostOfUrl(url).Some? && |HostOfUrl(url).value| < |buf| && !HasPath(url)
    ensures CString(AfterCopy(url, buf)) == HostOfUrl(url).value
  {
    var host := HostOfUrl(url).value;
    var r := AfterCopy(url, buf);
    assert r[|host|] == '\0';
    assert '\0' !in host by {
      var p := IndexOf(url, "://").value + 3;
      assert url[p..p + |host|] == host;
    }
    CStringAt(r, |host|);
  }

  /** With a path and a buffer that does not already hold a NUL right after
      where the host ends, the buffer's string is not the host: it runs on
      into what the buffer held before. */
  lemma HostWithPathUnterminated(url: string, buf: seq<char>)
    requires '\0' !in url
    requires HostOfUrl(url).Some? && |HostOfUrl(url).value| < |buf| && HasPath(url)
    requires buf[|HostOfUrl(url).value|] != '\0'
    ensures CString(AfterCopy(url, buf)) != HostOfUrl(url).value
  {
    var host := HostOfUrl(url).value;
    var r := AfterCopy(url, buf);
    assert r[|host|] == buf[|host|];
  }

  /** The string of a buffer whose first NUL is at `n`. */
  lemma CStringAt(buf: seq<char>, n: nat)
    requires n < |buf| && buf[n] == '\0' && '\0' !in buf[..n]
    ensures CString(buf) == buf[..n]
  {
  }

  lemma ExampleHost()
    ensures IndexOf("http://h/p", "://") == Some(4)
    ensures HostOfUrl("http://h/p") == Some("h") && HasPath("http://h/p")
  {
    var url := "http://h/p";
    assert OccursAt(url, "://", 4);
    assert forall k: nat :: k < 4 ==> !OccursAt(url, "://", k) by {
      forall k: nat | k < 4 ensures !OccursAt(url, "://", k) {
        assert url[k..k + 3][0] == url[k] != ':';
      }
    }
    assert url[7..] == "h/p";
    assert CharIndex("h/p", '/') == Some(1);
    assert url[7..][..1] == "h";
  }

  /** A concrete case: "http://h/p" into a buffer holding "abc" leaves "hbc". */
  lemma HostCopyExample()
    ensures HostOfUrl("http://h/p") == Some("h")
    ensures CString(AfterCopy("http://h/p", "abc\0")) == "hbc"
  {
    ExampleHost();
    assert AfterCopy("http://h/p", "abc\0") == "h" + "bc\0";
    assert "h" + "bc\0" == "hbc\0";
    CStringAt("hbc\0", 3);
  }

  /** The buffer as the copy evidently means to leave it: the host, then a
      NUL in both cases. */
  function AfterCopyTerminated(url: string, buf: seq<char>): (r: seq<char>)
    requires '\0' !in url
    requires HostOfUrl(url).Some? && |HostOfUrl(url).value| < |buf|
    ensures |r| == |buf| && CString(r) == HostOfUrl(url).value
  {
    var host := HostOfUrl(url).value;
    var r := host + ['\0'] + buf[|host| + 1..];
    assert '\0' !in host by {
      var p := IndexOf(url, "://").value + 3;
      assert url[p..p + |host|] == host;
    }
    assert r[..|host|] == host;
    CStringAt(r, |host|);
    r
  }
}
