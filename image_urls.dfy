/**
 The `imageUrl` a sauce document stores and the file name the controller
 recovers from it before unlinking the image (backend/controllers/sauce.js).

 The URL is built as `${protocol}://${host}/images/${name}`; the name is read
 back with JavaScript's `url.split(sep)[1]`, where `sep` is `/images/` when a
 sauce is modified and `/images` (no trailing slash) when it is deleted.
 */
module ImageUrls {
  import opened Wrappers

  /** `sep` occurs in `s` starting at index `i`. */
  predicate OccursAt(s: string, sep: string, i: nat) {
    i + |sep| <= |s| && s[i..i + |sep|] == sep
  }

  /** `s.indexOf(sep, from)`: the first index at or after `from` where `sep` occurs. */
  function IndexOf(s: string, sep: string, from: nat): (r: Option<nat>)
    ensures r.Some? ==> from <= r.value && OccursAt(s, sep, r.value)
    ensures r.Some? ==> forall i: nat :: from <= i < r.value ==> !OccursAt(s, sep, i)
    ensures r.None? ==> forall i: nat :: from <= i ==> !OccursAt(s, sep, i)
    decreases |s| - from
  {
    if from + |sep| > |s| then None
    else if s[from..from + |sep|] == sep then Some(from)
    else IndexOf(s, sep, from + 1)
  }

  /**
   `v` is the second field of `s` split on `sep`: `i` is the first occurrence
   of `sep`, and `j` is the next occurrence starting at or after `i + |sep|`,
   or `|s|` when there is none.
   */
  predicate SecondField(s: string, sep: string, i: nat, j: nat, v: string) {
    && OccursAt(s, sep, i) && (forall k: nat :: k < i ==> !OccursAt(s, sep, k))
    && i + |sep| <= j <= |s| && (j == |s| || OccursAt(s, sep, j))
    && (forall k: nat :: i + |sep| <= k < j ==> !OccursAt(s, sep, k))
    && v == s[i + |sep|..j]
  }

  /**
   `s.split(sep)[1]` for a non-empty `sep`: the text between the first and the
   second occurrence of `sep`, or to the end of `s` when there is no second
   one; `None` (JavaScript's `undefined`) when `sep` does not occur at all.
   */
  function SplitSecond(s: string, sep: string): (r: Option<string>)
    ensures r.None? <==> forall i: nat :: !OccursAt(s, sep, i)
    ensures r.Some? ==> exists i: nat, j: nat :: SecondField(s, sep, i, j, r.value)
    ensures r.Some? && |sep| > 0 ==> forall k: nat :: !OccursAt(r.value, sep, k)
  {
    match IndexOf(s, sep, 0)
    case None => None
    case Some(i) =>
      var start := i + |sep|;
      match IndexOf(s, sep, start)
      case None =>
        assert SecondField(s, sep, i, |s|, s[start..]);
        FieldHasNoSeparator(s, sep, i, |s|, s[start..]);
        Some(s[start..])
      case Some(j) =>
        assert SecondField(s, sep, i, j, s[start..j]);
        FieldHasNoSeparator(s, sep, i, j, s[start..j]);
        Some(s[start..j])
  }

  /** An occurrence inside a slice is an occurrence in the whole string. */
  lemma OccursInSlice(s: string, sep: string, a: nat, b: nat, k: nat)
    requires a <= b <= |s| && OccursAt(s[a..b], sep, k)
    ensures OccursAt(s, sep, a + k)
  {
    var t := s[a..b];
    forall m | 0 <= m < |sep| ensures s[a + k + m] == sep[m] {
      assert sep[m] == t[k..k + |sep|][m] == t[k + m];
    }
  }

  /** The second field holds no occurrence of a non-empty separator. */
  lemma FieldHasNoSeparator(s: string, sep: string, i: nat, j: nat, v: string)
    requires SecondField(s, sep, i, j, v)
    ensures |sep| > 0 ==> forall k: nat :: !OccursAt(v, sep, k)
  {
    forall k: nat | |sep| > 0 && OccursAt(v, sep, k) ensures false {
      OccursInSlice(s, sep, i + |sep|, j, k);
    }
  }

  /** The `imageUrl` template of createSauce and modifySauce. */
  function ImageUrl(protocol: string, host: string, filename: string): (url: string)
    ensures |url| >= |filename| + 8 && url[|url| - |filename| - 8..] == "/images/" + filename
  {
    protocol + "://" + host + "/images/" + filename
  }

  /** The name modifySauce unlinks: the text after `/images/`. */
  function ExtractFilename(url: string): (name: Option<string>)
    ensures name.None? <==> forall i: nat :: !OccursAt(url, "/images/", i)
    ensures name.Some? ==> forall k: nat :: !OccursAt(name.value, "/images/", k)
  {
    SplitSecond(url, "/images/")
  }

  /**
   The name deleteSauce unlinks, as written: the split is on `/images`
   without the trailing slash, so the slash stays at the head of the name.
   */
  function ExtractFilenameAsWritten(url: string): (name: Option<string>)
    ensures name.None? <==> forall i: nat :: !OccursAt(url, "/images", i)
    ensures name.Some? ==> forall k: nat :: !OccursAt(name.value, "/images", k)
    ensures ExtractFilename(url).Some? ==> name.Some?
  {
    ImagesSlashIsImages(url);
    SplitSecond(url, "/images")
  }

  /** Wherever `/images/` occurs, so does `/images`. */
  lemma ImagesSlashIsImages(url: string)
    ensures forall i: nat :: OccursAt(url, "/images/", i) ==> OccursAt(url, "/images", i)
  {
    forall i: nat | OccursAt(url, "/images/", i) ensures OccursAt(url, "/images", i) {
      assert url[i..i + 7] == url[i..i + 8][..7];
    }
  }

  predicate NoSlash(s: string) {
    '/' !in s
  }

  // ---------------------------------------------------------------------------
  // Locating separators in an image URL

  /** The characters of `ImageUrl(protocol, host, name)`, part by part. */
  ghost predicate Shaped(url: string, protocol: string, host: string, name: string) {
    var p, k := |protocol|, |protocol| + 3 + |host|;
    && |url| == k + 8 + |name|
    && (forall i :: 0 <= i < p ==> url[i] == protocol[i])
    && url[p] == ':' && url[p + 1] == '/' && url[p + 2] == '/'
    && (forall i :: 0 <= i < |host| ==> url[p + 3 + i] == host[i])
    && url[k..k + 8] == "/images/"
    && url[k + 8..] == name
  }

  lemma ImageUrlShaped(protocol: string, host: string, name: string)
    ensures Shaped(ImageUrl(protocol, host, name), protocol, host, name)
  {
    var a := protocol + "://";
    var b := a + host;
    var c := b + "/images/";
    var url := ImageUrl(protocol, host, name);
    assert url == c + name;
    forall i | 0 <= i < |protocol| ensures url[i] == protocol[i] {
      assert url[i] == c[i] == b[i] == a[i];
    }
    assert url[|protocol|] == a[|protocol|];
    assert url[|protocol| + 1] == a[|protocol| + 1];
    assert url[|protocol| + 2] == a[|protocol| + 2];
    forall i | 0 <= i < |host| ensures url[|protocol| + 3 + i] == host[i] {
      assert url[|a| + i] == c[|a| + i] == b[|a| + i];
    }
    assert url[|b|..|b| + 8] == c[|b|..];
    assert url[|c|..] == name;
  }

  /** A separator does not occur where one of its characters is missing. */
  lemma MismatchAt(s: string, sep: string, i: nat, m: nat)
    requires m < |sep| && (i + |sep| <= |s| ==> s[i + m] != sep[m])
    ensures !OccursAt(s, sep, i)
  {
    if i + |sep| <= |s| {
      assert s[i..i + |sep|][m] == s[i + m];
    }
  }

  /** The first occurrence is pinned down by one occurrence and none before it. */
  lemma IndexOfIs(s: string, sep: string, from: nat, k: nat)
    requires from <= k && OccursAt(s, sep, k)
    requires forall i: nat :: from <= i < k ==> !OccursAt(s, sep, i)
    ensures IndexOf(s, sep, from) == Some(k)
  {
    var r := IndexOf(s, sep, from);
    if r.Some? {
      assert !(r.value < k);
      assert !(k < r.value);
    }
  }

  /** A separator that starts with a slash cannot occur in a slash-free tail. */
  lemma IndexOfSlashFree(s: string, sep: string, from: nat)
    requires from <= |s| && |sep| > 0 && sep[0] == '/' && NoSlash(s[from..])
    ensures IndexOf(s, sep, from) == None
  {
    forall i: nat | from <= i ensures !OccursAt(s, sep, i) {
      if i < |s| {
        assert s[i] == s[from..][i - from] && s[from..][i - from] in s[from..];
      }
      MismatchAt(s, sep, i, 0);
    }
  }

  /**
   Before the host ends, a separator starting with `/i` can only start at the
   second slash of `://`.
   */
  lemma NoSeparatorInOrigin(url: string, protocol: string, host: string, name: string, sep: string, i: nat)
    requires Shaped(url, protocol, host, name) && NoSlash(protocol) && NoSlash(host)
    requires |sep| >= 2 && sep[0] == '/' && sep[1] == 'i'
    requires i < |protocol| + 3 + |host| && i != |protocol| + 2
    ensures !OccursAt(url, sep, i)
  {
    var p := |protocol|;
    if i < p {
      assert url[i] == protocol[i] && protocol[i] in protocol;
      MismatchAt(url, sep, i, 0);
    } else if i == p {
      MismatchAt(url, sep, i, 0);
    } else if i == p + 1 {
      MismatchAt(url, sep, i, 1);
    } else {
      assert url[p + 3 + (i - p - 3)] == host[i - p - 3] && host[i - p - 3] in host;
      MismatchAt(url, sep, i, 0);
    }
  }

  /** The second slash of `://` starts no `/images/` unless the host is the word `images`. */
  lemma NoImagesSlashAfterScheme(url: string, protocol: string, host: string, name: string)
    requires Shaped(url, protocol, host, name) && NoSlash(host) && host != "images"
    ensures !OccursAt(url, "/images/", |protocol| + 2)
  {
    var p, k := |protocol|, |protocol| + 3 + |host|;
    assert url[k] == url[k..k + 8][0] == '/';
    if |host| < 6 {
      MismatchAt(url, "/images/", p + 2, 1 + |host|);
    } else if |host| == 6 {
      var w := url[p + 2..p + 10];
      forall m | 0 <= m < 6 ensures w[1 + m] == host[m] {
        assert url[p + 3 + m] == host[m];
      }
      assert w[1..7] == host;
      assert "/images/"[1..7] == "images";
    } else {
      assert url[p + 3 + 6] == host[6] && host[6] in host;
      MismatchAt(url, "/images/", p + 2, 7);
    }
  }

  /** The second slash of `://` starts no `/images` unless the host begins with `images`. */
  lemma NoImagesAfterScheme(url: string, protocol: string, host: string, name: string)
    requires Shaped(url, protocol, host, name) && NoSlash(host)
    requires !(|host| >= 6 && host[..6] == "images")
    ensures !OccursAt(url, "/images", |protocol| + 2)
  {
    var p, k := |protocol|, |protocol| + 3 + |host|;
    assert url[k] == url[k..k + 8][0] == '/';
    if |host| < 6 {
      MismatchAt(url, "/images", p + 2, 1 + |host|);
    } else {
      var w := url[p + 2..p + 9];
      forall m | 0 <= m < 6 ensures w[1 + m] == host[m] {
        assert url[p + 3 + m] == host[m];
      }
      assert w[1..7] == host[..6];
      assert "/images"[1..7] == "images";
    }
  }

  // ---------------------------------------------------------------------------
  // Round trip and its failures

  /**
   The name modifySauce unlinks is exactly the name the URL was built from,
   provided protocol and host hold no slash, the host is not the bare word
   `images`, and the name holds no `/images/` (it may hold other slashes).
   */
  lemma ExtractFilenameRoundTrip(protocol: string, host: string, name: string)
    requires NoSlash(protocol) && NoSlash(host) && host != "images"
    requires forall k: nat :: !OccursAt(name, "/images/", k)
    ensures ExtractFilename(ImageUrl(protocol, host, name)) == Some(name)
  {
    var url := ImageUrl(protocol, host, name);
    var k := |protocol| + 3 + |host|;
    ImageUrlShaped(protocol, host, name);
    forall i: nat | i < k ensures !OccursAt(url, "/images/", i) {
      if i == |protocol| + 2 {
        NoImagesSlashAfterScheme(url, protocol, host, name);
      } else {
        NoSeparatorInOrigin(url, protocol, host, name, "/images/", i);
      }
    }
    IndexOfIs(url, "/images/", 0, k);
    IndexOfInTail(url, "/images/", k + 8);
  }

  /** No occurrence in the tail `s[from..]` means the search from `from` finds none. */
  lemma IndexOfInTail(s: string, sep: string, from: nat)
    requires from <= |s| && forall k: nat :: !OccursAt(s[from..], sep, k)
    ensures IndexOf(s, sep, from) == None
  {
    forall i: nat | from <= i && OccursAt(s, sep, i) ensures false {
      assert s[from..][i - from..i - from + |sep|] == s[i..i + |sep|];
      assert OccursAt(s[from..], sep, i - from);
    }
  }

  /**
   A host named exactly `images` puts a `/images/` right after `://`, so the
   recovered name is `images/` followed by the real one.
   */
  lemma ExtractFilenameImagesHost(protocol: string, name: string)
    requires NoSlash(protocol) && NoSlash(name)
    ensures ExtractFilename(ImageUrl(protocol, "images", name)) == Some("images/" + name)
  {
    ImageUrlShaped(protocol, "images", name);
    SplitImagesHost(ImageUrl(protocol, "images", name), protocol, name);
  }

  lemma SplitImagesHost(url: string, protocol: string, name: string)
    requires Shaped(url, protocol, "images", name) && NoSlash(protocol) && NoSlash(name)
    ensures SplitSecond(url, "/images/") == Some("images/" + name)
  {
    var k := |protocol| + 9;
    ImagesHostFirstSeparator(url, protocol, name);
    ImagesHostSecondSearch(url, protocol, name);
    assert url[k + 1..] == url[k..k + 8][1..] + url[k + 8..];
  }

  /** With the host `images`, the first `/images/` starts at the second slash of `://`. */
  lemma ImagesHostFirstSeparator(url: string, protocol: string, name: string)
    requires Shaped(url, protocol, "images", name) && NoSlash(protocol)
    ensures IndexOf(url, "/images/", 0) == Some(|protocol| + 2)
  {
    var p := |protocol|;
    var k := p + 9;
    forall i: nat | i < p + 2 ensures !OccursAt(url, "/images/", i) {
      NoSeparatorInOrigin(url, protocol, "images", name, "/images/", i);
    }
    var w := url[p + 2..p + 10];
    forall m | 0 <= m < 6 ensures w[1 + m] == "images"[m] {
      assert url[p + 3 + m] == "images"[m];
    }
    assert w[7] == url[k..k + 8][0];
    forall m | 0 <= m < 8 ensures w[m] == "/images/"[m] {
      if 1 <= m < 7 {
        assert w[1 + (m - 1)] == "images"[m - 1];
      }
    }
    assert w == "/images/";
    IndexOfIs(url, "/images/", 0, p + 2);
  }

  /** With the host `images`, no `/images/` follows the one after `://`. */
  lemma ImagesHostSecondSearch(url: string, protocol: string, name: string)
    requires Shaped(url, protocol, "images", name) && NoSlash(name)
    ensures IndexOf(url, "/images/", |protocol| + 10) == None
  {
    var k := |protocol| + 9;
    var start := k + 1;
    assert url[start..k + 8] == url[k..k + 8][1..] == "images/";
    forall i: nat | start <= i < start + 7 ensures !OccursAt(url, "/images/", i) {
      if i < start + 6 {
        assert url[i] == url[start..k + 8][i - start] == "images/"[i - start];
        MismatchAt(url, "/images/", i, 0);
      } else if i + 8 <= |url| {
        assert url[i + 7] == url[k + 8..][6] == name[6] && name[6] in name;
        MismatchAt(url, "/images/", i, 7);
      } else {
        MismatchAt(url, "/images/", i, 0);
      }
    }
    IndexOfSlashFree(url, "/images/", start + 7);
    forall i: nat | start <= i ensures !OccursAt(url, "/images/", i) {
      if i >= start + 7 {
        assert start + 7 <= i;
      }
    }
  }

  /**
   deleteSauce's split on `/images` recovers the name with a slash in front of
   it (for a host and a name that do not themselves start with `images`).
   */
  lemma ExtractFilenameAsWrittenKeepsSlash(protocol: string, host: string, name: string)
    requires NoSlash(protocol) && NoSlash(host) && NoSlash(name)
    requires !(|host| >= 6 && host[..6] == "images")
    requires !(|name| >= 6 && name[..6] == "images")
    ensures ExtractFilenameAsWritten(ImageUrl(protocol, host, name)) == Some("/" + name)
    ensures ExtractFilenameAsWritten(ImageUrl(protocol, host, name)) != Some(name)
  {
    ImageUrlShaped(protocol, host, name);
    SplitKeepsSlash(ImageUrl(protocol, host, name), protocol, host, name);
    assert ("/" + name)[0] == '/' && '/' !in name;
  }

  /**
   For a name that begins with `images`, the second `/images` starts right
   after the first, so deleteSauce's split recovers the empty name.
   */
  lemma ExtractFilenameAsWrittenEmptyName(protocol: string, host: string, name: string)
    requires NoSlash(protocol) && NoSlash(host)
    requires !(|host| >= 6 && host[..6] == "images")
    requires |name| >= 6 && name[..6] == "images"
    ensures ExtractFilenameAsWritten(ImageUrl(protocol, host, name)) == Some("")
  {
    var url := ImageUrl(protocol, host, name);
    var k := |protocol| + 3 + |host|;
    ImageUrlShaped(protocol, host, name);
    FirstImagesAtHostEnd(url, protocol, host, name);
    forall m | 0 <= m < 7 ensures url[k + 7 + m] == "/images"[m] {
      if m == 0 {
        assert url[k + 7] == url[k..k + 8][7];
      } else {
        assert url[k + 7 + m] == url[k + 8..][m - 1] == name[..6][m - 1];
      }
    }
    assert url[k + 7..k + 14] == "/images";
    IndexOfIs(url, "/images", k + 7, k + 7);
  }

  lemma SplitKeepsSlash(url: string, protocol: string, host: string, name: string)
    requires Shaped(url, protocol, host, name) && NoSlash(protocol) && NoSlash(host) && NoSlash(name)
    requires !(|host| >= 6 && host[..6] == "images")
    requires !(|name| >= 6 && name[..6] == "images")
    ensures SplitSecond(url, "/images") == Some("/" + name)
  {
    var k := |protocol| + 3 + |host|;
    FirstImagesAtHostEnd(url, protocol, host, name);
    NoImagesInName(url, protocol, host, name);
    assert url[k + 7..] == [url[k + 7]] + url[k + 8..];
    assert url[k + 7] == url[k..k + 8][7];
  }

  /** Without a trailing slash, the first `/images` is still the one after the host. */
  lemma FirstImagesAtHostEnd(url: string, protocol: string, host: string, name: string)
    requires Shaped(url, protocol, host, name) && NoSlash(protocol) && NoSlash(host)
    requires !(|host| >= 6 && host[..6] == "images")
    ensures IndexOf(url, "/images", 0) == Some(|protocol| + 3 + |host|)
  {
    var k := |protocol| + 3 + |host|;
    assert url[k..k + 7] == url[k..k + 8][..7];
    forall i: nat | i < k ensures !OccursAt(url, "/images", i) {
      if i == |protocol| + 2 {
        NoImagesAfterScheme(url, protocol, host, name);
      } else {
        NoSeparatorInOrigin(url, protocol, host, name, "/images", i);
      }
    }
    IndexOfIs(url, "/images", 0, k);
  }

  /** After that first `/images`, a name that does not begin with `images` holds no other. */
  lemma NoImagesInName(url: string, protocol: string, host: string, name: string)
    requires Shaped(url, protocol, host, name) && NoSlash(name)
    requires !(|name| >= 6 && name[..6] == "images")
    ensures IndexOf(url, "/images", |protocol| + 3 + |host| + 7) == None
  {
    var k := |protocol| + 3 + |host|;
    var start := k + 7;
    if start + 7 <= |url| {
      var w := url[start..start + 7];
      forall m | 0 <= m < 6 ensures w[1 + m] == name[m] {
        assert w[1 + m] == url[k + 8 + m] == url[k + 8..][m];
      }
      assert w[1..7] == name[..6];
      assert "/images"[1..7] == "images";
    }
    IndexOfSlashFree(url, "/images", start + 1);
    forall i: nat | start <= i ensures !OccursAt(url, "/images", i) {
      if i != start {
        assert start + 1 <= i;
      }
    }
  }

}
