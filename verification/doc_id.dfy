/**
 * DocId: a repository's unique document identifier together with who may read the
 * document, and the mapping between that identifier and the URL the feed file
 * sends to the search appliance.
 *
 * In the encoding mode the identifier is split on '/', every piece is
 * form-urlencoded on its own, and each is appended after a '/' to the configured
 * URL beginning; decoding reverses this on the URL's path. In the pass-through
 * mode the identifier is used verbatim as the URL and the URL's text is the
 * identifier.
 */
module DocIds {
  import opened Jdk
  import FormUrl
  import opened Paths

  /** Who may read a document. The class itself is not part of this model: a value named by its string form. */
  datatype DocReadPermissions = DocReadPermissions(name: string)

  /** The permissions of a document every user may read. */
  const IS_PUBLIC := DocReadPermissions("IS_PUBLIC")

  datatype DocId = DocId(uniqId: string, access: DocReadPermissions)

  /** `new DocId(id, acl)`: both arguments must be present. */
  function NewDocId(id: Option<string>, acl: Option<DocReadPermissions>): (r: Result<DocId>)
    ensures r.Success? <==> id.Some? && acl.Some?
    ensures id.None? ==> r == Failure(IllegalArgument("id cannot be null"))
    ensures id.Some? && acl.None? ==> r == Failure(IllegalArgument("permissions must be provided"))
    ensures r.Success? ==> r.value.uniqId == id.value && r.value.access == acl.value
  {
    if id.None? then Failure(IllegalArgument("id cannot be null"))
    else if acl.None? then Failure(IllegalArgument("permissions must be provided"))
    else Success(DocId(id.value, acl.value))
  }

  /** `new DocId(id)`: a document every user may read. */
  function NewPublicDocId(id: Option<string>): (r: Result<DocId>)
    ensures r.Success? <==> id.Some?
    ensures id.None? ==> r == Failure(IllegalArgument("id cannot be null"))
    ensures r.Success? ==> r.value == DocId(id.value, IS_PUBLIC)
  {
    NewDocId(id, Some(IS_PUBLIC))
  }

  /** `DocId.toString`. */
  function ToString(d: DocId): string
  {
    "DocId(" + d.uniqId + "|" + d.access.name + ")"
  }

  /** Two DocIds with the same permissions print differently unless they are the same DocId. */
  lemma ToStringDistinguishesIds(a: DocId, b: DocId)
    requires a.access == b.access
    requires ToString(a) == ToString(b)
    ensures a == b
  {
    var u, v := a.uniqId, b.uniqId;
    var tail := "|" + a.access.name + ")";
    assert ToString(a) == "DocId(" + u + tail;
    assert ToString(b) == "DocId(" + v + tail;
    assert |u| == |v|;
    assert u == ToString(a)[6..6 + |u|];
    assert v == ToString(b)[6..6 + |v|];
  }

  /** `DocId.equals(o)`, with `None` for null or an object of another class. */
  predicate Equals(d: DocId, o: Option<DocId>)
  {
    o.Some? && d.uniqId == o.value.uniqId && d.access == o.value.access
  }

  /** `DocId.hashCode`: the identifier's string hash; the permissions take no part. */
  function HashCode(d: DocId): Int32
  {
    StringHash(d.uniqId)
  }

  /** `equals` is value equality of both fields, and never holds for null. */
  lemma EqualsIsValueEquality(a: DocId, b: DocId)
    ensures Equals(a, Some(b)) <==> a == b
    ensures !Equals(a, None)
  {
  }

  /** Equal DocIds hash alike; so do DocIds that differ only in their permissions. */
  lemma HashCodeAgreesWithEquals(a: DocId, b: DocId)
    requires Equals(a, Some(b)) || a.uniqId == b.uniqId
    ensures HashCode(a) == HashCode(b)
  {
  }

  /** `getFeedFileAction`: every DocId is sent with the action "add". */
  function GetFeedFileAction(d: DocId): (action: string)
    ensures action == "add"
  {
    "add"
  }

  /**
   * A URL as this code observes it: everything before the path (scheme and
   * authority), and the path. Parsing URL text into the two is not modelled.
   */
  datatype Url = Url(base: string, path: string)

  /**
   * The settings DocId reads from the adaptor's configuration, and the charsets
   * the runtime supports. The URL beginning is given already split into its base
   * and its own path, which may be empty ("http://host") or not ("http://host/docs").
   */
  datatype Config = Config(
    passDocIdToGsaWithoutModification: bool,
    gsaCharacterEncoding: string,
    urlBeginning: DocId -> Url,
    charsets: map<string, FormUrl.Charset>)

  /** `URL.toString`. */
  function UrlText(u: Url): string
  {
    u.base + u.path
  }

  /** What an unsupported character encoding turns into. */
  function UnsupportedCharset(cfg: Config): Exception
  {
    IllegalState(UnsupportedEncoding(cfg.gsaCharacterEncoding))
  }

  /** Each piece form-urlencoded on its own. */
  function EncodeEach(parts: seq<string>, cs: FormUrl.Charset): seq<string>
  {
    seq(|parts|, i requires 0 <= i < |parts| => FormUrl.Encode(parts[i], cs))
  }

  /** The path `encode(s)` produces once the charset is known. */
  function EncodedPath(s: string, cs: FormUrl.Charset): string
  {
    Prefixed(EncodeEach(Split(s, '/'), cs), '/')
  }

  /** `DocId.encode(s)`: "/" and the escaped piece, for every piece of `s.split("/", -1)`. */
  method Encode(s: string, cfg: Config) returns (r: Result<string>)
    ensures cfg.gsaCharacterEncoding !in cfg.charsets ==> r == Failure(UnsupportedCharset(cfg))
    ensures cfg.gsaCharacterEncoding in cfg.charsets ==>
      r == Success(EncodedPath(s, cfg.charsets[cfg.gsaCharacterEncoding]))
  {
    if cfg.gsaCharacterEncoding !in cfg.charsets {
      return Failure(UnsupportedCharset(cfg));
    }
    var cs := cfg.charsets[cfg.gsaCharacterEncoding];
    var parts := Split(s, '/');
    var encoded := "";
    var i := 0;
    while i < |parts|
      invariant 0 <= i <= |parts|
      invariant encoded == Prefixed(EncodeEach(parts[..i], cs), '/')
    {
      var done := EncodeEach(parts[..i + 1], cs);
      assert done[..i] == EncodeEach(parts[..i], cs);
      encoded := encoded + "/" + FormUrl.Encode(parts[i], cs);
      i := i + 1;
    }
    assert parts[..i] == parts;
    return Success(encoded);
  }

  /** An encoded path has one '/'-led piece per piece of `s`, and no other '/'. */
  lemma EncodedPathPieces(s: string, cs: FormUrl.Charset)
    ensures var path := EncodedPath(s, cs);
      path != [] && path[0] == '/' && multiset(path)['/'] == multiset(s)['/'] + 1
  {
    var parts := Split(s, '/');
    var pieces := EncodeEach(parts, cs);
    SplitCount(s, '/');
    EncodedPiecesSeparated(parts, cs);
    SplitPrefixed(pieces, '/');
    SplitCount(EncodedPath(s, cs)[1..], '/');
    var path := EncodedPath(s, cs);
    assert path == [path[0]] + path[1..];
    assert multiset(path) == multiset{path[0]} + multiset(path[1..]);
  }

  /** No encoded piece holds a '/'. */
  lemma EncodedPiecesSeparated(parts: seq<string>, cs: FormUrl.Charset)
    ensures Separated(EncodeEach(parts, cs), '/')
  {
    var pieces := EncodeEach(parts, cs);
    forall i | 0 <= i < |pieces|
      ensures '/' !in pieces[i]
    {
      assert pieces[i] == FormUrl.Encode(parts[i], cs);
      FormUrl.EncodeFormChars(parts[i], cs);
    }
  }

  /**
   * `getFeedFileUrl`: in the encoding mode the encoded path follows the URL
   * beginning, and so also follows the beginning's own path.
   */
  method GetFeedFileUrl(d: DocId, cfg: Config) returns (r: Result<Url>)
    ensures cfg.passDocIdToGsaWithoutModification ==> r.Success? && UrlText(r.value) == d.uniqId
    ensures !cfg.passDocIdToGsaWithoutModification && cfg.gsaCharacterEncoding !in cfg.charsets ==>
      r == Failure(UnsupportedCharset(cfg))
    ensures !cfg.passDocIdToGsaWithoutModification && cfg.gsaCharacterEncoding in cfg.charsets ==>
      r.Success? && r.value.base == cfg.urlBeginning(d).base
      && r.value.path == cfg.urlBeginning(d).path + EncodedPath(d.uniqId, cfg.charsets[cfg.gsaCharacterEncoding])
  {
    if cfg.passDocIdToGsaWithoutModification {
      return Success(Url(d.uniqId, ""));
    }
    var prefix := cfg.urlBeginning(d);
    var path := Encode(d.uniqId, cfg);
    match path {
      case Failure(e) => return Failure(e);
      case Success(p) => return Success(Url(prefix.base, prefix.path + p));
    }
  }

  /** Each piece form-urldecoded, stopping at the first piece that fails. */
  function DecodeEach(parts: seq<string>, cs: FormUrl.Charset): (r: Result<seq<string>>)
    ensures r.Success? ==> |r.value| == |parts|
  {
    if parts == [] then Success([])
    else
      match DecodeEach(parts[..|parts| - 1], cs)
      case Failure(e) => Failure(e)
      case Success(done) =>
        match FormUrl.Decode(parts[|parts| - 1], cs)
        case Failure(e) => Failure(e)
        case Success(piece) => Success(done + [piece])
  }

  /** What `decode` returns in the encoding mode, given the URL's path. */
  function DecodedPath(path: string, cfg: Config): Result<string>
  {
    if path == [] then Failure(StringIndexOutOfBounds)
    else if cfg.gsaCharacterEncoding !in cfg.charsets then Failure(UnsupportedCharset(cfg))
    else
      match DecodeEach(Split(path[1..], '/'), cfg.charsets[cfg.gsaCharacterEncoding])
      case Failure(e) => Failure(e)
      case Success(pieces) => Success(Prefixed(pieces, '/')[1..])
  }

  /** Once a prefix of the pieces fails to decode, decoding all of them fails the same way. */
  lemma {:induction false} DecodeEachFailurePersists(parts: seq<string>, k: nat, cs: FormUrl.Charset)
    requires k <= |parts|
    requires DecodeEach(parts[..k], cs).Failure?
    ensures DecodeEach(parts, cs) == DecodeEach(parts[..k], cs)
    decreases |parts| - k
  {
    if k < |parts| {
      assert parts[..k + 1][..k] == parts[..k];
      DecodeEachFailurePersists(parts, k + 1, cs);
    } else {
      assert parts[..k] == parts;
    }
  }

  /** Decoding one more piece extends the decoded prefix by that piece, or fails with its error. */
  lemma DecodeEachStep(parts: seq<string>, i: nat, cs: FormUrl.Charset, pieces: seq<string>)
    requires i < |parts|
    requires DecodeEach(parts[..i], cs) == Success(pieces)
    ensures FormUrl.Decode(parts[i], cs).Failure? ==>
      DecodeEach(parts[..i + 1], cs) == Failure(FormUrl.Decode(parts[i], cs).error)
    ensures FormUrl.Decode(parts[i], cs).Success? ==>
      DecodeEach(parts[..i + 1], cs) == Success(pieces + [FormUrl.Decode(parts[i], cs).value])
  {
    assert parts[..i + 1][..i] == parts[..i];
  }

  /** `DocId.decode(url)`. */
  method Decode(url: Url, cfg: Config) returns (r: Result<string>)
    ensures cfg.passDocIdToGsaWithoutModification ==> r == Success(UrlText(url))
    ensures !cfg.passDocIdToGsaWithoutModification ==> r == DecodedPath(url.path, cfg)
  {
    if cfg.passDocIdToGsaWithoutModification {
      return Success(UrlText(url));
    }
    if url.path == [] {
      return Failure(StringIndexOutOfBounds);
    }
    var path := url.path[1..];
    if cfg.gsaCharacterEncoding !in cfg.charsets {
      return Failure(UnsupportedCharset(cfg));
    }
    var cs := cfg.charsets[cfg.gsaCharacterEncoding];
    var parts := Split(path, '/');
    var decoded := "";
    ghost var pieces: seq<string> := [];
    var i := 0;
    while i < |parts|
      invariant 0 <= i <= |parts|
      invariant DecodeEach(parts[..i], cs) == Success(pieces)
      invariant decoded == Prefixed(pieces, '/')
    {
      var piece := FormUrl.Decode(parts[i], cs);
      DecodeEachStep(parts, i, cs, pieces);
      if piece.Failure? {
        DecodeEachFailurePersists(parts, i + 1, cs);
        return Failure(piece.error);
      }
      decoded := decoded + "/" + piece.value;
      pieces := pieces + [piece.value];
      i := i + 1;
    }
    assert parts[..i] == parts;
    return Success(decoded[1..]);
  }

  /** Decoding the encoded pieces gives the pieces back. */
  lemma {:induction false} DecodeEachEncodeEach(parts: seq<string>, cs: FormUrl.Charset)
    requires FormUrl.Faithful(cs)
    ensures DecodeEach(EncodeEach(parts, cs), cs) == Success(parts)
    decreases |parts|
  {
    if parts != [] {
      var n := |parts|;
      var pieces := EncodeEach(parts, cs);
      assert pieces[..n - 1] == EncodeEach(parts[..n - 1], cs);
      DecodeEachEncodeEach(parts[..n - 1], cs);
      FormUrl.DecodeEncode(parts[n - 1], cs);
      assert parts[..n - 1] + [parts[n - 1]] == parts;
    }
  }

  /** Round trip: the path that `encode(s)` produces decodes to exactly `s`. */
  lemma DecodedPathEncodedPath(s: string, cfg: Config)
    requires cfg.gsaCharacterEncoding in cfg.charsets
    requires FormUrl.Faithful(cfg.charsets[cfg.gsaCharacterEncoding])
    ensures DecodedPath(EncodedPath(s, cfg.charsets[cfg.gsaCharacterEncoding]), cfg) == Success(s)
  {
    var cs := cfg.charsets[cfg.gsaCharacterEncoding];
    var parts := Split(s, '/');
    var pieces := EncodeEach(parts, cs);
    var path := EncodedPath(s, cs);
    EncodedPiecesSeparated(parts, cs);
    SplitPrefixed(pieces, '/');
    DecodeEachEncodeEach(parts, cs);
    SplitJoin(s, '/');
  }

  /**
   * The URL sent in the feed file decodes back to the identifier, in both modes.
   * In the encoding mode this holds only when the URL beginning has no path of
   * its own, since `decode` strips only the path's first character:
   * `BeginningPathIsDecodedToo` shows what happens otherwise.
   */
  method FeedFileUrlRoundTrip(d: DocId, cfg: Config) returns (url: Result<Url>, back: Result<string>)
    requires cfg.passDocIdToGsaWithoutModification
      || (&& cfg.gsaCharacterEncoding in cfg.charsets
          && FormUrl.Faithful(cfg.charsets[cfg.gsaCharacterEncoding])
          && cfg.urlBeginning(d).path == [])
    ensures url.Success? && back == Success(d.uniqId)
  {
    url := GetFeedFileUrl(d, cfg);
    back := Decode(url.value, cfg);
    if !cfg.passDocIdToGsaWithoutModification {
      assert url.value.path == EncodedPath(d.uniqId, cfg.charsets[cfg.gsaCharacterEncoding]);
      DecodedPathEncodedPath(d.uniqId, cfg);
    }
  }

  /**
   * A URL beginning with a path of its own does not round-trip: with the
   * beginning `http://host/docs`, the identifier "a" is sent as the path
   * "/docs/a", which `decode` turns into "docs/a".
   */
  lemma BeginningPathIsDecodedToo(cfg: Config)
    requires !cfg.passDocIdToGsaWithoutModification && cfg.gsaCharacterEncoding in cfg.charsets
    ensures var beginning := Url("http://host", "/docs");
      var path := beginning.path + EncodedPath("a", cfg.charsets[cfg.gsaCharacterEncoding]);
      path == "/docs/a" && DecodedPath(path, cfg) == Success("docs/a")
  {
    EncodedPathOfA(cfg.charsets[cfg.gsaCharacterEncoding]);
    assert "/docs" + "/a" == "/docs/a";
    DecodedPathDocsA(cfg);
  }

  /** The path "/docs/a" decodes to "docs/a". */
  lemma DecodedPathDocsA(cfg: Config)
    requires cfg.gsaCharacterEncoding in cfg.charsets
    ensures DecodedPath("/docs/a", cfg) == Success("docs/a")
  {
    var path := "/docs/a";
    assert path[1..] == "docs/a";
    SplitDocsA();
    DecodeEachDocsA(cfg.charsets[cfg.gsaCharacterEncoding]);
    PrefixedDocsA();
  }

  /** Joining "docs" and "a" after a '/' each gives "/docs/a". */
  lemma PrefixedDocsA()
    ensures Prefixed(["docs", "a"], '/') == "/docs/a"
    ensures "/docs/a"[1..] == "docs/a"
  {
    var parts := ["docs", "a"];
    assert parts[..1] == ["docs"] && parts[..1][..0] == [];
  }

  /** The identifier "a" is sent as the path "/a". */
  lemma EncodedPathOfA(cs: FormUrl.Charset)
    ensures EncodedPath("a", cs) == "/a"
  {
    SplitDocsA();
    assert FormUrl.Encode("a", cs) == "a" by {
      assert "a"[1..] == [];
    }
    assert EncodeEach(["a"], cs) == ["a"];
  }

  /** The pieces "docs" and "a" decode to themselves. */
  lemma DecodeEachDocsA(cs: FormUrl.Charset)
    ensures DecodeEach(["docs", "a"], cs) == Success(["docs", "a"])
  {
    var parts := ["docs", "a"];
    FormUrl.DecodePlain(parts[0], cs);
    FormUrl.DecodePlain(parts[1], cs);
    assert parts[..0] == [];
    DecodeEachStep(parts, 0, cs, []);
    assert [] + ["docs"] == ["docs"];
    DecodeEachStep(parts, 1, cs, ["docs"]);
    assert ["docs"] + ["a"] == parts;
    assert parts[..2] == parts;
  }

  /** `"docs/a".split("/", -1)` and `"a".split("/", -1)`. */
  lemma SplitDocsA()
    ensures Split("docs/a", '/') == ["docs", "a"]
    ensures Split("a", '/') == ["a"]
  {
    var one: seq<string> := ["a"];
    assert one[..0] == [];
    assert Prefixed(one, '/') == "/a";
    SplitPrefixed(one, '/');
    var two: seq<string> := ["docs", "a"];
    assert two[..1] == ["docs"];
    assert two[..1][..0] == [];
    assert Prefixed(two, '/') == "/docs/a";
    SplitPrefixed(two, '/');
  }
}
