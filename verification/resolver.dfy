/**
 The reader-link resolver every download module repeats: from the decoded
 query parameters `TotalPage`, `ext` and `Url` of a FullBookReader link it
 derives the page count, the image extension and the base URL the page
 images live under, and it names page `p` as `f"{p:06d}.{ext}"` under that
 base.

 Parsing the link itself (`urlparse`, `unquote`) is library code; the
 model starts from its result: the scheme, the network location, and the
 query's `(name, value)` pairs in order, decoded, with the `Url` value also
 passed through the code's own second `unquote`. `ParseQs` reduces the
 pairs to the map `parse_qs` returns. `urljoin` is used in
 two ways. Joining an absolute path onto a bare site root appends it as it
 is. Joining a page's file name onto the base resolves it against the
 base's path: that path is split at `/`, the empty segments between its
 first and last are dropped, and the name takes the place of the last,
 so a base holding `//` (as `…//FullPreview/` does) is not a prefix of the
 page URLs fetched under it.
 */
module Resolver {
  import opened Common
  import opened Strings
  import opened Numerals

  /**
   A reader link after `urlparse`: the scheme, the network location, and
   the query as its `name=value` pairs in order, each already decoded (a
   pair written without `=` has the value "").
   */
  datatype ReaderUrl = ReaderUrl(scheme: string, netloc: string, pairs: seq<(string, string)>) {
    /** `parse_qs(urlparse(reader_url).query)`, each key with its first value. */
    function Query(): map<string, string> {
      ParseQs(pairs)
    }
  }

  /** Pair `i` has a value and no earlier pair gives its name one. */
  predicate FirstValue(pairs: seq<(string, string)>, i: int)
    requires 0 <= i < |pairs|
  {
    && pairs[i].1 != ""
    && forall j :: 0 <= j < i ==> pairs[j].0 != pairs[i].0 || pairs[j].1 == ""
  }

  /**
   `parse_qs` with its default `keep_blank_values=False`, keeping the first
   value of each name: a pair with a blank value is dropped as though the
   name were never written.
   */
  function ParseQs(pairs: seq<(string, string)>): (q: map<string, string>)
    ensures forall k :: k in q ==> q[k] != ""
  {
    if pairs == [] then map[]
    else
      var rest := ParseQs(pairs[1..]);
      if pairs[0].1 == "" then rest else rest[pairs[0].0 := pairs[0].1]
  }

  /** A name is present exactly when some pair gives it a non-blank value. */
  lemma {:induction false} ParseQsKeys(pairs: seq<(string, string)>)
    ensures forall k :: k in ParseQs(pairs) <==> exists i :: 0 <= i < |pairs| && pairs[i].0 == k && pairs[i].1 != ""
  {
    if pairs != [] {
      var rest := pairs[1..];
      ParseQsKeys(rest);
      forall k
        ensures k in ParseQs(pairs) <==> exists i :: 0 <= i < |pairs| && pairs[i].0 == k && pairs[i].1 != ""
      {
        if exists i :: 0 <= i < |pairs| && pairs[i].0 == k && pairs[i].1 != "" {
          var i :| 0 <= i < |pairs| && pairs[i].0 == k && pairs[i].1 != "";
          if i > 0 {
            assert rest[i - 1] == pairs[i];
          }
        }
        if k in ParseQs(pairs) && !(k == pairs[0].0 && pairs[0].1 != "") {
          assert k in ParseQs(rest);
          var j :| 0 <= j < |rest| && rest[j].0 == k && rest[j].1 != "";
          assert pairs[j + 1] == rest[j];
        }
      }
    }
  }

  /** The value kept for a name is the first non-blank one given to it. */
  lemma {:induction false} ParseQsFirstValue(pairs: seq<(string, string)>, i: int)
    requires 0 <= i < |pairs| && FirstValue(pairs, i)
    ensures pairs[i].0 in ParseQs(pairs) && ParseQs(pairs)[pairs[i].0] == pairs[i].1
  {
    if i > 0 {
      var rest := pairs[1..];
      assert rest[i - 1] == pairs[i];
      assert FirstValue(rest, i - 1) by {
        forall j | 0 <= j < i - 1
          ensures rest[j].0 != rest[i - 1].0 || rest[j].1 == ""
        {
          assert rest[j] == pairs[j + 1];
        }
      }
      ParseQsFirstValue(rest, i - 1);
      assert pairs[0].0 != pairs[i].0 || pairs[0].1 == "";
    }
  }

  /**
   What the resolver hands to the downloader: page count, extension, and the
   base URL, kept as the site root and the absolute path joined onto it,
   which is where `urljoin` splits the base again.
   */
  datatype Params = Params(pages: int, ext: string, root: string, dir: string) {
    /** `base_img_url` */
    function Base(): string {
      root + dir
    }
  }

  /** `f"{parsed.scheme}://{parsed.netloc}"` */
  function SiteRoot(u: ReaderUrl): string {
    u.scheme + "://" + u.netloc
  }

  /** `q.get(key, [default])[0]` on the map `parse_qs` returns. */
  function Param(q: map<string, string>, key: string, default: string): string {
    if key in q then q[key] else default
  }

  /** The `Url` parameter is absent or empty. */
  predicate MissingUrl(q: map<string, string>) {
    "Url" !in q || q["Url"] == ""
  }

  /** `TotalPage` is present but `int()` rejects it. */
  predicate BadTotalPage(q: map<string, string>) {
    "TotalPage" in q && ParseInt(q["TotalPage"]).None?
  }

  /** `TotalPage` is absent (so it defaults to 0) or reads as 0. */
  predicate ZeroTotalPage(q: map<string, string>) {
    "TotalPage" !in q || ParseInt(q["TotalPage"]) == Some(0)
  }

  /** `int(q.get("TotalPage", [0])[0])`; a ValueError when `int()` rejects the text. */
  function TotalPage(q: map<string, string>): (r: Result<int>)
    ensures r.Failure? <==> BadTotalPage(q)
    ensures r.Failure? ==> r.error == ValueError(InvalidTotalPage)
    ensures "TotalPage" !in q ==> r == Success(0)
    ensures r.Success? && "TotalPage" in q ==> ParseInt(q["TotalPage"]) == Some(r.value)
  {
    if "TotalPage" !in q then Success(0)
    else match ParseInt(q["TotalPage"])
      case Some(n) => Success(n)
      case None => Failure(ValueError(InvalidTotalPage))
  }

  /**
   `rel_path = unquote(path).lstrip("/")`, then a `/` appended unless it
   already ends in one. The result ends in `/` and starts with one only
   when the path was nothing but slashes.
   */
  function NormRelPath(path: string): (r: string)
    ensures EndsWith(r, "/")
    ensures r == "/" || r[0] != '/'
    ensures EndsWith(LStrip(path, '/'), "/") ==> r == LStrip(path, '/')
    ensures !EndsWith(LStrip(path, '/'), "/") ==> r == LStrip(path, '/') + "/"
  {
    var p := LStrip(path, '/');
    if EndsWith(p, "/") then p else p + "/"
  }

  /** Normalising a normalised path changes nothing. */
  lemma NormRelPathIdempotent(path: string)
    ensures NormRelPath(NormRelPath(path)) == NormRelPath(path)
  {
    var r := NormRelPath(path);
    if r != "/" {
      assert LStrip(r, '/') == r;
    } else {
      assert LStrip(r, '/') == "";
    }
  }

  /** `rel_path` made absolute: a `/` in front unless it already has one. */
  function AbsPath(rel: string): (r: string)
    ensures StartsWith(r, "/") && EndsWith(r, rel)
    ensures |r| == |rel| + (if StartsWith(rel, "/") then 0 else 1)
  {
    if StartsWith(rel, "/") then rel else "/" + rel
  }

  /**
   `_make_base_img_url`: a `/` is put in front of `rel` only when it lacks
   one, and the site root is joined with that absolute path. The site root,
   one `/`, and `rel` in full, with no character shared between them
   unless `rel` brought its own leading `/`.
   */
  function MakeBaseImgUrl(root: string, rel: string): (r: string)
    ensures StartsWith(r, root + "/")
    ensures EndsWith(r, rel)
    ensures |r| == |root| + |rel| + (if StartsWith(rel, "/") then 0 else 1)
  {
    var a := AbsPath(rel);
    assert a[..1] == "/";
    assert (root + a)[..|root| + 1] == root + a[..1];
    assert (root + a)[|root + a| - |rel|..] == a[|a| - |rel|..];
    root + a
  }

  /** `_make_base_img_url` on an absolute path leaves the path as it is. */
  lemma MakeBaseKeepsAbsolutePath(root: string, rel: string)
    requires StartsWith(rel, "/")
    ensures MakeBaseImgUrl(root, rel) == root + rel
  {
  }

  /**
   The base URL is the site root, one `/`, and the `Url` parameter with
   its leading slashes removed and a trailing `/` ensured (nothing at all
   when the parameter was only slashes). It always ends in `/`.
   */
  lemma BaseUrlShape(root: string, path: string)
    ensures var t := LStrip(path, '/');
      MakeBaseImgUrl(root, NormRelPath(path))
      == root + "/" + (if t == "" || EndsWith(t, "/") then t else t + "/")
    ensures EndsWith(MakeBaseImgUrl(root, NormRelPath(path)), "/")
  {
    var t := LStrip(path, '/');
    if t == "" {
      BaseOfSlashesOnly(root, path);
      assert root + "/" + t == root + "/";
    } else {
      BaseOfNonEmptyPath(root, path);
    }
    BaseEndsWithSlash(root, path);
  }

  lemma BaseEndsWithSlash(root: string, path: string)
    ensures EndsWith(MakeBaseImgUrl(root, NormRelPath(path)), "/")
  {
    var rel := NormRelPath(path);
    assert EndsWith(rel, "/");
    SlashedSuffix(MakeBaseImgUrl(root, rel), rel);
  }

  lemma SlashedSuffix(s: string, rel: string)
    requires EndsWith(s, rel) && EndsWith(rel, "/")
    ensures EndsWith(s, "/")
  {
    assert rel[|rel| - 1] == rel[|rel| - 1..][0] == '/';
    assert s[|s| - 1] == s[|s| - |rel|..][|rel| - 1];
    assert s[|s| - 1..] == [s[|s| - 1]];
  }

  /** The path of every base starts and ends with `/`; an absent `Url` leaves just `/`. */
  lemma DirShape(path: string)
    ensures StartsWith(AbsPath(NormRelPath(path)), "/") && EndsWith(AbsPath(NormRelPath(path)), "/")
    ensures path == "" ==> AbsPath(NormRelPath(path)) == "/"
  {
    AbsPathOfSlashed(NormRelPath(path));
    if path == "" {
      EmptyUrlPath();
    }
  }

  lemma AbsPathOfSlashed(rel: string)
    requires EndsWith(rel, "/")
    ensures StartsWith(AbsPath(rel), "/") && EndsWith(AbsPath(rel), "/")
  {
    assert rel[|rel| - 1] == rel[|rel| - 1..][0] == '/';
    var d := AbsPath(rel);
    assert d[|d| - 1] == rel[|rel| - 1];
    assert d[|d| - 1..] == [d[|d| - 1]];
  }

  lemma EmptyUrlPath()
    ensures AbsPath(NormRelPath("")) == "/"
  {
    assert LStrip("", '/') == "";
    assert !EndsWith("", "/");
    assert NormRelPath("") == "" + "/" == "/";
  }

  lemma BaseOfSlashesOnly(root: string, path: string)
    requires LStrip(path, '/') == ""
    ensures MakeBaseImgUrl(root, NormRelPath(path)) == root + "/"
  {
    assert NormRelPath(path) == "/";
    assert StartsWith("/", "/");
    assert AbsPath("/") == "/";
  }

  lemma BaseOfNonEmptyPath(root: string, path: string)
    requires LStrip(path, '/') != ""
    ensures var t := LStrip(path, '/');
      MakeBaseImgUrl(root, NormRelPath(path))
      == root + "/" + (if EndsWith(t, "/") then t else t + "/")
  {
    var t := LStrip(path, '/');
    var slashed := if EndsWith(t, "/") then t else t + "/";
    assert NormRelPath(path) == slashed;
    assert slashed[0] == t[0];
    assert !StartsWith(slashed, "/");
    assert AbsPath(slashed) == "/" + slashed;
    JoinAssociates(root, "/", slashed);
  }

  lemma JoinAssociates(a: string, b: string, c: string)
    ensures a + (b + c) == a + b + c
  {
  }

  /**
   `TotalPage=&ext=` reads as if neither were written: `parse_qs` drops the
   blank values, so the count defaults to 0 and the extension to `jpg`.
   */
  lemma BlankParametersDropped(scheme: string, netloc: string, url: string, lowerExt: bool)
    requires url != ""
    ensures var u := ReaderUrl(scheme, netloc, [("Url", url), ("TotalPage", ""), ("ext", "")]);
      && ResolveUnchecked(u) == Success(Params(0, "jpg", SiteRoot(u), AbsPath(NormRelPath(url))))
      && Resolve(u, lowerExt) == Failure(ValueError(MissingUrlOrTotalPage))
  {
    var u := ReaderUrl(scheme, netloc, [("Url", url), ("TotalPage", ""), ("ext", "")]);
    var blanks := [("TotalPage", ""), ("ext", "")];
    assert u.pairs[1..] == blanks && blanks[1..] == [("ext", "")] && [("ext", "")][1..] == [];
    assert ParseQs(blanks) == map[];
    var q := u.Query();
    assert q == map["Url" := url];
    assert TotalPage(q) == Success(0);
    assert Param(q, "ext", "jpg") == "jpg";
    assert Param(q, "Url", "") == url;
  }

  /**
   The validating resolver (`_parse_reader_url` and its inline copies):
   a ValueError when `int()` rejects `TotalPage`, or when `Url` is empty
   or `TotalPage` is 0; otherwise the page count (negative counts pass),
   the extension (default `jpg`, lower-cased when `lowerExt`), and the
   base URL.
   */
  function Resolve(u: ReaderUrl, lowerExt: bool): (r: Result<Params>)
    ensures r.Failure? <==> BadTotalPage(u.Query()) || MissingUrl(u.Query()) || ZeroTotalPage(u.Query())
    ensures r.Failure? ==> r.error.ValueError?
    ensures BadTotalPage(u.Query()) ==> r == Failure(ValueError(InvalidTotalPage))
    ensures r.Success? ==>
      && "TotalPage" in u.Query() && ParseInt(u.Query()["TotalPage"]) == Some(r.value.pages)
      && r.value.pages != 0
    ensures r.Success? ==>
      var raw := if "ext" in u.Query() then u.Query()["ext"] else "jpg";
      r.value.ext == if lowerExt then Lower(raw) else raw
    ensures r.Success? ==>
      && r.value.root == SiteRoot(u)
      && r.value.dir == AbsPath(NormRelPath(u.Query()["Url"]))
      && r.value.Base() == MakeBaseImgUrl(SiteRoot(u), NormRelPath(u.Query()["Url"]))
      && StartsWith(r.value.dir, "/") && EndsWith(r.value.dir, "/")
  {
    var q := u.Query();
    match TotalPage(q)
    case Failure(e) => Failure(e)
    case Success(pages) =>
      var raw := Param(q, "ext", "jpg");
      var ext := if lowerExt then Lower(raw) else raw;
      var encoded := Param(q, "Url", "");
      if encoded == "" || pages == 0 then
        Failure(ValueError(MissingUrlOrTotalPage))
      else
        DirShape(encoded);
        Success(Params(pages, ext, SiteRoot(u), AbsPath(NormRelPath(encoded))))
  }

  /**
   The non-validating resolver of `download_images_to_dir`: only `int()`
   can fail. An absent `TotalPage` gives 0 pages and an absent `Url` gives
   the site root followed by `/`.
   */
  function ResolveUnchecked(u: ReaderUrl): (r: Result<Params>)
    ensures r.Failure? <==> BadTotalPage(u.Query())
    ensures r.Failure? ==> r.error == ValueError(InvalidTotalPage)
    ensures r.Success? && "TotalPage" !in u.Query() ==> r.value.pages == 0
    ensures r.Success? && "TotalPage" in u.Query() ==> ParseInt(u.Query()["TotalPage"]) == Some(r.value.pages)
    ensures r.Success? ==> r.value.ext == if "ext" in u.Query() then u.Query()["ext"] else "jpg"
    ensures r.Success? ==>
      && r.value.root == SiteRoot(u)
      && r.value.dir == AbsPath(NormRelPath(Param(u.Query(), "Url", "")))
      && r.value.Base() == MakeBaseImgUrl(SiteRoot(u), NormRelPath(Param(u.Query(), "Url", "")))
      && StartsWith(r.value.dir, "/") && EndsWith(r.value.dir, "/")
    ensures r.Success? && MissingUrl(u.Query()) ==> r.value.dir == "/" && r.value.Base() == SiteRoot(u) + "/"
  {
    var q := u.Query();
    match TotalPage(q)
    case Failure(e) => Failure(e)
    case Success(pages) =>
      var path := Param(q, "Url", "");
      var dir := AbsPath(NormRelPath(path));
      DirShape(path);
      assert MissingUrl(q) ==> dir == "/";
      Success(Params(pages, Param(q, "ext", "jpg"), SiteRoot(u), dir))
  }

  /** `f"{p:06d}.{ext}"` */
  function PageName(p: nat, ext: string): string {
    Pad6(p) + "." + ext
  }

  /**
   `path` without the `/`s that open it or follow another `/`: its
   non-empty segments, each with the `/` that ends it.
   */
  function Squeeze(path: string): (r: string)
    ensures |r| <= |path|
  {
    if path == "" then ""
    else
      var front := path[..|path| - 1];
      var c := path[|path| - 1];
      Squeeze(front) + (if c == '/' && (front == "" || front[|front| - 1] == '/') then "" else [c])
  }

  /** `path.split("/")`: the pieces between the `/`s, in order; there is always at least one. */
  function SplitAtSlash(path: string): (r: seq<string>)
    ensures |r| >= 1
  {
    if path == "" then [""]
    else
      var pieces := SplitAtSlash(path[..|path| - 1]);
      var c := path[|path| - 1];
      if c == '/' then pieces + [""]
      else pieces[..|pieces| - 1] + [pieces[|pieces| - 1] + [c]]
  }

  /** `"/".join(pieces)` */
  function JoinWithSlash(pieces: seq<string>): string
    requires |pieces| >= 1
  {
    if |pieces| == 1 then pieces[0]
    else JoinWithSlash(pieces[..|pieces| - 1]) + "/" + pieces[|pieces| - 1]
  }

  /** `filter(None, pieces)`: the non-empty pieces, in order. */
  function NonEmptyPieces(pieces: seq<string>): seq<string> {
    if pieces == [] then []
    else
      NonEmptyPieces(pieces[..|pieces| - 1])
      + (if pieces[|pieces| - 1] == "" then [] else [pieces[|pieces| - 1]])
  }

  /** Each piece followed by the `/` that ends it. */
  function SlashEnded(pieces: seq<string>): string {
    if pieces == [] then ""
    else SlashEnded(pieces[..|pieces| - 1]) + pieces[|pieces| - 1] + "/"
  }

  /** Splitting at `/` and joining with `/` gives the path back, and no piece holds a `/`. */
  lemma {:induction false} SplitJoinRoundTrip(path: string)
    ensures JoinWithSlash(SplitAtSlash(path)) == path
    ensures forall i :: 0 <= i < |SplitAtSlash(path)| ==> '/' !in SplitAtSlash(path)[i]
    decreases |path|
  {
    if path != "" {
      var front := path[..|path| - 1];
      var c := path[|path| - 1];
      SplitJoinRoundTrip(front);
      var pieces := SplitAtSlash(front);
      var k := |pieces| - 1;
      var parts := SplitAtSlash(path);
      if c == '/' {
        assert parts == pieces + [""];
        assert parts[..|parts| - 1] == pieces;
        assert path == front + "/" + "";
      } else {
        assert parts == pieces[..k] + [pieces[k] + [c]];
        assert parts[..k] == pieces[..k];
        assert path == front + [c];
        forall i | 0 <= i < |parts|
          ensures '/' !in parts[i]
        {
          if i < k {
            assert parts[i] == pieces[i];
          }
        }
      }
    }
  }

  lemma LastPieceEmpty(path: string)
    ensures var pieces := SplitAtSlash(path);
      pieces[|pieces| - 1] == "" <==> path == "" || path[|path| - 1] == '/'
  {
    if path != "" {
      var pieces := SplitAtSlash(path[..|path| - 1]);
      if path[|path| - 1] != '/' {
        assert SplitAtSlash(path)[|SplitAtSlash(path)| - 1] == pieces[|pieces| - 1] + [path[|path| - 1]];
      }
    }
  }

  /**
   `Squeeze` is what `urljoin` makes of the base path's pieces before the
   name: every piece but the last, with the empty ones filtered out, each
   followed by `/`, then the last piece as it is.
   */
  lemma {:induction false} SqueezeJoinsPieces(path: string)
    ensures SqueezedPieces(path)
    decreases |path|
  {
    if path == "" {
      assert SplitAtSlash(path)[..0] == [];
    } else {
      var front := path[..|path| - 1];
      var c := path[|path| - 1];
      SqueezeJoinsPieces(front);
      assert path == front + [c];
      if c == '/' {
        SqueezeJoinsPiecesSlash(front);
      } else {
        SqueezeJoinsPiecesChar(front, c);
      }
    }
  }

  /** The squeezed path is the kept pieces, each ended by `/`, then the last piece. */
  predicate SqueezedPieces(path: string) {
    var pieces := SplitAtSlash(path);
    Squeeze(path) == SlashEnded(NonEmptyPieces(pieces[..|pieces| - 1])) + pieces[|pieces| - 1]
  }

  lemma SqueezeJoinsPiecesSlash(front: string)
    requires SqueezedPieces(front)
    ensures SqueezedPieces(front + "/")
  {
    var path := front + "/";
    LastPieceEmpty(front);
    SqueezeThenSlash(front);
    SplitThenSlash(front);
    var pieces := SplitAtSlash(front);
    var k := |pieces| - 1;
    var kept := NonEmptyPieces(pieces[..k]);
    var parts := SplitAtSlash(path);
    assert parts[..|parts| - 1] == pieces && parts[|parts| - 1] == "";
    assert pieces[..|pieces| - 1] == pieces[..k];
    assert pieces == pieces[..k] + [pieces[k]];
    var ended := SlashEnded(kept);
    assert Squeeze(front) == ended + pieces[k];
    NonEmptyPiecesSnoc(pieces[..k], pieces[k]);
    assert NonEmptyPieces(pieces) == NonEmptyPieces(pieces[..k] + [pieces[k]]);
    var goal := SlashEnded(NonEmptyPieces(pieces)) + "";
    assert goal == SlashEnded(NonEmptyPieces(pieces));
    if pieces[k] == "" {
      assert front == "" || front[|front| - 1] == '/';
      assert Squeeze(front) == ended;
      assert goal == ended;
    } else {
      SlashEndedSnoc(kept, pieces[k]);
      assert Squeeze(path) == Squeeze(front) + "/";
      assert goal == ended + pieces[k] + "/";
    }
    assert Squeeze(path) == goal;
  }

  lemma SqueezeThenSlash(front: string)
    ensures front == "" || front[|front| - 1] == '/' ==> Squeeze(front + "/") == Squeeze(front)
    ensures front != "" && front[|front| - 1] != '/' ==> Squeeze(front + "/") == Squeeze(front) + "/"
  {
    var path := front + "/";
    assert path[..|path| - 1] == front;
    assert Squeeze(front) + "" == Squeeze(front);
  }

  lemma SplitThenSlash(front: string)
    ensures SplitAtSlash(front + "/") == SplitAtSlash(front) + [""]
  {
    var path := front + "/";
    assert path[..|path| - 1] == front;
  }

  lemma NonEmptyPiecesSnoc(pieces: seq<string>, x: string)
    ensures x == "" ==> NonEmptyPieces(pieces + [x]) == NonEmptyPieces(pieces)
    ensures x != "" ==> NonEmptyPieces(pieces + [x]) == NonEmptyPieces(pieces) + [x]
  {
    assert (pieces + [x])[..|pieces|] == pieces;
    assert NonEmptyPieces(pieces) + [] == NonEmptyPieces(pieces);
  }

  lemma SlashEndedSnoc(pieces: seq<string>, x: string)
    ensures SlashEnded(pieces + [x]) == SlashEnded(pieces) + x + "/"
  {
    assert (pieces + [x])[..|pieces|] == pieces;
  }

  lemma SqueezeJoinsPiecesChar(front: string, c: char)
    requires SqueezedPieces(front) && c != '/'
    ensures SqueezedPieces(front + [c])
  {
    var path := front + [c];
    assert path[..|path| - 1] == front;
    var pieces := SplitAtSlash(front);
    var k := |pieces| - 1;
    var parts := SplitAtSlash(path);
    assert parts == pieces[..k] + [pieces[k] + [c]];
    assert parts[..|parts| - 1] == pieces[..k] && parts[|parts| - 1] == pieces[k] + [c];
    assert Squeeze(path) == Squeeze(front) + [c];
  }

  /**
   What `Squeeze` leaves is a run of non-empty segments: no `/` at its
   start and no `//` inside; it ends where the path ends.
   */
  lemma {:induction false} SqueezeShape(path: string)
    ensures var r := Squeeze(path);
      && (r != "" ==> r[|r| - 1] == path[|path| - 1])
      && (path != "" && path[|path| - 1] != '/' ==> r != "")
      && (r == "" || r[0] != '/')
      && !HasEmptySegment(r)
    decreases |path|
  {
    if path != "" {
      var front := path[..|path| - 1];
      var c := path[|path| - 1];
      SqueezeShape(front);
      SqueezeSnoc(front, c);
      var q := Squeeze(front);
      var r := Squeeze(path);
      if !(c == '/' && (front == "" || front[|front| - 1] == '/')) {
        assert r == q + [c];
        forall i | 1 <= i < |r|
          ensures !(r[i - 1] == '/' && r[i] == '/')
        {
          if i < |q| {
            assert r[i - 1] == q[i - 1] && r[i] == q[i];
          } else {
            assert r[i - 1] == q[|q| - 1] && r[i] == c;
          }
        }
      }
    }
  }

  /**
   Where `urljoin` puts a relative file name for a base whose path ends in
   `/`: the site root, `/`, the base path's non-empty segments, each
   followed by `/`.
   */
  function PageDir(P: Params): string {
    P.root + "/" + Squeeze(P.dir)
  }

  /** `urljoin(base_img_url, name)` for a file name holding no `/`. */
  function JoinName(P: Params, name: string): string {
    PageDir(P) + name
  }

  /** `urljoin(base, f"{p:06d}.{ext}")` */
  function PageUrl(P: Params, p: nat): string {
    JoinName(P, PageName(p, P.ext))
  }

  /**
   A page URL is on the site root, under a path with no empty segment, and
   ends in the page's name.
   */
  lemma PageUrlShape(P: Params, p: nat)
    ensures StartsWith(PageUrl(P, p), P.root + "/") && EndsWith(PageUrl(P, p), PageName(p, P.ext))
    ensures !HasEmptySegment(PageDir(P)[|P.root| + 1..])
  {
    SqueezeShape(P.dir);
    var name := PageName(p, P.ext);
    var d := PageDir(P);
    var url := d + name;
    assert d[|P.root| + 1..] == Squeeze(P.dir);
    assert url[..|P.root| + 1] == d[..|P.root| + 1] == P.root + "/";
    assert url[|url| - |name|..] == name;
  }

  /** A page name is six or more digits reading back as the page, a dot and the extension. */
  lemma PageNameShape(p: nat, ext: string)
    ensures var name := PageName(p, ext);
      && EndsWith(name, "." + ext) && |name| >= 7 + |ext|
      && ParseInt(name[..|name| - |ext| - 1]) == Some(p)
  {
    Pad6RoundTrip(p);
    var name := PageName(p, ext);
    assert name[..|name| - |ext| - 1] == Pad6(p);
    assert name[|name| - |ext| - 1..] == "." + ext;
  }

  /** The path holds `//` somewhere. */
  predicate HasEmptySegment(path: string) {
    exists i :: 1 <= i < |path| && path[i - 1] == '/' && path[i] == '/'
  }

  /**
   The page URL is the base followed by the page's name exactly when the
   base path holds no `//`; otherwise it is strictly shorter.
   */
  lemma PageUrlExtendsBase(P: Params, p: nat)
    requires StartsWith(P.dir, "/")
    ensures !HasEmptySegment(P.dir) <==> PageUrl(P, p) == P.Base() + PageName(p, P.ext)
    ensures HasEmptySegment(P.dir) ==> |PageUrl(P, p)| < |P.Base() + PageName(p, P.ext)|
  {
    if HasEmptySegment(P.dir) {
      var i :| 1 <= i < |P.dir| && P.dir[i - 1] == '/' && P.dir[i] == '/';
      SqueezeDropsEmptySegment(P.dir, i);
    } else {
      SqueezePlainPath(P.dir);
      assert P.root + "/" + P.dir[1..] == P.root + P.dir by {
        assert P.dir == "/" + P.dir[1..];
      }
    }
  }

  /** A path that opens with `/` and holds no `//` loses just its first `/`. */
  lemma {:induction false} SqueezePlainPath(path: string)
    requires StartsWith(path, "/") && !HasEmptySegment(path)
    ensures Squeeze(path) == path[1..]
    decreases |path|
  {
    if |path| > 1 {
      var front := path[..|path| - 1];
      assert !HasEmptySegment(front) by {
        forall i | 1 <= i < |front|
          ensures !(front[i - 1] == '/' && front[i] == '/')
        {
          assert front[i - 1] == path[i - 1] && front[i] == path[i];
        }
      }
      SqueezePlainPath(front);
      assert path[1..] == front[1..] + [path[|path| - 1]];
    }
  }

  /** A path that opens with `/` loses at least that `/`. */
  lemma {:induction false} SqueezeDropsLead(path: string)
    requires StartsWith(path, "/")
    ensures |Squeeze(path)| < |path|
    decreases |path|
  {
    if |path| > 1 {
      SqueezeDropsLead(path[..|path| - 1]);
    }
  }

  /** A path that opens with `/` and holds `//` at `i - 1` loses two characters or more. */
  lemma {:induction false} SqueezeDropsEmptySegment(path: string, i: nat)
    requires StartsWith(path, "/")
    requires 1 <= i < |path| && path[i - 1] == '/' && path[i] == '/'
    ensures |Squeeze(path)| < |path| - 1
    decreases |path|
  {
    var front := path[..|path| - 1];
    if i == |path| - 1 {
      SqueezeDropsLead(front);
    } else {
      SqueezeDropsEmptySegment(front, i);
    }
  }

  /**
   A base path with an empty segment, `/a//b/` as in the site's own
   `…/X//FullPreview/`, fetches its pages from `/a/b/`: the `//` is gone.
   */
  lemma PageUrlDropsDoubleSlash(P: Params, a: string, b: string, p: nat)
    requires Segments(a) && Segments(b)
    requires P.dir == "/" + a + "//" + b + "/"
    ensures PageUrl(P, p) == P.root + "/" + a + "/" + b + "/" + PageName(p, P.ext)
  {
    SqueezeOfDoubleSlash(a, b);
  }

  /** Non-empty, `/`-separated, with no empty segment and no `/` at either end. */
  predicate Segments(a: string) {
    a != "" && a[0] != '/' && a[|a| - 1] != '/' && NoSlashAfterSlash('/', a)
  }

  lemma SqueezeOfDoubleSlash(a: string, b: string)
    requires Segments(a) && Segments(b)
    ensures Squeeze("/" + a + "//" + b + "/") == a + "/" + b + "/"
  {
    var once := "/" + a + "/";
    var twice := once + ['/'];
    SqueezeOfSegments(a);
    SqueezeDropsDoubled(once, a + "/");
    SegmentsThenSlash(b);
    SqueezeAppend(twice, b + "/");
    DoubleSlashSplit(a, b);
  }

  lemma DoubleSlashSplit(a: string, b: string)
    ensures "/" + a + "//" + b + "/" == ("/" + a + "/") + ['/'] + (b + "/")
  {
  }

  /** A `/` right after a `/` is dropped. */
  lemma SqueezeDropsDoubled(once: string, r: string)
    requires once != [] && once[|once| - 1] == '/' && Squeeze(once) == r
    ensures Squeeze(once + ['/']) == r
  {
    SqueezeSnoc(once, '/');
  }

  /** A path of non-empty segments loses just its opening `/`. */
  lemma SqueezeOfSegments(a: string)
    requires Segments(a)
    ensures Squeeze("/" + a + "/") == a + "/"
  {
    SqueezeOfSlash();
    SegmentsThenSlash(a);
    SqueezeAppend("/", a + "/");
    assert "/" + (a + "/") == "/" + a + "/";
  }

  lemma SqueezeOfSlash()
    ensures Squeeze("/") == ""
  {
    SqueezeSnoc("", '/');
    assert "" + ['/'] == "/";
  }

  lemma SegmentsThenSlash(a: string)
    requires Segments(a)
    ensures NoSlashAfterSlash('/', a + "/")
  {
    var s := a + "/";
    forall j | 0 < j < |s| && s[j] == '/'
      ensures s[j - 1] != '/'
    {
      assert s[j - 1] == a[j - 1];
      if j < |a| {
        assert s[j] == a[j];
      }
    }
  }

  /** One more character: kept unless it is a `/` that opens the path or follows a `/`. */
  lemma SqueezeSnoc(front: string, c: char)
    ensures Squeeze(front + [c])
            == Squeeze(front) + (if c == '/' && (front == "" || front[|front| - 1] == '/') then "" else [c])
  {
    assert (front + [c])[..|front|] == front;
  }

  /** No `/` in `s` follows a `/`, counting `last` as the character before `s`. */
  predicate NoSlashAfterSlash(last: char, s: string) {
    && (|s| > 0 && s[0] == '/' ==> last != '/')
    && forall j :: 0 < j < |s| && s[j] == '/' ==> s[j - 1] != '/'
  }

  /**
   Characters that never put a `/` right after another `/` pass through
   `Squeeze` unchanged.
   */
  lemma {:induction false} SqueezeAppend(x: string, s: string)
    requires |x| > 0 && NoSlashAfterSlash(x[|x| - 1], s)
    ensures Squeeze(x + s) == Squeeze(x) + s
    decreases |s|
  {
    if s != [] {
      var t := s[..|s| - 1];
      var c := s[|s| - 1];
      NoSlashAfterSlashPrefix(x[|x| - 1], s);
      SqueezeAppend(x, t);
      var xt := x + t;
      if |t| == 0 {
        assert xt == x;
      } else {
        assert xt[|xt| - 1] == t[|t| - 1] == s[|s| - 2];
      }
      SqueezeKeepsLast(xt, c);
      assert x + s == xt + [c];
      assert s == t + [c];
    } else {
      assert x + s == x;
    }
  }

  lemma NoSlashAfterSlashPrefix(last: char, s: string)
    requires s != [] && NoSlashAfterSlash(last, s)
    ensures NoSlashAfterSlash(last, s[..|s| - 1])
    ensures s[|s| - 1] == '/' ==> (if |s| == 1 then last else s[|s| - 2]) != '/'
  {
    var t := s[..|s| - 1];
    forall j | 0 < j < |t| && t[j] == '/'
      ensures t[j - 1] != '/'
    {
      assert s[j] == t[j] && s[j - 1] == t[j - 1];
    }
  }

  /** A last character that is not a `/` after a `/` is kept. */
  lemma SqueezeKeepsLast(xt: string, c: char)
    requires xt != [] && (c == '/' ==> xt[|xt| - 1] != '/')
    ensures Squeeze(xt + [c]) == Squeeze(xt) + [c]
  {
    SqueezeSnoc(xt, c);
  }

  /** The URL of every page of `range(1, n + 1)`, built in that order. */
  function PageUrls(P: Params, n: int): (r: seq<string>)
    ensures |r| == if n > 0 then n else 0
    ensures forall i :: 0 <= i < |r| ==> r[i] == PageUrl(P, i + 1)
    decreases n
  {
    if n <= 0 then [] else PageUrls(P, n - 1) + [PageUrl(P, n)]
  }

  /** Every page of `1..N` is served with an ok status. */
  predicate AllPagesOk(fetch: Fetcher, P: Params) {
    forall p: nat :: 1 <= p <= P.pages ==> fetch(PageUrl(P, p)).Ok()
  }

  /** Different pages get different names. */
  lemma PageNameInjective(p: nat, q: nat, ext: string)
    requires PageName(p, ext) == PageName(q, ext)
    ensures p == q
  {
    Pad6RoundTrip(p);
    Pad6RoundTrip(q);
    assert Pad6(p) == PageName(p, ext)[..|Pad6(p)|];
    assert Pad6(q) == PageName(q, ext)[..|Pad6(q)|];
    Pad6Injective(p, q);
  }

  /**
   A page URL below page 10^6 is the directory `urljoin` resolves names
   into, six digits that read back as the page number, a dot and the
   extension.
   */
  lemma PageUrlReadsBack(P: Params, p: nat)
    requires p < 1000000
    ensures var url := PageUrl(P, p);
      var dir := PageDir(P);
      && |url| == |dir| + 7 + |P.ext|
      && url[..|dir|] == dir
      && AllDigits(url[|dir|..|dir| + 6])
      && ParseInt(url[|dir|..|dir| + 6]) == Some(p)
      && url[|dir| + 6] == '.'
      && url[|dir| + 7..] == P.ext
  {
    Pad6RoundTrip(p);
    var dir := PageDir(P);
    var url := PageUrl(P, p);
    assert url == dir + Pad6(p) + "." + P.ext;
    assert url[|dir|..|dir| + 6] == Pad6(p);
  }
}
