/**
  * The attachment helpers of the explore page: whether a stored `file_url` is
  * an absolute URL or a storage path, its path without the query, whether it
  * names an image, and how a prompt's author is labelled.
  */
module AttachmentRefs {
  import opened Wrappers
  import opened Text
  import opened Collections

  /**
    * The case-insensitive scheme pattern of `isAbsoluteUrl`, tried on the
    * reference or "", matched as the regular expression reads: "http" in
    * either case, an optional "s", then "://". Without the unicode flag, case
    * folding never maps a non-ASCII character onto one of these ASCII letters.
    */
  function IsAbsoluteUrl(value: Option<string>): (r: bool)
    ensures r ==> Truthy(value)
  {
    MatchesScheme(OrElse(value, ""))
  }

  /** A reference is absolute exactly when, lower-cased, it starts with "http://" or "https://". */
  lemma IsAbsoluteUrlMeaning(value: Option<string>)
    ensures IsAbsoluteUrl(value) <==> (StartsWith(LowerAscii(OrElse(value, "")), "http://")
                                       || StartsWith(LowerAscii(OrElse(value, "")), "https://"))
  {
    SchemeMatch(OrElse(value, ""));
  }

  /** The regular expression read left to right, "s" taken when it is there. */
  predicate MatchesScheme(s: string) {
    |s| >= 4 && LowerAscii(s[..4]) == "http"
    && StartsWith(if |s| > 4 && LowerChar(s[4]) == 's' then s[5..] else s[4..], "://")
  }

  /** Matching the pattern is having a lower-cased "http://" or "https://" prefix. */
  lemma SchemeMatch(s: string)
    ensures MatchesScheme(s) <==> (StartsWith(LowerAscii(s), "http://") || StartsWith(LowerAscii(s), "https://"))
  {
    var l := LowerAscii(s);
    assert "http://" == "http" + "://" && "https://" == "http" + "s" + "://";
    StartsWithConcat(l, "http", "://");
    StartsWithConcat(l, "http" + "s", "://");
    StartsWithConcat(l, "http", "s");
    if |s| >= 4 {
      assert l[..4] == LowerAscii(s[..4]);
      LowerKeepsSeparator(s, 4);
      if |s| > 4 {
        LowerKeepsSeparator(s, 5);
        assert StartsWith(l[4..], "s") <==> LowerChar(s[4]) == 's';
      }
    }
  }

  /** Lower-casing leaves ":" and "/" alone and makes no new ones. */
  lemma LowerKeepsSeparator(s: string, k: nat)
    requires k <= |s|
    ensures StartsWith(LowerAscii(s)[k..], "://") <==> StartsWith(s[k..], "://")
  {
    if |s| >= k + 3 {
      var l := LowerAscii(s);
      assert l[k..][..3] == [LowerChar(s[k]), LowerChar(s[k + 1]), LowerChar(s[k + 2])];
      assert s[k..][..3] == [s[k], s[k + 1], s[k + 2]];
    }
  }

  /** The URL parser never returns a pathname with a "?": `URL.pathname` stops before the query. */
  ghost predicate PathnameQueryFree(pathname: string -> Option<string>) {
    forall v :: pathname(v).Some? ==> '?' !in pathname(v).value
  }

  /**
    * `getFilePathWithoutQuery`: "" for a falsy reference; for an absolute URL
    * the pathname `new URL(v)` parses (`pathname(v)`, None when the constructor
    * throws), falling back to the text before the first "?"; for a storage
    * path the text before the first "?".
    */
  function GetFilePathWithoutQuery(fileRef: Option<string>, pathname: string -> Option<string>): (r: string)
    ensures !Truthy(fileRef) ==> r == ""
    ensures Truthy(fileRef) && (!IsAbsoluteUrl(fileRef) || pathname(fileRef.value).None?) ==>
              StartsWith(fileRef.value, r) && '?' !in r && (|r| == |fileRef.value| || fileRef.value[|r|] == '?')
    ensures Truthy(fileRef) && IsAbsoluteUrl(fileRef) && pathname(fileRef.value).Some? ==>
              r == pathname(fileRef.value).value
    ensures PathnameQueryFree(pathname) ==> '?' !in r
  {
    if !Truthy(fileRef) then ""
    else if IsAbsoluteUrl(fileRef) && pathname(fileRef.value).Some? then OrElse(pathname(fileRef.value), "")
    else BeforeFirst(fileRef.value, '?')
  }

  /** The extensions `isImageFile` accepts, in lower case. */
  const ImageExtensions: set<string> := {"jpeg", "jpg", "gif", "png", "webp"}

  /** The text after the last ".", or None when there is no ".". */
  function ExtensionOf(p: string): (r: Option<string>)
    ensures r.None? <==> '.' !in p
    ensures r.Some? ==> '.' !in r.value && EndsWith(p, "." + r.value)
  {
    if p == [] then None
    else if Last(p) == '.' then
      assert p == AllButLast(p) + ['.'];
      Some("")
    else
      assert p == AllButLast(p) + [Last(p)];
      match ExtensionOf(AllButLast(p))
      case None => None
      case Some(e) =>
        assert p[|p| - |e| - 2..] == AllButLast(p)[|AllButLast(p)| - |e| - 1..] + [Last(p)];
        Some(e + [Last(p)])
  }

  /**
    * The case-insensitive extension pattern of `isImageFile`, tried on the
    * path without query. Lower-casing
    * the path first is exact here: every letter of the pattern is ASCII.
    */
  function IsImageFile(fileRef: Option<string>, pathname: string -> Option<string>): (r: bool)
    ensures r ==> Truthy(fileRef)
  {
    var p := LowerAscii(GetFilePathWithoutQuery(fileRef, pathname));
    exists e | e in ImageExtensions :: EndsWith(p, "." + e)
  }

  /** A reference names an image exactly when the extension of its lower-cased path is listed. */
  lemma IsImageFileMeaning(fileRef: Option<string>, pathname: string -> Option<string>)
    ensures IsImageFile(fileRef, pathname) <==>
              (ExtensionOf(LowerAscii(GetFilePathWithoutQuery(fileRef, pathname))).Some?
               && ExtensionOf(LowerAscii(GetFilePathWithoutQuery(fileRef, pathname))).value in ImageExtensions)
  {
    ExtensionMatch(LowerAscii(GetFilePathWithoutQuery(fileRef, pathname)));
  }

  /** The pattern's alternation matches exactly the paths whose extension is listed. */
  lemma ExtensionMatch(p: string)
    ensures (exists e | e in ImageExtensions :: EndsWith(p, "." + e))
            <==> ExtensionOf(p).Some? && ExtensionOf(p).value in ImageExtensions
  {
    if e :| e in ImageExtensions && EndsWith(p, "." + e) {
      ExtensionOfSuffix(p, e);
    }
  }

  /** A path ending in "." and a dot-free `e` has extension `e`. */
  lemma {:induction false} ExtensionOfSuffix(p: string, e: string)
    requires '.' !in e && EndsWith(p, "." + e)
    ensures ExtensionOf(p) == Some(e)
  {
    if e == [] {
      assert Last(p) == '.';
    } else {
      var q := AllButLast(p);
      assert Last(p) == Last(e);
      assert q[|q| - |e|..] == "." + AllButLast(e);
      assert '.' !in AllButLast(e) by {
        assert forall c :: c in AllButLast(e) ==> c in e;
      }
      ExtensionOfSuffix(q, AllButLast(e));
      assert AllButLast(e) + [Last(p)] == e;
    }
  }

  /** A query after a "?"-free path adds or removes no "?"-free lower-cased prefix. */
  lemma LowerPrefixIgnoresQuery(path: string, query: string, p: string)
    requires '?' !in path && '?' !in p
    ensures StartsWith(LowerAscii(path + "?" + query), p) <==> StartsWith(LowerAscii(path), p)
  {
    var s := path + "?" + query;
    var l, lp := LowerAscii(s), LowerAscii(path);
    assert forall i :: 0 <= i < |path| ==> l[i] == lp[i];
    if StartsWith(l, p) {
      assert l[|path|] == LowerChar(s[|path|]) == '?';
      assert forall i :: 0 <= i < |p| ==> l[i] != '?' by {
        forall i | 0 <= i < |p| ensures l[i] != '?' {
          assert l[i] == p[i];
        }
      }
      assert |p| <= |path|;
      assert lp[..|p|] == l[..|p|];
    }
    if StartsWith(lp, p) {
      assert l[..|p|] == lp[..|p|];
    }
  }

  /** The text before the first "?" of a "?"-free path followed by a query is the path. */
  lemma BeforeQuery(path: string, query: string)
    requires '?' !in path
    ensures BeforeFirst(path + "?" + query, '?') == path
  {
    var s := path + "?" + query;
    var k := IndexOf(s, '?');
    assert s[|path|] == '?';
    assert k == |path| by {
      assert forall i :: 0 <= i < |path| ==> s[i] == path[i];
      assert k <= |path| by {
        assert forall i :: 0 <= i < k ==> s[i] != '?' by {
          forall i | 0 <= i < k ensures s[i] != '?' {
            assert s[i] == s[..k][i];
          }
        }
      }
    }
  }

  /** A query after a "?"-free reference does not change whether it is absolute. */
  lemma AbsoluteIgnoresQuery(path: string, query: string)
    requires '?' !in path
    ensures IsAbsoluteUrl(Some(path + "?" + query)) == IsAbsoluteUrl(Some(path))
  {
    IsAbsoluteUrlMeaning(Some(path + "?" + query));
    IsAbsoluteUrlMeaning(Some(path));
    LowerPrefixIgnoresQuery(path, query, "http://");
    LowerPrefixIgnoresQuery(path, query, "https://");
  }

  /**
    * A query never changes whether a reference is an image: for a storage
    * path by construction, for an absolute URL as long as the URL parser
    * drops the query.
    */
  lemma IsImageIgnoresQuery(path: string, query: string, pathname: string -> Option<string>)
    requires path != "" && '?' !in path
    requires IsAbsoluteUrl(Some(path)) ==> pathname(path + "?" + query) == pathname(path)
    ensures IsAbsoluteUrl(Some(path + "?" + query)) == IsAbsoluteUrl(Some(path))
    ensures IsImageFile(Some(path + "?" + query), pathname) == IsImageFile(Some(path), pathname)
  {
    var s := path + "?" + query;
    AbsoluteIgnoresQuery(path, query);
    BeforeQuery(path, query);
    assert BeforeFirst(path, '?') == path;
    assert GetFilePathWithoutQuery(Some(s), pathname) == GetFilePathWithoutQuery(Some(path), pathname);
  }

  /** A storage path's query is ignored: "a.png?x=1" is an image. */
  lemma QueriedImageExample(pathname: string -> Option<string>)
    ensures IsImageFile(Some("a.png?x=1"), pathname)
  {
    assert "a.png?x=1" == "a.png" + "?" + "x=1";
    assert LowerAscii("a.png") == "a.png";
    assert !IsAbsoluteUrl(Some("a.png"));
    assert GetFilePathWithoutQuery(Some("a.png"), pathname) == "a.png";
    assert EndsWith("a.png", "." + "png");
    IsImageIgnoresQuery("a.png", "x=1", pathname);
  }

  /** An absolute URL is judged by its parsed pathname: "https://x/y.jpg" with pathname "/y.jpg" is an image. */
  lemma AbsoluteImageExample(pathname: string -> Option<string>)
    requires pathname("https://x/y.jpg") == Some("/y.jpg")
    ensures IsImageFile(Some("https://x/y.jpg"), pathname)
  {
    var u := "https://x/y.jpg";
    assert u[..4] == "http" && u[4] == 's' && u[5..][..3] == "://";
    assert LowerAscii("http") == "http";
    assert IsAbsoluteUrl(Some(u));
    assert LowerAscii("/y.jpg") == "/y.jpg";
    assert "jpg" in ImageExtensions && EndsWith("/y.jpg", "." + "jpg");
  }

  /** Case does not matter: "B.JPEG" is an image. */
  lemma UpperCaseImageExample(pathname: string -> Option<string>)
    ensures IsImageFile(Some("B.JPEG"), pathname)
  {
    UpperCasePath(pathname);
    assert "jpeg" in ImageExtensions && EndsWith("b.jpeg", "." + "jpeg");
  }

  lemma UpperCasePath(pathname: string -> Option<string>)
    ensures LowerAscii(GetFilePathWithoutQuery(Some("B.JPEG"), pathname)) == "b.jpeg"
  {
    assert !IsAbsoluteUrl(Some("B.JPEG"));
    var l := LowerAscii("B.JPEG");
    assert l[0] == 'b' && l[1] == '.' && l[2] == 'j' && l[3] == 'p' && l[4] == 'e' && l[5] == 'g';
  }

  /** "b.PDF" is not an image. */
  lemma DocumentExample(pathname: string -> Option<string>)
    ensures !IsImageFile(Some("b.PDF"), pathname)
  {
    DocumentPath(pathname);
    DocumentExtension();
    IsImageFileMeaning(Some("b.PDF"), pathname);
  }

  lemma DocumentPath(pathname: string -> Option<string>)
    ensures LowerAscii(GetFilePathWithoutQuery(Some("b.PDF"), pathname)) == "b.pdf"
  {
    assert !IsAbsoluteUrl(Some("b.PDF"));
    var l := LowerAscii("b.PDF");
    assert l[0] == 'b' && l[1] == '.' && l[2] == 'p' && l[3] == 'd' && l[4] == 'f';
  }

  lemma DocumentExtension()
    ensures ExtensionOf("b.pdf") == Some("pdf") && "pdf" !in ImageExtensions
  {
    assert "b.pdf"[5 - 4..] == "." + "pdf";
    ExtensionOfSuffix("b.pdf", "pdf");
  }

  /** No reference, no image. */
  lemma EmptyIsNotImage(pathname: string -> Option<string>)
    ensures !IsImageFile(Some(""), pathname) && !IsImageFile(None, pathname)
  {
    assert LowerAscii("") == "";
  }

  const UnknownAuthor: string := "Unknown author"

  /**
    * `getAuthorLabel`: the part of a truthy email before its first "@" when
    * that part is not empty, the whole email otherwise; without an email,
    * "User " and the first eight characters of a truthy user id, or
    * "Unknown author".
    */
  function GetAuthorLabel(authorEmail: Option<string>, userId: Option<string>): (r: string)
    ensures r != ""
    ensures Truthy(authorEmail) && authorEmail.value[0] != '@' && '@' in authorEmail.value ==>
              StartsWith(authorEmail.value, r + "@") && '@' !in r
    ensures Truthy(authorEmail) && (authorEmail.value[0] == '@' || '@' !in authorEmail.value) ==>
              r == authorEmail.value
    ensures !Truthy(authorEmail) && !Truthy(userId) ==> r == UnknownAuthor
    ensures !Truthy(authorEmail) && Truthy(userId) ==>
              StartsWith(r, "User ") && StartsWith(userId.value, r[5..])
              && |r| == 5 + (if |userId.value| < 8 then |userId.value| else 8)
  {
    if Truthy(authorEmail) then
      var e := authorEmail.value;
      var at := IndexOf(e, '@');
      if at > 0 then
        assert e[..at + 1] == e[..at] + "@";
        e[..at]
      else e
    else if !Truthy(userId) then UnknownAuthor
    else
      var r := "User " + Take(userId.value, 8);
      assert r[5..] == Take(userId.value, 8);
      r
  }

  /** "ada@example.org" is labelled "ada". */
  lemma EmailExample()
    ensures GetAuthorLabel(Some("ada@example.org"), None) == "ada"
  {
    var e := "ada@example.org";
    var r := GetAuthorLabel(Some(e), None);
    assert e[3] == '@';
    assert |r| == 3 by {
      assert e[|r|] == '@';
      assert e[0] != '@' && e[1] != '@' && e[2] != '@';
    }
    assert r == e[..3];
  }

  /** An email whose "@" comes first stays whole. */
  lemma HandleExample()
    ensures GetAuthorLabel(Some("@handle"), None) == "@handle"
  {
  }

  /** Without an email a user id is cut to eight characters. */
  lemma UserIdExamples()
    ensures GetAuthorLabel(Some(""), Some("0123456789")) == "User 01234567"
    ensures GetAuthorLabel(None, Some("")) == UnknownAuthor
  {
    assert Take("0123456789", 8) == "01234567";
  }
}
