/** The local file name of a download: the page's title with the characters
    that file systems refuse removed, or else the last path segment of the
    link with its query string cut off. */
module FileName {
  import opened Wrappers
  import opened Text

  /** One of `\ / * ? : " < > |`, the characters stripped from titles. */
  predicate IsIllegal(c: char) {
    c == '\\' || c == '/' || c == '*' || c == '?' || c == ':' ||
    c == '"' || c == '<' || c == '>' || c == '|'
  }

  /** The title with every illegal character removed. */
  function Sanitize(title: string): (r: string)
    ensures |r| <= |title|
    ensures forall i :: 0 <= i < |r| ==> !IsIllegal(r[i])
  {
    if title == [] then []
    else if IsIllegal(title[0]) then Sanitize(title[1..])
    else [title[0]] + Sanitize(title[1..])
  }

  /** Sanitizing works character by character and keeps the order: the
      result for a concatenation is the concatenation of the results. */
  lemma {:induction false} SanitizeAppend(a: string, b: string)
    ensures Sanitize(a + b) == Sanitize(a) + Sanitize(b)
  {
    if a != [] {
      AppendHead(a, b);
      SanitizeAppend(a[1..], b);
      if !IsIllegal(a[0]) {
        calc {
          Sanitize(a + b);
          [a[0]] + Sanitize(a[1..] + b);
          [a[0]] + (Sanitize(a[1..]) + Sanitize(b));
          ([a[0]] + Sanitize(a[1..])) + Sanitize(b);
        }
      }
    } else {
      AppendHead(a, b);
    }
  }

  /** A single character is dropped iff it is illegal. */
  lemma SanitizeOne(c: char)
    ensures Sanitize([c]) == if IsIllegal(c) then [] else [c]
  {
    assert [c][1..] == [];
  }

  /** A character occurs in the result iff it is a legal character of the title. */
  lemma {:induction false} SanitizeMembers(title: string, c: char)
    ensures c in Sanitize(title) <==> c in title && !IsIllegal(c)
  {
    if title != [] {
      SanitizeMembers(title[1..], c);
      assert title == [title[0]] + title[1..];
    }
  }

  /** A title without illegal characters is left as it is, and only then. */
  lemma {:induction false} SanitizeFixesLegal(title: string)
    ensures Sanitize(title) == title <==> forall i :: 0 <= i < |title| ==> !IsIllegal(title[i])
  {
    if title != [] {
      SanitizeFixesLegal(title[1..]);
      if IsIllegal(title[0]) {
        assert |Sanitize(title)| <= |title[1..]| < |title|;
      } else {
        assert forall i :: 1 <= i < |title| ==> title[i] == title[1..][i - 1];
      }
    }
  }

  /** Sanitizing twice is sanitizing once. */
  lemma SanitizeIdempotent(title: string)
    ensures Sanitize(Sanitize(title)) == Sanitize(title)
  {
    SanitizeFixesLegal(Sanitize(title));
  }

  /** `os.path.basename`: what follows the last `/` (all of it when there is none). */
  function BaseName(path: string): (r: string)
    ensures |r| <= |path| && r == path[|path| - |r|..]
    ensures '/' !in r
    ensures |r| < |path| ==> path[|path| - |r| - 1] == '/'
  {
    if path == [] then []
    else if path[|path| - 1] == '/' then []
    else
      var front := BaseName(path[..|path| - 1]);
      assert path[..|path| - 1][|path| - 1 - |front|..] == path[|path| - 1 - |front|..|path| - 1];
      front + [path[|path| - 1]]
  }

  /** `s.split("?")[0]`: what precedes the first `?` (all of it when there is none). */
  function CutAtQuery(s: string): (r: string)
    ensures r <= s && '?' !in r
    ensures |r| < |s| ==> s[|r|] == '?'
  {
    if s == [] || s[0] == '?' then []
    else [s[0]] + CutAtQuery(s[1..])
  }

  /** The name under which a download is saved: the sanitized page title
      when the page has one, otherwise the link's last segment without its
      query string. */
  function ExtractFilename(title: Option<string>, link: string): (r: string)
    ensures title.Some? ==> |r| <= |title.value|
    ensures title.None? ==> r <= BaseName(link)
  {
    match title
    case Some(t) => Sanitize(t)
    case None => CutAtQuery(BaseName(link))
  }

  /** Whichever way it is derived, a file name holds no `/` and no `?`;
      a titled page gives a name free of every illegal character. */
  lemma FilenameHasNoSeparator(title: Option<string>, link: string)
    ensures '/' !in ExtractFilename(title, link) && '?' !in ExtractFilename(title, link)
    ensures title.Some? ==> forall i :: 0 <= i < |ExtractFilename(title, link)| ==> !IsIllegal(ExtractFilename(title, link)[i])
  {
    var r := ExtractFilename(title, link);
    match title
    case Some(t) =>
      assert forall i :: 0 <= i < |r| ==> r[i] != '/' && r[i] != '?';
    case None =>
      var b := BaseName(link);
      assert forall i :: 0 <= i < |r| ==> r[i] == b[i];
      assert forall i :: 0 <= i < |b| ==> b[i] != '/';
  }

  /** Without a title, a link `prefix + "/" + segment + "?" + query` whose
      segment has no `/` or `?` is saved as `segment`. */
  lemma FallbackIsLastSegment(prefix: string, segment: string, query: string)
    requires '/' !in segment && '?' !in segment && '/' !in query
    ensures ExtractFilename(None, prefix + "/" + segment + "?" + query) == segment
  {
    var link := prefix + "/" + segment + "?" + query;
    var tail := segment + "?" + query;
    assert link == (prefix + "/") + tail;
    BaseNameOfTail(prefix + "/", tail);
    CutAtFirstQuery(segment, query);
  }

  lemma {:induction false} BaseNameOfTail(front: string, tail: string)
    requires |front| > 0 && front[|front| - 1] == '/' && '/' !in tail
    ensures BaseName(front + tail) == tail
  {
    var path := front + tail;
    if tail != [] {
      var init := tail[..|tail| - 1];
      assert path[..|path| - 1] == front + init;
      assert '/' !in init by { assert forall k :: 0 <= k < |init| ==> init[k] == tail[k]; }
      BaseNameOfTail(front, init);
      assert tail == init + [tail[|tail| - 1]];
    }
  }

  lemma {:induction false} CutAtFirstQuery(segment: string, query: string)
    requires '?' !in segment
    ensures CutAtQuery(segment + "?" + query) == segment
  {
    var s := segment + "?" + query;
    if segment != [] {
      assert s[0] == segment[0] && s[1..] == segment[1..] + "?" + query;
      CutAtFirstQuery(segment[1..], query);
    }
  }
}
