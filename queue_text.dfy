/** The download queue of the main window. Every queued link is one line of
    text, `<status> <link>`; the worker's signals rewrite the status, a new
    session picks the links whose status is not final, and the session file
    stores the lines as `(status, link)` records. */
module QueueText {
  import opened Wrappers
  import opened Text

  /** The status marks: waiting, started, completed and failed. */
  const Waiting: string := "\U{1F552}"
  const Started: string := "\U{27A1}\U{FE0F}"
  const Completed: string := "\U{2705}"
  const Failed: string := "\U{274C}"

  /** A mark is a single word: it holds no space. */
  predicate IsMark(status: string) {
    ' ' !in status
  }

  lemma MarksAreWords()
    ensures IsMark(Waiting) && IsMark(Started) && IsMark(Completed) && IsMark(Failed)
  {
  }

  // ---- the text of a line ----

  /** `text.split(" ", 1)`: the text cut at its first space, or the text
      alone when it has none. */
  function SplitOnce(text: string): (parts: seq<string>)
    ensures |parts| == (if ' ' in text then 2 else 1)
    ensures |parts| == 1 ==> parts[0] == text
  {
    match IndexOf(text, ' ')
    case None => [text]
    case Some(k) => [text[..k], text[k + 1..]]
  }

  /** Cut in two, a text is a mark, a space and the rest. */
  lemma SplitOnceJoins(text: string)
    requires ' ' in text
    ensures IsMark(SplitOnce(text)[0]) && Line(SplitOnce(text)[0], SplitOnce(text)[1]) == text
  {
    var k := IndexOf(text, ' ').value;
    assert text[..k] + " " + text[k + 1..] == text;
  }

  /** `f"{status} {link}"`: the text of a queue line. */
  function Line(status: string, link: string): string {
    status + " " + link
  }

  /** Cutting a line at its first space gives back its mark and its link,
      whatever the link holds. */
  lemma {:induction false} SplitLine(status: string, link: string)
    requires IsMark(status)
    ensures SplitOnce(Line(status, link)) == [status, link]
  {
    IndexOfFirst(status, ' ', link);
    assert Line(status, link) == status + [' '] + link;
    assert Line(status, link)[..|status|] == status;
    assert Line(status, link)[|status| + 1..] == link;
  }

  /** `text.split(" ", 1)[-1]`: the link of a line (the whole text when it
      has no space). */
  function LinkOf(text: string): string {
    var parts := SplitOnce(text);
    parts[|parts| - 1]
  }

  /** The link of a line is what follows its first space (the whole text
      when there is none). */
  lemma LinkOfSuffix(text: string)
    ensures |LinkOf(text)| <= |text| && LinkOf(text) == text[|text| - |LinkOf(text)|..]
    ensures ' ' !in text ==> LinkOf(text) == text
    ensures ' ' in text ==>
      |LinkOf(text)| < |text| && text[|text| - |LinkOf(text)| - 1] == ' ' &&
      ' ' !in text[..|text| - |LinkOf(text)| - 1]
  {
    match IndexOf(text, ' ')
    case None =>
    case Some(k) =>
      assert LinkOf(text) == text[k + 1..];
  }

  lemma LinkOfLine(status: string, link: string)
    requires IsMark(status)
    ensures LinkOf(Line(status, link)) == link
  {
    SplitLine(status, link);
  }

  // ---- picking the links of a new session (`start_download`) ----

  /** `text.startswith(("✅", "❌"))`: the line's status is final. */
  predicate Processed(text: string)
    ensures Processed(text) ==> |text| > 0 && (text[0] == '\U{2705}' || text[0] == '\U{274C}')
  {
    Completed <= text || Failed <= text
  }

  /** What one line adds to the next session: its link, unless its status
      is final. */
  function Pick(text: string): (r: seq<string>)
    ensures |r| <= 1 && (r == [] <==> Processed(text))
  {
    if Processed(text) then [] else [LinkOf(text)]
  }

  /** The links a new session downloads: the link of every line that is not
      marked completed or failed, in queue order. */
  function LinksToDownload(items: seq<string>): (links: seq<string>)
    ensures |links| <= |items|
  {
    if items == [] then [] else Pick(items[0]) + LinksToDownload(items[1..])
  }

  lemma {:induction false} LinksToDownloadAppend(a: seq<string>, b: seq<string>)
    ensures LinksToDownload(a + b) == LinksToDownload(a) + LinksToDownload(b)
  {
    if a == [] {
      AppendHead(a, b);
    } else {
      AppendHead(a, b);
      LinksToDownloadAppend(a[1..], b);
    }
  }

  /** A link is in the next session iff some line that is not final
      carries it. */
  lemma {:induction false} LinksToDownloadMembers(items: seq<string>)
    ensures forall i :: 0 <= i < |items| && !Processed(items[i]) ==> LinkOf(items[i]) in LinksToDownload(items)
    ensures forall l :: l in LinksToDownload(items) ==>
      exists i :: 0 <= i < |items| && !Processed(items[i]) && l == LinkOf(items[i])
  {
    if items != [] {
      var rest := items[1..];
      LinksToDownloadMembers(rest);
      assert LinksToDownload(items) == Pick(items[0]) + LinksToDownload(rest);
      forall i | 0 <= i < |items| && !Processed(items[i])
        ensures LinkOf(items[i]) in LinksToDownload(items)
      {
        if i > 0 {
          assert items[i] == rest[i - 1];
        }
      }
      forall l | l in LinksToDownload(items)
        ensures exists i :: 0 <= i < |items| && !Processed(items[i]) && l == LinkOf(items[i])
      {
        if l in Pick(items[0]) {
          assert !Processed(items[0]) && l == LinkOf(items[0]);
        } else {
          assert l in LinksToDownload(rest);
          var k :| 0 <= k < |rest| && !Processed(rest[k]) && l == LinkOf(rest[k]);
          assert items[k + 1] == rest[k];
        }
      }
    }
  }

  /** A line is left out of the next session exactly when its status is
      final; the links of the lines around it are picked unchanged. */
  lemma LinksAround(whole: seq<string>, before: seq<string>, line: string, after: seq<string>)
    requires whole == before + [line] + after
    ensures LinksToDownload(whole) == LinksToDownload(before) + Pick(line) + LinksToDownload(after)
  {
    LinksToDownloadAppend(before + [line], after);
    LinksToDownloadAppend(before, [line]);
    assert LinksToDownload([line]) == Pick(line) by {
      assert [line][1..] == [];
      assert Pick(line) + [] == Pick(line);
    }
  }

  /** A queue of waiting lines yields its links back, all of them, in order. */
  lemma {:induction false} WaitingQueueYieldsLinks(items: seq<string>, links: seq<string>)
    requires |items| == |links| && forall i :: 0 <= i < |items| ==> items[i] == Line(Waiting, links[i])
    ensures LinksToDownload(items) == links
  {
    if items != [] {
      LinkOfLine(Waiting, links[0]);
      assert !Processed(items[0]) by {
        assert items[0][0] == Waiting[0];
      }
      WaitingQueueYieldsLinks(items[1..], links[1..]);
    }
  }

  // ---- finding the line of a link (`_update_link_status`) ----

  /** The first line in which `link` occurs as a substring. */
  function FirstContaining(items: seq<string>, link: string): (r: Option<nat>)
    ensures r.Some? ==> (r.value < |items| && Contains(items[r.value], link) &&
                         forall j :: 0 <= j < r.value ==> !Contains(items[j], link))
    ensures r.None? ==> forall j :: 0 <= j < |items| ==> !Contains(items[j], link)
  {
    if items == [] then None
    else if Contains(items[0], link) then Some(0)
    else match FirstContaining(items[1..], link)
      case None => None
      case Some(k) => Some(k + 1)
  }

  /** The first line whose link is exactly `link`. */
  function FirstWithLink(items: seq<string>, link: string): (r: Option<nat>)
    ensures r.Some? ==> (r.value < |items| && LinkOf(items[r.value]) == link &&
                         forall j :: 0 <= j < r.value ==> LinkOf(items[j]) != link)
    ensures r.None? ==> forall j :: 0 <= j < |items| ==> LinkOf(items[j]) != link
  {
    if items == [] then None
    else if LinkOf(items[0]) == link then Some(0)
    else match FirstWithLink(items[1..], link)
      case None => None
      case Some(k) => Some(k + 1)
  }

  /** The queue after the line at `at` (if any) is given `status` in front
      of its link. */
  function Relabel(items: seq<string>, at: Option<nat>, status: string): (r: seq<string>)
    requires at.Some? ==> at.value < |items|
    ensures |r| == |items|
    ensures forall j :: 0 <= j < |items| && (at.None? || j != at.value) ==> r[j] == items[j]
  {
    if at.None? then items else items[at.value := Line(status, LinkOf(items[at.value]))]
  }

  /** As written, the line of the link `http://x/a1` is looked up by
      substring, and the line `http://x/a10` queued before it matches first:
      when `http://x/a1` completes, the other line is marked, and a new
      session would fetch `http://x/a1` again and never `http://x/a10`. */
  lemma SubstringMatchMarksWrongLine()
    ensures var items := [Line(Waiting, "http://x/a10"), Line(Waiting, "http://x/a1")];
      var after := Relabel(items, FirstContaining(items, "http://x/a1"), Completed);
      after == [Line(Completed, "http://x/a10"), Line(Waiting, "http://x/a1")] &&
      LinksToDownload(after) == ["http://x/a1"]
  {
    var items := [Line(Waiting, "http://x/a10"), Line(Waiting, "http://x/a1")];
    var link := "http://x/a1";
    assert Contains(items[0], link) by {
      assert items[0] == Waiting + " " + link + "0";
      assert link <= items[0][2..];
      assert Contains(items[0][2..], link);
      assert items[0][1..][1..] == items[0][2..];
    }
    assert FirstContaining(items, link) == Some(0);
    LinkOfLine(Waiting, "http://x/a10");
    var after := Relabel(items, Some(0), Completed);
    assert after == [Line(Completed, "http://x/a10"), Line(Waiting, "http://x/a1")];
    assert Processed(after[0]) by {
      assert after[0][..1] == Completed;
    }
    WaitingQueueYieldsLinks(after[1..], [link]);
    LinksAround(after, [], after[0], after[1..]);
  }

  /** Marking a link by exact match: the line that carries it keeps the link
      under the new mark, every other line is unchanged, and once the mark is
      final the next session picks the same links less that one. */
  lemma ExactMarkSkipsLink(items: seq<string>, link: string, status: string, k: nat)
    requires FirstWithLink(items, link) == Some(k) && IsMark(status)
    ensures var after := Relabel(items, Some(k), status);
      |after| == |items| && LinkOf(after[k]) == link &&
      (forall j :: 0 <= j < |items| && j != k ==> after[j] == items[j]) &&
      LinksToDownload(items) == LinksToDownload(items[..k]) +
        (if Processed(items[k]) then [] else [link]) + LinksToDownload(items[k + 1..]) &&
      (status == Completed || status == Failed ==>
         LinksToDownload(after) == LinksToDownload(items[..k]) + LinksToDownload(items[k + 1..]))
  {
    MarkLine(items, k, status);
    assert Relabel(items, Some(k), status) == items[k := Line(status, link)];
    assert Pick(items[k]) == (if Processed(items[k]) then [] else [link]);
  }

  /** Giving line `k` a mark keeps its link; with a final mark the line
      drops out of the next session. */
  lemma MarkLine(items: seq<string>, k: nat, status: string)
    requires k < |items| && IsMark(status)
    ensures var line := Line(status, LinkOf(items[k]));
      var after := items[k := line];
      LinkOf(line) == LinkOf(items[k]) &&
      LinksToDownload(items) == LinksToDownload(items[..k]) + Pick(items[k]) + LinksToDownload(items[k + 1..]) &&
      (status == Completed || status == Failed ==>
         LinksToDownload(after) == LinksToDownload(items[..k]) + LinksToDownload(items[k + 1..]))
  {
    var pre, post := items[..k], items[k + 1..];
    var line := Line(status, LinkOf(items[k]));
    var after := items[k := line];
    LinkOfLine(status, LinkOf(items[k]));
    SplitAt(items, k, line);
    LinksAround(items, pre, items[k], post);
    LinksAround(after, pre, line, post);
    if status == Completed || status == Failed {
      assert Pick(line) == [] by {
        assert line[..|status|] == status;
      }
      assert LinksToDownload(pre) + [] == LinksToDownload(pre);
    }
  }

  // ---- the session file ----

  /** One saved line. */
  datatype Record = Record(status: string, link: string)

  /** The records `save_session` writes, one per line in queue order, or
      `None` when a line has no space (unpacking `split(" ", 1)` raises
      `ValueError` and nothing is written). */
  function Records(items: seq<string>): (r: Option<seq<Record>>)
    ensures r.Some? <==> forall i :: 0 <= i < |items| ==> ' ' in items[i]
    ensures r.Some? ==> (|r.value| == |items| && forall i :: 0 <= i < |items| ==>
      (IsMark(r.value[i].status) && Line(r.value[i].status, r.value[i].link) == items[i]))
  {
    if items == [] then Some([])
    else
      var parts := SplitOnce(items[0]);
      if |parts| == 1 then None
      else
        SplitOnceJoins(items[0]);
        match Records(items[1..])
        case None => None
        case Some(rest) => Some([Record(parts[0], parts[1])] + rest)
  }

  /** The lines `load_session` rebuilds from records. */
  function Lines(records: seq<Record>): (items: seq<string>)
    ensures |items| == |records|
    ensures forall i :: 0 <= i < |records| ==> items[i] == Line(records[i].status, records[i].link)
  {
    if records == [] then [] else [Line(records[0].status, records[0].link)] + Lines(records[1..])
  }

  /** Saving and loading again restores the queue line for line. */
  lemma SaveThenLoad(items: seq<string>)
    requires Records(items).Some?
    ensures Lines(Records(items).value) == items
  {
  }

  /** Loading records and saving again gives the same records exactly when
      no status holds a space; a status with a space is cut at it. */
  lemma {:induction false} LoadThenSave(records: seq<Record>)
    ensures Records(Lines(records)) == Some(records) <==>
      forall i :: 0 <= i < |records| ==> IsMark(records[i].status)
  {
    var items := Lines(records);
    if forall i :: 0 <= i < |records| ==> IsMark(records[i].status) {
      forall i | 0 <= i < |records|
        ensures ' ' in items[i]
      {
        assert items[i][|records[i].status|] == ' ';
      }
      var r := Records(items).value;
      forall i | 0 <= i < |records|
        ensures r[i] == records[i]
      {
        SplitLine(records[i].status, records[i].link);
        SplitLine(r[i].status, r[i].link);
      }
      assert r == records;
    }
  }

  // ---- finding links in text (`re.findall(r'https?://[^\s#]+', text)`) ----

  /** Python's `\s` in a text pattern: the characters `str.isspace` accepts. */
  predicate IsSpace(c: char) {
    c == ' ' || '\t' <= c <= '\r' || '\U{1C}' <= c <= '\U{1F}' || c == '\U{85}' || c == '\U{A0}' ||
    c == '\U{1680}' || '\U{2000}' <= c <= '\U{200A}' || c == '\U{2028}' || c == '\U{2029}' ||
    c == '\U{202F}' || c == '\U{205F}' || c == '\U{3000}'
  }

  /** A character the body of a link may hold. */
  predicate InLink(c: char) {
    !IsSpace(c) && c != '#'
  }

  /** The length of the scheme `http://` or `https://` that `text` starts
      with, or 0. */
  function SchemeLength(text: string): (n: nat)
    ensures n <= |text|
  {
    if "https://" <= text then 8 else if "http://" <= text then 7 else 0
  }

  /** The length of the longest prefix of `text` that a link body may hold. */
  function BodyLength(text: string): (n: nat)
    ensures n <= |text|
    ensures forall i :: 0 <= i < n ==> InLink(text[i])
    ensures n < |text| ==> !InLink(text[n])
  {
    if text == [] || !InLink(text[0]) then 0 else 1 + BodyLength(text[1..])
  }

  /** The leftmost non-overlapping matches of the link pattern, in order. */
  function FindLinks(text: string): seq<string>
    decreases |text|
  {
    if text == [] then []
    else
      var n := SchemeLength(text);
      var m := if n > 0 then BodyLength(text[n..]) else 0;
      if n > 0 && m > 0 then [text[..n + m]] + FindLinks(text[n + m..])
      else FindLinks(text[1..])
  }

  /** A text that the link pattern matches whole. */
  predicate IsLink(s: string) {
    var n := SchemeLength(s);
    n > 0 && |s| > n && forall i :: n <= i < |s| ==> InLink(s[i])
  }

  /** Every link found is a whole match of the pattern and occurs in the text. */
  lemma {:induction false} FoundLinksAreLinks(text: string)
    ensures forall k :: 0 <= k < |FindLinks(text)| ==>
      IsLink(FindLinks(text)[k]) && Contains(text, FindLinks(text)[k])
    decreases |text|
  {
    if text != [] {
      var n := SchemeLength(text);
      var m := if n > 0 then BodyLength(text[n..]) else 0;
      var skip := if n > 0 && m > 0 then n + m else 1;
      var rest := FindLinks(text[skip..]);
      FoundLinksAreLinks(text[skip..]);
      forall k | 0 <= k < |rest|
        ensures Contains(text, rest[k])
      {
        ContainedInSuffix(text, skip, rest[k]);
      }
      if n > 0 && m > 0 {
        var link := text[..n + m];
        MatchIsLink(text, n, m);
        assert Contains(text, link) by {
          assert link <= text;
        }
        assert FindLinks(text) == [link] + rest;
      } else {
        assert FindLinks(text) == rest;
      }
    }
  }

  /** A match at the start of the text is a link. */
  lemma MatchIsLink(text: string, n: nat, m: nat)
    requires n == SchemeLength(text) > 0 && n <= |text| && m == BodyLength(text[n..]) > 0
    ensures IsLink(text[..n + m])
  {
    var link := text[..n + m];
    assert SchemeLength(link) == n by {
      assert text[..7] == link[..7];
      if n == 8 {
        assert text[..8] == link[..8];
      }
    }
    forall i | n <= i < |link| ensures InLink(link[i]) {
      assert link[i] == text[n..][i - n];
    }
  }

  /** What occurs in a suffix occurs in the whole text. */
  lemma {:induction false} ContainedInSuffix(text: string, j: nat, needle: string)
    requires j <= |text| && Contains(text[j..], needle)
    ensures Contains(text, needle)
    decreases j
  {
    if j > 0 {
      assert text[1..][j - 1..] == text[j..];
      ContainedInSuffix(text[1..], j - 1, needle);
    } else {
      assert text[0..] == text;
    }
  }

  /** A link followed by a space is found whole, and the search goes on
      after the space. */
  lemma LinkThenSpace(link: string, rest: string)
    requires IsLink(link)
    ensures FindLinks(link + " " + rest) == [link] + FindLinks(rest)
  {
    var text := link + " " + rest;
    var n := SchemeLength(link);
    SchemeOfExtension(link, text);
    BodyOfLink(link, n, rest);
    assert text[..|link|] == link;
    assert text[|link|..] == " " + rest;
    MatchAt(text, n, |link| - n, |link|);
    SkipSpace(rest);
  }

  /** Where the pattern matches at the start, the match is found first and
      the search goes on after it. */
  lemma MatchAt(text: string, n: nat, m: nat, end: nat)
    requires n == SchemeLength(text) && n > 0 && n <= |text| && m == BodyLength(text[n..]) && m > 0
    requires end == n + m
    ensures FindLinks(text) == [text[..end]] + FindLinks(text[end..])
  {
  }

  /** A leading space is skipped. */
  lemma SkipSpace(rest: string)
    ensures FindLinks(" " + rest) == FindLinks(rest)
  {
    assert (" " + rest)[0] == ' ' && (" " + rest)[1..] == rest;
    assert SchemeLength(" " + rest) == 0;
  }

  /** A text that extends a long enough prefix has the prefix's scheme. */
  lemma SchemeOfExtension(prefix: string, text: string)
    requires prefix <= text && |prefix| >= 8
    ensures SchemeLength(text) == SchemeLength(prefix)
  {
    assert text[..8] == prefix[..8];
    assert text[..7] == prefix[..7];
  }

  /** The body of a link stops at the space after it. */
  lemma {:induction false} BodyOfLink(link: string, n: nat, rest: string)
    requires n <= |link| && forall i :: n <= i < |link| ==> InLink(link[i])
    ensures BodyLength((link + " " + rest)[n..]) == |link| - n
    decreases |link| - n
  {
    var t := (link + " " + rest)[n..];
    if n == |link| {
      assert t[0] == ' ';
    } else {
      assert t[0] == link[n];
      assert t[1..] == (link + " " + rest)[n + 1..];
      BodyOfLink(link, n + 1, rest);
    }
  }

  /** The pattern matches at the start of `text`: a scheme followed by at
      least one link character. */
  predicate StartsMatch(text: string) {
    SchemeLength(text) > 0 && BodyLength(text[SchemeLength(text)..]) > 0
  }

  /** The length of the greedy match at the start of `text`. */
  function MatchLength(text: string): (n: nat)
    requires StartsMatch(text)
    ensures SchemeLength(text) < n <= |text|
  {
    SchemeLength(text) + BodyLength(text[SchemeLength(text)..])
  }

  /** A match is maximal: it is a link, and the character after it, if
      any, could not extend it. */
  lemma MatchIsMaximal(text: string)
    requires StartsMatch(text)
    ensures IsLink(text[..MatchLength(text)])
    ensures MatchLength(text) == |text| || !InLink(text[MatchLength(text)])
  {
    var n := SchemeLength(text);
    MatchIsLink(text, n, BodyLength(text[n..]));
    if MatchLength(text) < |text| {
      assert text[MatchLength(text)] == text[n..][BodyLength(text[n..])];
    }
  }

  /** The search finds the leftmost match: when the pattern matches at `j`
      and at no earlier position, the first link found is the match at `j`
      and the search goes on after it. */
  lemma {:induction false} LeftmostMatch(text: string, j: nat, end: nat)
    requires j <= |text| && StartsMatch(text[j..]) && end == j + MatchLength(text[j..])
    requires forall i :: 0 <= i < j ==> !StartsMatch(text[i..])
    ensures end <= |text|
    ensures FindLinks(text) == [text[j..end]] + FindLinks(text[end..])
    decreases j
  {
    assert text[0..] == text;
    if j == 0 {
      MatchFirst(text, end);
      assert text[j..end] == text[..end];
    } else {
      NoMatchSkips(text);
      var t := text[1..];
      assert t[j - 1..] == text[j..];
      forall i | 0 <= i < j - 1
        ensures !StartsMatch(t[i..])
      {
        assert t[i..] == text[i + 1..];
      }
      var e := end - 1;
      LeftmostMatch(t, j - 1, e);
      ShiftedMatch(text, t, j, e, end, FindLinks(t));
    }
  }

  /** A match at the start of the text is the first link found. */
  lemma MatchFirst(text: string, end: nat)
    requires StartsMatch(text) && end == MatchLength(text)
    ensures FindLinks(text) == [text[..end]] + FindLinks(text[end..])
  {
    var n := SchemeLength(text);
    MatchAt(text, n, BodyLength(text[n..]), end);
  }

  /** The links found after the first character, read back in the whole text. */
  lemma ShiftedMatch(text: string, t: string, j: nat, e: nat, end: nat, found: seq<string>)
    requires text != [] && t == text[1..] && 0 < j && e + 1 == end && j - 1 <= e <= |t|
    requires found == [t[j - 1..e]] + FindLinks(t[e..])
    ensures end <= |text|
    ensures found == [text[j..end]] + FindLinks(text[end..])
  {
    assert t[j - 1..e] == text[j..end];
    assert t[e..] == text[end..];
  }

  /** Where the pattern does not match, the search moves one character on. */
  lemma NoMatchSkips(text: string)
    requires text != [] && !StartsMatch(text)
    ensures FindLinks(text) == FindLinks(text[1..])
  {
  }

  /** Completeness: the search finds no link exactly when the pattern
      matches at no position of the text. */
  lemma {:induction false} NoLinkIffNoMatch(text: string)
    ensures FindLinks(text) == [] <==> forall i :: 0 <= i < |text| ==> !StartsMatch(text[i..])
    decreases |text|
  {
    if text != [] {
      assert text[0..] == text;
      if StartsMatch(text) {
        MatchAt(text, SchemeLength(text), BodyLength(text[SchemeLength(text)..]), MatchLength(text));
      } else {
        NoMatchSkips(text);
        var t := text[1..];
        NoLinkIffNoMatch(t);
        assert forall i :: 1 <= i < |text| ==> text[i..] == t[i - 1..];
        if forall i :: 0 <= i < |t| ==> !StartsMatch(t[i..]) {
          forall i | 0 <= i < |text|
            ensures !StartsMatch(text[i..])
          {
            if i > 0 {
              assert text[i..] == t[i - 1..];
            }
          }
        } else {
          var i :| 0 <= i < |t| && StartsMatch(t[i..]);
          assert text[i + 1..] == t[i..];
        }
      }
    }
  }

  // ---- the queue widget ----

  /** The lines of the queue, top to bottom. */
  class QueueList {
    var items: seq<string>

    constructor ()
      ensures items == []
    {
      items := [];
    }

    /** `_populate_queue_with_links`: with no links the queue is left as it
        is; otherwise it is cleared and every link is queued as waiting. */
    method Populate(links: seq<string>)
      modifies this
      ensures links == [] ==> items == old(items)
      ensures links != [] ==> (|items| == |links| &&
                               forall i :: 0 <= i < |links| ==> items[i] == Line(Waiting, links[i]))
    {
      if links == [] {
        return;
      }
      items := [];
      var i := 0;
      while i < |links|
        invariant 0 <= i <= |links| && |items| == i
        invariant forall j :: 0 <= j < i ==> items[j] == Line(Waiting, links[j])
      {
        items := items + [Line(Waiting, links[i])];
        i := i + 1;
      }
    }

    /** `_update_link_status`, as written: the first line in which `link`
        occurs as a substring gets `status` in front of its link; no line
        changes when none matches. */
    method UpdateLinkStatus(link: string, status: string)
      modifies this
      ensures items == Relabel(old(items), FirstContaining(old(items), link), status)
    {
      var i := 0;
      while i < |items|
        invariant 0 <= i <= |items| && items == old(items)
        invariant forall j :: 0 <= j < i ==> !Contains(items[j], link)
      {
        if Contains(items[i], link) {
          items := items[i := Line(status, LinkOf(items[i]))];
          return;
        }
        i := i + 1;
      }
    }

    /** `_update_link_status` as evidently intended: the line whose link is
        `link` gets the new status. */
    method UpdateLinkStatusExact(link: string, status: string)
      modifies this
      ensures items == Relabel(old(items), FirstWithLink(old(items), link), status)
    {
      var i := 0;
      while i < |items|
        invariant 0 <= i <= |items| && items == old(items)
        invariant forall j :: 0 <= j < i ==> LinkOf(items[j]) != link
      {
        if LinkOf(items[i]) == link {
          items := items[i := Line(status, LinkOf(items[i]))];
          return;
        }
        i := i + 1;
      }
    }

    /** `save_session`: one record per line, or `None` when a line has no
        space to split at. */
    method SaveSession() returns (r: Option<seq<Record>>)
      ensures r == Records(items)
    {
      var saved: seq<Record> := [];
      var i := 0;
      while i < |items|
        invariant 0 <= i <= |items| && |saved| == i
        invariant forall j :: 0 <= j < i ==>
          (' ' in items[j] && IsMark(saved[j].status) && Line(saved[j].status, saved[j].link) == items[j])
      {
        var parts := SplitOnce(items[i]);
        if |parts| == 1 {
          return None;
        }
        SplitOnceJoins(items[i]);
        saved := saved + [Record(parts[0], parts[1])];
        i := i + 1;
      }
      var expected := Records(items).value;
      forall j | 0 <= j < |items|
        ensures saved[j] == expected[j]
      {
        SplitLine(saved[j].status, saved[j].link);
        SplitLine(expected[j].status, expected[j].link);
      }
      assert saved == expected;
      return Some(saved);
    }

    /** `load_session`: the queue is cleared and one line is built per record. */
    method LoadSession(records: seq<Record>)
      modifies this
      ensures items == Lines(records)
    {
      items := [];
      var i := 0;
      while i < |records|
        invariant 0 <= i <= |records| && items == Lines(records[..i])
      {
        assert records[..i + 1] == records[..i] + [records[i]];
        LinesAppend(records[..i], [records[i]]);
        items := items + [Line(records[i].status, records[i].link)];
        i := i + 1;
      }
      assert records[..i] == records;
    }
  }

  lemma LinesAppend(a: seq<Record>, b: seq<Record>)
    ensures Lines(a + b) == Lines(a) + Lines(b)
  {
  }
}
