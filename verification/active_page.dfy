/** Marking the navigation link of the current page: the file name is the
    last `/`-separated segment of the URL path, and a link is marked when
    its `href` is exactly that name. */
module ActivePage {
  import opened Js

  /** `s.split(sep)`: the pieces between separators, in order; there is
      always at least one, and none contains the separator. */
  function Split(s: string, sep: char): (r: seq<string>)
    ensures |r| >= 1
    ensures forall k :: 0 <= k < |r| ==> sep !in r[k]
    decreases |s|
  {
    if |s| == 0 then [""]
    else
      var rest := Split(s[1..], sep);
      if s[0] == sep then [""] + rest
      else [[s[0]] + rest[0]] + rest[1..]
  }

  /** `parts.join(sep)`. */
  function Join(parts: seq<string>, sep: char): string
    requires |parts| >= 1
    decreases |parts|
  {
    if |parts| == 1 then parts[0] else parts[0] + [sep] + Join(parts[1..], sep)
  }

  /** Splitting loses nothing: joining the pieces gives the string back. */
  lemma {:induction false} JoinSplit(s: string, sep: char)
    ensures Join(Split(s, sep), sep) == s
    decreases |s|
  {
    if |s| > 0 {
      var rest := Split(s[1..], sep);
      JoinSplit(s[1..], sep);
      if s[0] == sep {
        assert ([""] + rest)[1..] == rest;
      } else {
        var first := [s[0]] + rest[0];
        if |rest| > 1 {
          assert ([first] + rest[1..])[1..] == rest[1..];
        }
      }
    }
  }

  /** `path.split('/').pop()`: the last segment of the path. */
  function LastSegment(path: string): string
  {
    var parts := Split(path, '/');
    parts[|parts| - 1]
  }

  /** `t` is the part of `s` after its last `/`: a suffix of `s` without
      `/` that starts the string or follows a `/`. */
  predicate AfterLastSlash(s: string, t: string)
  {
    && |t| <= |s| && t == s[|s| - |t|..]
    && '/' !in t
    && (|t| == |s| || s[|s| - |t| - 1] == '/')
  }

  /** A join ends with its last piece, behind a separator when there is
      more than one piece. */
  lemma {:induction false} JoinEndsWithLast(parts: seq<string>, sep: char)
    requires |parts| >= 1
    ensures var j := Join(parts, sep);
            var last := parts[|parts| - 1];
            && |last| <= |j| && j[|j| - |last|..] == last
            && (|parts| > 1 ==> |last| < |j| && j[|j| - |last| - 1] == sep)
    decreases |parts|
  {
    if |parts| > 1 {
      JoinEndsWithLast(parts[1..], sep);
      var tail := Join(parts[1..], sep);
      var j := Join(parts, sep);
      assert j == parts[0] + [sep] + tail;
      var last := parts[|parts| - 1];
      assert j[|j| - |tail|..] == tail;
      if |parts| == 2 {
        assert tail == last;
        assert j[|j| - |last| - 1] == sep;
      } else {
        assert j[|j| - |last| - 1] == tail[|tail| - |last| - 1];
      }
    }
  }

  /** The last segment is the part after the last `/`. */
  lemma LastSegmentAfterLastSlash(s: string)
    ensures AfterLastSlash(s, LastSegment(s))
  {
    JoinSplit(s, '/');
    JoinEndsWithLast(Split(s, '/'), '/');
  }

  /** Only one suffix is the part after the last `/`. */
  lemma AfterLastSlashUnique(s: string, t: string, u: string)
    requires AfterLastSlash(s, t) && AfterLastSlash(s, u)
    ensures t == u
  {
  }

  /** The page name the script derives: the last segment, or `index.html`
      when that segment is empty. It is never empty and holds no `/`. */
  function CurrentPage(path: string): (r: string)
    ensures r != "" && '/' !in r
    ensures AfterLastSlash(path, r) || (r == "index.html" && AfterLastSlash(path, ""))
  {
    LastSegmentAfterLastSlash(path);
    var last := LastSegment(path);
    if last == "" then "index.html" else last
  }

  /** A path ending in `/` is the home page; a path ending in `/name` is the
      page `name`. */
  lemma CurrentPageOf(dir: string, name: string)
    requires '/' !in name
    ensures CurrentPage(dir + "/") == "index.html"
    ensures name != "" ==> CurrentPage(dir + "/" + name) == name
  {
    var home := dir + "/";
    assert AfterLastSlash(home, "") by {
      assert home[|home| - 1] == '/';
    }
    LastSegmentAfterLastSlash(home);
    AfterLastSlashUnique(home, LastSegment(home), "");
    if name != "" {
      var s := dir + "/" + name;
      assert AfterLastSlash(s, name) by {
        assert s[|s| - |name|..] == name;
        assert s[|s| - |name| - 1] == '/';
      }
      LastSegmentAfterLastSlash(s);
      AfterLastSlashUnique(s, LastSegment(s), name);
    }
  }

  /** A navigation link: its `href` attribute (absent is `None`) and its
      `active` marker. */
  datatype Link = Link(href: Option<string>, active: bool)

  /** The script's test for one link, with its second disjunct for an empty
      page name. */
  predicate Marks(href: Option<string>, page: string)
  {
    href == Some(page) || (page == "" && href == Some("index.html"))
  }

  /** The load-time pass over the navigation links. A link is active
      afterwards when it was, or when its `href` is exactly the derived page
      name: the empty-name disjunct never fires. Nothing else changes. */
  function MarkLinks(links: seq<Link>, path: string): (r: seq<Link>)
    ensures |r| == |links|
    ensures forall j :: 0 <= j < |r| ==> r[j].href == links[j].href
    ensures forall j :: 0 <= j < |r| ==>
              (r[j].active <==> links[j].active || links[j].href == Some(CurrentPage(path)))
  {
    var page := CurrentPage(path);
    seq(|links|, j requires 0 <= j < |links| => links[j].(active := links[j].active || Marks(links[j].href, page)))
  }

  /** On the home page, reached as `.../index.html` or as a path ending in
      `/`, the link to `index.html` is marked and no link to another page
      that was not already active becomes active. */
  lemma HomeLinkMarked(dir: string, links: seq<Link>)
    ensures forall j :: 0 <= j < |links| ==>
              (MarkLinks(links, dir + "/")[j].active <==> links[j].active || links[j].href == Some("index.html"))
    ensures forall j :: 0 <= j < |links| ==>
              (MarkLinks(links, dir + "/index.html")[j].active <==> links[j].active || links[j].href == Some("index.html"))
  {
    CurrentPageOf(dir, "index.html");
    assert dir + "/" + "index.html" == dir + "/index.html";
  }
}
