/** Highlighting the navigation link of the current page: the last segment
    of the location's path names the page ("index.html" when it is empty),
    and a link (desktop or mobile menu) is marked `active` when its `href`
    attribute equals that name. */
module NavLinks {
  import opened Optional
  import opened Classes

  const Home: string := "index.html"

  /** No '/' occurs in `part`. */
  predicate NoSlash(part: string) {
    forall k | 0 <= k < |part| :: part[k] != '/'
  }

  /** `parts.join('/')`. */
  function Join(parts: seq<string>): string
    requires |parts| >= 1
  {
    if |parts| == 1 then parts[0] else parts[0] + "/" + Join(parts[1..])
  }

  /** `s.split('/')`: the pieces between the slashes, at least one, none
      containing a slash, and joining back to `s`. */
  function Split(s: string): (parts: seq<string>)
    ensures |parts| >= 1
    ensures forall k | 0 <= k < |parts| :: NoSlash(parts[k])
    ensures Join(parts) == s
  {
    if |s| == 0 then [""]
    else
      var rest := Split(s[1..]);
      if s[0] == '/' then
        var parts := [""] + rest;
        assert parts[1..] == rest;
        assert s == "" + "/" + s[1..];
        parts
      else
        var parts := [[s[0]] + rest[0]] + rest[1..];
        assert NoSlash(parts[0]) by {
          assert forall k | 1 <= k < |parts[0]| :: parts[0][k] == rest[0][k - 1];
        }
        assert Join(parts) == s by {
          if |rest| == 1 {
            assert s == [s[0]] + s[1..];
          } else {
            assert parts[1..] == rest[1..];
            assert Join(parts) == [s[0]] + (rest[0] + "/" + Join(rest[1..]));
            assert s == [s[0]] + s[1..];
          }
        }
        parts
  }

  /** Splitting undoes joining, for pieces without slashes. */
  lemma {:induction false} SplitJoin(parts: seq<string>)
    requires |parts| >= 1
    requires forall k | 0 <= k < |parts| :: NoSlash(parts[k])
    ensures Split(Join(parts)) == parts
    decreases |parts|, |parts[0]|
  {
    var first := parts[0];
    if |first| == 0 {
      if |parts| > 1 {
        SplitJoin(parts[1..]);
        var j := Join(parts);
        assert j == "/" + Join(parts[1..]);
        assert j[1..] == Join(parts[1..]);
      }
    } else {
      var shorter := [first[1..]] + parts[1..];
      assert NoSlash(first[1..]) by {
        assert forall k | 0 <= k < |first| - 1 :: first[1..][k] == first[k + 1];
      }
      assert forall k | 1 <= k < |shorter| :: shorter[k] == parts[k];
      SplitJoin(shorter);
      JoinFirstChar(parts);
      var j := Join(parts);
      assert j[0] == first[0] && j[1..] == Join(shorter);
      assert [first[0]] + first[1..] == first;
      assert shorter[1..] == parts[1..];
    }
  }

  /** Joining pieces whose first one is not empty starts with that piece's
      first character, followed by the join with that character removed. */
  lemma JoinFirstChar(parts: seq<string>)
    requires |parts| >= 1 && |parts[0]| > 0
    ensures Join(parts) == [parts[0][0]] + Join([parts[0][1..]] + parts[1..])
  {
    var first := parts[0];
    var shorter := [first[1..]] + parts[1..];
    assert first == [first[0]] + first[1..];
    if |parts| > 1 {
      assert shorter[1..] == parts[1..];
    }
  }

  /** Joining ends with the last piece, after a slash when there are more. */
  lemma {:induction false} JoinLast(parts: seq<string>)
    requires |parts| >= 2
    ensures Join(parts) == Join(parts[..|parts| - 1]) + "/" + parts[|parts| - 1]
    decreases |parts|
  {
    if |parts| > 2 {
      JoinLast(parts[1..]);
      assert parts[1..][..|parts| - 2] == parts[..|parts| - 1][1..];
    }
  }

  /** `pathname.split('/').pop()`: the last piece of the path. */
  function LastSegment(pathname: string): string {
    var parts := Split(pathname);
    parts[|parts| - 1]
  }

  /** The last piece is exactly the text after the path's last slash (the
      whole path when it has none). */
  lemma LastSegmentFollowsLastSlash(pathname: string)
    ensures var last := LastSegment(pathname);
      && NoSlash(last)
      && |last| <= |pathname|
      && pathname[|pathname| - |last|..] == last
      && (|last| == |pathname| || pathname[|pathname| - |last| - 1] == '/')
  {
    var parts := Split(pathname);
    var last := parts[|parts| - 1];
    if |parts| >= 2 {
      JoinLast(parts);
      var prefix := Join(parts[..|parts| - 1]) + "/";
      assert pathname == prefix + last;
      assert pathname[|pathname| - |last|..] == last;
      assert pathname[|pathname| - |last| - 1] == prefix[|prefix| - 1];
    } else {
      assert pathname == last;
    }
  }

  /** `pathname.split('/').pop() || 'index.html'`: the page the location
      names. It is never empty and holds no slash, so it is never "/". */
  function CurrentPage(pathname: string): (page: string)
    ensures page != "" && NoSlash(page)
    ensures page != "/"
  {
    var last := LastSegment(pathname);
    assert "/"[0] == '/';
    if last == "" then Home else last
  }

  /** A navigation link: its `href` attribute (`None` when it has none) and
      its class list. */
  datatype Link = Link(href: Option<string>, classes: ClassList)

  /** The test of `setActiveLink`, with its two special cases for an empty
      and a "/" page name. */
  predicate MarksActive(href: Option<string>, page: string) {
    || href == Some(page)
    || (page == "" && href == Some(Home))
    || (page == "/" && href == Some(Home))
  }

  /** One link after `setActiveLink`: `active` removed, then added back
      when the test holds. */
  function MarkLink(link: Link, page: string): Link {
    var cleared := link.classes - {Active};
    link.(classes := if MarksActive(link.href, page) then cleared + {Active} else cleared)
  }

  /** `setActiveLink` over all navigation links. Afterwards a link is active
      exactly when its `href` is the current page's name; the special cases
      for "" and "/" never apply, since no page name is either. Nothing else
      about any link changes. */
  function SetActiveLinks(links: seq<Link>, pathname: string): (r: seq<Link>)
    ensures |r| == |links|
    ensures forall k | 0 <= k < |r| :: Active in r[k].classes <==> links[k].href == Some(CurrentPage(pathname))
    ensures forall k | 0 <= k < |r| ::
      r[k].href == links[k].href && r[k].classes - {Active} == links[k].classes - {Active}
  {
    if |links| == 0 then []
    else [MarkLink(links[0], CurrentPage(pathname))] + SetActiveLinks(links[1..], pathname)
  }

  /** Running the highlighter again (as the page does after each link
      click) changes nothing. */
  lemma SetActiveLinksIdempotent(links: seq<Link>, pathname: string)
    ensures SetActiveLinks(SetActiveLinks(links, pathname), pathname) == SetActiveLinks(links, pathname)
  {
    var once := SetActiveLinks(links, pathname);
    var twice := SetActiveLinks(once, pathname);
    forall k | 0 <= k < |once| ensures twice[k] == once[k] {
      assert twice[k].classes - {Active} == once[k].classes - {Active};
      assert Active in twice[k].classes <==> Active in once[k].classes;
    }
  }

  /** The root path and the empty path both name the home page. */
  lemma HomeExamples()
    ensures CurrentPage("/") == Home
    ensures CurrentPage("") == Home
  {
    assert "/"[1..] == "";
  }

  /** "/blog.html" names "blog.html". */
  lemma BlogPageExample()
    ensures CurrentPage("/blog.html") == "blog.html"
  {
    var parts := ["", "blog.html"];
    assert Join(parts) == "/blog.html";
    SplitJoin(parts);
  }
}
