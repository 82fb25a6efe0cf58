/**
 The crawler's data model and pure helpers (`deepwiki/crawler.py`): reading
 owner and repository out of a GitHub URL, the Markdown blob filter, and the
 names, paths and URLs given to crawled documents. The GitHub API and the file
 system are inputs: the tree listing, file reads and directory listings are
 parameters, and a read that raises is `None`.
 */
module Crawler {
  import opened Wrappers
  import opened Text

  /** `MarkdownDocument`: one Markdown file of a repository. */
  datatype Document = Document(path: string, content: string, url: string, repoName: string)

  // ================================================================ extract_repo_info

  /** The literal `github\.com/` both patterns start with. */
  const Host: string := "github.com/"

  /** The first `/` at or after `from`, or `|s|` when there is none. */
  function FirstSlash(s: string, from: nat): (r: nat)
    requires from <= |s|
    ensures from <= r <= |s|
    ensures forall i :: from <= i < r ==> s[i] != '/'
    ensures r < |s| ==> s[r] == '/'
    decreases |s| - from
  {
    if from == |s| || s[from] == '/' then from else FirstSlash(s, from + 1)
  }

  /** `s` without its last character when that character is `c`. */
  function DropLast(s: string, c: char): (r: string)
    ensures r == s || (|s| > 0 && s[|s| - 1] == c && r == s[..|s| - 1])
  {
    if |s| > 0 && s[|s| - 1] == c then s[..|s| - 1] else s
  }

  /**
   What may follow the repository group of the first pattern,
   `(?:\.git)?/?$`: an optional `.git`, an optional slash, and the end of the
   string or a final line feed (where Python's `$` also matches).
   */
  predicate EndOk(r: string) {
    var b := DropLast(DropLast(r, '\n'), '/');
    b == "" || b == ".git"
  }

  /** Every string `EndOk` accepts is one of the eight endings `(?:\.git)?/?$` allows. */
  lemma EndOkOnlyThese(r: string)
    requires EndOk(r)
    ensures r in {"", "\n", "/", "/\n", ".git", ".git\n", ".git/", ".git/\n"}
  {
    if DropLast(DropLast(r, '\n'), '/') == "" {
      EndingsOver(r, "");
      EmptyEndings();
    } else {
      EndingsOver(r, ".git");
      GitEndings();
    }
  }

  lemma EmptyEndings()
    ensures "" + "\n" == "\n" && "" + "/" == "/" && "" + "/\n" == "/\n"
  {
  }

  lemma GitEndings()
    ensures ".git" + "\n" == ".git\n" && ".git" + "/" == ".git/" && ".git" + "/\n" == ".git/\n"
  {
  }

  /** The strings that lose at most a final line feed and then at most a final slash on the way down to `b`. */
  lemma EndingsOver(r: string, b: string)
    requires DropLast(DropLast(r, '\n'), '/') == b
    ensures r == b || r == b + "\n" || r == b + "/" || r == b + "/\n"
  {
    var a := DropLast(r, '\n');
    assert r == a || r == a + "\n";
    assert a == b || a == b + "/";
    assert b + "/" + "\n" == b + "/\n";
  }

  /** The four endings with a final line feed, where Python's `$` also matches, are accepted. */
  lemma EndOkNewline()
    ensures EndOk("\n") && EndOk("/\n") && EndOk(".git\n") && EndOk(".git/\n")
  {
    assert DropLast("\n", '\n') == "";
    assert DropLast("/\n", '\n') == "/" && DropLast("/", '/') == "";
    assert DropLast(".git\n", '\n') == ".git";
    assert DropLast(".git/\n", '\n') == ".git/" && DropLast(".git/", '/') == ".git";
  }

  /** The endings spelled out: the eight strings `(?:\.git)?/?$` accepts after the repository group. */
  lemma EndOkSpelledOut(r: string)
    ensures EndOk(r) <==> r in {"", "\n", "/", "/\n", ".git", ".git\n", ".git/", ".git/\n"}
  {
    if EndOk(r) {
      EndOkOnlyThese(r);
    }
    CanonicalEnds();
    EndOkNewline();
  }

  /** The two groups of a match. */
  datatype Groups = Groups(owner: string, repo: string)

  /**
   The lazy `([^/]+?)` of the first pattern over `t`, trying the `n`-character
   prefix first: the shortest slash-free non-empty prefix whose rest can end the match.
   */
  function ShortestRepo(t: string, n: nat): (r: Option<string>)
    requires 1 <= n
    decreases |t| - n
  {
    if n > |t| || t[n - 1] == '/' then None
    else if EndOk(t[n..]) then Some(t[..n])
    else ShortestRepo(t, n + 1)
  }

  /** `github\.com/([^/]+)/([^/]+?)(?:\.git)?/?$` tried at index `k`. */
  function AnchoredAt(s: string, k: nat): Option<Groups> {
    if !OccursAt(s, Host, k) then None
    else
      var p := FirstSlash(s, k + |Host|);
      if p == k + |Host| || p == |s| then None
      else
        match ShortestRepo(s[p + 1..], 1)
        case None => None
        case Some(repo) => Some(Groups(s[k + |Host|..p], repo))
  }

  /** `github\.com/([^/]+)/([^/]+)` tried at index `k`. */
  function PrefixAt(s: string, k: nat): Option<Groups> {
    if !OccursAt(s, Host, k) then None
    else
      var p := FirstSlash(s, k + |Host|);
      if p == k + |Host| || p == |s| then None
      else
        var q := FirstSlash(s, p + 1);
        if q == p + 1 then None else Some(Groups(s[k + |Host|..p], s[p + 1..q]))
  }

  datatype Pattern = Anchored | Prefix

  function MatchAt(pattern: Pattern, s: string, k: nat): Option<Groups> {
    match pattern
    case Anchored => AnchoredAt(s, k)
    case Prefix => PrefixAt(s, k)
  }

  /** `re.search(pattern, s)` from index `k` on: the leftmost match. */
  function Search(pattern: Pattern, s: string, k: nat): Option<Groups>
    decreases |s| - k
  {
    if k > |s| then None
    else if MatchAt(pattern, s, k).Some? then MatchAt(pattern, s, k)
    else Search(pattern, s, k + 1)
  }

  /** The pattern matches at no position from `k` up to `j`. */
  predicate NoMatchBetween(pattern: Pattern, s: string, k: nat, j: nat) {
    forall i :: k <= i < j ==> MatchAt(pattern, s, i).None?
  }

  /**
   The search finds the leftmost position from `k` on where the pattern
   matches, and finds nothing exactly when it matches at no such position.
   */
  lemma {:induction false} SearchLeftmost(pattern: Pattern, s: string, k: nat)
    ensures Search(pattern, s, k).Some? ==>
      exists j :: k <= j <= |s| && MatchAt(pattern, s, j) == Search(pattern, s, k) && NoMatchBetween(pattern, s, k, j)
    ensures Search(pattern, s, k).None? <==> NoMatchBetween(pattern, s, k, |s| + 1)
    decreases |s| - k
  {
    if k <= |s| {
      if MatchAt(pattern, s, k).Some? {
        assert NoMatchBetween(pattern, s, k, k);
        assert !NoMatchBetween(pattern, s, k, |s| + 1);
      } else {
        SearchLeftmost(pattern, s, k + 1);
        assert Search(pattern, s, k) == Search(pattern, s, k + 1);
        if Search(pattern, s, k).Some? {
          var j :| k + 1 <= j <= |s| && MatchAt(pattern, s, j) == Search(pattern, s, k + 1) && NoMatchBetween(pattern, s, k + 1, j);
          assert NoMatchBetween(pattern, s, k, j);
          assert !NoMatchBetween(pattern, s, k, |s| + 1);
        } else {
          assert NoMatchBetween(pattern, s, k + 1, |s| + 1);
          assert NoMatchBetween(pattern, s, k, |s| + 1);
        }
      }
    }
  }

  /** `extract_repo_info(url)`: the first pattern anywhere in the URL, else the second; `.git` is then removed from the repository. */
  function ExtractRepoInfo(url: string): (r: Result<(string, string), string>)
    ensures r.Failure? ==> r.error == "Invalid GitHub repository URL: " + url
  {
    match Search(Anchored, url, 0)
    case Some(g) => Success((g.owner, RemoveAll(g.repo, ".git")))
    case None =>
      match Search(Prefix, url, 0)
      case Some(g) => Success((g.owner, RemoveAll(g.repo, ".git")))
      case None => Failure("Invalid GitHub repository URL: " + url)
  }

  // ---------------------------------------------------------------- properties

  /** A position whose character is not `g` cannot start the host. */
  lemma NotHostAt(s: string, k: nat)
    requires k < |s| && s[k] != 'g'
    ensures !OccursAt(s, Host, k)
  {
    if k + |Host| <= |s| {
      assert s[k..k + |Host|][0] == s[k];
    }
  }

  /** Neither pattern matches where the host does not start. */
  lemma NoHostNoMatch(pattern: Pattern, s: string, k: nat)
    requires !OccursAt(s, Host, k)
    ensures MatchAt(pattern, s, k).None?
  {
  }

  /** The search passes over a position where the pattern does not match. */
  lemma SearchStep(pattern: Pattern, s: string, k: nat)
    requires k <= |s| && MatchAt(pattern, s, k).None?
    ensures Search(pattern, s, k) == Search(pattern, s, k + 1)
  {
  }

  /** Positions where the host does not start match neither pattern, so the search passes over them. */
  lemma {:induction false} SearchSkip(pattern: Pattern, s: string, k: nat, j: nat)
    requires k <= j
    requires forall i :: k <= i < j ==> !OccursAt(s, Host, i)
    ensures Search(pattern, s, k) == Search(pattern, s, j)
    decreases j - k
  {
    if k < j && k <= |s| {
      NoHostNoMatch(pattern, s, k);
      SearchStep(pattern, s, k);
      SearchSkip(pattern, s, k + 1, j);
    }
  }

  /** `FirstSlash` on a suffix, shifted back. */
  lemma {:induction false} FirstSlashFrom(s: string, off: nat, i: nat)
    requires off + i <= |s|
    ensures FirstSlash(s, off + i) == off + FirstSlash(s[off..], i)
    decreases |s| - off - i
  {
    if off + i < |s| {
      assert s[off..][i] == s[off + i];
      if s[off + i] != '/' {
        FirstSlashFrom(s, off, i + 1);
      }
    }
  }

  lemma {:induction false} FirstSlashIs(s: string, from: nat, p: nat)
    requires from <= p < |s| && s[p] == '/'
    requires forall i :: from <= i < p ==> s[i] != '/'
    ensures FirstSlash(s, from) == p
    decreases p - from
  {
    if from < p {
      FirstSlashIs(s, from + 1, p);
    }
  }

  /**
   Where the host is followed by a non-empty slash-free owner and a slash, the
   first pattern's repository group is the lazy match of what follows, and the
   second pattern's is everything up to the next slash.
   */
  lemma OwnerThenSlash(s: string, k: nat, o: string, t: string)
    requires OccursAt(s, Host, k) && o != "" && '/' !in o
    requires k + |Host| + |o| < |s| && s[k + |Host|..k + |Host| + |o|] == o
    requires s[k + |Host| + |o|] == '/' && s[k + |Host| + |o| + 1..] == t
    ensures AnchoredAt(s, k) == (match ShortestRepo(t, 1) case None => None case Some(g) => Some(Groups(o, g)))
    ensures PrefixAt(s, k) == (if FirstSlash(t, 0) == 0 then None else Some(Groups(o, t[..FirstSlash(t, 0)])))
  {
    OwnerEndsAtSlash(s, k, o);
    AnchoredAfterOwner(s, k, o, t);
    PrefixAfterOwner(s, k, o, t);
  }

  lemma AnchoredAfterOwner(s: string, k: nat, o: string, t: string)
    requires OccursAt(s, Host, k) && o != ""
    requires k + |Host| + |o| < |s| && s[k + |Host|..k + |Host| + |o|] == o && s[k + |Host| + |o| + 1..] == t
    requires FirstSlash(s, k + |Host|) == k + |Host| + |o|
    ensures AnchoredAt(s, k) == (match ShortestRepo(t, 1) case None => None case Some(g) => Some(Groups(o, g)))
  {
    var p := k + |Host| + |o|;
    AnchoredAtSlash(s, k, p);
    assert s[p + 1..] == t && s[k + |Host|..p] == o;
  }

  /** The first pattern at `k` once the owner group is known to end at the slash `p`. */
  lemma AnchoredAtSlash(s: string, k: nat, p: nat)
    requires OccursAt(s, Host, k)
    requires k + |Host| < p < |s| && FirstSlash(s, k + |Host|) == p
    ensures AnchoredAt(s, k) == (match ShortestRepo(s[p + 1..], 1) case None => None case Some(g) => Some(Groups(s[k + |Host|..p], g)))
  {
  }

  lemma PrefixAfterOwner(s: string, k: nat, o: string, t: string)
    requires OccursAt(s, Host, k) && o != ""
    requires k + |Host| + |o| < |s| && s[k + |Host|..k + |Host| + |o|] == o && s[k + |Host| + |o| + 1..] == t
    requires FirstSlash(s, k + |Host|) == k + |Host| + |o|
    ensures PrefixAt(s, k) == (if FirstSlash(t, 0) == 0 then None else Some(Groups(o, t[..FirstSlash(t, 0)])))
  {
    var p := k + |Host| + |o|;
    PrefixAtSlash(s, k, p);
    SlashShift(s, p + 1, t);
    assert s[k + |Host|..p] == o;
  }

  /** The second pattern at `k` once the owner group is known to end at the slash `p`. */
  lemma PrefixAtSlash(s: string, k: nat, p: nat)
    requires OccursAt(s, Host, k)
    requires k + |Host| < p < |s| && FirstSlash(s, k + |Host|) == p
    ensures var q := FirstSlash(s, p + 1);
      PrefixAt(s, k) == (if q == p + 1 then None else Some(Groups(s[k + |Host|..p], s[p + 1..q])))
  {
  }

  /** The next slash found on a suffix `t` of `s` is the same slash, read from `s`. */
  lemma SlashShift(s: string, off: nat, t: string)
    requires off <= |s| && s[off..] == t
    ensures FirstSlash(s, off) == off + FirstSlash(t, 0)
    ensures s[off..FirstSlash(s, off)] == t[..FirstSlash(t, 0)]
  {
    FirstSlashFrom(s, off, 0);
  }

  /** The owner group runs up to the slash after it. */
  lemma OwnerEndsAtSlash(s: string, k: nat, o: string)
    requires '/' !in o
    requires k + |Host| + |o| < |s| && s[k + |Host|..k + |Host| + |o|] == o
    requires s[k + |Host| + |o|] == '/'
    ensures FirstSlash(s, k + |Host|) == k + |Host| + |o|
  {
    var from := k + |Host|;
    var p := from + |o|;
    forall i | from <= i < p ensures s[i] != '/' {
      assert s[i] == s[from..p][i - from];
    }
    FirstSlashIs(s, from, p);
  }

  /** The scheme `https://` holds no `g`, so the host cannot start inside it. */
  const Scheme: string := "https://"

  lemma HostAfterScheme(u: string)
    ensures OccursAt(Scheme + Host + u, Host, |Scheme|)
    ensures forall i :: 0 <= i < |Scheme| ==> !OccursAt(Scheme + Host + u, Host, i)
    ensures (Scheme + Host + u)[|Scheme| + |Host|..] == u
  {
    var s := Scheme + Host + u;
    assert s[|Scheme|..|Scheme| + |Host|] == Host;
    forall i | 0 <= i < |Scheme| ensures !OccursAt(s, Host, i) {
      assert s[i] == Scheme[i];
      NotHostAt(s, i);
    }
  }

  /** Past the scheme, the host occurs only where `u` holds it. */
  lemma HostOnlyOnce(u: string)
    requires !Contains(u, Host)
    ensures forall k :: |Scheme| < k ==> !OccursAt(Scheme + Host + u, Host, k)
  {
    var pre := Scheme + Host;
    var s := pre + u;
    forall k | |Scheme| < k ensures !OccursAt(s, Host, k) {
      if k < |pre| {
        assert s[k] == Host[k - |Scheme|];
        NotHostAt(s, k);
      } else if k + |Host| <= |s| {
        assert s[k..k + |Host|] == u[k - |pre|..k - |pre| + |Host|];
        assert !OccursAt(u, Host, k - |pre|);
      }
    }
  }

  lemma ExtractByAnchored(url: string, k: nat, g: Groups)
    requires forall i :: 0 <= i < k ==> !OccursAt(url, Host, i)
    requires AnchoredAt(url, k) == Some(g)
    ensures ExtractRepoInfo(url) == Success((g.owner, RemoveAll(g.repo, ".git")))
  {
    SearchSkip(Anchored, url, 0, k);
  }

  lemma ExtractByPrefix(url: string, k: nat, g: Groups)
    requires forall i :: 0 <= i <= |url| ==> AnchoredAt(url, i).None?
    requires forall i :: 0 <= i < k ==> !OccursAt(url, Host, i)
    requires PrefixAt(url, k) == Some(g)
    ensures ExtractRepoInfo(url) == Success((g.owner, RemoveAll(g.repo, ".git")))
  {
    forall j | 0 <= j <= |url| ensures MatchAt(Anchored, url, j).None? {
    }
    SearchLeftmost(Anchored, url, 0);
    SearchSkip(Prefix, url, 0, k);
  }

  /** The URL `https://github.com/<owner>/<path>`. */
  function RepoUrl(owner: string, path: string): string {
    Scheme + Host + owner + "/" + path
  }

  /** Where the pieces of a repository URL sit. */
  lemma RepoUrlLayout(o: string, t: string)
    ensures var s := RepoUrl(o, t);
      var k := |Scheme| + |Host|;
      && OccursAt(s, Host, |Scheme|)
      && (forall i :: 0 <= i < |Scheme| ==> !OccursAt(s, Host, i))
      && k + |o| < |s| && s[k..k + |o|] == o && s[k + |o|] == '/' && s[k + |o| + 1..] == t
  {
    var u := o + ("/" + t);
    var s := Scheme + Host + u;
    assert RepoUrl(o, t) == s;
    HostAfterScheme(u);
    var k := |Scheme| + |Host|;
    assert s[k..] == u;
    assert s[k..k + |o|] == u[..|o|] == o;
    assert s[k + |o|] == u[|o|] == '/';
    assert s[k + |o| + 1..] == u[|o| + 1..] == t;
  }

  /** Ending cases: a slash-free, line-feed-free `x` can end the match only as `.git`. */
  lemma PlainEnd(x: string)
    requires x != "" && '/' !in x && '\n' !in x
    ensures EndOk(x) <==> x == ".git"
    ensures EndOk(x + "/") <==> x == ".git"
    ensures !EndOk(x + ".git") && !EndOk(x + ".git/")
  {
    assert x[|x| - 1] in x;
    assert DropLast(x, '\n') == x && DropLast(x, '/') == x;
    var y := x + "/";
    assert y[..|y| - 1] == x;
    assert DropLast(y, '\n') == y && DropLast(y, '/') == x;
    var g := x + ".git";
    assert g[|g| - 1] == 't';
    assert DropLast(g, '\n') == g && DropLast(g, '/') == g;
    var h := x + ".git/";
    assert h[..|h| - 1] == g;
    assert DropLast(h, '\n') == h && DropLast(h, '/') == g;
  }

  /** The four endings of a canonical URL. */
  lemma CanonicalEnds()
    ensures EndOk("") && EndOk(".git") && EndOk("/") && EndOk(".git/")
  {
    assert DropLast("/", '/') == "";
    assert ".git/"[..4] == ".git";
    assert DropLast(".git/", '/') == ".git";
  }

  /** A slash-free repository group that does not end in `.git` is taken whole by the lazy group before any ending. */
  lemma {:induction false} ShortestRepoWhole(r: string, suffix: string, n: nat)
    requires 1 <= n <= |r| && '/' !in r && '\n' !in r && !EndsWith(r, ".git")
    requires suffix in {"", ".git", "/", ".git/"}
    ensures ShortestRepo(r + suffix, n) == Some(r)
    decreases |r| - n
  {
    var t := r + suffix;
    assert t[n - 1] == r[n - 1];
    if n == |r| {
      assert t[n..] == suffix && t[..n] == r;
      CanonicalEnds();
    } else {
      var x := r[n..];
      assert t[n..] == x + suffix;
      assert x != ".git" by {
        assert |x| == 4 ==> x == r[|r| - 4..];
      }
      forall c | c in x ensures c in r {
      }
      PlainEnd(x);
      assert x + "" == x;
      ShortestRepoWhole(r, suffix, n + 1);
    }
  }

  /**
   `https://github.com/o/r`, `https://github.com/o/r.git`,
   `https://github.com/o/r/` and `https://github.com/o/r.git/` all yield
   `(o, r)` through the first pattern, with
   `.git` removed from `r` wherever it occurs.
   */
  lemma CanonicalUrl(o: string, r: string, suffix: string)
    requires o != "" && '/' !in o
    requires r != "" && '/' !in r && '\n' !in r && !EndsWith(r, ".git")
    requires suffix in {"", ".git", "/", ".git/"}
    ensures ExtractRepoInfo(RepoUrl(o, r + suffix)) == Success((o, RemoveAll(r, ".git")))
  {
    var s := RepoUrl(o, r + suffix);
    RepoUrlLayout(o, r + suffix);
    OwnerThenSlash(s, |Scheme|, o, r + suffix);
    ShortestRepoWhole(r, suffix, 1);
    ExtractByAnchored(s, |Scheme|, Groups(o, r));
  }

  /** A slash followed by a further segment cannot end the match. */
  lemma SegmentNotEnd(x: string, rest: string)
    requires '/' !in x && rest != "" && rest != "\n"
    ensures !EndOk(x + "/" + rest)
  {
    var y := x + "/" + rest;
    assert y[|x|] == '/';
    if |rest| == 1 {
      assert rest == [rest[0]];
      assert y[|y| - 1] == rest[0];
    }
    var b := DropLast(DropLast(y, '\n'), '/');
    assert |x| < |b| && b == y[..|b|];
    assert b[|x|] == '/';
    assert '/' !in ".git";
  }

  /** With a further segment after the repository, no ending fits the first pattern. */
  lemma {:induction false} NoAnchoredRepo(r: string, rest: string, n: nat)
    requires 1 <= n <= |r| + 1 && '/' !in r && rest != "" && rest != "\n"
    ensures ShortestRepo(r + "/" + rest, n).None?
    decreases |r| + 1 - n
  {
    var t := r + "/" + rest;
    if n == |r| + 1 {
      assert t[n - 1] == '/';
    } else {
      assert t[n - 1] == r[n - 1];
      var x := r[n..];
      assert t[n..] == x + "/" + rest;
      forall c | c in x ensures c in r {
      }
      SegmentNotEnd(x, rest);
      NoAnchoredRepo(r, rest, n + 1);
    }
  }

  /**
   A deeper URL such as `https://github.com/o/r/tree/main`, with no other host in it,
   fails the first pattern and yields `(o, r)` through the second.
   */
  lemma DeepUrl(o: string, r: string, rest: string)
    requires o != "" && '/' !in o
    requires r != "" && '/' !in r
    requires rest != "" && rest != "\n"
    requires !Contains(o + "/" + r + "/" + rest, Host)
    ensures ExtractRepoInfo(RepoUrl(o, r + "/" + rest)) == Success((o, RemoveAll(r, ".git")))
  {
    var t := r + "/" + rest;
    var s := RepoUrl(o, t);
    RepoUrlLayout(o, t);
    DeepNotAnchored(o, r, rest);
    OwnerThenSlash(s, |Scheme|, o, t);
    FirstSegment(r, rest);
    assert PrefixAt(s, |Scheme|) == Some(Groups(o, r));
    ExtractByPrefix(s, |Scheme|, Groups(o, r));
  }

  /** In `r/rest` with a slash-free `r`, the first slash ends `r`. */
  lemma FirstSegment(r: string, rest: string)
    requires r != "" && '/' !in r
    ensures FirstSlash(r + "/" + rest, 0) == |r|
    ensures (r + "/" + rest)[..|r|] == r
  {
    var t := r + "/" + rest;
    assert t[|r|] == '/';
    forall i | 0 <= i < |r| ensures t[i] != '/' {
      assert t[i] == r[i];
    }
    FirstSlashIs(t, 0, |r|);
  }

  /** The first pattern matches nowhere in a deeper URL. */
  lemma DeepNotAnchored(o: string, r: string, rest: string)
    requires o != "" && '/' !in o
    requires '/' !in r
    requires rest != "" && rest != "\n"
    requires !Contains(o + "/" + r + "/" + rest, Host)
    ensures var s := RepoUrl(o, r + "/" + rest); forall i :: 0 <= i <= |s| ==> AnchoredAt(s, i).None?
  {
    var t := r + "/" + rest;
    var s := RepoUrl(o, t);
    var k := |Scheme|;
    RepoUrlLayout(o, t);
    assert s == Scheme + Host + (o + "/" + r + "/" + rest);
    HostOnlyOnce(o + "/" + r + "/" + rest);
    OwnerThenSlash(s, k, o, t);
    NoAnchoredRepo(r, rest, 1);
    forall i | 0 <= i <= |s| && i != k ensures AnchoredAt(s, i).None? {
      assert !OccursAt(s, Host, i);
    }
  }

  /** `.git` is removed only where no earlier character could start it. */
  lemma {:induction false} RemoveAllFree(a: string, rest: string, pat: string)
    requires |pat| > 0 && forall i :: 0 <= i < |a| ==> a[i] != pat[0]
    ensures RemoveAll(a + rest, pat) == a + RemoveAll(rest, pat)
    decreases |a|
  {
    var s := a + rest;
    if |a| == 0 {
      assert s == rest;
    } else if |s| < |pat| {
      RemoveAllStep(s, pat);
      RemoveAllStep(rest, pat);
    } else {
      assert s[..|pat|][0] == a[0] != pat[0];
      RemoveAllStep(s, pat);
      assert RemoveAll(s, pat) == [a[0]] + RemoveAll(s[1..], pat);
      var tail := a[1..];
      assert s[1..] == tail + rest;
      assert forall i :: 0 <= i < |tail| ==> tail[i] == a[i + 1];
      RemoveAllFree(tail, rest, pat);
      assert [a[0]] + tail == a;
    }
  }

  /** `site.github.io` loses its `.git`. */
  lemma RemoveGitExample()
    ensures RemoveAll("site.github.io", ".git") == "sitehub.io"
  {
    SitePieces();
    RemoveAllFree("site", ".git" + "hub.io", ".git");
    GitThenHubIo();
  }

  lemma SitePieces()
    ensures "site" + (".git" + "hub.io") == "site.github.io"
    ensures "site" + "hub.io" == "sitehub.io"
    ensures forall i :: 0 <= i < |"site"| ==> "site"[i] != ".git"[0]
  {
  }

  lemma GitThenHubIo()
    ensures RemoveAll(".git" + "hub.io", ".git") == "hub.io"
  {
    var g := ".git" + "hub.io";
    RemoveAllStep(g, ".git");
    assert g[..4] == ".git" && g[4..] == "hub.io";
    NoGitInHubIo();
  }

  lemma NoGitInHubIo()
    ensures RemoveAll("hub.io", ".git") == "hub.io"
  {
    RemoveAllFree("hub", ".io", ".git");
    RemoveAllStep(".io", ".git");
    assert "hub" + ".io" == "hub.io";
  }

  /** A Pages repository keeps its name only partly: `site.github.io` becomes `sitehub.io`. */
  lemma GitInsideRepoExample()
    ensures ExtractRepoInfo(RepoUrl("o", "site.github.io")) == Success(("o", "sitehub.io"))
  {
    var r := "site.github.io";
    assert r[|r| - 4..] == "b.io";
    assert r + "" == r;
    CanonicalUrl("o", r, "");
    RemoveGitExample();
  }

  /** The second pattern matches where the first does, so a URL is refused exactly when the second matches nowhere. */
  lemma InvalidExactlyWithoutPrefix(url: string)
    ensures ExtractRepoInfo(url).Failure? <==> forall k :: 0 <= k <= |url| ==> PrefixAt(url, k).None?
  {
    SearchLeftmost(Anchored, url, 0);
    SearchLeftmost(Prefix, url, 0);
    if Search(Anchored, url, 0).Some? {
      var j :| 0 <= j <= |url| && MatchAt(Anchored, url, j) == Search(Anchored, url, 0) && NoMatchBetween(Anchored, url, 0, j);
      AnchoredImpliesPrefix(url, j);
      assert !(forall k :: 0 <= k <= |url| ==> PrefixAt(url, k).None?);
    } else if Search(Prefix, url, 0).Some? {
      var j :| 0 <= j <= |url| && MatchAt(Prefix, url, j) == Search(Prefix, url, 0) && NoMatchBetween(Prefix, url, 0, j);
      assert PrefixAt(url, j).Some?;
    } else {
      forall k | 0 <= k <= |url| ensures PrefixAt(url, k).None? {
        assert MatchAt(Prefix, url, k).None?;
      }
    }
  }

  lemma AnchoredImpliesPrefix(s: string, k: nat)
    requires AnchoredAt(s, k).Some?
    ensures PrefixAt(s, k).Some?
  {
    var p := FirstSlash(s, k + |Host|);
    var t := s[p + 1..];
    assert ShortestRepo(t, 1).Some?;
    assert |t| >= 1 && t[0] != '/';
    assert s[p + 1] == t[0];
  }

  /** A URL that never mentions `github.com/` is refused. */
  lemma NoHostRefused(url: string)
    requires !Contains(url, Host)
    ensures ExtractRepoInfo(url) == Failure("Invalid GitHub repository URL: " + url)
  {
    InvalidExactlyWithoutPrefix(url);
    forall k | 0 <= k <= |url| ensures PrefixAt(url, k).None? {
      assert !OccursAt(url, Host, k);
    }
  }

  // ================================================================ crawl

  /** `f"{owner}/{repo_name}"`. */
  function FullRepoName(owner: string, repo: string): string {
    owner + "/" + repo
  }

  /** One entry of the git tree: its `type` and `path`. */
  datatype TreeItem = TreeItem(kind: string, path: string)

  /** The filter of `_crawl_tree`: blobs whose path ends in `.md` or `.mdx`. */
  predicate IsMarkdownBlob(item: TreeItem) {
    item.kind == "blob" && (EndsWith(item.path, ".md") || EndsWith(item.path, ".mdx"))
  }

  /**
   What `repo.get_contents(path)` gives: its `encoding`, the UTF-8 decoding of
   its bytes (`None` when that raises), its `content` and its `html_url`.
   */
  datatype Contents = Contents(encoding: string, decoded: Option<string>, content: string, htmlUrl: string)

  /** The text `_crawl_tree` reads from a file, or `None` when reading it raises. */
  function FileText(c: Contents): Option<string> {
    if c.encoding == "base64" then c.decoded else Some(c.content)
  }

  /** The document one tree item gives, or `None` when it is skipped. */
  function TreeDocument(item: TreeItem, read: string -> Option<Contents>, repoName: string): Option<Document> {
    if !IsMarkdownBlob(item) then None
    else
      match read(item.path)
      case None => None
      case Some(c) =>
        match FileText(c)
        case None => None
        case Some(text) => Some(Document(item.path, text, c.htmlUrl, repoName))
  }

  /** `_crawl_tree`: the documents of the Markdown blobs that could be read, in tree order. */
  function CrawlTree(items: seq<TreeItem>, read: string -> Option<Contents>, repoName: string): (docs: seq<Document>)
    ensures |docs| <= |items|
    decreases |items|
  {
    if |items| == 0 then []
    else
      var rest := CrawlTree(items[1..], read, repoName);
      match TreeDocument(items[0], read, repoName)
      case None => rest
      case Some(d) => [d] + rest
  }

  /**
   A document is crawled exactly when some Markdown blob of the tree could be
   read to it: other items and failed reads are skipped, and the rest go on.
   */
  lemma {:induction false} CrawlTreeMembers(items: seq<TreeItem>, read: string -> Option<Contents>, repoName: string, d: Document)
    ensures d in CrawlTree(items, read, repoName) <==>
      exists i :: 0 <= i < |items| && TreeDocument(items[i], read, repoName) == Some(d)
    decreases |items|
  {
    if |items| > 0 {
      CrawlTreeMembers(items[1..], read, repoName, d);
      if exists i :: 0 <= i < |items| && TreeDocument(items[i], read, repoName) == Some(d) {
        var i :| 0 <= i < |items| && TreeDocument(items[i], read, repoName) == Some(d);
        if i > 0 {
          assert items[1..][i - 1] == items[i];
        }
      }
      if exists i :: 0 <= i < |items[1..]| && TreeDocument(items[1..][i], read, repoName) == Some(d) {
        var i :| 0 <= i < |items[1..]| && TreeDocument(items[1..][i], read, repoName) == Some(d);
        assert items[i + 1] == items[1..][i];
      }
    }
  }

  /** Every crawled document is a Markdown file of the repository, named after it. */
  lemma CrawlTreeDocuments(items: seq<TreeItem>, read: string -> Option<Contents>, repoName: string, d: Document)
    requires d in CrawlTree(items, read, repoName)
    ensures d.repoName == repoName
    ensures EndsWith(d.path, ".md") || EndsWith(d.path, ".mdx")
  {
    CrawlTreeMembers(items, read, repoName, d);
  }

  datatype CrawlError = InvalidUrl(message: string) | AccessFailed(repoName: string) | PathMissing(message: string)

  /** The facts of `CrawlTreeMembers` and `CrawlTreeDocuments` for every document at once. */
  lemma CrawlTreeSpec(items: seq<TreeItem>, read: string -> Option<Contents>, repoName: string)
    ensures forall d :: d in CrawlTree(items, read, repoName) <==>
      exists i :: 0 <= i < |items| && TreeDocument(items[i], read, repoName) == Some(d)
    ensures forall d :: d in CrawlTree(items, read, repoName) ==>
      d.repoName == repoName && (EndsWith(d.path, ".md") || EndsWith(d.path, ".mdx"))
  {
    forall d: Document
      ensures d in CrawlTree(items, read, repoName) <==>
        exists i :: 0 <= i < |items| && TreeDocument(items[i], read, repoName) == Some(d)
    {
      CrawlTreeMembers(items, read, repoName, d);
    }
    forall d: Document | d in CrawlTree(items, read, repoName)
      ensures d.repoName == repoName && (EndsWith(d.path, ".md") || EndsWith(d.path, ".mdx"))
    {
      CrawlTreeDocuments(items, read, repoName, d);
    }
  }

  /**
   `crawl(url)`: `tree` lists the `HEAD` tree of a repository by full name, or
   is `None` when the repository cannot be accessed. The crawl succeeds exactly
   when the URL names a repository whose tree can be listed; it then holds
   exactly the Markdown blobs whose read and decoding succeed, each named
   `owner/repo` and with an `.md` or `.mdx` path.
   */
  function Crawl(url: string, tree: string -> Option<seq<TreeItem>>, read: string -> Option<Contents>): (r: Result<seq<Document>, CrawlError>)
    ensures ExtractRepoInfo(url).Failure? ==> r == Failure(InvalidUrl(ExtractRepoInfo(url).error))
    ensures ExtractRepoInfo(url).Success? ==>
      var full := ExtractRepoInfo(url).value.0 + "/" + ExtractRepoInfo(url).value.1;
      && (r.Success? <==> tree(full).Some?)
      && (r.Failure? ==> r.error == AccessFailed(full))
      && (r.Success? ==>
          var items := tree(full).value;
          && |r.value| <= |items|
          && (forall d :: d in r.value ==>
                d.repoName == full && (EndsWith(d.path, ".md") || EndsWith(d.path, ".mdx")))
          && (forall d :: d in r.value <==>
                exists i :: 0 <= i < |items| && TreeDocument(items[i], read, full) == Some(d)))
  {
    match ExtractRepoInfo(url)
    case Failure(e) => Failure(InvalidUrl(e))
    case Success((owner, repo)) =>
      var full := FullRepoName(owner, repo);
      match tree(full)
      case None => Failure(AccessFailed(full))
      case Some(items) =>
        CrawlTreeSpec(items, read, full);
        Success(CrawlTree(items, read, full))
  }

  // ================================================================ crawl_local

  /** `_add_local_file(file)`: the document of one file, or `None` when reading it or relativising its path raises. */
  function LocalDocument(file: string, read: string -> Option<string>, relative: string -> Option<string>, repoName: string): Option<Document> {
    match (read(file), relative(file))
    case (Some(content), Some(rel)) => Some(Document(rel, content, "file://" + file, repoName))
    case _ => None
  }

  function LocalDocuments(files: seq<string>, read: string -> Option<string>, relative: string -> Option<string>, repoName: string): (docs: seq<Document>)
    ensures |docs| <= |files|
    decreases |files|
  {
    if |files| == 0 then []
    else
      var rest := LocalDocuments(files[1..], read, relative, repoName);
      match LocalDocument(files[0], read, relative, repoName)
      case None => rest
      case Some(d) => [d] + rest
  }

  /**
   `crawl_local(path)`: `present` says whether the path exists, `dirName` is its
   last component, and `mdFiles` and `mdxFiles` are what `rglob("*.md")` and
   `rglob("*.mdx")` list.
   */
  function CrawlLocal(localPath: string, present: bool, dirName: string, mdFiles: seq<string>, mdxFiles: seq<string>,
                      read: string -> Option<string>, relative: string -> Option<string>): Result<seq<Document>, CrawlError>
  {
    if !present then Failure(PathMissing("Path does not exist: " + localPath))
    else
      var repoName := "local/" + dirName;
      Success(LocalDocuments(mdFiles, read, relative, repoName) + LocalDocuments(mdxFiles, read, relative, repoName))
  }

  /** Each local document is named `local/<dir>`, has its base-relative path and a `file://` URL, and was readable. */
  lemma {:induction false} LocalDocumentsShape(files: seq<string>, read: string -> Option<string>, relative: string -> Option<string>, repoName: string, d: Document)
    requires d in LocalDocuments(files, read, relative, repoName)
    ensures exists f :: f in files && read(f) == Some(d.content) && relative(f) == Some(d.path)
                       && d.url == "file://" + f && d.repoName == repoName
    decreases |files|
  {
    var rest := LocalDocuments(files[1..], read, relative, repoName);
    if d in rest {
      LocalDocumentsShape(files[1..], read, relative, repoName, d);
      var f :| f in files[1..] && read(f) == Some(d.content) && relative(f) == Some(d.path)
               && d.url == "file://" + f && d.repoName == repoName;
      assert f in files;
    } else {
      assert files[0] in files;
    }
  }

  /** A local document carries the repository name it was given and a `file://` URL. */
  lemma LocalDocumentNamed(files: seq<string>, read: string -> Option<string>, relative: string -> Option<string>, repoName: string, d: Document)
    requires d in LocalDocuments(files, read, relative, repoName)
    ensures d.repoName == repoName && StartsWith(d.url, "file://")
  {
    LocalDocumentsShape(files, read, relative, repoName, d);
    var f :| f in files && d.url == "file://" + f && d.repoName == repoName;
    assert ("file://" + f)[..7] == "file://";
  }

  /** Every file that can be read and relativised gives its document. */
  lemma {:induction false} LocalDocumentsComplete(files: seq<string>, read: string -> Option<string>, relative: string -> Option<string>, repoName: string, i: nat)
    requires i < |files| && read(files[i]).Some? && relative(files[i]).Some?
    ensures Document(relative(files[i]).value, read(files[i]).value, "file://" + files[i], repoName)
            in LocalDocuments(files, read, relative, repoName)
    decreases |files|
  {
    if i > 0 {
      assert files[1..][i - 1] == files[i];
      LocalDocumentsComplete(files[1..], read, relative, repoName, i - 1);
    }
  }

  /** The `.md` pass comes first, the `.mdx` pass second, and a missing path is refused. */
  lemma CrawlLocalSpec(localPath: string, present: bool, dirName: string, mdFiles: seq<string>, mdxFiles: seq<string>,
                       read: string -> Option<string>, relative: string -> Option<string>)
    ensures !present ==>
      CrawlLocal(localPath, present, dirName, mdFiles, mdxFiles, read, relative) == Failure(PathMissing("Path does not exist: " + localPath))
    ensures present ==>
      var docs := CrawlLocal(localPath, present, dirName, mdFiles, mdxFiles, read, relative);
      var first := LocalDocuments(mdFiles, read, relative, "local/" + dirName);
      && docs.Success?
      && docs.value[..|first|] == first
      && docs.value[|first|..] == LocalDocuments(mdxFiles, read, relative, "local/" + dirName)
      && forall d :: d in docs.value ==> d.repoName == "local/" + dirName && StartsWith(d.url, "file://")
  {
    if present {
      var repoName := "local/" + dirName;
      var first := LocalDocuments(mdFiles, read, relative, repoName);
      var second := LocalDocuments(mdxFiles, read, relative, repoName);
      assert (first + second)[..|first|] == first;
      assert (first + second)[|first|..] == second;
      forall d: Document | d in first + second ensures d.repoName == repoName && StartsWith(d.url, "file://") {
        if d in first {
          LocalDocumentNamed(mdFiles, read, relative, repoName, d);
        } else {
          LocalDocumentNamed(mdxFiles, read, relative, repoName, d);
        }
      }
    }
  }
}
