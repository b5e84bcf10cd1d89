/*
 * The breadcrumb trail shown above every dashboard page: the current
 * pathname is cut into segments, a fixed root crumb is put in front, each
 * segment becomes a crumb whose href is the path up to and including it, and
 * the trail is rendered crumb by crumb (home icon, links, plain last crumb).
 */
module Breadcrumbs {
  import opened Ascii

  /** One crumb of the trail: what it shows and where it links to. */
  datatype Crumb = Crumb(name: string, href: string)

  /** The crumb every trail starts with. */
  const Root: Crumb := Crumb("Dashboard", "/")

  // ---------------------------------------------------------------------
  // Splitting and joining on '/'
  // ---------------------------------------------------------------------

  /** `s.split('/')`: the pieces between slashes, empty pieces included;
      there is always one piece more than there are slashes. */
  function Split(s: string): (pieces: seq<string>)
    ensures |pieces| >= 1
    ensures forall i :: 0 <= i < |pieces| ==> '/' !in pieces[i]
    decreases |s|
  {
    if s == [] then [""]
    else
      var rest := Split(s[1..]);
      if s[0] == '/' then [""] + rest
      else [[s[0]] + rest[0]] + rest[1..]
  }

  /** `pieces.join('/')`. */
  function Join(pieces: seq<string>): string
  {
    if |pieces| == 0 then ""
    else if |pieces| == 1 then pieces[0]
    else pieces[0] + "/" + Join(pieces[1..])
  }

  /** A list of pieces that `Split` could have produced. */
  predicate SlashFree(pieces: seq<string>)
  {
    forall i :: 0 <= i < |pieces| ==> '/' !in pieces[i]
  }

  /** Joining the pieces of a split gives the string back. */
  lemma {:induction false} JoinSplit(s: string)
    ensures Join(Split(s)) == s
    decreases |s|
  {
    if s != [] {
      JoinSplit(s[1..]);
      var rest := Split(s[1..]);
      if s[0] == '/' {
        assert s == "/" + s[1..];
      } else if |rest| == 1 {
        assert s == [s[0]] + s[1..];
      } else {
        assert Join(rest) == rest[0] + "/" + Join(rest[1..]);
        var r1 := rest[1..];
        assert ([[s[0]] + rest[0]] + r1)[1..] == r1;
        assert s == [s[0]] + s[1..];
      }
    }
  }

  /** A piece without slashes splits into itself. */
  lemma {:induction false} SplitSlashFree(p: string)
    requires '/' !in p
    ensures Split(p) == [p]
    decreases |p|
  {
    if p != [] {
      SplitSlashFree(p[1..]);
      assert [p[0]] + p[1..] == p;
    }
  }

  /** Splitting at a slash splits both sides independently. */
  lemma {:induction false} SplitAtSlash(a: string, b: string)
    ensures Split(a + "/" + b) == Split(a) + Split(b)
    decreases |a|
  {
    if a == [] {
      assert a + "/" + b == "/" + b;
      assert ("/" + b)[1..] == b;
    } else {
      var s := a + "/" + b;
      assert s[0] == a[0];
      assert s[1..] == a[1..] + "/" + b;
      SplitAtSlash(a[1..], b);
    }
  }

  /** Splitting a join of slash-free pieces gives the pieces back, so `Split`
      and `Join` are inverse to each other. */
  lemma {:induction false} SplitJoin(pieces: seq<string>)
    requires |pieces| >= 1 && SlashFree(pieces)
    ensures Split(Join(pieces)) == pieces
    decreases |pieces|
  {
    if |pieces| == 1 {
      SplitSlashFree(pieces[0]);
    } else {
      SplitJoin(pieces[1..]);
      SplitAtSlash(pieces[0], Join(pieces[1..]));
      SplitSlashFree(pieces[0]);
      assert [pieces[0]] + pieces[1..] == pieces;
    }
  }

  /** Joining a list extended by one piece appends a slash and that piece. */
  lemma {:induction false} JoinSnoc(pieces: seq<string>, p: string)
    requires |pieces| >= 1
    ensures Join(pieces + [p]) == Join(pieces) + "/" + p
    decreases |pieces|
  {
    if |pieces| > 1 {
      assert (pieces + [p])[1..] == pieces[1..] + [p];
      JoinSnoc(pieces[1..], p);
    }
  }

  // ---------------------------------------------------------------------
  // Segments of a pathname
  // ---------------------------------------------------------------------

  /** `filter(Boolean)` on a list of strings: drops the empty ones and keeps
      the others in order. */
  function NonEmpty(pieces: seq<string>): (kept: seq<string>)
    ensures |kept| <= |pieces|
    ensures forall x :: x in kept <==> x in pieces && x != ""
  {
    if pieces == [] then []
    else (if pieces[0] == "" then [] else [pieces[0]]) + NonEmpty(pieces[1..])
  }

  lemma {:induction false} NonEmptyAppend(a: seq<string>, b: seq<string>)
    ensures NonEmpty(a + b) == NonEmpty(a) + NonEmpty(b)
    decreases |a|
  {
    if a == [] {
      assert a + b == b;
    } else {
      assert (a + b)[1..] == a[1..] + b;
      NonEmptyAppend(a[1..], b);
    }
  }

  /** Every entry of a list of non-empty strings survives the filter. */
  lemma {:induction false} NonEmptyKeepsAll(pieces: seq<string>)
    requires forall i :: 0 <= i < |pieces| ==> pieces[i] != ""
    ensures NonEmpty(pieces) == pieces
    decreases |pieces|
  {
    if pieces != [] {
      NonEmptyKeepsAll(pieces[1..]);
      assert [pieces[0]] + pieces[1..] == pieces;
    }
  }

  /** A list of valid path segments: non-empty and without slashes. */
  predicate ValidSegments(segs: seq<string>)
  {
    forall i :: 0 <= i < |segs| ==> segs[i] != "" && '/' !in segs[i]
  }

  /** `pathname.split('/').filter(Boolean)`. */
  function Segments(path: string): (segs: seq<string>)
    ensures ValidSegments(segs)
    ensures forall x :: x in segs <==> x in Split(path) && x != ""
  {
    var pieces := Split(path);
    var kept := NonEmpty(pieces);
    assert forall i :: 0 <= i < |kept| ==> kept[i] in pieces;
    kept
  }

  /** The pathname with every run of slashes collapsed to one, one leading
      slash and no trailing slash. */
  function Normalised(path: string): string
  {
    "/" + Join(Segments(path))
  }

  /** A slash is a pure separator: the segments of `a/b` are those of `a`
      followed by those of `b`. */
  lemma SegmentsAtSlash(a: string, b: string)
    ensures Segments(a + "/" + b) == Segments(a) + Segments(b)
  {
    SplitAtSlash(a, b);
    NonEmptyAppend(Split(a), Split(b));
  }

  /** A doubled slash reads as a single one. */
  lemma SegmentsIgnoreRepeatedSlash(a: string, b: string)
    ensures Segments(a + "//" + b) == Segments(a + "/" + b)
  {
    assert a + "//" + b == a + "/" + ("/" + b);
    SegmentsAtSlash(a, "/" + b);
    assert "/" + b == "" + "/" + b;
    SegmentsAtSlash("", b);
    SegmentsAtSlash(a, b);
  }

  /** A leading slash does not matter. */
  lemma SegmentsIgnoreLeadingSlash(s: string)
    ensures Segments("/" + s) == Segments(s)
  {
  }

  /** A trailing slash does not matter. */
  lemma SegmentsIgnoreTrailingSlash(s: string)
    ensures Segments(s + "/") == Segments(s)
  {
    assert s + "/" == s + "/" + "";
    SegmentsAtSlash(s, "");
  }

  /** Valid segments joined into a path come back unchanged. */
  lemma SegmentsOfJoin(segs: seq<string>)
    requires ValidSegments(segs)
    ensures Segments(Join(segs)) == segs
    ensures Segments("/" + Join(segs)) == segs
  {
    if segs != [] {
      SplitJoin(segs);
      NonEmptyKeepsAll(segs);
    }
    SegmentsIgnoreLeadingSlash(Join(segs));
  }

  /** Normalising keeps the segments, so it is idempotent. */
  lemma NormalisedIdempotent(path: string)
    ensures Segments(Normalised(path)) == Segments(path)
    ensures Normalised(Normalised(path)) == Normalised(path)
  {
    SegmentsOfJoin(Segments(path));
  }

  // ---------------------------------------------------------------------
  // Crumbs
  // ---------------------------------------------------------------------

  /** `toUpperCase` on one character, restricted to ASCII letters. */
  function UpperAscii(c: char): (u: char)
    ensures !IsLowerAscii(u)
    ensures !IsLowerAscii(c) ==> u == c
    ensures IsLowerAscii(c) ==> 'A' <= u <= 'Z' && u as int + 32 == c as int
  {
    if IsLowerAscii(c) then (c as int - 32) as char else c
  }

  /** `s.charAt(0).toUpperCase() + s.slice(1)`: only the first character is
      upper-cased, the rest and the length are kept. */
  function Capitalise(s: string): (r: string)
    ensures |r| == |s|
    ensures s != [] ==> r[0] == UpperAscii(s[0]) && r[1..] == s[1..]
    ensures s != [] ==> !IsLowerAscii(r[0])
    ensures s == [] ==> r == []
    ensures '/' !in s ==> '/' !in r
  {
    if s == [] then [] else [UpperAscii(s[0])] + s[1..]
  }

  /** Capitalising twice is capitalising once. */
  lemma CapitaliseIdempotent(s: string)
    ensures Capitalise(Capitalise(s)) == Capitalise(s)
  {
  }

  /** The href of the crumb for segment `k`: a slash and the first `k + 1`
      segments joined by slashes. */
  function HrefOf(segs: seq<string>, k: nat): string
    requires k < |segs|
  {
    "/" + Join(segs[..k + 1])
  }

  /** The crumbs for a list of segments: the root, then one per segment. */
  function CrumbsOf(segs: seq<string>): seq<Crumb>
  {
    [Root] + seq(|segs|, k requires 0 <= k < |segs| => Crumb(Capitalise(segs[k]), HrefOf(segs, k)))
  }

  /** The trail for a pathname. */
  function Crumbs(path: string): seq<Crumb>
  {
    CrumbsOf(Segments(path))
  }

  /** The shape of the trail: the root crumb first, then one crumb per
      segment, named after its segment with the first letter upper-cased. */
  lemma CrumbsShape(path: string)
    ensures |Crumbs(path)| == |Segments(path)| + 1
    ensures Crumbs(path)[0] == Crumb("Dashboard", "/")
    ensures forall k :: 0 <= k < |Segments(path)| ==>
      var segs, name := Segments(path), Crumbs(path)[k + 1].name;
      |name| == |segs[k]| && name[0] == UpperAscii(segs[k][0]) && name[1..] == segs[k][1..]
  {
  }

  /** The path `/` (and the empty path) have only the root crumb, and no
      other path does. */
  lemma RootOnly(path: string)
    ensures Crumbs("/") == [Root]
    ensures Crumbs("") == [Root]
    ensures |Crumbs(path)| == 1 <==> forall i :: 0 <= i < |path| ==> path[i] == '/'
  {
    assert Split("") == [""];
    assert "/" == "" + "/" + "";
    SegmentsAtSlash("", "");
    RootOnlyIff(path);
  }

  lemma {:induction false} RootOnlyIff(path: string)
    ensures Segments(path) == [] <==> forall i :: 0 <= i < |path| ==> path[i] == '/'
    decreases |path|
  {
    if path == [] {
      assert Split(path) == [""];
    } else {
      RootOnlyIff(path[1..]);
      var rest := Split(path[1..]);
      if path[0] == '/' {
        assert Split(path) == [""] + rest;
        NonEmptyAppend([""], rest);
        assert NonEmpty([""]) == [];
      } else {
        assert Split(path) == [[path[0]] + rest[0]] + rest[1..];
        assert [path[0]] + rest[0] in Segments(path);
      }
    }
  }

  /** The href of crumb `k + 1` extends that of crumb `k`: by the first
      segment after the root, by a slash and the next segment after that. */
  lemma HrefStep(segs: seq<string>, k: nat)
    requires k < |segs|
    ensures CrumbsOf(segs)[k + 1].href == CrumbsOf(segs)[k].href + (if k == 0 then "" else "/") + segs[k]
  {
    var cs := CrumbsOf(segs);
    assert cs[k + 1].href == HrefOf(segs, k);
    if k > 0 {
      assert cs[k].href == HrefOf(segs, k - 1);
      HrefOfSnoc(segs, k);
    } else {
      assert segs[..1] == [segs[0]];
    }
  }

  /** The href of segment `k` is that of segment `k - 1`, a slash and `segs[k]`. */
  lemma HrefOfSnoc(segs: seq<string>, k: nat)
    requires 0 < k < |segs|
    ensures HrefOf(segs, k) == HrefOf(segs, k - 1) + "/" + segs[k]
  {
    var before := segs[..k];
    assert segs[..k + 1] == before + [segs[k]];
    JoinSnoc(before, segs[k]);
  }

  /** Each crumb's href extends the one before: by the first segment after
      the root, by a slash and the next segment after that. */
  lemma HrefChain(path: string)
    ensures forall k :: 0 <= k < |Segments(path)| ==>
      Crumbs(path)[k + 1].href == Crumbs(path)[k].href + (if k == 0 then "" else "/") + Segments(path)[k]
  {
    var segs := Segments(path);
    forall k | 0 <= k < |segs|
      ensures CrumbsOf(segs)[k + 1].href == CrumbsOf(segs)[k].href + (if k == 0 then "" else "/") + segs[k]
    {
      HrefStep(segs, k);
    }
  }

  /** `a` is a proper prefix of `b`. */
  predicate ProperPrefix(a: string, b: string)
  {
    |a| < |b| && a == b[..|a|]
  }

  /** In a list where each string is a proper prefix of the next, each is a
      proper prefix of every later one. */
  lemma {:induction false} GrowingPrefixes(hs: seq<string>, i: nat, j: nat)
    requires i < j < |hs|
    requires forall k :: 0 <= k < |hs| - 1 ==> ProperPrefix(hs[k], hs[k + 1])
    ensures ProperPrefix(hs[i], hs[j])
    decreases j - i
  {
    var k := j - 1;
    assert ProperPrefix(hs[k], hs[j]);
    if i < k {
      GrowingPrefixes(hs, i, k);
      assert hs[j][..|hs[k]|][..|hs[i]|] == hs[j][..|hs[i]|];
    }
  }

  /** Each crumb's href is a proper prefix of the next one's. */
  lemma HrefStepIsProperPrefix(segs: seq<string>, k: nat)
    requires ValidSegments(segs) && k < |segs|
    ensures ProperPrefix(CrumbsOf(segs)[k].href, CrumbsOf(segs)[k + 1].href)
  {
    HrefStep(segs, k);
    var a, x := CrumbsOf(segs)[k].href, (if k == 0 then "" else "/") + segs[k];
    assert |x| > 0;
    assert (a + x)[..|a|] == a;
  }

  /** Along the trail of valid segments, every href is a proper prefix of
      every later one. */
  lemma HrefsGrow(segs: seq<string>)
    requires ValidSegments(segs)
    ensures forall i, j :: 0 <= i < j < |CrumbsOf(segs)| ==>
      ProperPrefix(CrumbsOf(segs)[i].href, CrumbsOf(segs)[j].href)
  {
    var cs := CrumbsOf(segs);
    var hs := seq(|cs|, i requires 0 <= i < |cs| => cs[i].href);
    assert forall i :: 0 <= i < |hs| ==> hs[i] == cs[i].href;
    forall k | 0 <= k < |hs| - 1 ensures ProperPrefix(hs[k], hs[k + 1]) {
      HrefStepIsProperPrefix(segs, k);
    }
    forall i, j | 0 <= i < j < |hs| ensures ProperPrefix(hs[i], hs[j]) {
      GrowingPrefixes(hs, i, j);
    }
  }

  /** The hrefs grow strictly along the trail: each is a proper prefix of
      every later one, so no two crumbs share an href (the render key). */
  lemma HrefsPrefixOrdered(path: string)
    ensures forall i, j :: 0 <= i < j < |Crumbs(path)| ==>
      ProperPrefix(Crumbs(path)[i].href, Crumbs(path)[j].href)
    ensures forall i, j :: 0 <= i < j < |Crumbs(path)| ==> Crumbs(path)[i].href != Crumbs(path)[j].href
  {
    HrefsGrow(Segments(path));
  }

  /** When there is a segment, the last crumb's href (its render key) is the
      normalised pathname. */
  lemma LastHrefIsNormalised(path: string)
    ensures Segments(path) != [] ==> Crumbs(path)[|Crumbs(path)| - 1].href == Normalised(path)
  {
    var segs := Segments(path);
    if segs != [] {
      assert segs[..|segs|] == segs;
    }
  }

  /** The trail depends on the pathname only through its normalised form:
      repeated, leading and trailing slashes change nothing. */
  lemma CrumbsNormalise(path: string, a: string, b: string)
    ensures Crumbs(Normalised(path)) == Crumbs(path)
    ensures Crumbs(a + "//" + b) == Crumbs(a + "/" + b)
    ensures Crumbs("/" + a) == Crumbs(a)
    ensures Crumbs(a + "/") == Crumbs(a)
  {
    NormalisedIdempotent(path);
    SegmentsIgnoreRepeatedSlash(a, b);
    SegmentsIgnoreLeadingSlash(a);
    SegmentsIgnoreTrailingSlash(a);
  }

  /** `/a//b/` gives the same trail as `/a/b`. */
  lemma SlashExample()
    ensures Crumbs("/a//b/") == Crumbs("/a/b")
    ensures Segments("/a/b") == ["a", "b"]
  {
    assert "/a//b/" == "/a" + "//" + "b/";
    SegmentsIgnoreRepeatedSlash("/a", "b/");
    assert "/a" + "/" + "b/" == "/a/b" + "/";
    SegmentsIgnoreTrailingSlash("/a/b");
    SegmentsOfJoin(["a", "b"]);
    assert Join(["a", "b"]) == "a/b";
  }

  // ---------------------------------------------------------------------
  // Rendering
  // ---------------------------------------------------------------------

  /** What one crumb renders as. */
  datatype View =
    | HomeLink(href: string)              // the home icon linking to the root
    | Current(name: string)               // the last crumb, plain text
    | Link(name: string, href: string)    // any other crumb

  /** A rendered crumb: an optional chevron separator before its view. */
  datatype Item = Item(separator: bool, view: View)

  /** The rendering choice for the crumb at `index`. */
  function RenderAt(crumbs: seq<Crumb>, index: nat): Item
    requires index < |crumbs|
  {
    var isLast := index == |crumbs| - 1;
    Item(index > 0,
         if index == 0 then HomeLink(crumbs[index].href)
         else if isLast then Current(crumbs[index].name)
         else Link(crumbs[index].name, crumbs[index].href))
  }

  /** The rendered trail. */
  function Render(crumbs: seq<Crumb>): seq<Item>
  {
    seq(|crumbs|, i requires 0 <= i < |crumbs| => RenderAt(crumbs, i))
  }

  /** Rendering a pathname's trail: the home link comes first and has no
      separator, every later crumb has one; the last crumb after the root is
      plain text and is the only plain-text crumb; every other crumb is a
      link to its own href. The path `/` renders as the home link alone. */
  lemma RenderTrail(path: string)
    ensures |Render(Crumbs(path))| == |Segments(path)| + 1
    ensures Render(Crumbs(path))[0] == Item(false, HomeLink("/"))
    ensures forall i :: 0 <= i < |Render(Crumbs(path))| ==> (Render(Crumbs(path))[i].separator <==> i > 0)
    ensures forall i :: 0 <= i < |Render(Crumbs(path))| ==>
      (Render(Crumbs(path))[i].view.Current? <==> 0 < i == |Segments(path)|)
    ensures forall i :: 0 < i < |Segments(path)| ==>
      Render(Crumbs(path))[i].view == Link(Crumbs(path)[i].name, Crumbs(path)[i].href)
    ensures Segments(path) != [] ==>
      Render(Crumbs(path))[|Segments(path)|].view == Current(Capitalise(Segments(path)[|Segments(path)| - 1]))
  {
  }

  /** The root path renders as the home link alone. */
  lemma RenderRoot()
    ensures Render(Crumbs("/")) == [Item(false, HomeLink("/"))]
  {
    RootOnly("/");
  }
}
