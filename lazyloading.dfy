/** scripts/add-lazy-loading.js: adds `loading="lazy"` to every image tag of
    a collection page except the first two, which stay eager because they are
    above the fold.

    The script finds the tags with the regular expression
    `<img src="([^"]+)" alt="([^"]+)">`. Instead of a regular-expression
    engine, a page is modelled as the sequence of pieces that this search cuts
    it into: the tags it matches (`Img`, whose source and alt text are
    non-empty and free of double quotes, as `[^"]+` demands) and the text
    between them (`Text`). A tag the script has already rewritten is a
    `LazyImg`: its text does not match the expression (after the alt text's
    closing quote comes a space, not `>`), so it is carried over like text. */
module LazyLoading {

  /** A source or alt value the expression can capture. */
  type Attr = s: string | |s| > 0 && '"' !in s witness "x"

  datatype Segment =
    | Text(text: string)
    | Img(src: Attr, alt: Attr)
    | LazyImg(src: Attr, alt: Attr)

  type Doc = seq<Segment>

  /** The number of images that load eagerly. */
  const EagerImages := 2

  /** The HTML of one piece of a page. */
  function Html(s: Segment): string
  {
    match s
    case Text(t) => t
    case Img(src, alt) => "<img src=\"" + src + "\" alt=\"" + alt + "\">"
    case LazyImg(src, alt) => "<img src=\"" + src + "\" alt=\"" + alt + "\" loading=\"lazy\">"
  }

  /** A rewritten tag is the matched tag with ` loading="lazy"` put before
      its closing `>`, its source and alt text unchanged. */
  lemma LazyTagExtendsTag(src: Attr, alt: Attr)
    ensures var tag := Html(Img(src, alt));
      Html(LazyImg(src, alt)) == tag[..|tag| - 1] + " loading=\"lazy\">"
  {
  }

  /** How many tags of the page the expression matches. */
  function ImgCount(d: Doc): (r: nat)
    ensures r <= |d|
  {
    if d == [] then 0 else (if d[0].Img? then 1 else 0) + ImgCount(d[1..])
  }

  /** How many already-lazy tags the page holds. */
  function LazyCount(d: Doc): nat
  {
    if d == [] then 0 else (if d[0].LazyImg? then 1 else 0) + LazyCount(d[1..])
  }

  lemma {:induction false} ImgCountAppend(a: Doc, b: Doc)
    ensures ImgCount(a + b) == ImgCount(a) + ImgCount(b)
  {
    if a == [] {
      assert a + b == b;
    } else {
      assert (a + b)[1..] == a[1..] + b;
      ImgCountAppend(a[1..], b);
    }
  }

  /** The value of `imageCount` after the callback has seen `s`. */
  function Counted(s: Segment, seen: nat): nat
  {
    if s.Img? then seen + 1 else seen
  }

  /** What the replacement callback returns for `s` when `imageCount` was
      `seen` before it: the tag unchanged while the counter is at most 2,
      the lazy tag after that; text is not the callback's business. */
  function Replaced(s: Segment, seen: nat): Segment
  {
    if s.Img? && Counted(s, seen) > EagerImages then LazyImg(s.src, s.alt) else s
  }

  /** The replacement applied left to right, `seen` being the value of
      `imageCount` before the first piece of `d`. */
  function Lazified(d: Doc, seen: nat): (r: Doc)
    ensures |r| == |d|
  {
    if d == [] then [] else [Replaced(d[0], seen)] + Lazified(d[1..], Counted(d[0], seen))
  }

  /** `addLazyLoading` on the content of one file: the counter starts at 0. */
  function LazyRewrite(d: Doc): (r: Doc)
    ensures |r| == |d|
  {
    Lazified(d, 0)
  }

  /** What the rewrite puts at position `k`: text and already-lazy tags are
      copied; a matched tag with fewer than two matched tags before it is
      kept as it was; every later one becomes lazy, with its source and alt
      text kept. */
  function Expected(d: Doc, k: nat): Segment
    requires k < |d|
  {
    if d[k].Img? && ImgCount(d[..k]) >= EagerImages then LazyImg(d[k].src, d[k].alt) else d[k]
  }

  lemma {:induction false} LazifiedAt(d: Doc, seen: nat, k: nat)
    requires k < |d|
    ensures Lazified(d, seen)[k]
      == if d[k].Img? && seen + ImgCount(d[..k]) >= EagerImages then LazyImg(d[k].src, d[k].alt) else d[k]
  {
    if k > 0 {
      LazifiedAt(d[1..], Counted(d[0], seen), k - 1);
      assert d[..k] == [d[0]] + d[1..][..k - 1];
      ImgCountAppend([d[0]], d[1..][..k - 1]);
    }
  }

  /** The rewrite, position by position. */
  lemma LazyRewriteAt(d: Doc, k: nat)
    requires k < |d|
    ensures LazyRewrite(d)[k] == Expected(d, k)
  {
    LazifiedAt(d, 0, k);
  }

  /** The first two matched tags of a page are left exactly as they were. */
  lemma FirstTwoStayEager(d: Doc, k: nat)
    requires k < |d| && d[k].Img? && ImgCount(d[..k]) < EagerImages
    ensures LazyRewrite(d)[k] == d[k] && Html(LazyRewrite(d)[k]) == Html(d[k])
  {
    LazyRewriteAt(d, k);
  }

  /** With no more than two matched tags still allowed, nothing changes. */
  lemma {:induction false} LazifiedFew(d: Doc, seen: nat)
    requires seen + ImgCount(d) <= EagerImages
    ensures Lazified(d, seen) == d
  {
    if d != [] {
      LazifiedFew(d[1..], Counted(d[0], seen));
    }
  }

  /** The number of rewritten tags when `count` of them matched:
      `max(0, count - 2)`. */
  function LazyTotal(count: nat): (r: nat)
    ensures count <= EagerImages ==> r == 0
    ensures count >= EagerImages ==> r + EagerImages == count
  {
    if count <= EagerImages then 0 else count - EagerImages
  }

  lemma {:induction false} LazifiedCounts(d: Doc, seen: nat)
    ensures var r := Lazified(d, seen);
      var eager := if seen >= EagerImages then 0 else EagerImages - seen;
      ImgCount(r) == (if ImgCount(d) <= eager then ImgCount(d) else eager)
      && LazyCount(r) == LazyCount(d) + ImgCount(d) - ImgCount(r)
  {
    if d != [] {
      LazifiedCounts(d[1..], Counted(d[0], seen));
      var r := Lazified(d, seen);
      assert r[1..] == Lazified(d[1..], Counted(d[0], seen));
    }
  }

  /** After the rewrite at most two tags still match, and exactly
      `max(0, count - 2)` new lazy tags have appeared. */
  lemma RewriteCounts(d: Doc)
    ensures ImgCount(LazyRewrite(d)) == ImgCount(d) - LazyTotal(ImgCount(d)) <= EagerImages
    ensures LazyCount(LazyRewrite(d)) == LazyCount(d) + LazyTotal(ImgCount(d))
  {
    LazifiedCounts(d, 0);
  }

  /** Running the script again on its own output changes nothing: the two
      tags still matching stay eager and the lazy ones no longer match. */
  lemma RewriteIdempotent(d: Doc)
    ensures LazyRewrite(LazyRewrite(d)) == LazyRewrite(d)
  {
    RewriteCounts(d);
    LazifiedFew(LazyRewrite(d), 0);
  }

  /** The number of lazy images the log line reports, as the script writes
      it: `imageCount - 2`, which is negative for a page with fewer than two
      images. */
  function LoggedLazyCount(imageCount: nat): (r: int)
    ensures r < 0 <==> imageCount < EagerImages
  {
    imageCount - EagerImages
  }

  /** A page with a single image: the log reports -1 lazy images, while the
      rewrite makes none lazy (and `LazyTotal` says 0). */
  lemma LoggedLazyCountNegative()
    ensures var d := [Text("<h1>Dunes</h1>"), Img("dunes.jpg", "Dunes")];
      LoggedLazyCount(ImgCount(d)) == -1
      && LazyCount(LazyRewrite(d)) == LazyCount(d) + LazyTotal(ImgCount(d)) == 0
  {
  }

  /** `addLazyLoading` without the file access: `content` is rewritten by a
      left-to-right scan whose counter starts at 0. Returns the new content,
      `imageCount` and the number of tags made lazy. */
  method AddLazyLoading(content: Doc) returns (out: Doc, imageCount: nat, lazyCount: nat)
    ensures out == LazyRewrite(content)
    ensures imageCount == ImgCount(content)
    ensures lazyCount == LazyTotal(imageCount)
    ensures LazyCount(out) == LazyCount(content) + lazyCount
  {
    out := [];
    imageCount := 0;
    var i := 0;
    while i < |content|
      invariant 0 <= i <= |content|
      invariant imageCount == ImgCount(content[..i])
      invariant out + Lazified(content[i..], imageCount) == LazyRewrite(content)
    {
      var piece := content[i];
      ghost var before := imageCount;
      var replacement := piece;
      if piece.Img? {
        imageCount := imageCount + 1;
        if imageCount > EagerImages {
          replacement := LazyImg(piece.src, piece.alt);
        }
      }
      assert replacement == Replaced(piece, before) && imageCount == Counted(piece, before);
      CountStep(content, i);
      LazifiedStep(out, content, i, before);
      out := out + [replacement];
      i := i + 1;
    }
    assert content[..i] == content;
    lazyCount := if imageCount <= EagerImages then 0 else imageCount - EagerImages;
    RewriteCounts(content);
  }

  lemma CountStep(d: Doc, i: nat)
    requires i < |d|
    ensures ImgCount(d[..i + 1]) == Counted(d[i], ImgCount(d[..i]))
  {
    assert d[..i + 1] == d[..i] + [d[i]];
    ImgCountAppend(d[..i], [d[i]]);
  }

  lemma LazifiedStep(out: Doc, d: Doc, i: nat, seen: nat)
    requires i < |d|
    ensures out + Lazified(d[i..], seen) == (out + [Replaced(d[i], seen)]) + Lazified(d[i + 1..], Counted(d[i], seen))
  {
  }

  /** The only file name the directory walk rewrites. */
  const IndexFile := "index.html"

  /** A directory tree under `collections`, each directory's entries in the
      order `readdirSync` lists them. */
  datatype Entry = File(name: string, content: Doc) | Dir(name: string, entries: seq<Entry>)

  /** What the walk does to one file: `index.html` is rewritten on its own,
      every other file is left alone. */
  function RewriteFile(f: (string, Doc)): (string, Doc)
  {
    (f.0, if f.0 == IndexFile then LazyRewrite(f.1) else f.1)
  }

  function RewriteFiles(fs: seq<(string, Doc)>): (r: seq<(string, Doc)>)
    ensures |r| == |fs|
    ensures forall k :: 0 <= k < |fs| ==> r[k] == RewriteFile(fs[k])
  {
    if fs == [] then [] else [RewriteFile(fs[0])] + RewriteFiles(fs[1..])
  }

  /** The files of a tree, in the order the walk visits them. */
  function FilesOf(e: Entry): seq<(string, Doc)>
    decreases e, 1
  {
    match e
    case File(n, c) => [(n, c)]
    case Dir(_, es) => FilesOfAll(es)
  }

  function FilesOfAll(es: seq<Entry>): seq<(string, Doc)>
    decreases es, 0
  {
    if es == [] then [] else FilesOf(es[0]) + FilesOfAll(es[1..])
  }

  /** `processDirectory` as a function of the tree. */
  function Processed(e: Entry): Entry
    decreases e, 1
  {
    match e
    case File(n, c) => if n == IndexFile then File(n, LazyRewrite(c)) else e
    case Dir(n, es) => Dir(n, ProcessedAll(es))
  }

  function ProcessedAll(es: seq<Entry>): (r: seq<Entry>)
    decreases es, 0
    ensures |r| == |es|
  {
    if es == [] then [] else [Processed(es[0])] + ProcessedAll(es[1..])
  }

  lemma RewriteFilesAppend(a: seq<(string, Doc)>, b: seq<(string, Doc)>)
    ensures RewriteFiles(a + b) == RewriteFiles(a) + RewriteFiles(b)
  {
  }

  /** Every file after the walk is what rewriting that file on its own gives:
      in particular the image counter restarts at 0 for every `index.html`,
      so the first two images of each page stay eager. Nothing is added,
      removed or reordered. */
  lemma {:induction false} WalkRewritesEachFile(e: Entry)
    ensures FilesOf(Processed(e)) == RewriteFiles(FilesOf(e))
    decreases e, 1
  {
    match e
    case File(n, c) =>
    case Dir(_, es) => WalkRewritesEachFileAll(es);
  }

  lemma {:induction false} WalkRewritesEachFileAll(es: seq<Entry>)
    ensures FilesOfAll(ProcessedAll(es)) == RewriteFiles(FilesOfAll(es))
    decreases es, 0
  {
    if es != [] {
      WalkRewritesEachFile(es[0]);
      WalkRewritesEachFileAll(es[1..]);
      RewriteFilesAppend(FilesOf(es[0]), FilesOfAll(es[1..]));
      assert ProcessedAll(es)[0] == Processed(es[0]);
      assert ProcessedAll(es)[1..] == ProcessedAll(es[1..]);
    }
  }

  /** `processDirectory(dir)`: walks the entries of one directory in order,
      descending into sub-directories and rewriting every `index.html`. */
  method ProcessDirectory(entries: seq<Entry>) returns (out: seq<Entry>)
    ensures out == ProcessedAll(entries)
    decreases entries
  {
    out := [];
    var i := 0;
    while i < |entries|
      invariant 0 <= i <= |entries|
      invariant out + ProcessedAll(entries[i..]) == ProcessedAll(entries)
    {
      var item := entries[i];
      var done: Entry;
      match item {
        case Dir(n, es) =>
          var sub := ProcessDirectory(es);
          done := Dir(n, sub);
        case File(n, c) =>
          if n == IndexFile {
            var content, _, _ := AddLazyLoading(c);
            done := File(n, content);
          } else {
            done := item;
          }
      }
      assert done == Processed(item);
      ProcessedAllStep(out, entries, i);
      out := out + [done];
      i := i + 1;
    }
  }

  lemma ProcessedAllStep(out: seq<Entry>, es: seq<Entry>, i: nat)
    requires i < |es|
    ensures out + ProcessedAll(es[i..]) == (out + [Processed(es[i])]) + ProcessedAll(es[i + 1..])
  {
    assert es[i..][1..] == es[i + 1..];
  }
}
