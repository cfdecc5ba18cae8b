/** scripts/update-descriptions.js: for every collection folder holding both
    a `Description.txt` and an `index.html`, puts the trimmed description
    into the page's `collection-intro` paragraph.

    The script replaces the first match of the regular expression
    `<p class="collection-intro">\s*[\s\S]*?\s*<\/p>` (no `g` flag). Its
    match starts at the first opening tag `<p class="collection-intro">` and,
    because the middle part is lazy and whitespace never contains a `<`, ends
    with the first `</p>` that begins after that tag; when the first opening
    tag has no `</p>` after it, no later one has either and nothing matches.
    The model finds the two positions with a plain left-to-right search. */
module Descriptions {
  import opened Wrappers

  /** The characters `String.prototype.trim` removes: ECMAScript's WhiteSpace
      (tab, vertical tab, form feed, space, no-break space, the byte order
      mark and the other space separators of Unicode) and LineTerminator
      (line feed, carriage return, line and paragraph separators). */
  predicate IsJsSpace(c: char)
  {
    c == '\t' || c == '\n' || c == '\U{000B}' || c == '\U{000C}' || c == '\r' || c == ' '
    || c == '\U{00A0}' || c == '\U{1680}' || ('\U{2000}' <= c <= '\U{200A}')
    || c == '\U{2028}' || c == '\U{2029}' || c == '\U{202F}' || c == '\U{205F}'
    || c == '\U{3000}' || c == '\U{FEFF}'
  }

  /** The length of the run of spaces that starts `s`. */
  function LeadingSpaces(s: string): (n: nat)
    ensures n <= |s|
    ensures forall k :: 0 <= k < n ==> IsJsSpace(s[k])
    ensures n < |s| ==> !IsJsSpace(s[n])
  {
    if s == [] || !IsJsSpace(s[0]) then 0 else 1 + LeadingSpaces(s[1..])
  }

  /** The length of the run of spaces that ends `s`. */
  function TrailingSpaces(s: string): (n: nat)
    ensures n <= |s|
    ensures forall k :: |s| - n <= k < |s| ==> IsJsSpace(s[k])
    ensures n < |s| ==> !IsJsSpace(s[|s| - 1 - n])
  {
    if s == [] || !IsJsSpace(s[|s| - 1]) then 0 else 1 + TrailingSpaces(s[..|s| - 1])
  }

  /** `String.prototype.trim`: the part of `s` left once the leading and the
      trailing spaces are cut off; it neither starts nor ends with a space,
      and everything cut off is space. */
  function Trim(s: string): (r: string)
    ensures LeadingSpaces(s) + |r| <= |s|
    ensures r == s[LeadingSpaces(s)..LeadingSpaces(s) + |r|]
    ensures forall k :: LeadingSpaces(s) + |r| <= k < |s| ==> IsJsSpace(s[k])
    ensures r != [] ==> !IsJsSpace(r[0]) && !IsJsSpace(r[|r| - 1])
  {
    var t := s[LeadingSpaces(s)..];
    t[..|t| - TrailingSpaces(t)]
  }

  /** Trimming twice is trimming once. */
  lemma TrimIdempotent(s: string)
    ensures Trim(Trim(s)) == Trim(s)
  {
  }

  /** Trimming adds no character. */
  lemma TrimAddsNothing(s: string, c: char)
    requires c in Trim(s)
    ensures c in s
  {
  }

  predicate OccursAt(s: string, pat: string, k: nat)
  {
    k + |pat| <= |s| && s[k..k + |pat|] == pat
  }

  /** The first position at or after `from` where `pat` occurs in `s`. */
  function FindFrom(s: string, pat: string, from: nat): (r: Option<nat>)
    decreases |s| - from
    ensures r.Some? ==> from <= r.value && OccursAt(s, pat, r.value)
    ensures r.Some? ==> forall k :: from <= k < r.value ==> !OccursAt(s, pat, k)
    ensures r.None? ==> forall k :: from <= k ==> !OccursAt(s, pat, k)
  {
    if from + |pat| > |s| then None
    else if OccursAt(s, pat, from) then Some(from)
    else FindFrom(s, pat, from + 1)
  }

  /** The first occurrence at or after `from` is the one the search finds. */
  lemma FindFromFirst(s: string, pat: string, from: nat, k: nat)
    requires from <= k && OccursAt(s, pat, k)
    requires forall j :: from <= j < k ==> !OccursAt(s, pat, j)
    ensures FindFrom(s, pat, from) == Some(k)
  {
  }

  const IntroOpen := "<p class=\"collection-intro\">"
  const ParagraphClose := "</p>"

  /** The span `[start, end)` of `html` the regular expression matches: from
      the first `collection-intro` opening tag up to and including the first
      `</p>` after it. `None` when no opening tag is followed by a `</p>`. */
  function IntroMatch(html: string): (m: Option<(nat, nat)>)
    ensures m.Some? ==>
      var (i, e) := m.value;
      OccursAt(html, IntroOpen, i) && (forall k :: 0 <= k < i ==> !OccursAt(html, IntroOpen, k))
      && i + |IntroOpen| + |ParagraphClose| <= e <= |html|
      && OccursAt(html, ParagraphClose, e - |ParagraphClose|)
      && (forall k :: i + |IntroOpen| <= k < e - |ParagraphClose| ==> !OccursAt(html, ParagraphClose, k))
    ensures m.None? ==>
      forall i: nat, j: nat :: OccursAt(html, IntroOpen, i) && i + |IntroOpen| <= j ==> !OccursAt(html, ParagraphClose, j)
  {
    match FindFrom(html, IntroOpen, 0)
    case None => None
    case Some(i) =>
      match FindFrom(html, ParagraphClose, i + |IntroOpen|)
      case None => None
      case Some(j) => Some((i, j + |ParagraphClose|))
  }

  /** The 16 spaces before the description and the 12 before `</p>`. */
  const TextIndent := "                "
  const CloseIndent := "            "

  /** What the template puts between the opening tag and the description,
      and after the description. */
  const Lead := "\n" + TextIndent
  const Tail := "\n" + CloseIndent + ParagraphClose

  /** The template after its opening tag. */
  function Body(text: string): string
  {
    Lead + text + Tail
  }

  /** The replacement text for a (trimmed) description. */
  function IntroParagraph(text: string): string
  {
    IntroOpen + Body(text)
  }

  /** The template, written out: the opening tag, a newline, 16 spaces, the
      description, a newline, 12 spaces and `</p>`. */
  lemma TemplateShape(text: string)
    ensures |TextIndent| == 16 && |CloseIndent| == 12
    ensures IntroParagraph(text) == IntroOpen + "\n" + TextIndent + text + "\n" + CloseIndent + ParagraphClose
  {
  }

  lemma TemplateParts(text: string)
    ensures IntroParagraph(text)[..|IntroOpen|] == IntroOpen
    ensures IntroParagraph(text)[|IntroOpen|..] == Body(text)
  {
  }

  /** No `<` in the lead, none in the tail before its `</p>`. */
  lemma LeadTailFacts()
    ensures |Lead| == 17 && |Tail| == 17 && Tail[0] == '\n'
    ensures forall j :: 0 <= j < |Lead| ==> Lead[j] != '<'
    ensures forall j :: 0 <= j < |Tail| - |ParagraphClose| ==> Tail[j] != '<'
    ensures Tail[|Tail| - |ParagraphClose|..] == ParagraphClose
  {
  }

  /** `html.replace(regex, template)` for a `text` without `$` (a `$` would
      start a substitution pattern of `String.prototype.replace`): when the
      expression matches, the page before the opening tag and after the
      closing `</p>` is kept and the paragraph between is the template;
      otherwise the page is returned as it was. */
  function ReplaceIntro(html: string, text: string): (r: string)
    requires '$' !in text
    ensures IntroMatch(html).None? ==> r == html
    ensures IntroMatch(html).Some? ==>
      var (i, e) := IntroMatch(html).value;
      var p := IntroParagraph(text);
      |r| == i + |p| + (|html| - e)
      && r[..i] == html[..i] && r[i..i + |p|] == p && r[i + |p|..] == html[e..]
  {
    match IntroMatch(html)
    case None => html
    case Some((i, e)) => html[..i] + IntroParagraph(text) + html[e..]
  }

  /** `</p>` does not occur in the template after the opening tag except at
      its very end, when the description itself does not contain it. */
  lemma NoCloseInsideTemplate(text: string, q: nat)
    requires FindFrom(text, ParagraphClose, 0).None?
    requires q + |ParagraphClose| < |Body(text)|
    ensures !OccursAt(Body(text), ParagraphClose, q)
  {
    LeadTailFacts();
    var b := Body(text);
    var t1 := |Lead| + |text|;
    var w := b[q..q + |ParagraphClose|];
    if q < |Lead| {
      assert w[0] == b[q] == Lead[q];
    } else if q + |ParagraphClose| <= t1 {
      assert w == text[q - |Lead|..q - |Lead| + |ParagraphClose|];
      assert !OccursAt(text, ParagraphClose, q - |Lead|);
    } else if q < t1 {
      assert w[t1 - q] == b[t1] == Tail[0];
    } else {
      assert w[0] == b[q] == Tail[q - t1];
    }
  }

  /** Where `w` sits at `start` in `r`, `pat` occurs in `r` at `start + q`
      exactly when it occurs in `w` at `q`. */
  lemma OccursWithin(r: string, w: string, start: nat, pat: string, q: nat)
    requires start + |w| <= |r| && r[start..start + |w|] == w && q + |pat| <= |w|
    ensures OccursAt(r, pat, start + q) == OccursAt(w, pat, q)
  {
    var a, b := r[start + q..start + q + |pat|], w[q..q + |pat|];
    forall j | 0 <= j < |pat|
      ensures a[j] == b[j]
    {
      assert r[start + q + j] == r[start..start + |w|][q + j];
    }
    assert a == b;
  }

  /** The part of a slice from `c` on is a slice too. */
  lemma SliceTail(r: string, w: string, start: nat, c: nat)
    requires start + |w| <= |r| && r[start..start + |w|] == w && c <= |w|
    ensures r[start + c..start + |w|] == w[c..]
  {
  }

  /** Where the template sits at `i` in `r`, its body sits right after its
      opening tag. */
  lemma BodyAfterOpen(r: string, i: nat, text: string)
    requires i + |IntroParagraph(text)| <= |r| && r[i..i + |IntroParagraph(text)|] == IntroParagraph(text)
    ensures |IntroParagraph(text)| == |IntroOpen| + |Body(text)|
    ensures r[i + |IntroOpen|..i + |IntroOpen| + |Body(text)|] == Body(text)
  {
    TemplateParts(text);
    SliceTail(r, IntroParagraph(text), i, |IntroOpen|);
  }

  /** The body ends with the closing tag. */
  lemma BodyEndsWithClose(text: string)
    ensures |Body(text)| >= |ParagraphClose| && OccursAt(Body(text), ParagraphClose, |Body(text)| - |ParagraphClose|)
  {
    LeadTailFacts();
    var b := Body(text);
    assert b[|b| - |ParagraphClose|..] == Tail[|Tail| - |ParagraphClose|..];
  }

  /** Where `w` sits at `start` in `r` and `pat` occurs in `w` only at its
      end, the first `pat` from `start` on is that one. */
  lemma FirstAtEnd(r: string, start: nat, w: string, pat: string)
    requires start + |w| <= |r| && r[start..start + |w|] == w && |pat| <= |w|
    requires OccursAt(w, pat, |w| - |pat|)
    requires forall q: nat :: q + |pat| < |w| ==> !OccursAt(w, pat, q)
    ensures FindFrom(r, pat, start) == Some(start + |w| - |pat|)
  {
    OccursWithin(r, w, start, pat, |w| - |pat|);
    forall k | start <= k < start + |w| - |pat|
      ensures !OccursAt(r, pat, k)
    {
      OccursWithin(r, w, start, pat, k - start);
    }
    FindFromFirst(r, pat, start, start + |w| - |pat|);
  }

  /** Where the body sits at `start` in `r`, `</p>` occurs at its end and
      nowhere before in it. */
  lemma CloseInBody(r: string, start: nat, text: string)
    requires FindFrom(text, ParagraphClose, 0).None?
    requires start + |Body(text)| <= |r| && r[start..start + |Body(text)|] == Body(text)
    ensures FindFrom(r, ParagraphClose, start) == Some(start + |Body(text)| - |ParagraphClose|)
  {
    var b := Body(text);
    BodyEndsWithClose(text);
    forall q: nat | q + |ParagraphClose| < |b|
      ensures !OccursAt(b, ParagraphClose, q)
    {
      NoCloseInsideTemplate(text, q);
    }
    FirstAtEnd(r, start, b, ParagraphClose);
  }

  /** Where the template sits at `i` in `r`, the first `</p>` after its
      opening tag is the template's own. */
  lemma CloseOnlyAtEnd(r: string, i: nat, text: string)
    requires FindFrom(text, ParagraphClose, 0).None?
    requires i + |IntroParagraph(text)| <= |r| && r[i..i + |IntroParagraph(text)|] == IntroParagraph(text)
    ensures FindFrom(r, ParagraphClose, i + |IntroOpen|) == Some(i + |IntroParagraph(text)| - |ParagraphClose|)
  {
    BodyAfterOpen(r, i, text);
    CloseInBody(r, i + |IntroOpen|, text);
  }

  /** A page that agrees with `html` up to `html`'s first opening tag and has
      the template there has its first opening tag at the same place. */
  lemma OpenStaysFirst(r: string, html: string, i: nat, text: string)
    requires OccursAt(html, IntroOpen, i) && forall k :: 0 <= k < i ==> !OccursAt(html, IntroOpen, k)
    requires i + |IntroParagraph(text)| <= |r| && r[..i] == html[..i]
    requires r[i..i + |IntroParagraph(text)|] == IntroParagraph(text)
    ensures FindFrom(r, IntroOpen, 0) == Some(i)
  {
    TemplateParts(text);
    OccursWithin(r, IntroParagraph(text), i, IntroOpen, 0);
    forall k: nat | k < i
      ensures !OccursAt(r, IntroOpen, k)
    {
      PrefixSameOccurrence(r, html, i, k);
    }
    FindFromFirst(r, IntroOpen, 0, i);
  }

  /** A page that agrees with `html` before `html`'s first opening tag and
      has the template from there on is matched exactly on the template. */
  lemma MatchOfTemplateAt(r: string, html: string, i: nat, text: string)
    requires FindFrom(text, ParagraphClose, 0).None?
    requires OccursAt(html, IntroOpen, i) && forall k :: 0 <= k < i ==> !OccursAt(html, IntroOpen, k)
    requires i + |IntroParagraph(text)| <= |r| && r[..i] == html[..i]
    requires r[i..i + |IntroParagraph(text)|] == IntroParagraph(text)
    ensures IntroMatch(r) == Some((i, i + |IntroParagraph(text)|))
  {
    OpenStaysFirst(r, html, i, text);
    CloseOnlyAtEnd(r, i, text);
    MatchFromSearches(r, i, i + |IntroParagraph(text)| - |ParagraphClose|);
  }

  /** The match is made of the two searches. */
  lemma MatchFromSearches(html: string, i: nat, c: nat)
    requires FindFrom(html, IntroOpen, 0) == Some(i)
    requires FindFrom(html, ParagraphClose, i + |IntroOpen|) == Some(c)
    ensures IntroMatch(html) == Some((i, c + |ParagraphClose|))
  {
  }

  /** Before `i`, a page with the template at `i` has the same opening tags
      as a page with an opening tag at `i`. */
  lemma PrefixSameOccurrence(r: string, html: string, i: nat, k: nat)
    requires OccursAt(html, IntroOpen, i) && OccursAt(r, IntroOpen, i)
    requires i <= |r| && r[..i] == html[..i] && k < i
    ensures OccursAt(r, IntroOpen, k) == OccursAt(html, IntroOpen, k)
  {
    var o := |IntroOpen|;
    var a, b := r[k..k + o], html[k..k + o];
    forall j | 0 <= j < o
      ensures a[j] == b[j]
    {
      if k + j < i {
        assert r[k + j] == r[..i][k + j];
        assert html[k + j] == html[..i][k + j];
      } else {
        assert r[k + j] == r[i..i + o][k + j - i];
        assert html[k + j] == html[i..i + o][k + j - i];
      }
    }
    assert a == b;
  }

  /** On the page the replacement produced, the expression matches exactly
      the new paragraph, when the description contains no `</p>`. */
  lemma IntroMatchOfReplaced(html: string, text: string, i: nat, e: nat)
    requires '$' !in text && FindFrom(text, ParagraphClose, 0).None?
    requires IntroMatch(html) == Some((i, e))
    ensures IntroMatch(ReplaceIntro(html, text)) == Some((i, i + |IntroParagraph(text)|))
  {
    var p := IntroParagraph(text);
    var r := html[..i] + p + html[e..];
    assert ReplaceIntro(html, text) == r;
    assert r[..i] == html[..i];
    assert r[i..i + |p|] == p;
    MatchOfTemplateAt(r, html, i, text);
  }

  /** Running the script twice with the same description gives what running
      it once gives, as long as the description contains no `</p>` (the
      second run would otherwise stop at the description's own `</p>`). */
  lemma ReplaceIntroIdempotent(html: string, text: string)
    requires '$' !in text && FindFrom(text, ParagraphClose, 0).None?
    ensures ReplaceIntro(ReplaceIntro(html, text), text) == ReplaceIntro(html, text)
  {
    match IntroMatch(html)
    case None =>
    case Some((i, e)) =>
      IntroMatchOfReplaced(html, text, i, e);
      var p := IntroParagraph(text);
      var r := html[..i] + p + html[e..];
      assert ReplaceIntro(html, text) == r;
      assert r[..i] == html[..i] && r[i + |p|..] == html[e..];
      assert r == r[..i] + p + r[i + |p|..];
  }

  /** A collection folder: its name and the contents of its two files, if
      they exist. */
  datatype Folder = Folder(name: string, description: Option<string>, index: Option<string>)

  /** The line the script logs for a folder. */
  datatype Outcome = Skipped | Updated

  predicate DollarFree(f: Folder)
  {
    f.description.Some? ==> '$' !in f.description.value
  }

  /** One iteration of the `forEach`: a folder missing either file is left
      untouched; otherwise its `index.html` gets the trimmed description. */
  function UpdatedFolder(f: Folder): (g: Folder)
    requires DollarFree(f)
    ensures g.name == f.name && g.description == f.description
    ensures f.description.None? || f.index.None? ==> g == f
    ensures f.description.Some? && f.index.Some? ==>
      g.index == Some(ReplaceIntro(f.index.value, Trim(f.description.value)))
  {
    if f.description.None? || f.index.None? then f
    else
      assert '$' !in Trim(f.description.value) by {
        if '$' in Trim(f.description.value) {
          TrimAddsNothing(f.description.value, '$');
        }
      }
      f.(index := Some(ReplaceIntro(f.index.value, Trim(f.description.value))))
  }

  /** The whole script over the folders `readdirSync` lists, in order,
      returning the new folders and one log outcome per folder. */
  method UpdateDescriptions(folders: seq<Folder>) returns (out: seq<Folder>, log: seq<Outcome>)
    requires forall k :: 0 <= k < |folders| ==> DollarFree(folders[k])
    ensures |out| == |folders| && |log| == |folders|
    ensures forall k :: 0 <= k < |folders| ==> out[k] == UpdatedFolder(folders[k])
    ensures forall k :: 0 <= k < |folders| ==>
      (log[k] == Skipped <==> folders[k].description.None? || folders[k].index.None?)
  {
    out, log := [], [];
    var i := 0;
    while i < |folders|
      invariant 0 <= i <= |folders|
      invariant |out| == i && |log| == i
      invariant forall k :: 0 <= k < i ==> out[k] == UpdatedFolder(folders[k])
      invariant forall k :: 0 <= k < i ==>
        (log[k] == Skipped <==> folders[k].description.None? || folders[k].index.None?)
    {
      var folder := folders[i];
      if folder.description.None? || folder.index.None? {
        out, log := out + [folder], log + [Skipped];
      } else {
        var description := Trim(folder.description.value);
        var html := folder.index.value;
        assert '$' !in description by {
          if '$' in description {
            TrimAddsNothing(folder.description.value, '$');
          }
        }
        html := ReplaceIntro(html, description);
        out, log := out + [folder.(index := Some(html))], log + [Updated];
      }
      i := i + 1;
    }
  }
}
