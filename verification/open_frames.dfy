/** The Open Frames shim: a response whose content type mentions `html` has
    its `<meta …/>` tags collected, rewritten from the Farcaster keys to the
    Open Frames keys, extended by the three `of:accepts:*` tags, and the
    whole block inserted right after the page's first `<head>`. */
module OpenFrames {
  import opened Wrappers
  import opened Text
  import opened Decimal
  import opened FrameRewrite
  import opened RewriteLaws

  // ---------------------------------------------------------------------------
  // Collecting the meta tags: `[...html.matchAll(/<meta.*?\/>/gs)]`

  const MetaOpen: string := "<meta"
  const SelfClose: string := "/>"

  /** A match of `<meta.*?\/>`: it opens with `<meta`, closes with `/>`, and
      that `/>` is the first one after the opening (the `?` makes the match
      as short as possible; `s` lets `.` match line breaks). */
  predicate IsMetaTag(t: string) {
    && |t| >= 7
    && StartsWith(t, MetaOpen)
    && t[|t| - 2..] == SelfClose
    && forall j :: 5 <= j < |t| - 2 ==> !StartsWith(t[j..], SelfClose)
  }

  /** A page cut into the stretches between matches and the matches. */
  datatype Piece = Gap(text: string) | Tag(text: string)

  function Flatten(ps: seq<Piece>): string {
    if |ps| == 0 then [] else ps[0].text + Flatten(ps[1..])
  }

  /** A pattern seen through a window: inside the window, an occurrence at
      `j` does not depend on what follows the window. */
  lemma WindowStartsWith(s: string, a: nat, b: nat, j: nat, p: string)
    requires a + j + |p| <= b <= |s|
    ensures StartsWith(s[a..b][j..], p) <==> StartsWith(s[a + j..], p)
  {
    assert s[a..b][j..][..|p|] == s[a + j..][..|p|];
  }

  /** The text from the leftmost `<meta` up to the first `/>` after it is
      one match. */
  lemma ScannedTagIsMetaTag(s: string, k: nat, e: nat)
    requires k + 5 <= e && e + 2 <= |s|
    requires StartsWith(s[k..], MetaOpen) && StartsWith(s[e..], SelfClose)
    requires forall j :: k + 5 <= j < e ==> !StartsWith(s[j..], SelfClose)
    ensures IsMetaTag(s[k..e + 2])
  {
    var t := s[k..e + 2];
    assert t[..5] == s[k..][..5];
    assert t[|t| - 2..] == s[e..][..2];
    forall j | 5 <= j < |t| - 2
      ensures !StartsWith(t[j..], SelfClose)
    {
      WindowStartsWith(s, k, e + 2, j, SelfClose);
    }
  }

  /** The global scan: the leftmost `<meta` with a `/>` after it starts the
      next match, which ends at the first such `/>`; scanning resumes after
      the match. Cutting never loses or adds text. */
  function Scan(s: string): (r: seq<Piece>)
    ensures Flatten(r) == s
    ensures forall i :: 0 <= i < |r| && r[i].Tag? ==> IsMetaTag(r[i].text)
    decreases |s|
  {
    match IndexOf(s, MetaOpen, 0)
    case None => [Gap(s)]
    case Some(k) =>
      match IndexOf(s, SelfClose, k + 5)
      case None => [Gap(s)]
      case Some(e) =>
        ScannedTagIsMetaTag(s, k, e);
        var rest := Scan(s[e + 2..]);
        FlattenStep(s, k, e + 2, rest);
        [Gap(s[..k]), Tag(s[k..e + 2])] + rest
  }

  lemma FlattenStep(s: string, k: nat, e: nat, rest: seq<Piece>)
    requires k <= e <= |s| && Flatten(rest) == s[e..]
    ensures Flatten([Gap(s[..k]), Tag(s[k..e])] + rest) == s
  {
    var ps := [Gap(s[..k]), Tag(s[k..e])] + rest;
    assert ps[1..] == [Tag(s[k..e])] + rest;
    assert ps[1..][1..] == rest;
    assert s == s[..k] + (s[k..e] + s[e..]);
  }

  /** The texts of the matches, in order. */
  function TagTexts(ps: seq<Piece>): (r: seq<string>)
    ensures |r| <= |ps|
    ensures forall t :: t in r ==> Tag(t) in ps
  {
    if |ps| == 0 then []
    else if ps[0].Tag? then [ps[0].text] + TagTexts(ps[1..])
    else TagTexts(ps[1..])
  }

  /** `matches.map((match) => match[0])`: every element is one match. */
  function MetaTags(html: string): (r: seq<string>)
    ensures forall t :: t in r ==> IsMetaTag(t)
    ensures !Contains(html, MetaOpen) ==> r == []
  {
    var ps := Scan(html);
    NoMetaOnlyGap(html);
    assert forall t :: Tag(t) in ps ==> IsMetaTag(t) by {
      forall t | Tag(t) in ps
        ensures IsMetaTag(t)
      {
        var i :| 0 <= i < |ps| && ps[i] == Tag(t);
      }
    }
    TagTexts(ps)
  }

  /** The leftmost occurrence at or after `from` is at `i`. */
  lemma IndexOfIs(s: string, p: string, from: nat, i: nat)
    requires from <= i <= |s| && StartsWith(s[i..], p)
    requires forall j :: from <= j < i ==> !StartsWith(s[j..], p)
    ensures IndexOf(s, p, from) == Some(i)
  {
  }

  /** Text without `<meta` followed by a match: the scan passes over the
      text and takes exactly that match next. No `<meta` can straddle the two,
      since a match opens with `<` and `meta` holds none. */
  lemma ScanGapTag(g: string, t: string, rest: string)
    requires !Contains(g, MetaOpen) && IsMetaTag(t)
    ensures Scan(g + t + rest) == [Gap(g), Tag(t)] + Scan(rest)
  {
    var s := g + t + rest;
    var b := |g|;
    assert s[b..] == t + rest;
    StartsWithAppend(t, rest, MetaOpen);
    assert t[0] == t[..5][0] == '<';
    forall j | 0 <= j < b
      ensures !StartsWith(s[j..], MetaOpen)
    {
      assert !StartsWith(g[j..], MetaOpen);
      if j + 5 <= b {
        assert s[j..][..5] == g[j..][..5];
      } else {
        assert s[j..][b - j] == t[0];
      }
    }
    IndexOfIs(s, MetaOpen, 0, b);
    var e := b + |t| - 2;
    assert s[b..b + |t|] == t;
    forall j | b + 5 <= j < e
      ensures !StartsWith(s[j..], SelfClose)
    {
      WindowStartsWith(s, b, b + |t|, j - b, SelfClose);
    }
    assert s[e..][..2] == t[|t| - 2..];
    IndexOfIs(s, SelfClose, b + 5, e);
    assert s[..b] == g && s[b..e + 2] == t && s[e + 2..] == rest;
  }

  /** A page that opens with a match: the scan takes exactly that match
      first. */
  lemma ScanFirstTag(t: string, rest: string)
    requires IsMetaTag(t)
    ensures Scan(t + rest) == [Gap([]), Tag(t)] + Scan(rest)
  {
    var s := t + rest;
    StartsWithAppend(t, rest, MetaOpen);
    IndexOfIs(s, MetaOpen, 0, 0);
    var e := |t| - 2;
    assert s[0..|t|] == t;
    forall j | 5 <= j < e
      ensures !StartsWith(s[j..], SelfClose)
    {
      WindowStartsWith(s, 0, |t|, j, SelfClose);
    }
    assert s[e..][..2] == t[|t| - 2..];
    IndexOfIs(s, SelfClose, 5, e);
    assert s[..0] == [] && s[0..e + 2] == t && s[e + 2..] == rest;
  }

  /** Round trip: joining well-formed tags and collecting them again gives
      the same tags. */
  lemma {:induction false} MetaTagsOfConcat(tags: seq<string>)
    requires forall i :: 0 <= i < |tags| ==> IsMetaTag(tags[i])
    ensures MetaTags(Concat(tags)) == tags
  {
    if |tags| == 0 {
      assert !Contains([], MetaOpen);
    } else {
      var rest := Concat(tags[1..]);
      MetaTagsOfConcat(tags[1..]);
      ScanFirstTag(tags[0], rest);
      TagTextsAfterTag([], tags[0], Scan(rest));
      assert tags == [tags[0]] + tags[1..];
    }
  }

  lemma TagTextsAfterTag(g: string, t: string, ps: seq<Piece>)
    ensures TagTexts([Gap(g), Tag(t)] + ps) == [t] + TagTexts(ps)
  {
    var qs := [Gap(g), Tag(t)] + ps;
    assert qs[1..] == [Tag(t)] + ps;
    assert qs[1..][1..] == ps;
  }

  // ---------------------------------------------------------------------------
  // Every match is collected

  /** No `<meta` in `g` has a `/>` after it, so no match starts in `g`. */
  predicate Unclosed(g: string) {
    forall k, j :: 0 <= k && k + 5 <= j <= |g| && StartsWith(g[k..], MetaOpen) ==> !StartsWith(g[j..], SelfClose)
  }

  /** What a complete cut looks like: gaps and matches alternate, with the
      gaps at the even positions, so the cut starts and ends with a gap; a
      gap followed by a match holds no `<meta`, so that match is the leftmost
      one after the previous match; and the final gap holds no `<meta` with
      a `/>` after it, so it holds no match. */
  predicate Complete(r: seq<Piece>) {
    && |r| % 2 == 1
    && (forall i :: 0 <= i < |r| ==> (r[i].Gap? <==> i % 2 == 0))
    && (forall i :: 0 <= i < |r| - 1 && r[i].Gap? ==> !Contains(r[i].text, MetaOpen))
    && Unclosed(r[|r| - 1].text)
  }

  /** The scan misses no match. */
  lemma {:induction false} ScanComplete(s: string)
    ensures Complete(Scan(s))
    decreases |s|
  {
    match IndexOf(s, MetaOpen, 0)
    case None =>
      ScanNoMeta(s);
    case Some(k) =>
      match IndexOf(s, SelfClose, k + 5)
      case None =>
        ScanNoClose(s, k);
      case Some(e) =>
        ScanComplete(s[e + 2..]);
        ScanStep(s, k, e);
  }

  lemma ScanNoMeta(s: string)
    requires IndexOf(s, MetaOpen, 0).None?
    ensures Complete(Scan(s))
  {
    assert Scan(s) == [Gap(s)];
    CompleteGap(s);
  }

  lemma ScanNoClose(s: string, k: nat)
    requires IndexOf(s, MetaOpen, 0) == Some(k) && k + 5 <= |s|
    requires IndexOf(s, SelfClose, k + 5).None?
    ensures Complete(Scan(s))
  {
    assert Scan(s) == [Gap(s)];
    UnclosedAfterLeftmost(s, k);
    CompleteGap(s);
  }

  lemma ScanStep(s: string, k: nat, e: nat)
    requires IndexOf(s, MetaOpen, 0) == Some(k) && k + 5 <= |s|
    requires IndexOf(s, SelfClose, k + 5) == Some(e) && e + 2 <= |s|
    requires Complete(Scan(s[e + 2..]))
    ensures Complete(Scan(s))
  {
    ScanUnfold(s, k, e);
    CompleteCons(s[..k], s[k..e + 2], Scan(s[e + 2..]));
  }

  /** One step of the scan: the gap before the match, the match, and the
      scan of the rest. */
  lemma ScanUnfold(s: string, k: nat, e: nat)
    requires IndexOf(s, MetaOpen, 0) == Some(k) && k + 5 <= |s|
    requires IndexOf(s, SelfClose, k + 5) == Some(e) && e + 2 <= |s|
    ensures Scan(s) == [Gap(s[..k]), Tag(s[k..e + 2])] + Scan(s[e + 2..])
    ensures !Contains(s[..k], MetaOpen)
  {
    GapBeforeLeftmost(s, k);
    ScannedTagIsMetaTag(s, k, e);
    ScanGapTag(s[..k], s[k..e + 2], s[e + 2..]);
    ThreeParts(s, k, e + 2);
  }

  lemma ThreeParts(s: string, a: nat, b: nat)
    requires a <= b <= |s|
    ensures s[..a] + s[a..b] + s[b..] == s
  {
  }

  /** One gap in which no match starts is a complete cut. */
  lemma CompleteGap(g: string)
    requires Unclosed(g)
    ensures Complete([Gap(g)])
  {
  }

  /** A gap without `<meta` and a match in front of a complete cut. */
  lemma CompleteCons(g: string, t: string, rest: seq<Piece>)
    requires !Contains(g, MetaOpen) && Complete(rest)
    ensures Complete([Gap(g), Tag(t)] + rest)
  {
    var r := [Gap(g), Tag(t)] + rest;
    forall i | 2 <= i < |r|
      ensures r[i] == rest[i - 2]
    {
    }
  }

  /** Before the leftmost `<meta` there is none. */
  lemma GapBeforeLeftmost(s: string, k: nat)
    requires k <= |s|
    requires forall j :: 0 <= j < k ==> !StartsWith(s[j..], MetaOpen)
    ensures !Contains(s[..k], MetaOpen)
  {
    forall i | 0 <= i <= k
      ensures !StartsWith(s[..k][i..], MetaOpen)
    {
      if i + 5 <= k {
        assert s[..k][i..][..5] == s[i..][..5];
      }
    }
  }

  /** When the leftmost `<meta` has no `/>` after it, no later one has. */
  lemma UnclosedAfterLeftmost(s: string, k: nat)
    requires k + 5 <= |s|
    requires forall j :: 0 <= j < k ==> !StartsWith(s[j..], MetaOpen)
    requires IndexOf(s, SelfClose, k + 5).None?
    ensures Unclosed(s)
  {
  }

  /** Text in which no `<meta` has a `/>` after it is one gap. */
  lemma ScanUnclosed(g: string)
    requires Unclosed(g)
    ensures Scan(g) == [Gap(g)]
  {
    match IndexOf(g, MetaOpen, 0)
    case None =>
    case Some(k) =>
      match IndexOf(g, SelfClose, k + 5)
      case None =>
      case Some(e) =>
        assert false;
  }

  /** A page written as text, match, text, match, …, text. */
  function Page(gaps: seq<string>, tags: seq<string>): string
    requires |gaps| == |tags| + 1
    decreases |tags|
  {
    if |tags| == 0 then gaps[0] else gaps[0] + tags[0] + Page(gaps[1..], tags[1..])
  }

  /** Collecting the tags of any page gives exactly its matches, in order,
      whatever text stands between them, as long as the text before each
      match holds no `<meta` and the text after the last one no `<meta`
      with a `/>` after it. */
  lemma {:induction false} MetaTagsOfPage(gaps: seq<string>, tags: seq<string>)
    requires |gaps| == |tags| + 1
    requires forall i :: 0 <= i < |tags| ==> !Contains(gaps[i], MetaOpen) && IsMetaTag(tags[i])
    requires Unclosed(gaps[|tags|])
    ensures MetaTags(Page(gaps, tags)) == tags
    decreases |tags|
  {
    if |tags| == 0 {
      ScanUnclosed(gaps[0]);
    } else {
      var rest := Page(gaps[1..], tags[1..]);
      MetaTagsOfPage(gaps[1..], tags[1..]);
      ScanGapTag(gaps[0], tags[0], rest);
      TagTextsAfterTag(gaps[0], tags[0], Scan(rest));
      assert tags == [tags[0]] + tags[1..];
    }
  }

  /** A page without `<meta` is one gap. */
  lemma NoMetaOnlyGap(html: string)
    ensures !Contains(html, MetaOpen) ==> Scan(html) == [Gap(html)]
  {
    if !Contains(html, MetaOpen) {
      assert IndexOf(html, MetaOpen, 0).None?;
    }
  }

  // ---------------------------------------------------------------------------
  // The block that is inserted

  /** The three tags announcing the protocols the frame accepts. */
  const Accepts: seq<string> := [
    PropertyTag("of:accepts:farcaster", "vNext"),
    PropertyTag("of:accepts:xmtp", "2024-02-01"),
    PropertyTag("of:accepts:lens", "1.1")
  ]

  /** The accepts tags as they are inserted, one per line. */
  const AcceptsTags: string := Accepts[0] + "\n" + Accepts[1] + "\n" + Accepts[2]

  /** The inserted text is the three tags joined by newlines. */
  lemma AcceptsTagsJoined()
    ensures AcceptsTags == Join(Accepts, "\n")
  {
    assert Join(Accepts[2..], "\n") == Accepts[2];
  }

  /** The inserted text holds no dollar sign. */
  lemma AcceptsTagsPlain()
    ensures '$' !in AcceptsTags
  {
    PropertyTagPlain("of:accepts:farcaster", "vNext");
    PropertyTagPlain("of:accepts:xmtp", "2024-02-01");
    PropertyTagPlain("of:accepts:lens", "1.1");
  }

  lemma PropertyTagPlain(key: string, value: string)
    requires '$' !in key && '$' !in value
    ensures '$' !in PropertyTag(key, value)
  {
  }

  /** The rewritten meta tags followed by the accepts tags. Each tag is
      rewritten on its own: no substitution spans two tags. */
  function Block(html: string): (r: string)
    ensures r == Concat(RewriteEach(MetaTags(html))) + AcceptsTags
  {
    var tags := MetaTags(html);
    assert forall i :: 0 <= i < |tags| ==> |tags[i]| > 0 && tags[i][0] == '<' by {
      forall i | 0 <= i < |tags|
        ensures |tags[i]| > 0 && tags[i][0] == '<'
      {
        assert IsMetaTag(tags[i]);
        assert tags[i][..5] == MetaOpen;
      }
    }
    TagwiseRewrite(tags);
    OpenFrameTags(Concat(tags)) + AcceptsTags
  }

  /** A page made of well-formed tags gets exactly those tags, rewritten,
      ahead of the accepts tags. */
  lemma {:induction false} BlockOfTags(tags: seq<string>)
    requires forall i :: 0 <= i < |tags| ==> IsMetaTag(tags[i])
    ensures Block(Concat(tags)) == Concat(RewriteEach(tags)) + AcceptsTags
  {
    MetaTagsOfConcat(tags);
  }

  // ---------------------------------------------------------------------------
  // Finding `<head>` with `/(<head>)/i`

  const HeadTag: string := "<head>"

  /** `<head>` in any letter case starts at `i`: the six characters there
      lower-case to `<head>`. */
  predicate HeadAt(s: string, i: nat)
    ensures HeadAt(s, i) <==> i + 6 <= |s| && Lower(s[i..i + 6]) == HeadTag
  {
    if i + 6 <= |s| then
      HeadWindowLowered(s[i..i + 6]);
      EqualIgnoringCase(s[i..i + 6], HeadTag)
    else false
  }

  /** The leftmost case-insensitive `<head>` at or after `from`. */
  function HeadIndex(s: string, from: nat): (r: Option<nat>)
    requires from <= |s|
    ensures r.Some? ==> from <= r.value && HeadAt(s, r.value)
    ensures r.Some? ==> forall j :: from <= j < r.value ==> !HeadAt(s, j)
    ensures r.None? ==> forall j :: from <= j <= |s| ==> !HeadAt(s, j)
    decreases |s| - from
  {
    if HeadAt(s, from) then Some(from)
    else if from == |s| then None
    else HeadIndex(s, from + 1)
  }

  /** Case-insensitive matching is matching after lower-casing. */
  lemma HeadWindowLowered(w: string)
    requires |w| == 6
    ensures EqualIgnoringCase(w, HeadTag) <==> Lower(w) == HeadTag
  {
    forall k | 0 <= k < 6
      ensures SameLetter(w[k], HeadTag[k]) <==> LowerChar(w[k]) == HeadTag[k]
    {
      LowerCharIsCaseFold(w[k], HeadTag[k]);
      assert LowerChar(HeadTag[k]) == HeadTag[k];
    }
    if Lower(w) == HeadTag {
      assert forall k :: 0 <= k < 6 ==> LowerChar(w[k]) == HeadTag[k];
    }
    if EqualIgnoringCase(w, HeadTag) {
      assert forall k :: 0 <= k < 6 ==> Lower(w)[k] == HeadTag[k];
    }
  }

  // ---------------------------------------------------------------------------
  // Inserting the block

  /** The block placed right after the first `<head>`, taken literally; a
      page without `<head>` is unchanged. */
  function Inject(html: string, block: string): (r: string)
    ensures HeadIndex(html, 0).None? ==> r == html
    ensures HeadIndex(html, 0).Some? ==>
      var e := HeadIndex(html, 0).value + 6;
      && |r| == |html| + |block|
      && r[..e] == html[..e]
      && r[e..e + |block|] == block
      && r[e + |block|..] == html[e..]
      && r[..e] + r[e + |block|..] == html
  {
    match HeadIndex(html, 0)
    case None => html
    case Some(k) =>
      var r := html[..k + 6] + block + html[k + 6..];
      assert r[..k + 6] == html[..k + 6];
      assert r[k + 6..k + 6 + |block|] == block;
      assert r[k + 6 + |block|..] == html[k + 6..];
      assert html == html[..k + 6] + html[k + 6..];
      r
  }

  /** After the insertion the first `<head>` is still where it was. */
  lemma {:induction false} InjectKeepsHead(html: string, block: string)
    ensures HeadIndex(Inject(html, block), 0) == HeadIndex(html, 0)
  {
    match HeadIndex(html, 0)
    case None =>
    case Some(k) =>
      var r := Inject(html, block);
      assert r[..k + 6] == html[..k + 6];
      forall j | 0 <= j <= k
        ensures HeadAt(r, j) <==> HeadAt(html, j)
      {
        assert r[j..j + 6] == r[..k + 6][j..j + 6];
        assert html[j..j + 6] == html[..k + 6][j..j + 6];
      }
      HeadIndexIs(r, k);
  }

  /** The leftmost `<head>` is at `k`. */
  lemma HeadIndexIs(s: string, k: nat)
    requires k <= |s| && HeadAt(s, k)
    requires forall j :: 0 <= j < k ==> !HeadAt(s, j)
    ensures HeadIndex(s, 0) == Some(k)
  {
  }

  // ---------------------------------------------------------------------------
  // The insertion as written: `html.replace(/(<head>)/i, `$1${openFrameTags}`)`

  /** The pattern has one capture group, and it spans the whole match. */
  const CaptureCount: nat := 1

  /** The replacement string is a template: `$$` is a dollar sign, `$&` and
      `$1` (also `$01`) the matched text, `` $` `` the text before the match,
      `$'` the text after it; a two-digit reference beyond the captures falls
      back to one digit; any other `$` stands for itself. A template without
      a dollar sign is copied as it is. */
  function Expand(rep: string, matched: string, before: string, after: string): (r: string)
    ensures '$' !in rep ==> r == rep
    decreases |rep|
  {
    if |rep| == 0 then []
    else if rep[0] != '$' || |rep| == 1 then [rep[0]] + Expand(rep[1..], matched, before, after)
    else
      var c := rep[1];
      if c == '$' then "$" + Expand(rep[2..], matched, before, after)
      else if c == '&' then matched + Expand(rep[2..], matched, before, after)
      else if c == '`' then before + Expand(rep[2..], matched, before, after)
      else if c == '\'' then after + Expand(rep[2..], matched, before, after)
      else if IsDigit(c) then
        if |rep| >= 3 && IsDigit(rep[2]) && 10 * DigitValue(c) + DigitValue(rep[2]) <= CaptureCount then
          var index := 10 * DigitValue(c) + DigitValue(rep[2]);
          (if 1 <= index then matched else rep[..3]) + Expand(rep[3..], matched, before, after)
        else
          var index := DigitValue(c);
          (if 1 <= index <= CaptureCount then matched else rep[..2]) + Expand(rep[2..], matched, before, after)
      else [rep[0]] + Expand(rep[1..], matched, before, after)
  }

  /** The insertion as the page code performs it: the tags go through the
      replacement template. */
  function InjectAsWritten(html: string, tags: string): (r: string)
    ensures HeadIndex(html, 0).None? ==> r == html
    ensures HeadIndex(html, 0).Some? ==>
      var k := HeadIndex(html, 0).value;
      r == html[..k + 6] + Expand(tags, html[k..k + 6], html[..k], html[k + 6..]) + html[k + 6..]
  {
    match HeadIndex(html, 0)
    case None => html
    case Some(k) =>
      AsWrittenSplice(html, k, tags);
      html[..k] + Expand("$1" + tags, html[k..k + 6], html[..k], html[k + 6..]) + html[k + 6..]
  }

  /** `$1` in front of the tags puts the matched `<head>` back in place. */
  lemma AsWrittenSplice(html: string, k: nat, tags: string)
    requires k + 6 <= |html|
    ensures var matched, before, after := html[k..k + 6], html[..k], html[k + 6..];
      before + Expand("$1" + tags, matched, before, after) + after
      == html[..k + 6] + Expand(tags, matched, before, after) + after
  {
    var matched, before, after := html[k..k + 6], html[..k], html[k + 6..];
    ExpandLead(tags, matched, before, after);
    Regroup(before, matched, Expand(tags, matched, before, after), after);
    assert before + matched == html[..k + 6];
  }

  lemma Regroup(before: string, matched: string, tail: string, after: string)
    ensures before + (matched + tail) + after == (before + matched) + tail + after
  {
  }

  /** Text without a dollar sign in front of a template is copied as it is,
      and the template after it is expanded on its own. */
  lemma {:induction false} ExpandPlainPrefix(p: string, rest: string, matched: string, before: string, after: string)
    requires forall k :: 0 <= k < |p| ==> p[k] != '$'
    ensures Expand(p + rest, matched, before, after) == p + Expand(rest, matched, before, after)
    decreases |p|
  {
    if |p| > 0 {
      ExpandPlainPrefix(p[1..], rest, matched, before, after);
      ExpandPlainStep(p, rest, matched, before, after);
    } else {
      assert p + rest == rest;
    }
  }

  lemma ExpandPlainStep(p: string, rest: string, matched: string, before: string, after: string)
    requires |p| > 0 && p[0] != '$'
    requires Expand(p[1..] + rest, matched, before, after) == p[1..] + Expand(rest, matched, before, after)
    ensures Expand(p + rest, matched, before, after) == p + Expand(rest, matched, before, after)
  {
    FirstOfConcat(p, rest);
    ExpandPlainChar(p + rest, matched, before, after);
    FirstOfConcat(p, Expand(rest, matched, before, after));
  }

  /** Splitting the first character off a concatenation. */
  lemma FirstOfConcat(p: string, x: string)
    requires |p| > 0
    ensures (p + x)[0] == p[0] && (p + x)[1..] == p[1..] + x
    ensures [p[0]] + (p[1..] + x) == p + x
  {
  }

  /** A character other than `$` is copied. */
  lemma ExpandPlainChar(s: string, matched: string, before: string, after: string)
    requires |s| > 0 && s[0] != '$'
    ensures Expand(s, matched, before, after) == [s[0]] + Expand(s[1..], matched, before, after)
  {
  }

  /** The leading `$1` is always the matched `<head>`, even when the tags
      start with a digit. */
  lemma ExpandLead(tags: string, matched: string, before: string, after: string)
    ensures Expand("$1" + tags, matched, before, after) == matched + Expand(tags, matched, before, after)
  {
    var rep := "$1" + tags;
    assert rep[2..] == tags;
  }

  /** Without a dollar sign in the tags, the page code and the literal
      insertion agree. */
  lemma {:induction false} AsWrittenAgreesWithoutDollar(html: string, tags: string)
    requires '$' !in tags
    ensures InjectAsWritten(html, tags) == Inject(html, tags)
  {
    match HeadIndex(html, 0)
    case None =>
    case Some(k) =>
      assert Expand(tags, html[k..k + 6], html[..k], html[k + 6..]) == tags;
  }

  /** A tag value holding `$$` loses a dollar sign, and one holding `$'`
      pulls in a copy of the rest of the page. */
  lemma DollarPatternsAltered(html: string, twoDollars: string, quoteAfter: string)
    requires html == "<head>x" && twoDollars == "$$" && quoteAfter == "$'"
    ensures InjectAsWritten(html, twoDollars) == "<head>$x"
    ensures Inject(html, twoDollars) == "<head>$$x"
    ensures InjectAsWritten(html, quoteAfter) == "<head>xx"
    ensures Inject(html, quoteAfter) == "<head>$'x"
  {
    SmallPageHead(html);
    SmallExpansions(twoDollars, quoteAfter);
  }

  lemma SmallPageHead(html: string)
    requires html == "<head>x"
    ensures HeadIndex(html, 0) == Some(0)
    ensures html[..6] == "<head>" && html[0..6] == "<head>" && html[..0] == [] && html[6..] == "x"
  {
    assert HeadAt(html, 0);
    HeadIndexIs(html, 0);
  }

  lemma SmallExpansions(twoDollars: string, quoteAfter: string)
    requires twoDollars == "$$" && quoteAfter == "$'"
    ensures Expand(twoDollars, "<head>", [], "x") == "$"
    ensures Expand(quoteAfter, "<head>", [], "x") == "x"
    ensures "<head>" + "$" + "x" == "<head>$x" && "<head>" + "x" + "x" == "<head>xx"
    ensures "<head>" + twoDollars + "x" == "<head>$$x" && "<head>" + quoteAfter + "x" == "<head>$'x"
  {
  }


  // ---------------------------------------------------------------------------
  // The middleware

  /** The parts of a response the shim reads and writes. */
  datatype Response = Response(status: nat, contentType: Option<string>, body: string)

  /** `c.res.headers.get('content-type')?.includes('html')`, case-sensitive:
      there is a content type and searching it for `html` finds a position. */
  predicate IsFrame(res: Response)
    ensures IsFrame(res) <==> res.contentType.Some? && IndexOf(res.contentType.value, "html", 0).Some?
  {
    res.contentType.Some? && Contains(res.contentType.value, "html")
  }

  /** The shim applied to the response a handler produced, as the page code
      does it: a page becomes a fresh `text/html` response with status 200
      whose body carries the block after its first `<head>`, with the block's
      `$` patterns expanded; anything else passes through. */
  function Shim(res: Response): (r: Response)
    ensures !IsFrame(res) ==> r == res
    ensures IsFrame(res) ==> r.status == 200 && r.contentType == Some("text/html")
    ensures IsFrame(res) && HeadIndex(res.body, 0).None? ==> r.body == res.body
    ensures IsFrame(res) && HeadIndex(res.body, 0).Some? ==>
      var k := HeadIndex(res.body, 0).value;
      var block := Concat(RewriteEach(MetaTags(res.body))) + AcceptsTags;
      r.body == res.body[..k + 6] + Expand(block, res.body[k..k + 6], res.body[..k], res.body[k + 6..]) + res.body[k + 6..]
  {
    if IsFrame(res) then Response(200, Some("text/html"), InjectAsWritten(res.body, Block(res.body)))
    else res
  }

  /** The shim with the block inserted verbatim, as evidently intended. */
  function ShimLiteral(res: Response): (r: Response)
    ensures !IsFrame(res) ==> r == res
    ensures IsFrame(res) ==> r.status == 200 && r.contentType == Some("text/html")
    ensures IsFrame(res) && HeadIndex(res.body, 0).None? ==> r.body == res.body
    ensures IsFrame(res) && HeadIndex(res.body, 0).Some? ==>
      var e := HeadIndex(res.body, 0).value + 6;
      r.body == res.body[..e] + (Concat(RewriteEach(MetaTags(res.body))) + AcceptsTags) + res.body[e..]
  {
    if IsFrame(res) then Response(200, Some("text/html"), Inject(res.body, Block(res.body)))
    else res
  }

  /** When the block holds no dollar sign, the shim as written and the
      literal shim give the same response. */
  lemma ShimAgreesWithoutDollar(res: Response)
    requires '$' !in Block(res.body)
    ensures Shim(res) == ShimLiteral(res)
  {
    AsWrittenAgreesWithoutDollar(res.body, Block(res.body));
  }

  const DollarTag: string := "<meta $$/>"
  const DollarPage: string := "<head><meta $$/>"

  /** A page whose only meta tag holds `$$`: the shim as written inserts the
      tag with one dollar sign, the literal shim with both. */
  lemma ShimDollarExample(res: Response)
    requires res == Response(200, Some("text/html"), DollarPage)
    ensures Shim(res).body == "<head><meta $/>" + AcceptsTags + DollarTag
    ensures ShimLiteral(res).body == DollarPage + AcceptsTags + DollarTag
  {
    assert StartsWith("text/html"[5..], "html");
    assert IsFrame(res);
    DollarPageHead();
    DollarBlock();
    DollarExpand();
    DollarTagPieces(AcceptsTags);
  }

  /** The page `<head><meta $$/>` is a frame page whose `<head>` opens it. */
  lemma DollarPageHead()
    ensures HeadIndex(DollarPage, 0) == Some(0)
    ensures DollarPage[..6] == "<head>" && DollarPage[0..6] == "<head>"
    ensures DollarPage[..0] == [] && DollarPage[6..] == DollarTag
  {
    assert HeadAt(DollarPage, 0);
    HeadIndexIs(DollarPage, 0);
  }

  /** The block of `<head><meta $$/>` is the tag, unchanged, then the
      accepts tags. */
  lemma DollarBlock()
    ensures Block(DollarPage) == DollarTag + AcceptsTags
  {
    DollarPageTags();
    DollarTagFixed();
  }

  /** Expanding that block turns `$$` into `$` and copies the rest. */
  lemma DollarExpand()
    ensures Expand(DollarTag + AcceptsTags, "<head>", [], DollarTag) == "<meta $/>" + AcceptsTags
  {
    var tail := "/>" + AcceptsTags;
    AcceptsTagsPlain();
    assert '$' !in tail;
    ExpandDoubleDollar(tail, "<head>", [], DollarTag);
    ExpandPlainPrefix("<meta ", "$$" + tail, "<head>", [], DollarTag);
    DollarTagPieces(AcceptsTags);
  }

  /** `$$` writes one dollar sign. */
  lemma ExpandDoubleDollar(tail: string, matched: string, before: string, after: string)
    ensures Expand("$$" + tail, matched, before, after) == "$" + Expand(tail, matched, before, after)
  {
    assert ("$$" + tail)[2..] == tail;
  }

  lemma DollarTagPieces(x: string)
    ensures DollarTag + x == "<meta " + ("$$" + ("/>" + x))
    ensures "<meta " + ("$" + ("/>" + x)) == "<meta $/>" + x
    ensures "<head>" + ("<meta $/>" + x) + DollarTag == "<head><meta $/>" + x + DollarTag
    ensures "<head>" + (DollarTag + x) + DollarTag == DollarPage + x + DollarTag
  {
    assert DollarTag == "<meta " + "$$" + "/>";
    assert "<meta $/>" == "<meta " + "$" + "/>";
    assert "<head><meta $/>" == "<head>" + "<meta $/>";
    assert DollarPage == "<head>" + DollarTag;
  }

  /** The page `<head><meta $$/>` has the one tag `<meta $$/>`. */
  lemma DollarPageTags()
    ensures MetaTags(DollarPage) == [DollarTag]
  {
    var t := DollarTag;
    assert t[..5] == MetaOpen && t[|t| - 2..] == SelfClose;
    forall j | 5 <= j < |t| - 2
      ensures !StartsWith(t[j..], SelfClose)
    {
      assert t[j..][0] == t[j] != '/';
    }
    assert IsMetaTag(t);
    assert !Contains("<head>", MetaOpen) by {
      forall i | 0 <= i <= 6
        ensures !StartsWith("<head>"[i..], MetaOpen)
      {
        if i <= 1 {
          assert "<head>"[i..][1] != MetaOpen[1];
        }
      }
    }
    assert Unclosed([]);
    assert Page(["<head>", []], [t]) == DollarPage by {
      assert Page([[]], []) == [];
    }
    MetaTagsOfPage(["<head>", []], [t]);
  }

  /** The tag `<meta $$/>` goes through the chain unchanged. */
  lemma DollarTagFixed()
    ensures Concat(RewriteEach([DollarTag])) == DollarTag
  {
    DollarTagNoPrefix();
    assert RewriteEach([DollarTag]) == [OpenFrameTags(DollarTag)];
    assert Concat([DollarTag]) == DollarTag + Concat([]);
  }

  lemma DollarTagNoPrefix()
    ensures Absent(DollarTag, FramePrefix)
  {
    var t := DollarTag;
    forall i | 0 <= i <= |t|
      ensures !StartsWith(t[i..], FramePrefix)
    {
      if i <= 1 {
        assert t[i..][0] == t[i] != 'f';
      }
    }
  }
}
