/** What the substitution chain does: which links can never fire, how it
    treats each meta tag separately, and what it makes of each frame key. */
module RewriteLaws {
  import opened Wrappers
  import opened Text
  import opened Decimal
  import opened FrameRewrite

  const ImageKey: string := "fc:frame:image"

  // ---------------------------------------------------------------------------
  // Replacement text cannot start or finish a pattern

  /** Every replacement starts with `of` and no pattern can start inside it. */
  lemma EmissionShape(rule: Rule, s: string)
    requires WellFormed(rule) && Match(rule, s).Some?
    ensures var e := Match(rule, s).value.emitted;
      |e| >= 2 && e[0] == 'o' && e[1] == 'f' && FcFree(e)
  {
    match rule
    case Literal(p, rep) =>
    case Button(sfx) =>
      ChainWellFormed();
      var e := Match(rule, s).value.emitted;
      var end := |ButtonKey| + DigitRun(s[|ButtonKey|..]);
      var digits := s[|ButtonKey|..end];
      assert forall k :: 0 <= k < |digits| ==> IsDigit(digits[k]);
      assert e == ButtonOut + (digits + sfx);
      FcFreeAppend(ButtonOut, digits + sfx);
  }

  /** Appending text without an `f` keeps a string `FcFree`. */
  lemma FcFreeAppend(a: string, b: string)
    requires FcFree(a) && forall k :: 0 <= k < |b| ==> b[k] != 'f'
    ensures FcFree(a + b)
  {
    forall i | 0 <= i < |a + b| && (a + b)[i] == 'f'
      ensures i + 1 < |a + b| && (a + b)[i + 1] != 'c'
    {
      assert i < |a|;
      assert (a + b)[i] == a[i];
      assert (a + b)[i + 1] == a[i + 1];
    }
  }

  lemma ConsStartsWith(c: char, x: string, q: string)
    ensures StartsWith([c] + x, q) <==> |q| == 0 || (c == q[0] && StartsWith(x, q[1..]))
  {
    if |q| > 0 && |q| <= |x| + 1 {
      assert ([c] + x)[..|q|] == [c] + x[..|q| - 1];
    }
  }

  lemma StartsWithLonger(x: string, p: string, q: string)
    requires StartsWith(p, q)
    ensures StartsWith(x, p) ==> StartsWith(x, q)
  {
    if StartsWith(x, p) {
      assert x[..|q|] == p[..|q|];
    }
  }

  lemma OfFreeTail(q: string)
    requires OfFree(q) && |q| > 0
    ensures OfFree(q[1..])
  {
    forall k | 0 <= k < |q[1..]| && q[1..][k] == 'o'
      ensures k + 1 < |q[1..]| && q[1..][k + 1] != 'f'
    {
      assert q[k + 1] == 'o';
    }
  }

  /** A match rewrites the start of the text to something beginning with
      `of`, so output beginning with an `of`-free string was copied from the
      input at that point. */
  lemma {:induction false} PrefixSurvives(rule: Rule, u: string, q: string)
    requires WellFormed(rule) && OfFree(q)
    ensures StartsWith(Rewrite(rule, u), q) ==> StartsWith(u, q)
    decreases |u|
  {
    if |q| > 0 && |u| > 0 {
      if Match(rule, u).Some? {
        SiteOpensWithOf(rule, u, q);
      } else {
        var t' := Rewrite(rule, u[1..]);
        RewriteCopies(rule, u);
        ConsStartsWith(u[0], t', q);
        ConsStartsWith(u[0], u[1..], q);
        assert [u[0]] + u[1..] == u;
        OfFreeTail(q);
        PrefixSurvives(rule, u[1..], q[1..]);
      }
    }
  }

  /** At a site the output starts with `of`, which an `of`-free string
      cannot start with. */
  lemma SiteOpensWithOf(rule: Rule, u: string, q: string)
    requires WellFormed(rule) && OfFree(q) && |q| > 0 && |u| > 0 && Match(rule, u).Some?
    ensures !StartsWith(Rewrite(rule, u), q)
  {
    EmissionShape(rule, u);
    var h := Match(rule, u).value;
    RewriteAtSite(rule, u, h);
    OfNotOfFree(h.emitted + Rewrite(rule, u[h.consumed..]), q);
  }

  lemma RewriteAtSite(rule: Rule, u: string, h: Hit)
    requires |u| > 0 && Match(rule, u) == Some(h)
    ensures Rewrite(rule, u) == h.emitted + Rewrite(rule, u[h.consumed..])
  {
  }

  /** Text starting with `of` does not start with an `of`-free string. */
  lemma OfNotOfFree(t: string, q: string)
    requires |t| >= 2 && t[0] == 'o' && t[1] == 'f' && OfFree(q) && |q| > 0
    ensures !StartsWith(t, q)
  {
  }

  /** Where the rule does not match, the first character is copied. */
  lemma RewriteCopies(rule: Rule, u: string)
    requires |u| > 0 && Match(rule, u).None?
    ensures Rewrite(rule, u) == [u[0]] + Rewrite(rule, u[1..])
  {
  }

  /** A rewrite leaves no occurrence of `q` behind when every occurrence of
      `q` in its input is a site of the rule: either `q` was already absent
      and the replacement text cannot create it, or the rule removes it. */
  lemma {:induction false} NoOccurrenceAfter(rule: Rule, s: string, q: string)
    requires WellFormed(rule)
    requires |q| >= 2 && q[0] == 'f' && q[1] == 'c' && OfFree(q)
    requires forall i :: 0 <= i <= |s| && StartsWith(s[i..], q) ==> Match(rule, s[i..]).Some?
    ensures Absent(Rewrite(rule, s), q)
    decreases |s|, 1
  {
    if |s| > 0 {
      if Match(rule, s).Some? {
        NoOccurrenceAfterSite(rule, s, q);
      } else {
        NoOccurrenceAfterCopy(rule, s, q);
      }
    }
  }

  /** The step of `NoOccurrenceAfter` at a site of the rule. */
  lemma {:induction false} NoOccurrenceAfterSite(rule: Rule, s: string, q: string)
    requires WellFormed(rule) && |s| > 0 && Match(rule, s).Some?
    requires |q| >= 2 && q[0] == 'f' && q[1] == 'c' && OfFree(q)
    requires forall i :: 0 <= i <= |s| && StartsWith(s[i..], q) ==> Match(rule, s[i..]).Some?
    ensures Absent(Rewrite(rule, s), q)
    decreases |s|, 0
  {
    var t := Rewrite(rule, s);
    var h := Match(rule, s).value;
    var rest := s[h.consumed..];
    forall i | 0 <= i <= |rest| && StartsWith(rest[i..], q)
      ensures Match(rule, rest[i..]).Some?
    {
      assert rest[i..] == s[h.consumed + i..];
    }
    NoOccurrenceAfter(rule, rest, q);
    var t' := Rewrite(rule, rest);
    assert t == h.emitted + t';
    EmissionShape(rule, s);
    forall i | 0 <= i <= |t|
      ensures !StartsWith(t[i..], q)
    {
      if i >= |h.emitted| {
        assert t[i..] == t'[i - |h.emitted|..];
      } else {
        assert t[i..][0] == h.emitted[i];
        assert i + 1 < |h.emitted| ==> t[i..][1] == h.emitted[i + 1];
      }
    }
  }

  /** The step of `NoOccurrenceAfter` where a character is copied. */
  lemma {:induction false} NoOccurrenceAfterCopy(rule: Rule, s: string, q: string)
    requires WellFormed(rule) && |s| > 0 && Match(rule, s).None?
    requires |q| >= 2 && q[0] == 'f' && q[1] == 'c' && OfFree(q)
    requires forall i :: 0 <= i <= |s| && StartsWith(s[i..], q) ==> Match(rule, s[i..]).Some?
    ensures Absent(Rewrite(rule, s), q)
    decreases |s|, 0
  {
    var t := Rewrite(rule, s);
    var t' := Rewrite(rule, s[1..]);
    assert t == [s[0]] + t';
    forall i | 0 <= i <= |s[1..]| && StartsWith(s[1..][i..], q)
      ensures Match(rule, s[1..][i..]).Some?
    {
      assert s[1..][i..] == s[i + 1..];
    }
    NoOccurrenceAfter(rule, s[1..], q);
    forall i | 0 <= i <= |t|
      ensures !StartsWith(t[i..], q)
    {
      if i >= 1 {
        assert t[i..] == t'[i - 1..];
      } else {
        ConsStartsWith(s[0], t', q);
        ConsStartsWith(s[0], s[1..], q);
        assert [s[0]] + s[1..] == s[0..] == s;
        OfFreeTail(q);
        PrefixSurvives(rule, s[1..], q[1..]);
      }
    }
  }

  // ---------------------------------------------------------------------------
  // Dead links of the chain

  /** The `fc:frame:image` link removes every `fc:frame:image`. */
  lemma ImageKeyGone(s: string)
    ensures Absent(Rewrite(ImageRule, s), ImageKey)
  {
    ImageRuleWellFormed();
    assert OfFree(ImageKey);
    NoOccurrenceAfter(ImageRule, s, ImageKey);
  }

  /** No later link can create an `fc:frame:image`. */
  lemma ImageKeyStaysGone(rule: Rule, s: string)
    requires WellFormed(rule) && Absent(s, ImageKey)
    ensures Absent(Rewrite(rule, s), ImageKey)
  {
    assert OfFree(ImageKey);
    NoOccurrenceAfter(rule, s, ImageKey);
  }

  /** The `fc:frame:button:(\d+)` link removes every `fc:frame:button:`
      followed by a digit. */
  lemma ButtonSitesGone(s: string, d: char)
    requires IsDigit(d)
    ensures Absent(Rewrite(ButtonRule, s), ButtonKey + [d])
  {
    ChainWellFormed();
    ButtonKeyDigitOfFree(d);
    forall i | 0 <= i <= |s| && StartsWith(s[i..], ButtonKey + [d])
      ensures Match(ButtonRule, s[i..]).Some?
    {
      var x := s[i..];
      assert x[..|ButtonKey|] == (ButtonKey + [d])[..|ButtonKey|] == ButtonKey;
      assert x[|ButtonKey|..][0] == d;
    }
    NoOccurrenceAfter(ButtonRule, s, ButtonKey + [d]);
  }

  /** Every site of a button link is an `fc:frame:button:` followed by a digit. */
  lemma ButtonSiteShape(rule: Rule, x: string)
    requires rule.Button?
    ensures Match(rule, x).Some? ==>
      |x| > |ButtonKey| && IsDigit(x[|ButtonKey|]) && StartsWith(x, ButtonKey + [x[|ButtonKey|]])
  {
    if Match(rule, x).Some? {
      assert IsDigit(x[|ButtonKey|..][0]);
      assert x[..|ButtonKey| + 1] == ButtonKey + [x[|ButtonKey|]];
    }
  }

  lemma NoButtonSiteLeft(rule: Rule, s: string)
    requires rule.Button?
    requires forall d: char :: IsDigit(d) ==> Absent(s, ButtonKey + [d])
    ensures Rewrite(rule, s) == s
  {
    forall i | 0 <= i < |s|
      ensures Match(rule, s[i..]).None?
    {
      ButtonSiteShape(rule, s[i..]);
    }
    RewriteNoMatch(rule, s);
  }

  lemma NoAspectSiteLeft(s: string)
    requires Absent(s, ImageKey)
    ensures Rewrite(AspectRule, s) == s
  {
    forall i | 0 <= i < |s|
      ensures Match(AspectRule, s[i..]).None?
    {
      StartsWithLonger(s[i..], "fc:frame:image:aspect_ratio", ImageKey);
    }
    RewriteNoMatch(AspectRule, s);
  }

  /** After the `fc:frame:button:(\d+)` link no `fc:frame:button:` followed by
      a digit is left, so the `:action` and `:target` links find nothing; after
      the `fc:frame:image` link no `fc:frame:image` is left and the links in
      between cannot create one, so the `:aspect_ratio` link finds nothing.
      The chain computes the same as its four live links. */
  lemma DeadSubstitutions(s: string)
    ensures OpenFrameTags(s) == EffectiveChain(s)
  {
    ChainUnfold(s);
    ChainWellFormed();
    var s1 := Rewrite(ImageRule, s);
    ImageKeyGone(s);
    var s2 := Rewrite(ButtonRule, s1);
    ImageKeyStaysGone(ButtonRule, s1);
    forall d: char | IsDigit(d)
      ensures Absent(s2, ButtonKey + [d])
    {
      ButtonSitesGone(s1, d);
    }
    NoButtonSiteLeft(ActionRule, s2);
    NoButtonSiteLeft(TargetRule, s2);
    ImageKeyStaysGone(InputRule, s2);
    NoAspectSiteLeft(Rewrite(InputRule, s2));
  }

  // ---------------------------------------------------------------------------
  // The chain works tag by tag

  lemma StartsWithSplit(x: string, y: string, p: string)
    requires AllWord(p) && |y| > 0 && !IsWordChar(y[0])
    ensures StartsWith(x + y, p) <==> StartsWith(x, p)
  {
    if |p| <= |x| {
      assert (x + y)[..|p|] == x[..|p|];
    } else if |p| <= |x + y| {
      assert (x + y)[..|p|][|x|] == y[0];
    }
  }

  lemma {:induction false} DigitRunSplit(x: string, y: string)
    requires |y| > 0 && !IsDigit(y[0])
    ensures DigitRun(x + y) == DigitRun(x)
    decreases |x|
  {
    if |x| == 0 {
      assert x + y == y;
    } else {
      assert (x + y)[0] == x[0];
      assert (x + y)[1..] == x[1..] + y;
      DigitRunSplit(x[1..], y);
    }
  }

  /** Whether a rule matches does not depend on what follows a character
      that cannot be part of a pattern. */
  lemma MatchSplit(rule: Rule, x: string, y: string)
    requires WellFormed(rule) && |y| > 0 && !IsWordChar(y[0])
    ensures Match(rule, x + y) == Match(rule, x)
  {
    match rule
    case Literal(p, rep) =>
      StartsWithSplit(x, y, p);
    case Button(sfx) =>
      ButtonMatchSplit(sfx, x, y);
  }

  lemma ButtonMatchSplit(sfx: string, x: string, y: string)
    requires WellFormed(Button(sfx)) && |y| > 0 && !IsWordChar(y[0])
    ensures Match(Button(sfx), x + y) == Match(Button(sfx), x)
  {
    ButtonKeyFacts();
    StartsWithSplit(x, y, ButtonKey);
    if StartsWith(x, ButtonKey) {
      ButtonSiteSplit(sfx, x, y);
    }
  }

  lemma ButtonSiteSplit(sfx: string, x: string, y: string)
    requires WellFormed(Button(sfx)) && |y| > 0 && !IsWordChar(y[0])
    requires StartsWith(x, ButtonKey) && StartsWith(x + y, ButtonKey)
    ensures Match(Button(sfx), x + y) == Match(Button(sfx), x)
  {
    var k := |ButtonKey|;
    var xy := x + y;
    assert xy[k..] == x[k..] + y;
    DigitRunSplit(x[k..], y);
    var d := DigitRun(x[k..]);
    assert DigitRun(xy[k..]) == d;
    var end := k + d;
    assert xy[end..] == x[end..] + y;
    StartsWithSplit(x[end..], y, sfx);
    assert end <= |x| && xy[..|x|] == x;
    assert xy[k..end] == xy[..|x|][k..end];
    assert xy[k..end] == x[k..end];
  }

  /** A rule rewrites the two sides of such a character separately. */
  lemma {:induction false} RewriteSplit(rule: Rule, x: string, y: string)
    requires WellFormed(rule) && |y| > 0 && !IsWordChar(y[0])
    ensures Rewrite(rule, x + y) == Rewrite(rule, x) + Rewrite(rule, y)
    decreases |x|
  {
    if |x| == 0 {
      assert x + y == y;
    } else {
      MatchSplit(rule, x, y);
      assert (x + y)[0] == x[0];
      var h := Step(rule, x);
      assert Step(rule, x + y) == h;
      assert (x + y)[h.consumed..] == x[h.consumed..] + y;
      RewriteSplit(rule, x[h.consumed..], y);
    }
  }

  /** Text starting with a non-pattern character keeps that first character. */
  lemma RewriteKeepsBarrier(rule: Rule, y: string)
    requires WellFormed(rule) && |y| > 0 && !IsWordChar(y[0])
    ensures |Rewrite(rule, y)| > 0 && Rewrite(rule, y)[0] == y[0]
    ensures Rewrite(rule, y) == [y[0]] + Rewrite(rule, y[1..])
  {
    FramePrefixFirst(y);
    assert Match(rule, y).None?;
  }

  lemma FramePrefixFirst(y: string)
    ensures StartsWith(y, FramePrefix) ==> |y| > 0 && IsWordChar(y[0])
  {
    assert FramePrefix[0] == 'f';
    assert StartsWith(y, FramePrefix) ==> y[0] == y[..|FramePrefix|][0];
  }

  lemma StepSplit(rule: Rule, x: string, y: string)
    requires WellFormed(rule) && |y| > 0 && !IsWordChar(y[0])
    ensures Rewrite(rule, x + y) == Rewrite(rule, x) + Rewrite(rule, y)
    ensures |Rewrite(rule, y)| > 0 && !IsWordChar(Rewrite(rule, y)[0])
  {
    RewriteSplit(rule, x, y);
    RewriteKeepsBarrier(rule, y);
  }

  /** The whole chain rewrites the two sides of a non-pattern character
      separately. */
  lemma ChainSplit(x: string, y: string)
    requires |y| > 0 && !IsWordChar(y[0])
    ensures OpenFrameTags(x + y) == OpenFrameTags(x) + OpenFrameTags(y)
  {
    ChainUnfold(x + y);
    ChainUnfold(x);
    ChainUnfold(y);
    ChainWellFormed();
    var x1, y1 := Rewrite(ImageRule, x), Rewrite(ImageRule, y);
    StepSplit(ImageRule, x, y);
    var x2, y2 := Rewrite(ButtonRule, x1), Rewrite(ButtonRule, y1);
    StepSplit(ButtonRule, x1, y1);
    var x3, y3 := Rewrite(ActionRule, x2), Rewrite(ActionRule, y2);
    StepSplit(ActionRule, x2, y2);
    var x4, y4 := Rewrite(TargetRule, x3), Rewrite(TargetRule, y3);
    StepSplit(TargetRule, x3, y3);
    var x5, y5 := Rewrite(InputRule, x4), Rewrite(InputRule, y4);
    StepSplit(InputRule, x4, y4);
    var x6, y6 := Rewrite(AspectRule, x5), Rewrite(AspectRule, y5);
    StepSplit(AspectRule, x5, y5);
    StepSplit(StateRule, x6, y6);
  }

  /** A non-pattern character in front of a text goes through unchanged. */
  lemma ChainCons(c: char, k: string)
    requires !IsWordChar(c)
    ensures OpenFrameTags([c] + k) == [c] + OpenFrameTags(k)
  {
    ChainUnfold([c] + k);
    ChainUnfold(k);
    ChainWellFormed();
    RewriteKeepsBarrier(ImageRule, [c] + k);
    assert ([c] + k)[1..] == k;
    var t1 := Rewrite(ImageRule, k);
    RewriteKeepsBarrier(ButtonRule, [c] + t1);
    assert ([c] + t1)[1..] == t1;
    var t2 := Rewrite(ButtonRule, t1);
    RewriteKeepsBarrier(ActionRule, [c] + t2);
    assert ([c] + t2)[1..] == t2;
    var t3 := Rewrite(ActionRule, t2);
    RewriteKeepsBarrier(TargetRule, [c] + t3);
    assert ([c] + t3)[1..] == t3;
    var t4 := Rewrite(TargetRule, t3);
    RewriteKeepsBarrier(InputRule, [c] + t4);
    assert ([c] + t4)[1..] == t4;
    var t5 := Rewrite(InputRule, t4);
    RewriteKeepsBarrier(AspectRule, [c] + t5);
    assert ([c] + t5)[1..] == t5;
    var t6 := Rewrite(AspectRule, t5);
    RewriteKeepsBarrier(StateRule, [c] + t6);
    assert ([c] + t6)[1..] == t6;
  }

  /** The rewritten form of each tag, in order. */
  function RewriteEach(tags: seq<string>): (r: seq<string>)
    ensures |r| == |tags|
    ensures forall i :: 0 <= i < |tags| ==> r[i] == OpenFrameTags(tags[i])
  {
    if |tags| == 0 then [] else [OpenFrameTags(tags[0])] + RewriteEach(tags[1..])
  }

  /** Rewriting the joined tags is joining the rewritten tags: no
      substitution reaches across the `<` that opens a tag. */
  lemma {:induction false} TagwiseRewrite(tags: seq<string>)
    requires forall i :: 0 <= i < |tags| ==> |tags[i]| > 0 && tags[i][0] == '<'
    ensures OpenFrameTags(Concat(tags)) == Concat(RewriteEach(tags))
  {
    if |tags| == 0 {
      ChainUnfold([]);
    } else {
      var rest := Concat(tags[1..]);
      TagwiseRewrite(tags[1..]);
      if |tags| == 1 {
        assert rest == [];
        assert Concat(tags) == tags[0] + rest == tags[0];
        ChainUnfold([]);
      } else {
        assert rest == tags[1] + Concat(tags[2..]);
        ChainSplit(tags[0], rest);
      }
    }
  }

  // ---------------------------------------------------------------------------
  // The frame keys

  const TagOpen: string := "<meta property="
  const TagMiddle: string := "\" content="
  const TagClose: string := "\"/>"

  /** `<meta property="key" content="value"/>` */
  function PropertyTag(key: string, value: string): string {
    TagOpen + (("\"" + key) + (TagMiddle + (("\"" + value) + TagClose)))
  }

  lemma TagPiecesFixed()
    ensures OpenFrameTags(TagOpen) == TagOpen
    ensures OpenFrameTags(TagMiddle) == TagMiddle
    ensures OpenFrameTags(TagClose) == TagClose
  {
    assert FcFree(TagOpen);
    assert FcFree(TagMiddle);
    assert FcFree(TagClose);
    FcFreeFixed(TagOpen);
    FcFreeFixed(TagMiddle);
    FcFreeFixed(TagClose);
  }

  lemma ChainOnQuoted(x: string)
    ensures OpenFrameTags("\"" + x) == "\"" + OpenFrameTags(x)
  {
    assert "\"" + x == ['"'] + x;
    ChainCons('"', x);
  }

  /** Inside a property tag the chain rewrites the key and the value and
      nothing else. */
  lemma ChainOnPropertyTag(key: string, value: string)
    ensures OpenFrameTags(PropertyTag(key, value)) == PropertyTag(OpenFrameTags(key), OpenFrameTags(value))
  {
    var v := "\"" + value;
    var k := "\"" + key;
    var tail := v + TagClose;
    var mid := TagMiddle + tail;
    var rest := k + mid;
    assert TagClose[0] == '"' && TagMiddle[0] == '"';
    ChainSplit(v, TagClose);
    ChainSplit(TagMiddle, tail);
    ChainSplit(k, mid);
    ChainSplit(TagOpen, rest);
    ChainOnQuoted(key);
    ChainOnQuoted(value);
    TagPiecesFixed();
  }

  /** Text in which no `f` is followed by `c` goes through the chain unchanged. */
  lemma FcFreeFixed(t: string)
    requires FcFree(t)
    ensures OpenFrameTags(t) == t
  {
    FcFreeHasNoPrefix(t);
  }

  lemma RuleFixesFcFree(rule: Rule, t: string)
    requires WellFormed(rule) && FcFree(t)
    ensures Rewrite(rule, t) == t
  {
    FcFreeHasNoPrefix(t);
    RewriteWithoutPrefix(rule, t);
  }

  /** A rule that does not match at the start of a text whose remainder holds
      no pattern leaves the text as it is. */
  lemma RuleSkipsFirst(rule: Rule, s: string)
    requires WellFormed(rule) && |s| > 0 && Match(rule, s).None? && FcFree(s[1..])
    ensures Rewrite(rule, s) == s
  {
    RuleFixesFcFree(rule, s[1..]);
  }

  /** The links after the image link leave `fc`-free text alone. */
  lemma LaterLinksFix(t: string)
    requires FcFree(t)
    ensures Rewrite(StateRule, Rewrite(AspectRule, Rewrite(InputRule,
      Rewrite(TargetRule, Rewrite(ActionRule, Rewrite(ButtonRule, t)))))) == t
  {
    ChainWellFormed();
    RuleFixesFcFree(ButtonRule, t);
    RuleFixesFcFree(ActionRule, t);
    RuleFixesFcFree(TargetRule, t);
    RuleFixesFcFree(InputRule, t);
    RuleFixesFcFree(AspectRule, t);
    RuleFixesFcFree(StateRule, t);
  }

  /** `fc:frame:image` followed by text holding no `fc` becomes `of:image`
      followed by the same text; with `:aspect_ratio` as that text this is the
      aspect-ratio key, which the image link has already rewritten when the
      aspect-ratio link runs. */
  lemma ImageKeysMapped(rest: string)
    requires FcFree(rest)
    ensures OpenFrameTags(ImageKey + rest) == "of:image" + rest
  {
    ChainUnfold(ImageKey + rest);
    ImageRuleWellFormed();
    LinkAtStart(ImageRule, ImageKey + rest, rest);
    assert FcFree("of:image");
    FcFreeConcat("of:image", rest);
    LaterLinksFix("of:image" + rest);
  }

  /** A literal link on a text that opens with its pattern and holds no
      other site. */
  lemma LinkAtStart(rule: Rule, key: string, rest: string)
    requires rule.Literal? && WellFormed(rule)
    requires key == rule.pattern + rest && FcFree(rest)
    ensures Rewrite(rule, key) == rule.replacement + rest
  {
    var n := |rule.pattern|;
    assert key[..n] == rule.pattern;
    assert Match(rule, key) == Some(Hit(n, rule.replacement));
    assert key[n..] == rest;
    RuleFixesFcFree(rule, rest);
  }

  /** Two texts without `fc` joined hold no `fc`: a text without `fc` cannot
      end in `f`. */
  lemma FcFreeConcat(a: string, b: string)
    requires FcFree(a) && FcFree(b)
    ensures FcFree(a + b)
  {
    forall i | 0 <= i < |a + b| && (a + b)[i] == 'f'
      ensures i + 1 < |a + b| && (a + b)[i + 1] != 'c'
    {
      if i < |a| {
        assert (a + b)[i] == a[i];
        assert (a + b)[i + 1] == a[i + 1];
      } else {
        assert (a + b)[i] == b[i - |a|];
        assert (a + b)[i + 1] == b[i + 1 - |a|];
      }
    }
  }

  /** A link that does not match at the start of `key + rest` leaves it
      alone when no pattern can start after the first character. */
  lemma LinkSkipsKey(rule: Rule, key: string, rest: string)
    requires WellFormed(rule) && |key| > 0 && FcFree(key[1..]) && FcFree(rest)
    requires Match(rule, key + rest).None?
    ensures Rewrite(rule, key + rest) == key + rest
  {
    TailFcFree(key, rest);
    RuleSkipsFirst(rule, key + rest);
  }

  lemma TailFcFree(key: string, rest: string)
    requires |key| > 0 && FcFree(key[1..]) && FcFree(rest)
    ensures FcFree((key + rest)[1..])
  {
    assert (key + rest)[1..] == key[1..] + rest;
    FcFreeConcat(key[1..], rest);
  }

  /** `fc:frame:button:<digits><suffix>` becomes `of:button:<digits><suffix>`
      through the first button link; this covers the `:action` and
      `:target` forms. */
  lemma ButtonKeysMapped(digits: string, sfx: string)
    requires |digits| > 0 && AllDigits(digits)
    requires sfx in {"", ":action", ":target"}
    ensures OpenFrameTags(ButtonKey + digits + sfx) == ButtonOut + digits + sfx
  {
    SuffixFacts(sfx);
    ButtonFormMapped(digits, sfx);
  }

  /** The same for any suffix without an `f` or a digit. */
  lemma ButtonFormMapped(digits: string, sfx: string)
    requires |digits| > 0 && AllDigits(digits)
    requires forall k :: 0 <= k < |sfx| ==> sfx[k] != 'f' && !IsDigit(sfx[k])
    ensures OpenFrameTags(ButtonKey + digits + sfx) == ButtonOut + digits + sfx
  {
    var tail := digits + sfx;
    ChainUnfold(ButtonKey + tail);
    assert ButtonKey + digits + sfx == ButtonKey + tail;
    assert ButtonOut + digits + sfx == ButtonOut + tail;
    DigitsThenSuffixHaveNoF(digits, sfx);
    ImageLinkSkipsButtonKey(tail);
    ButtonLinkOnButtonKey(digits, sfx);
    ButtonKeyFacts();
    FcFreeAppend(ButtonOut, tail);
    LaterButtonLinksFix(ButtonOut + tail);
  }

  lemma DigitsThenSuffixHaveNoF(digits: string, sfx: string)
    requires AllDigits(digits)
    requires forall k :: 0 <= k < |sfx| ==> sfx[k] != 'f'
    ensures forall k :: 0 <= k < |digits + sfx| ==> (digits + sfx)[k] != 'f'
  {
    forall k | 0 <= k < |digits + sfx|
      ensures (digits + sfx)[k] != 'f'
    {
      if k < |digits| {
        assert (digits + sfx)[k] == digits[k];
      } else {
        assert (digits + sfx)[k] == sfx[k - |digits|];
      }
    }
  }

  lemma LaterButtonLinksFix(t: string)
    requires FcFree(t)
    ensures Rewrite(StateRule, Rewrite(AspectRule, Rewrite(InputRule,
      Rewrite(TargetRule, Rewrite(ActionRule, t))))) == t
  {
    ChainWellFormed();
    RuleFixesFcFree(ActionRule, t);
    RuleFixesFcFree(TargetRule, t);
    RuleFixesFcFree(InputRule, t);
    RuleFixesFcFree(AspectRule, t);
    RuleFixesFcFree(StateRule, t);
  }

  lemma SuffixFacts(sfx: string)
    requires sfx in {"", ":action", ":target"}
    ensures forall k :: 0 <= k < |sfx| ==> sfx[k] != 'f' && !IsDigit(sfx[k])
  {
  }

  /** The image link does not fire on a button key. */
  lemma ImageLinkSkipsButtonKey(tail: string)
    requires forall k :: 0 <= k < |tail| ==> tail[k] != 'f'
    ensures Rewrite(ImageRule, ButtonKey + tail) == ButtonKey + tail
  {
    ButtonKeyPieces(tail);
    ImageRuleWellFormed();
    RuleSkipsFirst(ImageRule, ButtonKey + tail);
  }

  /** A button key is no image key, and what follows its first character
      holds no pattern. */
  lemma ButtonKeyPieces(tail: string)
    requires forall k :: 0 <= k < |tail| ==> tail[k] != 'f'
    ensures Match(ImageRule, ButtonKey + tail).None?
    ensures FcFree((ButtonKey + tail)[1..])
  {
    var s := ButtonKey + tail;
    assert StartsWith(s, ButtonKey);
    ButtonKeyNotImageKey(s);
    assert s[1..] == ButtonKey[1..] + tail;
    ButtonKeyTailFcFree();
    FcFreeAppend(ButtonKey[1..], tail);
  }

  lemma ButtonKeyNotImageKey(s: string)
    requires StartsWith(s, ButtonKey)
    ensures Match(ImageRule, s).None?
  {
    assert s[13] == ButtonKey[13] == 'o';
    assert ImageKey[13] == 'e';
    assert !StartsWith(s, ImageKey);
  }

  lemma ButtonKeyTailFcFree()
    ensures FcFree(ButtonKey[1..])
  {
  }

  /** The first button link turns the key into its Open Frames form. */
  lemma ButtonLinkOnButtonKey(digits: string, sfx: string)
    requires |digits| > 0 && AllDigits(digits)
    requires forall k :: 0 <= k < |sfx| ==> sfx[k] != 'f' && !IsDigit(sfx[k])
    ensures Rewrite(ButtonRule, ButtonKey + (digits + sfx)) == ButtonOut + (digits + sfx)
  {
    ButtonMatchOnKey(digits, sfx);
    SuffixUntouched(sfx);
    ButtonKeyRest(digits, sfx);
    RewriteAfterHit(ButtonRule, ButtonKey + (digits + sfx), Hit(|ButtonKey| + |digits|, ButtonOut + digits), sfx);
  }

  lemma ButtonKeyRest(digits: string, sfx: string)
    ensures (ButtonKey + (digits + sfx))[|ButtonKey| + |digits|..] == sfx
    ensures ButtonOut + digits + sfx == ButtonOut + (digits + sfx)
  {
  }

  /** A site followed by text the rule leaves alone. */
  lemma RewriteAfterHit(rule: Rule, s: string, h: Hit, rest: string)
    requires |s| > 0 && Match(rule, s) == Some(h)
    requires s[h.consumed..] == rest && Rewrite(rule, rest) == rest
    ensures Rewrite(rule, s) == h.emitted + rest
  {
  }

  lemma SuffixUntouched(sfx: string)
    requires forall k :: 0 <= k < |sfx| ==> sfx[k] != 'f'
    ensures Rewrite(ButtonRule, sfx) == sfx
  {
    assert WellFormed(ButtonRule);
    assert FcFree(sfx);
    RuleFixesFcFree(ButtonRule, sfx);
  }

  lemma ButtonMatchOnKey(digits: string, sfx: string)
    requires |digits| > 0 && AllDigits(digits)
    requires forall k :: 0 <= k < |sfx| ==> sfx[k] != 'f' && !IsDigit(sfx[k])
    ensures Match(ButtonRule, ButtonKey + (digits + sfx)) == Some(Hit(|ButtonKey| + |digits|, ButtonOut + digits))
  {
    var s := ButtonKey + (digits + sfx);
    var k := |ButtonKey|;
    assert s[..k] == ButtonKey;
    assert s[k..] == digits + sfx;
    if |sfx| > 0 {
      DigitRunSplit(digits, sfx);
    } else {
      assert digits + sfx == digits;
    }
    assert DigitRun(s[k..]) == |digits|;
    assert s[k..k + |digits|] == digits;
    assert StartsWith(s[k + |digits|..], "");
    assert ButtonRule.suffix == "";
    assert ButtonOut + s[k..k + |digits|] + "" == ButtonOut + digits;
  }

  const InputKey: string := "fc:frame:input:text"
  const StateKey: string := "fc:frame:state"

  /** `fc:frame:input:text` followed by text holding no `fc` becomes
      `of:input:text` followed by the same text. */
  lemma InputKeysMapped(rest: string)
    requires FcFree(rest)
    ensures OpenFrameTags(InputKey + rest) == "of:input:text" + rest
  {
    var s := InputKey + rest;
    ChainUnfold(s);
    ChainWellFormed();
    InputKeyOpensNoEarlierLink(rest);
    LinkSkipsKey(ImageRule, InputKey, rest);
    LinkSkipsKey(ButtonRule, InputKey, rest);
    LinkSkipsKey(ActionRule, InputKey, rest);
    LinkSkipsKey(TargetRule, InputKey, rest);
    LinkAtStart(InputRule, s, rest);
    var t := "of:input:text" + rest;
    assert FcFree("of:input:text");
    FcFreeConcat("of:input:text", rest);
    RuleFixesFcFree(AspectRule, t);
    RuleFixesFcFree(StateRule, t);
  }

  lemma InputKeyOpensNoEarlierLink(rest: string)
    ensures FcFree(InputKey[1..])
    ensures Match(ImageRule, InputKey + rest).None?
    ensures Match(ButtonRule, InputKey + rest).None?
    ensures Match(ActionRule, InputKey + rest).None?
    ensures Match(TargetRule, InputKey + rest).None?
  {
    var s := InputKey + rest;
    assert s[10] == InputKey[10] == 'n' && ImageKey[10] == 'm';
    assert !StartsWith(s, ImageKey);
    ButtonKeyNinth(s);
    assert s[9] == InputKey[9] == 'i';
  }

  /** `fc:frame:state` followed by text holding no `fc` becomes `of:state`
      followed by the same text. */
  lemma StateKeysMapped(rest: string)
    requires FcFree(rest)
    ensures OpenFrameTags(StateKey + rest) == "of:state" + rest
  {
    var s := StateKey + rest;
    ChainUnfold(s);
    ChainWellFormed();
    StateKeyOpensNoEarlierLink(rest);
    LinkSkipsKey(ImageRule, StateKey, rest);
    LinkSkipsKey(ButtonRule, StateKey, rest);
    LinkSkipsKey(ActionRule, StateKey, rest);
    LinkSkipsKey(TargetRule, StateKey, rest);
    LinkSkipsKey(InputRule, StateKey, rest);
    LinkSkipsKey(AspectRule, StateKey, rest);
    LinkAtStart(StateRule, s, rest);
  }

  lemma StateKeyOpensNoEarlierLink(rest: string)
    ensures FcFree(StateKey[1..])
    ensures Match(ImageRule, StateKey + rest).None?
    ensures Match(ButtonRule, StateKey + rest).None?
    ensures Match(ActionRule, StateKey + rest).None?
    ensures Match(TargetRule, StateKey + rest).None?
    ensures Match(InputRule, StateKey + rest).None?
    ensures Match(AspectRule, StateKey + rest).None?
  {
    var s := StateKey + rest;
    assert s[9] == StateKey[9] == 's';
    assert ImageKey[9] == 'i' && InputKey[9] == 'i' && AspectRule.pattern[9] == 'i';
    assert !StartsWith(s, ImageKey);
    assert !StartsWith(s, InputKey);
    assert !StartsWith(s, AspectRule.pattern);
    ButtonKeyNinth(s);
  }

  lemma ButtonKeyNinth(x: string)
    ensures StartsWith(x, ButtonKey) ==> 9 < |x| && x[9] == 'b'
  {
    assert ButtonKey[9] == 'b';
    assert StartsWith(x, ButtonKey) ==> x[9] == x[..|ButtonKey|][9];
  }

  const BareFrameKey: string := "fc:frame"
  const OgImageKey: string := "og:image"

  /** The bare `fc:frame` key, when no `:` follows it, and the `og:image` key
      are left alone, whatever `fc`-free text follows them; the mapping
      comment pairs `fc:frame` with `of:accepts:farcaster`, but no link
      rewrites it. */
  lemma UnmappedKeysKept(rest: string)
    requires FcFree(rest)
    ensures !StartsWith(rest, ":") ==> OpenFrameTags(BareFrameKey + rest) == BareFrameKey + rest
    ensures OpenFrameTags(OgImageKey + rest) == OgImageKey + rest
  {
    assert FcFree(OgImageKey);
    FcFreeConcat(OgImageKey, rest);
    FcFreeFixed(OgImageKey + rest);
    if !StartsWith(rest, ":") {
      BareKeyHasNoPrefix(rest);
    }
  }

  lemma BareKeyHasNoPrefix(rest: string)
    requires FcFree(rest) && !StartsWith(rest, ":")
    ensures Absent(BareFrameKey + rest, FramePrefix)
  {
    var s := BareFrameKey + rest;
    FcFreeHasNoPrefix(rest);
    forall i | 0 <= i <= |s|
      ensures !StartsWith(s[i..], FramePrefix)
    {
      if i == 0 {
        if |rest| > 0 {
          assert s[8] == rest[0] != ':';
        }
      } else if i < 8 {
        assert s[..8] == BareFrameKey;
        if i == 3 {
          assert s[i + 1] == 'r';
        } else {
          assert s[i] != 'f';
        }
      } else {
        assert s[i..] == rest[i - 8..];
      }
    }
  }
}
