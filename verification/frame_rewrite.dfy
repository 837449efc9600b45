/** The chain of `fc:frame:*` to `of:*` substitutions applied to the
    extracted meta tags. Each link is a left-to-right, non-overlapping
    substitution: `replaceAll` with a literal pattern, or `replace` with one of
    the global `fc:frame:button:(\d+)…` expressions. */
module FrameRewrite {
  import opened Wrappers
  import opened Text
  import opened Decimal

  /** Every pattern of the chain starts with this. */
  const FramePrefix: string := "fc:frame:"
  const ButtonKey: string := "fc:frame:button:"
  const ButtonOut: string := "of:button:"

  /** A literal `replaceAll(pattern, replacement)`, or the expression
      `/fc:frame:button:(\d+)<suffix>/g` replaced by `of:button:$1<suffix>`. */
  datatype Rule = Literal(pattern: string, replacement: string) | Button(suffix: string)

  /** One substitution site: how many characters it consumes and what it writes. */
  datatype Hit = Hit(consumed: nat, emitted: string)

  /** Characters that can appear in a pattern. */
  predicate IsWordChar(c: char) {
    'a' <= c <= 'z' || IsDigit(c) || c == ':' || c == '_'
  }

  predicate AllWord(s: string) {
    forall k :: 0 <= k < |s| ==> IsWordChar(s[k])
  }

  /** No `f` in `s` is followed by `c`, and `s` does not end in `f`: no
      occurrence of a pattern can start inside `s`. */
  predicate FcFree(s: string) {
    forall i :: 0 <= i < |s| && s[i] == 'f' ==> i + 1 < |s| && s[i + 1] != 'c'
  }

  /** No `o` in `s` is followed by `f`, and `s` does not end in `o`: no
      replacement text can start inside `s`. */
  predicate OfFree(s: string) {
    forall k :: 0 <= k < |s| && s[k] == 'o' ==> k + 1 < |s| && s[k + 1] != 'f'
  }

  /** `q` occurs nowhere in `s`. */
  predicate Absent(s: string, q: string) {
    forall i :: 0 <= i <= |s| ==> !StartsWith(s[i..], q)
  }

  /** Patterns start with `fc:frame:` and use word characters only;
      replacements start with `of` and cannot start a pattern. */
  predicate WellFormed(rule: Rule) {
    match rule
    case Literal(p, rep) =>
      StartsWith(p, FramePrefix) && AllWord(p) && |rep| >= 2 && rep[0] == 'o' && rep[1] == 'f' && FcFree(rep)
    case Button(sfx) =>
      AllWord(sfx) && forall k :: 0 <= k < |sfx| ==> sfx[k] != 'f'
  }

  /** Length of the longest run of digits at the start of `s` (`\d+` is greedy). */
  function DigitRun(s: string): (n: nat)
    ensures n <= |s|
    ensures forall k :: 0 <= k < n ==> IsDigit(s[k])
    ensures n < |s| ==> !IsDigit(s[n])
  {
    if |s| > 0 && IsDigit(s[0]) then 1 + DigitRun(s[1..]) else 0
  }

  /** Does `rule` match at the start of `s`? A shorter digit run can never be
      followed by the suffix, since the next character is a digit, so the
      greedy run is the only candidate. */
  function Match(rule: Rule, s: string): (r: Option<Hit>)
    ensures r.Some? ==> 1 <= r.value.consumed <= |s|
    ensures r.Some? && WellFormed(rule) ==> StartsWith(s, FramePrefix)
  {
    match rule
    case Literal(p, rep) =>
      if |p| > 0 && StartsWith(s, p) then
        PrefixOfPrefix(s, p, FramePrefix);
        Some(Hit(|p|, rep))
      else None
    case Button(sfx) =>
      if StartsWith(s, ButtonKey) then
        var d := DigitRun(s[|ButtonKey|..]);
        var end := |ButtonKey| + d;
        if d > 0 && StartsWith(s[end..], sfx) then
          assert s[..|FramePrefix|] == ButtonKey[..|FramePrefix|];
          Some(Hit(end + |sfx|, ButtonOut + s[|ButtonKey|..end] + sfx))
        else None
      else None
  }

  /** A text starting with `p` starts with every prefix of `p`. */
  lemma PrefixOfPrefix(s: string, p: string, q: string)
    requires StartsWith(s, p)
    ensures StartsWith(p, q) ==> StartsWith(s, q)
  {
    if StartsWith(p, q) {
      assert s[..|q|] == s[..|p|][..|q|];
    }
  }

  /** Substitute every site, scanning left to right; the text of a site is
      not scanned again. Every site of a well-formed rule starts with
      `fc:frame:`, so text in which that does not occur comes back
      unchanged. */
  function Rewrite(rule: Rule, s: string): (r: string)
    ensures WellFormed(rule) && Absent(s, FramePrefix) ==> r == s
    decreases |s|
  {
    if |s| == 0 then []
    else
      var h := Step(rule, s);
      CopyWithoutPrefix(rule, s);
      h.emitted + Rewrite(rule, s[h.consumed..])
  }

  /** Without `fc:frame:` a well-formed rule does not match, so the scan
      copies the first character and goes on with a text that lacks
      `fc:frame:` too. */
  lemma CopyWithoutPrefix(rule: Rule, s: string)
    requires |s| > 0
    ensures WellFormed(rule) && Absent(s, FramePrefix) ==>
      Step(rule, s) == Hit(1, [s[0]]) && Absent(s[1..], FramePrefix) && [s[0]] + s[1..] == s
  {
    if WellFormed(rule) && Absent(s, FramePrefix) {
      assert s[0..] == s;
      assert !StartsWith(s[0..], FramePrefix);
      forall i | 0 <= i <= |s[1..]|
        ensures !StartsWith(s[1..][i..], FramePrefix)
      {
        assert s[1..][i..] == s[i + 1..];
      }
    }
  }

  /** What the scan does at the start of `s`: substitute a site, or copy one
      character. */
  function Step(rule: Rule, s: string): (h: Hit)
    requires |s| > 0
    ensures 1 <= h.consumed <= |s|
  {
    match Match(rule, s)
    case Some(h) => h
    case None => Hit(1, [s[0]])
  }

  const ImageRule: Rule := Literal("fc:frame:image", "of:image")
  const ButtonRule: Rule := Button("")
  const ActionRule: Rule := Button(":action")
  const TargetRule: Rule := Button(":target")
  const InputRule: Rule := Literal("fc:frame:input:text", "of:input:text")
  const AspectRule: Rule := Literal("fc:frame:image:aspect_ratio", "of:image:aspect_ratio")
  const StateRule: Rule := Literal("fc:frame:state", "of:state")

  /** The links of the chain, in the order the middleware applies them. */
  const Links: seq<Rule> := [ImageRule, ButtonRule, ActionRule, TargetRule, InputRule, AspectRule, StateRule]

  /** Apply each link to the output of the one before. */
  function Chain(links: seq<Rule>, s: string): string
    decreases |links|
  {
    if |links| == 0 then s else Chain(links[1..], Rewrite(links[0], s))
  }

  /** The substitution chain of the middleware. Every pattern starts with
      `fc:frame:`, so text in which that does not occur passes unchanged. */
  function OpenFrameTags(metaTags: string): (r: string)
    ensures Absent(metaTags, FramePrefix) ==> r == metaTags
  {
    ChainWellFormed();
    ChainWithoutPrefix(Links, metaTags);
    Chain(Links, metaTags)
  }

  /** A chain of well-formed links leaves text without `fc:frame:` alone. */
  lemma {:induction false} ChainWithoutPrefix(links: seq<Rule>, s: string)
    requires forall i :: 0 <= i < |links| ==> WellFormed(links[i])
    ensures Absent(s, FramePrefix) ==> Chain(links, s) == s
    decreases |links|
  {
    if |links| > 0 && Absent(s, FramePrefix) {
      RewriteWithoutPrefix(links[0], s);
      ChainWithoutPrefix(links[1..], s);
    }
  }

  /** The chain written out link by link. */
  lemma ChainUnfold(s: string)
    ensures OpenFrameTags(s) == Rewrite(StateRule, Rewrite(AspectRule, Rewrite(InputRule,
      Rewrite(TargetRule, Rewrite(ActionRule, Rewrite(ButtonRule, Rewrite(ImageRule, s)))))))
  {
    var s1 := Rewrite(ImageRule, s);
    var s2 := Rewrite(ButtonRule, s1);
    var s3 := Rewrite(ActionRule, s2);
    var s4 := Rewrite(TargetRule, s3);
    var s5 := Rewrite(InputRule, s4);
    var s6 := Rewrite(AspectRule, s5);
    var s7 := Rewrite(StateRule, s6);
    assert Chain(Links[7..], s7) == s7;
    assert Chain(Links[6..], s6) == Chain(Links[7..], s7);
    assert Chain(Links[5..], s5) == Chain(Links[6..], s6);
    assert Chain(Links[4..], s4) == Chain(Links[5..], s5);
    assert Chain(Links[3..], s3) == Chain(Links[4..], s4);
    assert Chain(Links[2..], s2) == Chain(Links[3..], s3);
    assert Chain(Links[1..], s1) == Chain(Links[2..], s2);
    assert Chain(Links, s) == Chain(Links[1..], s1);
  }

  /** The chain with the three links that can never fire left out. */
  function EffectiveChain(metaTags: string): string {
    Rewrite(StateRule, Rewrite(InputRule, Rewrite(ButtonRule, Rewrite(ImageRule, metaTags))))
  }

  // ---------------------------------------------------------------------------
  // Facts about the constant patterns

  lemma ChainWellFormed()
    ensures WellFormed(ImageRule) && WellFormed(ButtonRule) && WellFormed(ActionRule) && WellFormed(TargetRule)
    ensures WellFormed(InputRule) && WellFormed(AspectRule) && WellFormed(StateRule)
    ensures AllWord(ButtonKey) && StartsWith(ButtonKey, FramePrefix) && FcFree(ButtonOut)
  {
    ImageRuleWellFormed();
    InputRuleWellFormed();
    AspectRuleWellFormed();
    StateRuleWellFormed();
    assert AllWord(ButtonKey);
    assert FcFree(ButtonOut);
  }

  lemma ImageRuleWellFormed()
    ensures WellFormed(ImageRule)
  {
    var p, rep := "fc:frame:image", "of:image";
    assert p[..9] == FramePrefix && rep[..2] == "of";
    assert AllWord(p);
    assert FcFree(rep);
    LiteralWellFormed(p, rep);
  }

  lemma InputRuleWellFormed()
    ensures WellFormed(InputRule)
  {
    var p, rep := "fc:frame:input:text", "of:input:text";
    assert p[..9] == FramePrefix && rep[..2] == "of";
    assert AllWord(p);
    assert FcFree(rep);
    LiteralWellFormed(p, rep);
  }

  lemma AspectRuleWellFormed()
    ensures WellFormed(AspectRule)
  {
    var p, rep := "fc:frame:image:aspect_ratio", "of:image:aspect_ratio";
    assert p[..9] == FramePrefix && rep[..2] == "of";
    AspectPatternWord(p);
    AspectReplacementFcFree(rep);
    LiteralWellFormed(p, rep);
  }

  lemma AspectPatternWord(p: string)
    requires p == "fc:frame:image:aspect_ratio"
    ensures AllWord(p)
  {
    assert forall k :: 0 <= k < |p| ==> IsWordChar(p[k]);
  }

  lemma AspectReplacementFcFree(rep: string)
    requires rep == "of:image:aspect_ratio"
    ensures FcFree(rep)
  {
    assert forall i :: 0 <= i < |rep| ==> rep[i] != 'f' || i == 1;
  }

  lemma StateRuleWellFormed()
    ensures WellFormed(StateRule)
  {
    var p, rep := "fc:frame:state", "of:state";
    assert p[..9] == FramePrefix && rep[..2] == "of";
    assert AllWord(p);
    assert FcFree(rep);
    LiteralWellFormed(p, rep);
  }

  /** A literal rule is well formed once its pattern and replacement are. */
  lemma LiteralWellFormed(p: string, rep: string)
    requires |p| >= 9 && p[..9] == FramePrefix && |rep| >= 2 && rep[..2] == "of"
    ensures AllWord(p) && FcFree(rep) ==> WellFormed(Literal(p, rep))
  {
    assert rep[0] == rep[..2][0] && rep[1] == rep[..2][1];
  }

  lemma ButtonKeyFacts()
    ensures AllWord(ButtonKey) && StartsWith(ButtonKey, FramePrefix) && FcFree(ButtonOut)
  {
  }

  lemma ButtonKeyDigitOfFree(d: char)
    requires IsDigit(d)
    ensures OfFree(ButtonKey + [d])
  {
    var q := ButtonKey + [d];
    assert OfFree(ButtonKey);
    forall k | 0 <= k < |q| && q[k] == 'o'
      ensures k + 1 < |q| && q[k + 1] != 'f'
    {
      assert k < |ButtonKey|;
      assert q[k] == ButtonKey[k];
    }
  }

  // ---------------------------------------------------------------------------
  // When a rule changes nothing

  /** A rule that matches nowhere leaves the text as it is. */
  lemma {:induction false} RewriteNoMatch(rule: Rule, s: string)
    requires forall i :: 0 <= i < |s| ==> Match(rule, s[i..]).None?
    ensures Rewrite(rule, s) == s
    decreases |s|
  {
    if |s| > 0 {
      assert Match(rule, s[0..]).None?;
      assert s[0..] == s;
      forall i | 0 <= i < |s[1..]|
        ensures Match(rule, s[1..][i..]).None?
      {
        assert s[1..][i..] == s[i + 1..];
      }
      RewriteNoMatch(rule, s[1..]);
    }
  }

  lemma RewriteWithoutPrefix(rule: Rule, s: string)
    requires WellFormed(rule) && Absent(s, FramePrefix)
    ensures Rewrite(rule, s) == s
  {
  }

  lemma FcFreeHasNoPrefix(s: string)
    requires FcFree(s)
    ensures Absent(s, FramePrefix)
  {
    forall i | 0 <= i <= |s|
      ensures !StartsWith(s[i..], FramePrefix)
    {
      if i + 1 < |s| && s[i] == 'f' {
        assert s[i..][1] == s[i + 1] != 'c';
      }
    }
  }
}
