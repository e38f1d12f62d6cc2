/** Texts reduced to one class of characters with single inner underscores: the substitution and
    stripping that src/snarkyctl/static/dashboard.js and src/snarkyctl/providers/nordvpn.py share. */
module Slug {

  /** No two adjacent underscores. */
  predicate Neat(text: string) {
    forall i :: 0 <= i < |text| - 1 ==> text[i] != '_' || text[i + 1] != '_'
  }

  /** Letters and digits; capital letters only when `cased`. */
  predicate Kept(cased: bool, c: char) {
    'a' <= c <= 'z' || '0' <= c <= '9' || (cased && 'A' <= c <= 'Z')
  }

  /** Kept characters and underscores only. */
  predicate Within(cased: bool, text: string) {
    forall c :: c in text ==> Kept(cased, c) || c == '_'
  }

  predicate Bare(text: string) {
    text != [] ==> text[0] != '_' && text[|text| - 1] != '_'
  }

  function Skip(cased: bool, text: string): (rest: string)
    ensures |rest| <= |text|
    ensures rest == [] || Kept(cased, rest[0])
  {
    if text == [] || Kept(cased, text[0]) then text else Skip(cased, text[1..])
  }

  /** Each run of other characters becomes one underscore. */
  function Collapse(cased: bool, text: string): (result: string)
    ensures Within(cased, result)
    decreases |text|
  {
    if text == [] then ""
    else if Kept(cased, text[0]) then [text[0]] + Collapse(cased, text[1..])
    else "_" + Collapse(cased, Skip(cased, text[1..]))
  }

  /** Underscores stripped from the end. */
  function StripEnd(text: string): (result: string)
    ensures result <= text
    ensures result != [] ==> result[|result| - 1] != '_'
    ensures text != [] && text[0] != '_' ==> result != []
  {
    if text == [] || text[|text| - 1] != '_' then text else StripEnd(text[..|text| - 1])
  }

  /** Underscores stripped from the start. */
  function StripStart(text: string): (result: string)
    ensures forall c :: c in result ==> c in text
    ensures result != [] ==> result[0] != '_'
  {
    if text == [] || text[0] != '_' then text else StripStart(text[1..])
  }

  function Slugged(cased: bool, text: string): (slug: string)
    ensures Within(cased, slug) && Bare(slug)
  {
    var started := StripStart(Collapse(cased, text));
    var slug := StripEnd(started);
    assert forall c :: c in slug ==> c in started;
    slug
  }

  // ---------------------------------------------------------------- What slugging keeps

  /** The kept characters of a text, in order. */
  function OnlyKept(cased: bool, text: string): (kept: string)
    ensures (forall c :: c in text ==> Kept(cased, c)) ==> kept == text
    ensures (forall c :: c in text ==> !Kept(cased, c)) ==> kept == ""
  {
    if text == [] then ""
    else
      assert text == [text[0]] + text[1..];
      if Kept(cased, text[0]) then [text[0]] + OnlyKept(cased, text[1..]) else OnlyKept(cased, text[1..])
  }

  lemma {:induction false} OnlyKeptSplits(cased: bool, left: string, right: string)
    ensures OnlyKept(cased, left + right) == OnlyKept(cased, left) + OnlyKept(cased, right)
  {
    if left == [] {
      assert left + right == right;
    } else {
      assert (left + right)[1..] == left[1..] + right;
      OnlyKeptSplits(cased, left[1..], right);
    }
  }

  lemma {:induction false} SkipDropsOthers(cased: bool, text: string)
    ensures OnlyKept(cased, Skip(cased, text)) == OnlyKept(cased, text)
  {
    if text != [] && !Kept(cased, text[0]) { SkipDropsOthers(cased, text[1..]); }
  }

  lemma {:induction false} CollapseKeepsKept(cased: bool, text: string)
    ensures OnlyKept(cased, Collapse(cased, text)) == OnlyKept(cased, text)
    decreases |text|
  {
    if text != [] {
      if Kept(cased, text[0]) {
        CollapseKeepsKept(cased, text[1..]);
      } else {
        SkipDropsOthers(cased, text[1..]);
        CollapseKeepsKept(cased, Skip(cased, text[1..]));
      }
    }
  }

  lemma {:induction false} EndDropsUnderscores(text: string)
    ensures exists tail :: text == StripEnd(text) + tail && forall c :: c in tail ==> c == '_'
  {
    if text == [] || text[|text| - 1] != '_' {
      assert text == StripEnd(text) + "";
    } else {
      EndDropsUnderscores(text[..|text| - 1]);
      var tail :| text[..|text| - 1] == StripEnd(text[..|text| - 1]) + tail && forall c :: c in tail ==> c == '_';
      assert text == StripEnd(text) + (tail + "_");
    }
  }

  lemma {:induction false} StartDropsUnderscores(cased: bool, text: string)
    ensures OnlyKept(cased, StripStart(text)) == OnlyKept(cased, text)
  {
    if text != [] && text[0] == '_' { StartDropsUnderscores(cased, text[1..]); }
  }

  /** Slugging loses and invents nothing: the kept characters come through in order. */
  lemma SluggedKeepsKept(cased: bool, text: string)
    ensures OnlyKept(cased, Slugged(cased, text)) == OnlyKept(cased, text)
  {
    var collapsed := Collapse(cased, text);
    var started := StripStart(collapsed);
    CollapseKeepsKept(cased, text);
    StartDropsUnderscores(cased, collapsed);
    EndDropsUnderscores(started);
    var tail :| started == StripEnd(started) + tail && forall c :: c in tail ==> c == '_';
    OnlyKeptSplits(cased, StripEnd(started), tail);
  }

  /** A run of other characters becomes one underscore, whatever its length. */
  lemma {:induction false} RunCollapses(cased: bool, run: string)
    requires run != [] && forall c :: c in run ==> !Kept(cased, c)
    ensures Collapse(cased, run) == "_"
  {
    SkipsRun(cased, run[1..], "");
    assert run[1..] + "" == run[1..];
  }

  lemma {:induction false} SkipsRun(cased: bool, run: string, rest: string)
    requires forall c :: c in run ==> !Kept(cased, c)
    ensures Skip(cased, run + rest) == Skip(cased, rest)
  {
    if run == [] {
      assert run + rest == rest;
    } else {
      assert (run + rest)[1..] == run[1..] + rest;
      SkipsRun(cased, run[1..], rest);
    }
  }

  lemma {:induction false} SkipSplits(cased: bool, left: string, right: string)
    requires left != [] && Kept(cased, left[|left| - 1])
    ensures Skip(cased, left) != [] && Skip(cased, left)[|Skip(cased, left)| - 1] == left[|left| - 1]
    ensures Skip(cased, left + right) == Skip(cased, left) + right
  {
    if !Kept(cased, left[0]) {
      assert (left + right)[1..] == left[1..] + right;
      SkipSplits(cased, left[1..], right);
    }
  }

  /** What is left after the first character, or after the run of others that it begins. */
  function RestOf(cased: bool, text: string): (rest: string)
    requires text != []
    ensures |rest| < |text|
  {
    if Kept(cased, text[0]) then text[1..] else Skip(cased, text[1..])
  }

  lemma CollapseStep(cased: bool, text: string)
    requires text != []
    ensures Collapse(cased, text) ==
      [if Kept(cased, text[0]) then text[0] else '_'] + Collapse(cased, RestOf(cased, text))
  {
  }

  lemma RestSplits(cased: bool, left: string, right: string)
    requires left != [] && Kept(cased, left[|left| - 1])
    ensures RestOf(cased, left + right) == RestOf(cased, left) + right
    ensures RestOf(cased, left) == [] || Kept(cased, RestOf(cased, left)[|RestOf(cased, left)| - 1])
  {
    assert (left + right)[1..] == left[1..] + right;
    if !Kept(cased, left[0]) { SkipSplits(cased, left[1..], right); }
  }

  lemma Regroup(c: char, first: string, second: string)
    ensures [c] + (first + second) == ([c] + first) + second
  {
  }

  /** After a kept character a new run begins: the parts collapse on their own. */
  lemma {:induction false} CollapseSplits(cased: bool, left: string, right: string)
    requires left == [] || Kept(cased, left[|left| - 1])
    ensures Collapse(cased, left + right) == Collapse(cased, left) + Collapse(cased, right)
    decreases |left|
  {
    if left == [] {
      assert left + right == right;
    } else {
      var first, rest := if Kept(cased, left[0]) then left[0] else '_', RestOf(cased, left);
      calc {
        Collapse(cased, left + right);
        { CollapseStep(cased, left + right); RestSplits(cased, left, right); }
        [first] + Collapse(cased, rest + right);
        { RestSplits(cased, left, right); CollapseSplits(cased, rest, right); }
        [first] + (Collapse(cased, rest) + Collapse(cased, right));
        { Regroup(first, Collapse(cased, rest), Collapse(cased, right)); }
        ([first] + Collapse(cased, rest)) + Collapse(cased, right);
        { CollapseStep(cased, left); }
        Collapse(cased, left) + Collapse(cased, right);
      }
    }
  }

  // ---------------------------------------------------------------- Fixpoints

  /** Runs collapse to single underscores, and a kept first character stays. */
  lemma {:induction false} CollapseIsNeat(cased: bool, text: string)
    ensures Neat(Collapse(cased, text))
    ensures text != [] && Kept(cased, text[0]) ==> Collapse(cased, text) != [] && Collapse(cased, text)[0] == text[0]
    decreases |text|
  {
    if text != [] {
      CollapseIsNeat(cased, if Kept(cased, text[0]) then text[1..] else Skip(cased, text[1..]));
    }
  }

  lemma SliceIsNeat(text: string, from: nat, to: nat)
    requires Neat(text) && from <= to <= |text|
    ensures Neat(text[from..to])
  {
    var slice := text[from..to];
    assert forall i :: 0 <= i < |slice| ==> slice[i] == text[from + i];
  }

  lemma {:induction false} CollapseOfNeat(cased: bool, text: string)
    requires Within(cased, text) && Neat(text)
    ensures Collapse(cased, text) == text
  {
    if text != [] {
      SliceIsNeat(text, 1, |text|);
      assert text[1..|text|] == text[1..];
      CollapseOfNeat(cased, text[1..]);
      if text[0] == '_' && |text| > 1 {
        assert text[1] in text && Kept(cased, text[1]);
      }
      assert text[0] in text && text == [text[0]] + text[1..];
    }
  }

  lemma {:induction false} StartIsTail(text: string)
    ensures |StripStart(text)| <= |text| && StripStart(text) == text[|text| - |StripStart(text)|..]
  {
    if text != [] && text[0] == '_' { StartIsTail(text[1..]); }
  }

  lemma StartIsNeat(text: string)
    requires Neat(text)
    ensures Neat(StripStart(text))
  {
    var started := StripStart(text);
    StartIsTail(text);
    SliceIsNeat(text, |text| - |started|, |text|);
    assert text[|text| - |started|..|text|] == started;
  }

  lemma EndIsNeat(text: string)
    requires Neat(text)
    ensures Neat(StripEnd(text))
  {
    var stripped := StripEnd(text);
    assert stripped == text[0..|stripped|];
    SliceIsNeat(text, 0, |stripped|);
  }

  lemma SluggedIsNeat(cased: bool, text: string)
    ensures Neat(Slugged(cased, text))
  {
    CollapseIsNeat(cased, text);
    StartIsNeat(Collapse(cased, text));
    EndIsNeat(StripStart(Collapse(cased, text)));
  }

  /** Slugging leaves a text alone exactly when it is a slug already. */
  lemma SlugFixpoints(cased: bool, text: string)
    ensures Slugged(cased, text) == text <==> Within(cased, text) && Neat(text) && Bare(text)
  {
    SluggedIsNeat(cased, text);
    if Within(cased, text) && Neat(text) && Bare(text) { CollapseOfNeat(cased, text); }
  }
}
