/**
 The region replacement of mimic.py: `generate_new_content` rewrites the part
 of a target file delimited by the fixed tags `<!--MIMIC_START-->` and
 `<!--MIMIC_END-->` with the template's content, by one call to Python's
 `re.sub` with the pattern `START[\s\S]+END`.

 The pattern is read here directly (`IsMatch`), Python's choice among the
 matches is stated (`IsLeftmostLongest`, `ReSub`), and the model
 `GenerateNewContent`, written with substring search, is proved to agree
 with it. The quantifier `+` is greedy, so the region runs from the FIRST
 start tag to the LAST end tag that begins at least one character after it.
 */
module Mimic {
  import opened Text

  const StartComment: string := "<!--MIMIC_START-->"
  const EndComment: string := "<!--MIMIC_END-->"

  /** A match is the start tag, at least one character of any kind, then the end tag. */
  const MinMatchLength: nat := |StartComment| + 1 + |EndComment|

  /** The text that replaces a matched region: both tags around the template content, each on its own line. */
  function Replacement(source: string): (r: string)
    ensures |r| == |StartComment| + |source| + 2 + |EndComment|
  {
    StartComment + "\n" + source + "\n" + EndComment
  }

  /** The pattern `START[\s\S]+END` matches exactly `s[a..b]`. */
  predicate IsMatch(s: string, a: nat, b: nat)
  {
    && a + MinMatchLength <= b <= |s|
    && OccursAt(s, StartComment, a)
    && OccursAt(s, EndComment, b - |EndComment|)
  }

  ghost predicate HasMatch(s: string)
  {
    exists a: nat, b: nat :: IsMatch(s, a, b)
  }

  /**
   The match Python's regex engine reports: the one that starts leftmost and,
   among those starting there, the longest (a greedy `+` backtracks from the
   longest possible span, and `[\s\S]` accepts every character).
   */
  ghost predicate IsLeftmostLongest(s: string, a: nat, b: nat)
  {
    && IsMatch(s, a, b)
    && (forall a': nat, b': nat :: IsMatch(s, a', b') ==> a <= a')
    && (forall b': nat :: IsMatch(s, a, b') ==> b' <= b)
  }

  /** The span `[a, b)` of the region to replace, found by substring search: first start tag, last end tag after it. */
  function FindMatch(s: string): (m: Option<(nat, nat)>)
    ensures m.None? <==> !HasMatch(s)
    ensures m.Some? ==> IsLeftmostLongest(s, m.value.0, m.value.1)
  {
    match FirstIndexOf(s, StartComment)
    case None => NoMatchWithoutStart(s); None
    case Some(i) =>
      match LastIndexOfFrom(s, EndComment, i + |StartComment| + 1)
      case None => NoMatchWithoutEndAfter(s, i); None
      case Some(j) => LeftmostLongestOf(s, i, j); Some((i, j + |EndComment|))
  }

  /** Without a start tag the pattern matches nowhere. */
  lemma NoMatchWithoutStart(s: string)
    requires !Contains(s, StartComment)
    ensures !HasMatch(s)
  {
    forall a: nat, b: nat
      ensures !IsMatch(s, a, b)
    {
      assert IsMatch(s, a, b) ==> OccursAt(s, StartComment, a);
    }
  }

  /** Without an end tag beginning at least one character after the first start tag ends, the pattern matches nowhere. */
  lemma NoMatchWithoutEndAfter(s: string, i: nat)
    requires OccursAt(s, StartComment, i) && forall k: nat :: k < i ==> !OccursAt(s, StartComment, k)
    requires forall k: nat :: i + |StartComment| + 1 <= k ==> !OccursAt(s, EndComment, k)
    ensures !HasMatch(s)
  {
    forall a: nat, b: nat
      ensures !IsMatch(s, a, b)
    {
      if a + MinMatchLength <= b {
        assert OccursAt(s, StartComment, a) ==> i <= a;
      }
    }
  }

  /**
   The first start tag and the last end tag that begins at least one
   character after it delimit the leftmost-longest match.
   */
  lemma LeftmostLongestOf(s: string, i: nat, j: nat)
    requires OccursAt(s, StartComment, i) && forall k: nat :: k < i ==> !OccursAt(s, StartComment, k)
    requires i + |StartComment| + 1 <= j && OccursAt(s, EndComment, j)
    requires forall k: nat :: j < k ==> !OccursAt(s, EndComment, k)
    ensures IsLeftmostLongest(s, i, j + |EndComment|)
  {
    forall a': nat, b': nat | IsMatch(s, a', b')
      ensures i <= a' && (a' == i ==> b' <= j + |EndComment|)
    {
      assert OccursAt(s, StartComment, a');
      assert OccursAt(s, EndComment, b' - |EndComment|);
    }
  }

  /** No start tag occurs before the leftmost match. */
  lemma NoStartBefore(s: string, a: nat, b: nat)
    requires IsLeftmostLongest(s, a, b)
    ensures forall k: nat :: k < a ==> !OccursAt(s, StartComment, k)
  {
    forall k: nat | k < a
      ensures !OccursAt(s, StartComment, k)
    {
      assert OccursAt(s, StartComment, k) ==> IsMatch(s, k, b);
    }
  }

  /** No end tag begins after the one that closes the longest match. */
  lemma NoEndAfter(s: string, a: nat, b: nat)
    requires IsLeftmostLongest(s, a, b)
    ensures forall k: nat :: b - |EndComment| < k ==> !OccursAt(s, EndComment, k)
  {
    forall k: nat | b - |EndComment| < k
      ensures !OccursAt(s, EndComment, k)
    {
      var b': nat := k + |EndComment|;
      assert OccursAt(s, EndComment, k) ==> IsMatch(s, a, b');
    }
  }

  /** The leftmost-longest match is unique. */
  lemma OnlyLeftmostLongest(s: string, a: nat, b: nat)
    requires IsLeftmostLongest(s, a, b)
    ensures forall a': nat, b': nat :: IsLeftmostLongest(s, a', b') ==> a' == a && b' == b
  {
  }

  /**
   `generate_new_content(source_content, target_content)`: the leftmost-longest
   match of `START[\s\S]+END` in the target is replaced by `Replacement(source)`;
   a target without a match comes back unchanged. The source content must
   hold no backslash, since `re.sub` would read one as an escape.
   */
  function GenerateNewContent(source: string, target: string): (r: string)
    requires '\\' !in source
    ensures !HasMatch(target) ==> r == target
    ensures forall a: nat, b: nat :: IsLeftmostLongest(target, a, b) ==>
              r == target[..a] + Replacement(source) + target[b..]
  {
    match FindMatch(target)
    case None => target
    case Some((a, b)) =>
      OnlyLeftmostLongest(target, a, b);
      target[..a] + Replacement(source) + target[b..]
  }

  /** The reported match is what `GenerateNewContent` replaces. */
  lemma ReplacesMatch(source: string, target: string, a: nat, b: nat)
    requires '\\' !in source && IsLeftmostLongest(target, a, b)
    ensures GenerateNewContent(source, target) == target[..a] + Replacement(source) + target[b..]
  {
  }

  /** A leftmost-longest match exists whenever some match does. */
  lemma LeftmostLongestExists(s: string)
    requires HasMatch(s)
    ensures exists a: nat, b: nat :: IsLeftmostLongest(s, a, b)
  {
    var m := FindMatch(s);
    assert IsLeftmostLongest(s, m.value.0, m.value.1);
  }

  /**
   Python's `re.sub(START[\s\S]+END, repl, s)`: replace the leftmost-longest
   match, then go on searching the text after it.
   */
  ghost function ReSub(s: string, repl: string): string
    decreases |s|
  {
    if !HasMatch(s) then s
    else
      LeftmostLongestExists(s);
      var a: nat, b: nat :| IsLeftmostLongest(s, a, b);
      s[..a] + repl + ReSub(s[b..], repl)
  }

  /** After the leftmost-longest match nothing more matches, so `re.sub` replaces one region at most. */
  lemma NoMatchAfter(s: string, a: nat, b: nat)
    requires IsLeftmostLongest(s, a, b)
    ensures !HasMatch(s[b..])
  {
    NoEndAfter(s, a, b);
    forall a': nat, b': nat
      ensures !IsMatch(s[b..], a', b')
    {
      if b' >= |EndComment| {
        OccursInSuffix(s, b, EndComment, b' - |EndComment|);
      }
    }
  }

  /** `GenerateNewContent` is exactly what `re.sub` computes for the pattern and the replacement text. */
  lemma GenerateNewContentIsReSub(source: string, target: string)
    requires '\\' !in source
    ensures GenerateNewContent(source, target) == ReSub(target, Replacement(source))
  {
    if HasMatch(target) {
      LeftmostLongestExists(target);
      var a: nat, b: nat :| IsLeftmostLongest(target, a, b) && ReSub(target, Replacement(source)) ==
        target[..a] + Replacement(source) + ReSub(target[b..], Replacement(source));
      NoMatchAfter(target, a, b);
    }
  }

  /** A target without a start tag comes back unchanged. */
  lemma NoStartTagUnchanged(source: string, target: string)
    requires '\\' !in source && !Contains(target, StartComment)
    ensures GenerateNewContent(source, target) == target
  {
    NoMatchWithoutStart(target);
  }

  /**
   A target whose first start tag is not followed, at least one character
   after the tag ends, by an end tag comes back unchanged.
   */
  lemma NoEndTagAfterStartUnchanged(source: string, target: string, i: nat)
    requires '\\' !in source
    requires OccursAt(target, StartComment, i) && forall k: nat :: k < i ==> !OccursAt(target, StartComment, k)
    requires forall k: nat :: i + |StartComment| + 1 <= k ==> !OccursAt(target, EndComment, k)
    ensures GenerateNewContent(source, target) == target
  {
    NoMatchWithoutEndAfter(target, i);
  }

  /** Adjacent tags enclose no character, so `[\s\S]+` cannot match and nothing is replaced. */
  lemma AdjacentTagsUnchanged(source: string)
    requires '\\' !in source
    ensures GenerateNewContent(source, StartComment + EndComment) == StartComment + EndComment
  {
    var t := StartComment + EndComment;
    assert t[..|StartComment|] == StartComment;
    NoEndTagAfterStartUnchanged(source, t, 0);
  }

  /**
   With `i` the first start tag and `j` the last end tag beginning at least one
   character after it, the result is the text before `i`, the replacement, and
   the text after the end tag at `j`; whatever lay between, inner tags
   included, is gone.
   */
  lemma ReplacedRegion(source: string, target: string, i: nat, j: nat)
    requires '\\' !in source
    requires OccursAt(target, StartComment, i) && forall k: nat :: k < i ==> !OccursAt(target, StartComment, k)
    requires i + |StartComment| + 1 <= j && OccursAt(target, EndComment, j)
    requires forall k: nat :: j < k ==> !OccursAt(target, EndComment, k)
    ensures GenerateNewContent(source, target) ==
              target[..i] + StartComment + "\n" + source + "\n" + EndComment + target[j + |EndComment|..]
  {
    LeftmostLongestOf(target, i, j);
    ReplacesMatch(source, target, i, j + |EndComment|);
    var before, after := target[..i], target[j + |EndComment|..];
    assert before + Replacement(source) + after == before + StartComment + "\n" + source + "\n" + EndComment + after;
  }

  /**
   Text before the first start tag and after the closing end tag is kept
   byte for byte, and between them stands exactly the replacement.
   */
  lemma OutsideRegionPreserved(source: string, target: string, a: nat, b: nat)
    requires '\\' !in source && IsLeftmostLongest(target, a, b)
    ensures var r := GenerateNewContent(source, target);
      && |r| == |target| - (b - a) + |Replacement(source)|
      && r[..a] == target[..a]
      && r[a..a + |Replacement(source)|] == Replacement(source)
      && r[a + |Replacement(source)|..] == target[b..]
  {
    ReplacesMatch(source, target, a, b);
    var rep := Replacement(source);
    var r := target[..a] + rep + target[b..];
    assert r[..a] == target[..a];
    assert r[a..a + |rep|] == rep;
    assert r[a + |rep|..] == target[b..];
  }

  /** A start tag that is first in `t` stays first in any `r` that agrees with `t` up to the end of that tag. */
  lemma StartStaysFirst(t: string, r: string, a: nat)
    requires OccursAt(t, StartComment, a) && forall k: nat :: k < a ==> !OccursAt(t, StartComment, k)
    requires a + |StartComment| <= |r| && r[..a + |StartComment|] == t[..a + |StartComment|]
    ensures OccursAt(r, StartComment, a) && forall k: nat :: k < a ==> !OccursAt(r, StartComment, k)
  {
    var n := a + |StartComment|;
    OccursInPrefix(r, n, StartComment, a);
    OccursInPrefix(t, n, StartComment, a);
    forall k: nat | k < a
      ensures !OccursAt(r, StartComment, k)
    {
      OccursInPrefix(r, n, StartComment, k);
      OccursInPrefix(t, n, StartComment, k);
    }
  }

  /** An end tag that is last in `t` stays last in any `r` that ends with the same text from that tag on. */
  lemma EndStaysLast(t: string, r: string, f: nat, e: nat)
    requires OccursAt(t, EndComment, f) && forall k: nat :: f < k ==> !OccursAt(t, EndComment, k)
    requires e <= |r| && r[e..] == t[f..]
    ensures OccursAt(r, EndComment, e) && forall k: nat :: e < k ==> !OccursAt(r, EndComment, k)
  {
    OccursInSuffix(r, e, EndComment, 0);
    OccursInSuffix(t, f, EndComment, 0);
    forall k: nat | e < k
      ensures !OccursAt(r, EndComment, k)
    {
      if k <= |r| {
        OccursInSuffix(r, e, EndComment, k - e);
        OccursInSuffix(t, f, EndComment, k - e);
      }
    }
  }

  /** Replacing the match keeps the text up to the end of its start tag. */
  lemma ReplacedAgreesBefore(target: string, rep: string, a: nat, b: nat)
    requires a <= b <= |target| && OccursAt(target, StartComment, a)
    requires |StartComment| <= |rep| && rep[..|StartComment|] == StartComment
    ensures var r := target[..a] + rep + target[b..];
      r[..a + |StartComment|] == target[..a + |StartComment|]
  {
    var r := target[..a] + rep + target[b..];
    assert r[..a + |StartComment|] == target[..a] + rep[..|StartComment|];
    assert target[..a + |StartComment|] == target[..a] + target[a..a + |StartComment|];
  }

  /** Replacing the match keeps the text from its end tag on. */
  lemma ReplacedAgreesAfter(target: string, rep: string, a: nat, b: nat)
    requires a + |EndComment| <= b <= |target| && OccursAt(target, EndComment, b - |EndComment|)
    requires |EndComment| <= |rep| && rep[|rep| - |EndComment|..] == EndComment
    ensures var r := target[..a] + rep + target[b..];
      r[a + |rep| - |EndComment|..] == target[b - |EndComment|..]
  {
    var r := target[..a] + rep + target[b..];
    assert r[a + |rep| - |EndComment|..] == rep[|rep| - |EndComment|..] + target[b..];
    assert target[b - |EndComment|..] == target[b - |EndComment|..b] + target[b..];
  }

  /**
   Putting a text that starts with the start tag and ends with the end tag in
   place of the leftmost-longest match makes that text the new
   leftmost-longest match.
   */
  lemma ReplacedIsLeftmostLongest(target: string, rep: string, a: nat, b: nat)
    requires IsLeftmostLongest(target, a, b)
    requires MinMatchLength <= |rep|
    requires rep[..|StartComment|] == StartComment && rep[|rep| - |EndComment|..] == EndComment
    ensures IsLeftmostLongest(target[..a] + rep + target[b..], a, a + |rep|)
  {
    var r := target[..a] + rep + target[b..];
    var e := a + |rep| - |EndComment|;
    // the start tag at a is still the first one
    NoStartBefore(target, a, b);
    ReplacedAgreesBefore(target, rep, a, b);
    StartStaysFirst(target, r, a);
    // the emitted end tag is now the last one
    NoEndAfter(target, a, b);
    ReplacedAgreesAfter(target, rep, a, b);
    EndStaysLast(target, r, b - |EndComment|, e);
    LeftmostLongestOf(r, a, e);
  }

  /** The text produced by replacing the leftmost-longest match is its own leftmost-longest match's replacement. */
  lemma ReplacementIsStable(source: string, target: string, a: nat, b: nat)
    requires '\\' !in source && IsLeftmostLongest(target, a, b)
    ensures var r := target[..a] + Replacement(source) + target[b..];
      GenerateNewContent(source, r) == r
  {
    var rep := Replacement(source);
    var r := target[..a] + rep + target[b..];
    assert IsLeftmostLongest(r, a, a + |rep|) by {
      ReplacementTags(source);
      ReplacedIsLeftmostLongest(target, rep, a, b);
    }
    StableSplice(source, target[..a], target[b..]);
  }

  /** A replacement that is the leftmost-longest match of the text around it is replaced by itself. */
  lemma StableSplice(source: string, x: string, y: string)
    requires '\\' !in source
    requires IsLeftmostLongest(x + Replacement(source) + y, |x|, |x| + |Replacement(source)|)
    ensures GenerateNewContent(source, x + Replacement(source) + y) == x + Replacement(source) + y
  {
    var rep := Replacement(source);
    ReplacesMatch(source, x + rep + y, |x|, |x| + |rep|);
    SpliceEdges(x, rep, y);
  }

  /** The replacement begins with the start tag and ends with the end tag. */
  lemma ReplacementTags(source: string)
    ensures var rep := Replacement(source);
      rep[..|StartComment|] == StartComment && rep[|rep| - |EndComment|..] == EndComment
  {
  }

  /** The pieces around a spliced-in middle can be read back from the result. */
  lemma SpliceEdges(x: string, m: string, y: string)
    ensures (x + m + y)[..|x|] == x && (x + m + y)[|x| + |m|..] == y
  {
  }

  /** Running the replacement a second time with the same content changes nothing. */
  lemma Idempotent(source: string, target: string)
    requires '\\' !in source
    ensures GenerateNewContent(source, GenerateNewContent(source, target)) == GenerateNewContent(source, target)
  {
    if HasMatch(target) {
      LeftmostLongestExists(target);
      var a: nat, b: nat :| IsLeftmostLongest(target, a, b);
      ReplacementIsStable(source, target, a, b);
    }
  }

  /**
   A target that is one tagged region, whatever lies between the tags
   (inner tags included), becomes exactly the replacement.
   */
  lemma WholeRegionReplaced(source: string, inner: string)
    requires '\\' !in source && inner != []
    ensures GenerateNewContent(source, StartComment + inner + EndComment) == Replacement(source)
  {
    var t := StartComment + inner + EndComment;
    var j := |t| - |EndComment|;
    TaggedRegion(inner);
    LeftmostLongestOf(t, 0, j);
    ReplacesMatch(source, t, 0, |t|);
    assert t[..0] + Replacement(source) + t[|t|..] == Replacement(source);
  }

  /** A text made of the start tag, some text and the end tag has the tags at both ends. */
  lemma TaggedRegion(inner: string)
    ensures var t := StartComment + inner + EndComment;
      OccursAt(t, StartComment, 0) && OccursAt(t, EndComment, |t| - |EndComment|)
  {
    var t := StartComment + inner + EndComment;
    assert t[..|StartComment|] == StartComment;
    assert t[|t| - |EndComment|..] == EndComment;
  }

  /**
   The quantifier is greedy: with two end tags, the region runs through the
   second one, and the text between the two end tags is replaced as well.
   */
  lemma GreedyThroughLastEndTag(source: string, x: string, y: string)
    requires '\\' !in source
    ensures GenerateNewContent(source, StartComment + x + EndComment + y + EndComment) == Replacement(source)
  {
    var inner := x + EndComment + y;
    assert |inner| > 0;
    assert StartComment + inner + EndComment == StartComment + x + EndComment + y + EndComment;
    WholeRegionReplaced(source, inner);
  }

  /**
   A block written by an earlier run with other content is rewritten with the
   new content: the tags are kept, each on its own line around the content.
   */
  lemma ReplacesOldContent(source: string, previous: string)
    requires '\\' !in source
    ensures GenerateNewContent(source, Replacement(previous)) == Replacement(source)
  {
    var inner := "\n" + previous + "\n";
    assert |inner| > 0;
    assert Replacement(previous) == StartComment + inner + EndComment;
    WholeRegionReplaced(source, inner);
  }
}
