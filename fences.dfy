/**
 * Extraction of the JSON candidate from a model reply, the same three-way
 * expression in both application variants: the text after the first "```json"
 * up to the next "```"; else the text between the first two "```"; else the
 * reply unchanged. `split(sep)[1]` is `Before(After(text, sep), sep)`, so the
 * labelled piece also ends at a second "```json", even one that starts inside
 * the first "```" after the label.
 */
module Fences {
  import opened Text

  const JsonFence: string := "```json"
  const Fence: string := "```"

  /** The candidate handed to the parser is always a piece of the reply. */
  function ExtractJson(text: string): (candidate: string)
    ensures Contains(text, candidate)
  {
    if Contains(text, JsonFence) then
      var piece := Before(Before(After(text, JsonFence), JsonFence), Fence);
      LabelledPieceInReply(text);
      StripInPiece(text, piece);
      Strip(piece)
    else if Contains(text, Fence) then
      var piece := Before(After(text, Fence), Fence);
      PlainPieceInReply(text);
      StripInPiece(text, piece);
      Strip(piece)
    else
      assert OccursAt(text, text, 0);
      text
  }

  /** An infix of an infix is an infix. */
  lemma InfixOfInfix(s: string, t: string, u: string)
    requires Contains(s, t) && Contains(t, u)
    ensures Contains(s, u)
  {
    var i: nat :| i <= |s| && OccursAt(s, t, i);
    var j: nat :| j <= |t| && OccursAt(t, u, j);
    forall k | 0 <= k < |u| ensures s[i + j + k] == u[k] {
      assert u[k] == t[j..j + |u|][k] == t[j + k] == s[i..i + |t|][j + k];
    }
    assert s[i + j..i + j + |u|] == u;
    assert OccursAt(s, u, i + j);
  }

  lemma StripInPiece(text: string, piece: string)
    requires Contains(text, piece)
    ensures Contains(text, Strip(piece))
  {
    var k: nat :| OccursAt(piece, Strip(piece), k);
    InfixOfInfix(text, piece, Strip(piece));
  }

  lemma LabelledPieceInReply(text: string)
    requires Contains(text, JsonFence)
    ensures Contains(text, Before(Before(After(text, JsonFence), JsonFence), Fence))
  {
    var rest := After(text, JsonFence);
    var i := Find(text, JsonFence).value;
    var cut := Before(rest, JsonFence);
    var piece := Before(cut, Fence);
    assert OccursAt(text, rest, i + |JsonFence|);
    assert OccursAt(rest, cut, 0);
    assert OccursAt(cut, piece, 0);
    InfixOfInfix(text, rest, cut);
    InfixOfInfix(text, cut, piece);
  }

  lemma PlainPieceInReply(text: string)
    requires Contains(text, Fence)
    ensures Contains(text, Before(After(text, Fence), Fence))
  {
    var rest := After(text, Fence);
    var i := Find(text, Fence).value;
    var piece := Before(rest, Fence);
    assert OccursAt(text, rest, i + |Fence|);
    assert OccursAt(rest, piece, 0);
    InfixOfInfix(text, rest, piece);
  }

  /**
   * Whatever the reply, once it has a fence the candidate has none left and no surrounding
   * whitespace; a reply without a fence is the candidate itself.
   */
  lemma ExtractedIsClean(text: string)
    ensures Contains(text, Fence) ==> !Contains(ExtractJson(text), Fence) && Strip(ExtractJson(text)) == ExtractJson(text)
    ensures !Contains(text, Fence) ==> ExtractJson(text) == text
  {
    if Contains(text, JsonFence) {
      LabelHasFence(text);
      PieceIsClean(Before(After(text, JsonFence), JsonFence));
    } else if Contains(text, Fence) {
      PieceIsClean(After(text, Fence));
    }
  }

  /** "```json" begins with a fence, so a reply with the label has a fence. */
  lemma LabelHasFence(text: string)
    requires Contains(text, JsonFence)
    ensures Contains(text, Fence)
  {
    var i: nat :| i <= |text| && OccursAt(text, JsonFence, i);
    LabelIsFence(text, i);
  }

  /** What stands before the next fence, stripped, has no fence in it. */
  lemma PieceIsClean(rest: string)
    ensures var piece := Strip(Before(rest, Fence));
            !Contains(piece, Fence) && Strip(piece) == piece
  {
    var inner := Before(rest, Fence);
    var piece := Strip(inner);
    var k: nat :| OccursAt(inner, piece, k);
    NoOccurrenceInInfix(inner, piece, k, Fence);
    StripIdempotent(inner);
  }

  /** The rest of the text after `prefix + opener`, when that opener is the first one. */
  lemma AfterFirst(prefix: string, opener: string, rest: string)
    requires opener != [] && Find(prefix + opener, opener) == Some(|prefix|)
    ensures Contains(prefix + opener + rest, opener)
    ensures After(prefix + opener + rest, opener) == rest
  {
    var text := prefix + opener + rest;
    assert text[..|prefix + opener|] == prefix + opener;
    FindInPrefix(prefix + opener, text, opener, |prefix|);
    assert text[|prefix| + |opener|..] == rest;
  }

  /** The piece up to the first fence, when the fence after `body` is the first one. */
  lemma BeforeFirst(body: string, suffix: string)
    requires Find(body + Fence, Fence) == Some(|body|)
    ensures Before(body + Fence + suffix, Fence) == body
  {
    var rest := body + Fence + suffix;
    assert rest[..|body + Fence|] == body + Fence;
    FindInPrefix(body + Fence, rest, Fence, |body|);
    assert rest[..|body|] == body;
  }

  /** A label is also a fence, at the same place. */
  lemma LabelIsFence(s: string, i: nat)
    requires OccursAt(s, JsonFence, i)
    ensures OccursAt(s, Fence, i)
  {
    assert s[i..i + 3] == s[i..i + 7][..3];
  }

  /**
   * The label cut of `body + "```" + suffix`, where the fence after `body` is its first one and
   * no second label starts inside that fence, still ends with `body` up to its first fence.
   */
  lemma LabelCutKeepsBody(body: string, suffix: string)
    requires Find(body + Fence, Fence) == Some(|body|)
    requires !OccursAt(body + Fence + suffix, JsonFence, |body| + 1)
    requires !OccursAt(body + Fence + suffix, JsonFence, |body| + 2)
    ensures Before(Before(body + Fence + suffix, JsonFence), Fence) == body
  {
    var rest := body + Fence + suffix;
    BeforeFirst(body, suffix);
    assert !Contains(body, Fence);
    var cut := Before(rest, JsonFence);
    if Contains(rest, JsonFence) {
      var p := |cut|;
      LabelNotBeforeFence(rest, |body|);
      if p == |body| {
        assert cut == body;
      } else {
        LateCut(body, suffix, p);
      }
    }
  }

  /** The first label is never before the first fence. */
  lemma LabelNotBeforeFence(s: string, n: nat)
    requires Find(s, Fence) == Some(n) && Contains(s, JsonFence)
    ensures Find(s, JsonFence).value >= n
  {
    LabelIsFence(s, Find(s, JsonFence).value);
  }

  /** A label cut at or after the end of the closing fence keeps `body` and that fence. */
  lemma LateCut(body: string, suffix: string, p: nat)
    requires Find(body + Fence, Fence) == Some(|body|)
    requires |body| + 3 <= p <= |body + Fence + suffix|
    ensures Before((body + Fence + suffix)[..p], Fence) == body
  {
    var tail := suffix[..p - |body| - 3];
    assert (body + Fence + suffix)[..p] == body + Fence + tail;
    BeforeFirst(body, tail);
  }

  /**
   * A reply `prefix + "```json" + body + "```" + suffix`, where the label is the first one, the
   * closing fence is the first fence after it, and no second label starts inside that closing
   * fence, yields exactly the stripped body.
   */
  lemma LabelledBlockExtracted(prefix: string, body: string, suffix: string)
    requires Find(prefix + JsonFence, JsonFence) == Some(|prefix|)
    requires Find(body + Fence, Fence) == Some(|body|)
    requires !OccursAt(body + Fence + suffix, JsonFence, |body| + 1)
    requires !OccursAt(body + Fence + suffix, JsonFence, |body| + 2)
    ensures ExtractJson(prefix + JsonFence + body + Fence + suffix) == Strip(body)
  {
    var rest := body + Fence + suffix;
    assert prefix + JsonFence + body + Fence + suffix == prefix + JsonFence + rest;
    AfterFirst(prefix, JsonFence, rest);
    LabelCutKeepsBody(body, suffix);
  }

  /**
   * A second label that starts inside the closing fence cuts the labelled piece there: the
   * reply "```json{}````json" yields "{}`", not "{}".
   */
  lemma LabelInsideClosingFence()
    ensures ExtractJson(JsonFence + "{}`" + JsonFence) == "{}`"
  {
    var text := JsonFence + "{}`" + JsonFence;
    assert OccursAt(text, JsonFence, 0);
    FindIs(text, JsonFence, 0);
    var rest := "{}`" + JsonFence;
    assert After(text, JsonFence) == rest;
    assert rest[3..] == JsonFence;
    assert OccursAt(rest, JsonFence, 3);
    forall j: nat | j < 3 ensures !OccursAt(rest, JsonFence, j) {
      assert rest[j + 6] != 'n';
    }
    FindIs(rest, JsonFence, 3);
    var cut := Before(rest, JsonFence);
    assert cut == "{}`";
    assert cut[0] == '{' && Fence[0] == '`';
    assert !OccursAt(cut, Fence, 0);
    assert Before(cut, Fence) == cut;
    assert !IsSpace('{') && !IsSpace('`');
    StripPadded([], cut, []);
    assert [] + cut + [] == cut;
  }

  /**
   * The general case: when a second label starts `d` (1 or 2) characters into the closing
   * fence, the candidate is the body with the first `d` backticks of that fence, stripped.
   */
  lemma LabelInsideClosingFenceCut(prefix: string, body: string, suffix: string, d: nat)
    requires Find(prefix + JsonFence, JsonFence) == Some(|prefix|)
    requires Find(body + Fence, Fence) == Some(|body|)
    requires 1 <= d <= 2 && OccursAt(body + Fence + suffix, JsonFence, |body| + d)
    ensures ExtractJson(prefix + JsonFence + body + Fence + suffix) == Strip(body + Fence[..d])
  {
    var rest := body + Fence + suffix;
    assert prefix + JsonFence + body + Fence + suffix == prefix + JsonFence + rest;
    AfterFirst(prefix, JsonFence, rest);
    EarlyLabelCut(body, suffix, d);
    BeforeFirst(body, suffix);
    CutHasNoFence(rest, |body|, body + Fence[..d]);
  }

  /** A label starting `d` characters into the closing fence is the first label of the rest. */
  lemma EarlyLabelCut(body: string, suffix: string, d: nat)
    requires Find(body + Fence, Fence) == Some(|body|)
    requires 1 <= d <= 2 && OccursAt(body + Fence + suffix, JsonFence, |body| + d)
    ensures Before(body + Fence + suffix, JsonFence) == body + Fence[..d]
  {
    var rest := body + Fence + suffix;
    BeforeFirst(body, suffix);
    LabelNotBeforeFence(rest, |body|);
    var cut := Before(rest, JsonFence);
    forall j: nat | |body| <= j < |body| + d ensures !OccursAt(rest, JsonFence, j) {
      NoLabelInFence(rest, |body| + d, j);
    }
    assert |cut| == |body| + d;
    assert rest[..|body| + d] == body + Fence[..d];
  }

  /** No label starts in the two characters before a label that follow a backtick run. */
  lemma NoLabelInFence(s: string, p: nat, j: nat)
    requires OccursAt(s, JsonFence, p) && p - 3 < j < p
    ensures !OccursAt(s, JsonFence, j)
  {
    assert s[j + 3] == s[p..p + 7][j + 3 - p];
  }

  /** A prefix of `rest` that ends less than a fence past its first fence holds no fence. */
  lemma CutHasNoFence(rest: string, n: nat, cut: string)
    requires Find(rest, Fence) == Some(n)
    requires |cut| <= n + 2 && |cut| <= |rest| && cut == rest[..|cut|]
    ensures Before(cut, Fence) == cut
  {
    forall q: nat | OccursAt(cut, Fence, q) ensures false {
      assert rest[q..q + 3] == cut[q..q + 3];
      assert OccursAt(rest, Fence, q);
    }
  }

  /** With a label but no closing fence, everything after the label is taken, stripped. */
  lemma LabelledBlockUnclosed(prefix: string, rest: string)
    requires Find(prefix + JsonFence, JsonFence) == Some(|prefix|)
    requires !Contains(rest, Fence)
    ensures ExtractJson(prefix + JsonFence + rest) == Strip(rest)
  {
    AfterFirst(prefix, JsonFence, rest);
    if Contains(rest, JsonFence) {
      var i: nat :| i <= |rest| && OccursAt(rest, JsonFence, i);
      LabelIsFence(rest, i);
    }
  }

  /** Without a label, the text between the first two fences is taken, stripped. */
  lemma PlainBlockExtracted(prefix: string, body: string, suffix: string)
    requires !Contains(prefix + Fence + body + Fence + suffix, JsonFence)
    requires Find(prefix + Fence, Fence) == Some(|prefix|)
    requires Find(body + Fence, Fence) == Some(|body|)
    ensures ExtractJson(prefix + Fence + body + Fence + suffix) == Strip(body)
  {
    var rest := body + Fence + suffix;
    assert prefix + Fence + body + Fence + suffix == prefix + Fence + rest;
    AfterFirst(prefix, Fence, rest);
    BeforeFirst(body, suffix);
  }

  /** A single unlabelled fence: everything after it is taken, stripped. */
  lemma LoneFenceExtracted(prefix: string, rest: string)
    requires !Contains(prefix + Fence + rest, JsonFence)
    requires Find(prefix + Fence, Fence) == Some(|prefix|)
    requires !Contains(rest, Fence)
    ensures ExtractJson(prefix + Fence + rest) == Strip(rest)
  {
    AfterFirst(prefix, Fence, rest);
  }

  /** A reply without any fence reaches the parser untouched, whitespace included. */
  lemma UnfencedPassThrough(text: string)
    requires !Contains(text, Fence)
    ensures ExtractJson(text) == text
  {
    if Contains(text, JsonFence) {
      LabelHasFence(text);
    }
  }
}
