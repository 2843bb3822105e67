/**
 The playback injector of `update_map_with_coordinates`: after the map page
 has been saved, its text gets a one-second refresh line in the head and the
 marker-animation script before the end of the body.

 Head step: when the page has a `<head>`, the refresh line is inserted after
 every `<head>`; otherwise every `<html>` is followed by a synthesised head
 holding the refresh line. Body step: the script tag is inserted before every
 `</body>`, or before every `</html>` when there is no `</body>`. Each step
 is one Python `str.replace`, so it touches every match and, without a match,
 returns the text unchanged.

 The animation script is opaque text here; how it is built from the route is
 not modelled.
 */
module Injector {
  import opened Text
  import opened Markup

  /** The auto-refresh line, ending in a line break. */
  const MetaRefresh := "<meta http-equiv=\"refresh\" content=\"1\">\n"

  const HeadOpen := "<head>"
  const HtmlOpen := "<html>"
  const BodyClose := "</body>"
  const HtmlClose := "</html>"

  /** What each `<head>` becomes when the page has one. */
  const HeadWithMeta := HeadOpen + "\n" + MetaRefresh

  /** What each `<html>` becomes when the page has no `<head>`. */
  const HtmlWithHead := HtmlOpen + "\n<head>\n" + MetaRefresh + "</head>\n"

  /** The script element wrapped around the animation script, ending in a line break. */
  function ScriptTag(moveScript: string): string
  {
    "<script>" + moveScript + "</script>\n"
  }

  /** Inserts the refresh line into the head, synthesising a head when there is none. */
  function HeadStep(html: string): (r: string)
    ensures Contains(html, HeadOpen) ==> Spliced(html, r, HeadOpen, HeadWithMeta)
    ensures !Contains(html, HeadOpen) ==> Spliced(html, r, HtmlOpen, HtmlWithHead)
    ensures !Contains(html, HeadOpen) && !Contains(html, HtmlOpen) ==> r == html
  {
    if Contains(html, HeadOpen) then
      ReplaceSplices(html, HeadOpen, HeadWithMeta);
      ReplaceAll(html, HeadOpen, HeadWithMeta)
    else
      ReplaceSplices(html, HtmlOpen, HtmlWithHead);
      ReplaceWithoutMatch(html, HtmlOpen, HtmlWithHead);
      ReplaceAll(html, HtmlOpen, HtmlWithHead)
  }

  /** Inserts the script tag before the end of the body, or before the end of the page
      when there is no `</body>`. */
  function BodyStep(html: string, moveScript: string): (r: string)
    ensures Contains(html, BodyClose) ==>
              Spliced(html, r, BodyClose, ScriptTag(moveScript) + BodyClose)
    ensures !Contains(html, BodyClose) ==>
              Spliced(html, r, HtmlClose, ScriptTag(moveScript) + HtmlClose)
    ensures !Contains(html, BodyClose) && !Contains(html, HtmlClose) ==> r == html
  {
    var tag := ScriptTag(moveScript);
    if Contains(html, BodyClose) then
      ReplaceSplices(html, BodyClose, tag + BodyClose);
      ReplaceAll(html, BodyClose, tag + BodyClose)
    else
      ReplaceSplices(html, HtmlClose, tag + HtmlClose);
      ReplaceWithoutMatch(html, HtmlClose, tag + HtmlClose);
      ReplaceAll(html, HtmlClose, tag + HtmlClose)
  }

  /** The growth of the page in the head step, read off the page. */
  function HeadGrowth(html: string): nat
  {
    if Contains(html, HeadOpen) then Count(html, HeadOpen) * |"\n" + MetaRefresh|
    else Count(html, HtmlOpen) * |"\n<head>\n" + MetaRefresh + "</head>\n"|
  }

  /** The growth of the page in the body step, read off the page. */
  function BodyGrowth(html: string, moveScript: string): nat
  {
    (if Contains(html, BodyClose) then Count(html, BodyClose) else Count(html, HtmlClose))
      * |ScriptTag(moveScript)|
  }

  /** The head step adds the inserted text once per match of the tag it chose. */
  lemma HeadStepLength(html: string)
    ensures |HeadStep(html)| == |html| + HeadGrowth(html)
  {
    if Contains(html, HeadOpen) {
      ReplaceLength(html, HeadOpen, HeadWithMeta);
    } else {
      ReplaceLength(html, HtmlOpen, HtmlWithHead);
    }
  }

  /** The body step adds the script tag once per match of the tag it chose. */
  lemma BodyStepLength(html: string, moveScript: string)
    ensures |BodyStep(html, moveScript)| == |html| + BodyGrowth(html, moveScript)
  {
    var tag := ScriptTag(moveScript);
    if Contains(html, BodyClose) {
      ReplaceLength(html, BodyClose, tag + BodyClose);
    } else {
      ReplaceLength(html, HtmlClose, tag + HtmlClose);
    }
  }

  /** The whole injection: head step, then body step. The body step's choice between
      `</body>` and `</html>` depends only on the original page. */
  function Inject(html: string, moveScript: string): (r: string)
    ensures Contains(html, BodyClose) ==>
              Spliced(HeadStep(html), r, BodyClose, ScriptTag(moveScript) + BodyClose)
    ensures !Contains(html, BodyClose) ==>
              Spliced(HeadStep(html), r, HtmlClose, ScriptTag(moveScript) + HtmlClose)
    ensures (&& !Contains(html, HeadOpen) && !Contains(html, HtmlOpen)
             && !Contains(html, BodyClose) && !Contains(html, HtmlClose)) ==> r == html
  {
    HeadStepKeepsClosingTags(html);
    BodyStep(HeadStep(html), moveScript)
  }

  /** The injected page grows by the insertions both steps make, each counted on the
      original page. */
  lemma InjectLength(html: string, moveScript: string)
    ensures |Inject(html, moveScript)| == |html| + HeadGrowth(html) + BodyGrowth(html, moveScript)
  {
    HeadStepKeepsClosingTags(html);
    HeadStepLength(html);
    BodyStepLength(HeadStep(html), moveScript);
  }

  /** The closing tags the body step looks for are single tags. */
  lemma ClosingTagsSingle(q: string)
    requires q == BodyClose || q == HtmlClose
    ensures SingleTag(q)
  {
  }

  /** The one-tag pieces the head step's fragments are made of are inert for the
      closing tags. */
  lemma OpeningLinesInert(q: string)
    requires q == BodyClose || q == HtmlClose
    ensures Inert(HeadOpen, q) && Inert("<head>\n", q)
    ensures Inert(HtmlOpen, q) && Inert("<html>\n", q)
  {
    assert HeadOpen[1] != q[1];
    assert "<head>\n"[1] != q[1];
    assert HtmlOpen[1] != q[1];
    assert "<html>\n"[1] != q[1];
    InertSegment(HeadOpen, q);
    InertSegment("<head>\n", q);
    InertSegment(HtmlOpen, q);
    InertSegment("<html>\n", q);
  }

  /** The refresh line and the synthesised head's end are inert for the closing tags. */
  lemma MetaAndHeadCloseInert(q: string)
    requires q == BodyClose || q == HtmlClose
    ensures Inert(MetaRefresh, q) && Inert("</head>\n", q)
  {
    assert MetaRefresh[1] != q[1];
    InertSegment(MetaRefresh, q);
    if q == BodyClose {
      assert "</head>\n"[2] != q[2];
    } else {
      assert "</head>\n"[3] != q[3];
    }
    InertSegment("</head>\n", q);
  }

  /** The text the head step puts in place of each `<head>` is inert for the closing tags. */
  lemma HeadWithMetaInert(q: string)
    requires q == BodyClose || q == HtmlClose
    ensures Inert(HeadWithMeta, q)
  {
    OpeningLinesInert(q);
    MetaAndHeadCloseInert(q);
    assert HeadWithMeta == "<head>\n" + MetaRefresh;
    InertConcat("<head>\n", MetaRefresh, q);
  }

  /** The synthesised head up to its refresh line is inert for the closing tags. */
  lemma HtmlHeadLinesInert(q: string)
    requires q == BodyClose || q == HtmlClose
    ensures Inert("<html>\n<head>\n" + MetaRefresh, q)
  {
    OpeningLinesInert(q);
    MetaAndHeadCloseInert(q);
    InertConcat("<html>\n", "<head>\n", q);
    assert "<html>\n" + "<head>\n" == "<html>\n<head>\n";
    InertConcat("<html>\n<head>\n", MetaRefresh, q);
  }

  /** The text the head step puts in place of each `<html>` is inert for the closing tags. */
  lemma HtmlWithHeadInert(q: string)
    requires q == BodyClose || q == HtmlClose
    ensures Inert(HtmlWithHead, q)
  {
    HtmlHeadLinesInert(q);
    MetaAndHeadCloseInert(q);
    InertConcat("<html>\n<head>\n" + MetaRefresh, "</head>\n", q);
    assert HtmlWithHead == "<html>\n<head>\n" + MetaRefresh + "</head>\n";
  }

  /** The head step neither creates nor destroys `</body>` or `</html>`: both are counted
      the same before and after it. */
  lemma HeadStepKeepsClosingTags(html: string)
    ensures Count(HeadStep(html), BodyClose) == Count(html, BodyClose)
    ensures Count(HeadStep(html), HtmlClose) == Count(html, HtmlClose)
    ensures Contains(HeadStep(html), BodyClose) <==> Contains(html, BodyClose)
    ensures Contains(HeadStep(html), HtmlClose) <==> Contains(html, HtmlClose)
  {
    var r := HeadStep(html);
    ClosingTagsSingle(BodyClose);
    ClosingTagsSingle(HtmlClose);
    OpeningLinesInert(BodyClose);
    OpeningLinesInert(HtmlClose);
    HeadWithMetaInert(BodyClose);
    HeadWithMetaInert(HtmlClose);
    HtmlWithHeadInert(BodyClose);
    HtmlWithHeadInert(HtmlClose);
    if Contains(html, HeadOpen) {
      var parts := Split(html, HeadOpen);
      JoinKeepsCount(parts, HeadOpen, HeadWithMeta, BodyClose);
      JoinKeepsCount(parts, HeadOpen, HeadWithMeta, HtmlClose);
    } else {
      var parts := Split(html, HtmlOpen);
      JoinKeepsCount(parts, HtmlOpen, HtmlWithHead, BodyClose);
      JoinKeepsCount(parts, HtmlOpen, HtmlWithHead, HtmlClose);
    }
    CountZeroIff(r, BodyClose);
    CountZeroIff(html, BodyClose);
    CountZeroIff(r, HtmlClose);
    CountZeroIff(html, HtmlClose);
  }

  /** The head step can be undone: replacing each inserted fragment by the tag it
      followed gives back the page. */
  lemma HeadStepUndo(html: string)
    ensures Contains(html, HeadOpen) ==> ReplaceAll(HeadStep(html), HeadWithMeta, HeadOpen) == html
    ensures !Contains(html, HeadOpen) ==> ReplaceAll(HeadStep(html), HtmlWithHead, HtmlOpen) == html
  {
    if Contains(html, HeadOpen) {
      assert HeadWithMeta == HeadOpen + ("\n" + MetaRefresh);
      InsertAfterUndo(html, HeadOpen, "\n" + MetaRefresh);
    } else {
      assert HtmlWithHead == HtmlOpen + ("\n<head>\n" + MetaRefresh + "</head>\n");
      InsertAfterUndo(html, HtmlOpen, "\n<head>\n" + MetaRefresh + "</head>\n");
    }
  }

  /** A page with exactly one `<head>` gets exactly one refresh line, right after it. */
  lemma SingleHeadOneMeta(html: string)
    requires Count(html, HeadOpen) == 1
    ensures var heads := Split(html, HeadOpen);
            && |heads| == 2
            && html == heads[0] + HeadOpen + heads[1]
            && HeadStep(html) == heads[0] + HeadWithMeta + heads[1]
  {
    CountZeroIff(html, HeadOpen);
    SingleMatch(html, HeadOpen, HeadWithMeta);
  }

  /** With exactly one `</body>`, the body step inserts the script tag once, right before it. */
  lemma BodyStepSingle(html: string, moveScript: string)
    requires Count(html, BodyClose) == 1
    ensures var bodies := Split(html, BodyClose);
            && |bodies| == 2
            && html == bodies[0] + BodyClose + bodies[1]
            && BodyStep(html, moveScript) == bodies[0] + ScriptTag(moveScript) + BodyClose + bodies[1]
  {
    var tag := ScriptTag(moveScript);
    CountZeroIff(html, BodyClose);
    assert BodyStep(html, moveScript) == ReplaceAll(html, BodyClose, tag + BodyClose);
    SingleMatch(html, BodyClose, tag + BodyClose);
  }

  /** A page with exactly one `</body>` gets exactly one script tag, right before it, and
      the head step in between leaves that one `</body>` in place. */
  lemma SingleBodyOneScript(html: string, moveScript: string)
    requires Count(html, BodyClose) == 1
    ensures var bodies := Split(HeadStep(html), BodyClose);
            && |bodies| == 2
            && HeadStep(html) == bodies[0] + BodyClose + bodies[1]
            && Inject(html, moveScript) == bodies[0] + ScriptTag(moveScript) + BodyClose + bodies[1]
  {
    HeadStepKeepsClosingTags(html);
    BodyStepSingle(HeadStep(html), moveScript);
  }
}
