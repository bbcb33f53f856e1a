/**
 Page assembly: a page template carries the marker `<!-- MESSAGE -->`; each
 request substitutes an optional status message for every marker. The message
 and its kind are inserted verbatim, with no HTML escaping.
 */
module Pages {
  import opened Replace

  /** The placeholder comment every template carries. */
  const Marker: string := "<!-- MESSAGE -->"

  /** The paragraph that carries a non-empty message (app.py line 21). Its text
      is spelled out by `RenderInsertsMessage` and `RenderExampleMessage`. */
  function MessageHtml(message: string, kind: string): string {
    "<p class=\"message " + kind + "\">" + message + "</p>"
  }

  /** What each marker becomes: nothing for an empty message (Python treats the
      empty string as false), otherwise the message paragraph. */
  function Insert(message: string, kind: string): string {
    if |message| > 0 then MessageHtml(message, kind) else ""
  }

  /** `render_page(base_html, message, msg_type)`. */
  function RenderPage(base: string, message: string, kind: string): (r: string)
    ensures Free(base, Marker) ==> r == base
    ensures |message| == 0 ==> |r| <= |base|
  {
    if |message| > 0 then ReplaceAll(base, Marker, MessageHtml(message, kind))
    else
      RemoveShrinks(base);
      ReplaceAll(base, Marker, "")
  }

  /** Deleting markers never lengthens a page. */
  lemma {:induction false} RemoveShrinks(s: string)
    ensures |ReplaceAll(s, Marker, "")| <= |s|
    decreases |s|
  {
    if |s| >= |Marker| {
      if s[..|Marker|] == Marker {
        RemoveShrinks(s[|Marker|..]);
      } else {
        RemoveShrinks(s[1..]);
      }
    }
  }

  /** With an empty message, the page is the template with every marker removed
      (the concatenation of the pieces between markers), whatever the kind. */
  lemma RenderEmptyRemovesMarkers(base: string, kind: string, pieces: seq<string>)
    requires LeftmostSplit(base, Marker, pieces)
    ensures RenderPage(base, "", kind) == Join(pieces, "")
    ensures forall other :: RenderPage(base, "", other) == RenderPage(base, "", kind)
  {
    ReplaceLeftmost(base, Marker, "", pieces);
  }

  /** With a non-empty message, every marker becomes exactly the message
      paragraph, and every other character of the template is kept in order. */
  lemma RenderInsertsMessage(base: string, message: string, kind: string, pieces: seq<string>)
    requires |message| > 0
    requires LeftmostSplit(base, Marker, pieces)
    ensures RenderPage(base, message, kind)
         == Join(pieces, "<p class=\"message " + kind + "\">" + message + "</p>")
  {
    ReplaceLeftmost(base, Marker, MessageHtml(message, kind), pieces);
  }

  /** A template with one marker: the page is the text before it, the inserted
      message (if any), and the text after it. */
  lemma RenderSingleMarker(before: string, after: string, message: string, kind: string)
    requires Clean(before, Marker) && Free(after, Marker)
    ensures RenderPage(before + Marker + after, message, kind) == before + Insert(message, kind) + after
  {
    var pieces := [before, after];
    assert Join(pieces[1..], Marker) == after;
    assert LeftmostSplit(before + Marker + after, Marker, pieces);
    ReplaceLeftmost(before + Marker + after, Marker, Insert(message, kind), pieces);
    assert Join(pieces[1..], Insert(message, kind)) == after;
  }

  /** The worked example's template has one marker, between `<p>` and `</p>`.

      The example lemmas take the template as a parameter pinned by `requires`:
      with the literal written in the `ensures`, Dafny unfolds `ReplaceAll` on
      it eagerly and the proof exceeds the resource limit. */
  lemma ExampleTemplate(template: string)
    requires template == "<p><!-- MESSAGE --></p>"
    ensures template == "<p>" + Marker + "</p>"
    ensures Clean("<p>", Marker) && Free("</p>", Marker)
  {
    var before := "<p>";
    forall i | 0 <= i < |before|
      ensures !OccursAt(before + Marker, i, Marker)
    {
      assert (before + Marker)[i + 1] != Marker[1];
    }
  }

  /** The worked example: the template `<p><!-- MESSAGE --></p>` rendered with
      "Hi" / "success". */
  lemma RenderExampleMessage(template: string)
    requires template == "<p><!-- MESSAGE --></p>"
    ensures RenderPage(template, "Hi", "success") == "<p><p class=\"message success\">Hi</p></p>"
  {
    assert RenderPage(template, "Hi", "success") == "<p>" + MessageHtml("Hi", "success") + "</p>" by {
      ExampleTemplate(template);
      RenderSingleMarker("<p>", "</p>", "Hi", "success");
    }
    ExampleParagraph();
  }

  /** The example's expected page, spelled out. */
  lemma ExampleParagraph()
    ensures "<p><p class=\"message success\">Hi</p></p>" == "<p>" + MessageHtml("Hi", "success") + "</p>"
  {
  }

  /** The worked example rendered with no message. */
  lemma RenderExampleEmpty(template: string)
    requires template == "<p><!-- MESSAGE --></p>"
    ensures RenderPage(template, "", "success") == "<p></p>"
  {
    ExampleTemplate(template);
    RenderSingleMarker("<p>", "</p>", "", "success");
  }
}
