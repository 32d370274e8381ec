/**
 * `PDFService.generatePDF`: copies the HTML of the requested messages, in
 * order, into an off-screen container, attaches the container to the page
 * body, hands it to the rasterizer and detaches it again on every path.
 *
 * The rasterizer (html2pdf) is opaque: it is given as an outcome per call, and
 * a produced blob records the container's children it was given and the options used.
 */
module PdfService {
  import opened Dom
  import Messages

  datatype Theme = Light | Dark
  datatype Margins = Margins(top: int, right: int, bottom: int, left: int)

  /** The options the service is constructed with. */
  datatype PdfOptions = PdfOptions(theme: Theme, fontSize: int, margins: Margins)

  /** The option object handed to the rasterizer; the image quality 0.98 is kept as a percentage. */
  datatype RenderOptions = RenderOptions(
    margin: seq<int>, filename: string, imageType: string, imageQualityPercent: int,
    scale: int, useCors: bool, logging: bool, letterRendering: bool,
    unit: string, format: string, orientation: string, compress: bool)

  const Render: RenderOptions := RenderOptions(
    [15, 15, 15, 15], "chatgpt-conversation.pdf", "jpeg", 98,
    2, true, false, true,
    "mm", "a4", "portrait", true)

  /** A PDF as produced by the rasterizer: the HTML of the container's child divs and the options used. */
  datatype Blob = Blob(children: seq<string>, options: RenderOptions)

  /** What a call into foreign code did: returned, or threw (an `Error` with a message, or something else). */
  datatype Outcome = Ok | Threw(message: Option<string>)

  datatype Result = Success(blob: Blob) | Failure(message: Option<string>)

  /**
   * A message's HTML for the container: that of `.markdown.prose` if it is
   * non-empty, else that of `.text-base` if non-empty, else the element's own
   * innerHTML. An empty candidate falls through to the next.
   */
  function ChildHtml(e: Element): string
  {
    if e.prose.Some? && e.prose.value.html != "" then e.prose.value.html
    else if e.textBase.Some? && e.textBase.value.html != "" then e.textBase.value.html
    else InnerHtml(e)
  }

  /** The HTML is the first non-empty of `.markdown.prose` and `.text-base`, else the element's own innerHTML. */
  lemma ChildHtmlSpec(e: Element)
    ensures e.prose.Some? && e.prose.value.html != "" ==> ChildHtml(e) == e.prose.value.html
    ensures (e.prose.None? || e.prose.value.html == "") && e.textBase.Some? && e.textBase.value.html != ""
      ==> ChildHtml(e) == e.textBase.value.html
    ensures (e.prose.None? || e.prose.value.html == "") && (e.textBase.None? || e.textBase.value.html == "")
      ==> ChildHtml(e) == InnerHtml(e)
  {
  }

  /** The container's children after the loop over `ids`, missing ids skipped. */
  function Assemble(doc: seq<Element>, ids: seq<string>): (r: seq<string>)
    ensures |r| <= |ids|
  {
    if ids == [] then []
    else
      Assemble(doc, ids[..|ids| - 1])
      + match Lookup(doc, ids[|ids| - 1]) case None => [] case Some(e) => [ChildHtml(e)]
  }

  /** The ids that resolve to an element, in their original order. */
  function Present(doc: seq<Element>, ids: seq<string>): (r: seq<string>)
    ensures |r| <= |ids|
    ensures forall x :: x in r <==> x in ids && Lookup(doc, x).Some?
  {
    if ids == [] then []
    else
      Present(doc, ids[..|ids| - 1])
      + (if Lookup(doc, ids[|ids| - 1]).Some? then [ids[|ids| - 1]] else [])
  }

  /** What `generatePDF` resolves to, or the error it rethrows. */
  function Expected(doc: seq<Element>, ids: seq<string>, raster: Outcome): (r: Result)
    ensures r.Success? <==> raster.Ok?
    ensures r.Success? ==> r.blob.options == Render && |r.blob.children| <= |ids|
    ensures r.Failure? ==> r.message == raster.message
  {
    match raster
    case Ok => Success(Blob(Assemble(doc, ids), Render))
    case Threw(m) => Failure(m)
  }

  lemma {:induction false} AssembleAppend(doc: seq<Element>, ids: seq<string>, x: string)
    ensures Assemble(doc, ids + [x])
      == Assemble(doc, ids) + match Lookup(doc, x) case None => [] case Some(e) => [ChildHtml(e)]
  {
    assert (ids + [x])[..|ids + [x]| - 1] == ids;
  }

  /** When every id resolves, there is one child per id, in order, each the chosen HTML of its element. */
  lemma {:induction false} AssembleAllPresent(doc: seq<Element>, ids: seq<string>)
    requires AllPresent(doc, ids)
    ensures |Assemble(doc, ids)| == |ids|
    ensures forall i :: 0 <= i < |ids| ==> Assemble(doc, ids)[i] == ChildHtml(Lookup(doc, ids[i]).value)
  {
    if ids != [] {
      var init := ids[..|ids| - 1];
      assert AllPresent(doc, init) by {
        forall i | 0 <= i < |init| ensures Lookup(doc, init[i]).Some? {
          assert init[i] == ids[i];
        }
      }
      AssembleAllPresent(doc, init);
      var last := Lookup(doc, ids[|ids| - 1]);
      assert last.Some?;
      var r := Assemble(doc, ids);
      assert r == Assemble(doc, init) + [ChildHtml(last.value)];
      forall i | 0 <= i < |ids| ensures r[i] == ChildHtml(Lookup(doc, ids[i]).value) {
        if i < |init| {
          assert ids[i] == init[i];
        }
      }
    }
  }

  /** Missing ids contribute nothing: assembling all ids equals assembling only the present ones. */
  lemma {:induction false} AssembleSkipsMissing(doc: seq<Element>, ids: seq<string>)
    ensures Assemble(doc, ids) == Assemble(doc, Present(doc, ids))
    ensures AllPresent(doc, Present(doc, ids))
  {
    if ids != [] {
      var init := ids[..|ids| - 1];
      var x := ids[|ids| - 1];
      AssembleSkipsMissing(doc, init);
      if Lookup(doc, x).Some? {
        AssembleAppend(doc, Present(doc, init), x);
      } else {
        assert Present(doc, ids) == Present(doc, init);
      }
      var p := Present(doc, ids);
      forall i | 0 <= i < |p| ensures Lookup(doc, p[i]).Some? {
        assert p[i] in p;
      }
    }
  }

  /**
   * The HTML rule differs from the text scan's rule: both take a non-empty
   * `.markdown.prose`, but an existing empty one is skipped for the PDF and
   * still used for the message's text.
   */
  lemma CandidateRulesDiffer(e: Element)
    ensures e.prose.Some? && e.prose.value.html != "" ==>
      ChildHtml(e) == e.prose.value.html && Messages.ContentText(e) == e.prose.value.text
    ensures e.prose.Some? && e.prose.value.html == "" && e.textBase.Some? && e.textBase.value.html != "" ==>
      ChildHtml(e) == e.textBase.value.html && Messages.ContentText(e) == e.prose.value.text
    ensures ChildHtml(e) == "" ==> InnerHtml(e) == ""
  {
  }

  /** The page body: the sequence of its child nodes that are containers. */
  class Body {
    var nodes: seq<Container>

    /** A node is a child at most once. */
    ghost predicate Valid()
      reads this
    {
      forall i, j :: 0 <= i < j < |nodes| ==> nodes[i] != nodes[j]
    }

    method AppendChild(c: Container)
      requires Valid() && c !in nodes
      modifies this
      ensures Valid() && nodes == old(nodes) + [c]
    {
      nodes := nodes + [c];
    }

    /** `removeChild`: the node must be a child; it is cut out where it stands. */
    method RemoveChild(c: Container) returns (at: nat)
      requires Valid() && c in nodes
      modifies this
      ensures at < |old(nodes)| && old(nodes)[at] == c
      ensures nodes == old(nodes)[..at] + old(nodes)[at + 1..]
      ensures Valid() && c !in nodes
    {
      at := 0;
      while nodes[at] != c
        invariant 0 <= at < |nodes| && c !in nodes[..at]
        decreases |nodes| - at
      {
        assert nodes[at] in nodes[..at + 1];
        at := at + 1;
      }
      ghost var before := nodes;
      nodes := nodes[..at] + nodes[at + 1..];
      assert forall k :: 0 <= k < |before| && k != at ==> before[k] != c;
    }
  }

  /** The off-screen div that receives one child div per message. */
  class Container {
    var children: seq<string>

    constructor ()
      ensures children == []
    {
      children := [];
    }

    method AppendChild(html: string)
      modifies this
      ensures children == old(children) + [html]
    {
      children := children + [html];
    }
  }

  /** html2pdf on a container attached to the page. */
  method Rasterize(body: Body, c: Container, raster: Outcome) returns (r: Result)
    requires c in body.nodes
    ensures r == match raster case Ok => Success(Blob(c.children, Render)) case Threw(m) => Failure(m)
  {
    match raster
    case Ok => r := Success(Blob(c.children, Render));
    case Threw(m) => r := Failure(m);
  }

  class Service {
    /** Stored and never read: the output does not depend on it. */
    const options: PdfOptions

    constructor (options: PdfOptions)
      ensures this.options == options
    {
      this.options := options;
    }

    /**
     * Builds the container from the document, rasterizes it while attached
     * and leaves the body as it found it, on success and on failure.
     */
    method GeneratePdf(body: Body, doc: seq<Element>, ids: seq<string>, raster: Outcome) returns (r: Result)
      requires body.Valid()
      modifies body
      ensures body.Valid() && body.nodes == old(body.nodes)
      ensures r == Expected(doc, ids, raster)
    {
      var container := new Container();
      var i := 0;
      while i < |ids|
        invariant 0 <= i <= |ids|
        invariant container.children == Assemble(doc, ids[..i])
        invariant body.nodes == old(body.nodes)
      {
        var element := Lookup(doc, ids[i]);
        AssembleAppend(doc, ids[..i], ids[i]);
        assert ids[..i + 1] == ids[..i] + [ids[i]];
        if element.Some? {
          container.AppendChild(ChildHtml(element.value));
        }
        i := i + 1;
      }
      assert ids[..i] == ids;
      body.AppendChild(container);
      r := Rasterize(body, container, raster);
      var at := body.RemoveChild(container);
      assert at == |old(body.nodes)|;
    }
  }
}
