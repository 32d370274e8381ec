/**
 * The host page's DOM as the extension sees it.
 *
 * Every element the extension queries is a record; a document is the sequence
 * of those elements in document order. Only the attributes, classes and
 * children that the extension reads or writes are kept.
 */
module Dom {

  datatype Option<T> = None | Some(value: T)

  /** A descendant located by a class selector (`.markdown.prose` or `.text-base`). */
  datatype Part = Part(text: string, html: string)

  datatype Element = Element(
    messageId: Option<string>,  // the `data-message-id` attribute, None when absent
    isMessage: bool,            // carries class `message`
    roles: seq<string>,         // `data-message-author-role` values on the element and its ancestors, nearest first
    prose: Option<Part>,        // first descendant matching `.markdown.prose`
    textBase: Option<Part>,     // first descendant matching `.text-base`
    text: string,               // the element's textContent
    selectors: seq<string>,     // ids bound to the `message-selector` indicators at the head of its children
    html: string                // innerHTML following those indicators
  )

  /** Markup of one `message-selector` indicator (an empty div with that class). */
  const IndicatorMarkup: string := "<div class=\"message-selector\"></div>"

  function Indicators(selectors: seq<string>): (r: string)
    ensures |r| == |selectors| * |IndicatorMarkup|
  {
    if selectors == [] then "" else IndicatorMarkup + Indicators(selectors[1..])
  }

  /** `element.innerHTML`: the prepended indicators followed by the rest of the content. */
  function InnerHtml(e: Element): string
  {
    Indicators(e.selectors) + e.html
  }

  /** `prepend` of one more indicator puts exactly one indicator's markup in front of the innerHTML. */
  lemma InnerHtmlPrepend(e: Element, id: string)
    ensures InnerHtml(e.(selectors := [id] + e.selectors)) == IndicatorMarkup + InnerHtml(e)
  {
    assert ([id] + e.selectors)[1..] == e.selectors;
  }

  /** The elements matching `[data-message-id]`, in document order. */
  function Tagged(doc: seq<Element>): (r: seq<Element>)
    ensures |r| <= |doc|
    ensures forall e :: e in r <==> e in doc && e.messageId.Some?
  {
    if doc == [] then []
    else (if doc[0].messageId.Some? then [doc[0]] else []) + Tagged(doc[1..])
  }

  /**
   * `getAttribute('data-message-id')` of every `[data-message-id]` element,
   * with nulls filtered out (none occur: the selector requires the attribute).
   */
  function RawIds(doc: seq<Element>): (r: seq<string>)
    ensures |r| == |Tagged(doc)|
    ensures forall x :: x in r <==> Some(x) in ElementIds(doc)
  {
    if doc == [] then []
    else
      (match doc[0].messageId case Some(x) => [x] case None => []) + RawIds(doc[1..])
  }

  /**
   * `[data-message-id]` keeps document order: its i-th match is the element
   * at some position k with exactly i matches before it.
   */
  lemma {:induction false} TaggedAt(doc: seq<Element>, i: nat) returns (k: nat)
    requires i < |Tagged(doc)|
    ensures k < |doc| && doc[k] == Tagged(doc)[i] && |Tagged(doc[..k])| == i
  {
    if doc[0].messageId.Some? && i == 0 {
      k := 0;
      assert doc[..0] == [];
    } else {
      var j := if doc[0].messageId.Some? then i - 1 else i;
      TaggedIndexCons(doc, i);
      var k' := TaggedAt(doc[1..], j);
      k := k' + 1;
      TaggedPrefixCons(doc, k');
      assert doc[k] == doc[1..][k'];
    }
  }

  lemma TaggedIndexCons(doc: seq<Element>, i: nat)
    requires i < |Tagged(doc)| && !(doc[0].messageId.Some? && i == 0)
    ensures var j := if doc[0].messageId.Some? then i - 1 else i;
      j < |Tagged(doc[1..])| && Tagged(doc)[i] == Tagged(doc[1..])[j]
  {
    assert Tagged(doc) == (if doc[0].messageId.Some? then [doc[0]] else []) + Tagged(doc[1..]);
  }

  lemma TaggedPrefixCons(doc: seq<Element>, k: nat)
    requires k < |doc|
    ensures Tagged(doc[..k + 1]) == (if doc[0].messageId.Some? then [doc[0]] else []) + Tagged(doc[1..][..k])
  {
    var prefix := doc[..k + 1];
    assert prefix[0] == doc[0] && prefix[1..] == doc[1..][..k];
  }

  /** The i-th raw id is the attribute of the i-th `[data-message-id]` element. */
  lemma RawIdsPointwise(doc: seq<Element>)
    ensures forall i :: 0 <= i < |RawIds(doc)| ==> Some(RawIds(doc)[i]) == Tagged(doc)[i].messageId
  {
    forall i | 0 <= i < |RawIds(doc)|
      ensures Some(RawIds(doc)[i]) == Tagged(doc)[i].messageId
    {
      RawIdAt(doc, i);
    }
  }

  lemma {:induction false} RawIdAt(doc: seq<Element>, i: nat)
    requires i < |RawIds(doc)|
    ensures Some(RawIds(doc)[i]) == Tagged(doc)[i].messageId
  {
    if doc[0].messageId.None? {
      assert RawIds(doc) == RawIds(doc[1..]);
      assert Tagged(doc) == Tagged(doc[1..]);
      RawIdAt(doc[1..], i);
    } else if i > 0 {
      assert RawIds(doc)[i] == RawIds(doc[1..])[i - 1];
      assert Tagged(doc)[i] == Tagged(doc[1..])[i - 1];
      RawIdAt(doc[1..], i - 1);
    }
  }

  /** The `data-message-id` attribute of each element, in document order. */
  function ElementIds(doc: seq<Element>): (r: seq<Option<string>>)
    ensures |r| == |doc|
    ensures forall k :: 0 <= k < |doc| ==> r[k] == doc[k].messageId
  {
    if doc == [] then [] else [doc[0].messageId] + ElementIds(doc[1..])
  }

  /** `document.querySelector('[data-message-id="id"]')`: the first element whose attribute equals `id`. */
  function Lookup(doc: seq<Element>, id: string): (r: Option<Element>)
    ensures r.Some? ==> r.value.messageId == Some(id)
  {
    if doc == [] then None
    else if doc[0].messageId == Some(id) then Some(doc[0])
    else Lookup(doc[1..], id)
  }

  /** `querySelector` finds an element exactly when one carries the id, and it is one of the document's. */
  lemma {:induction false} LookupFinds(doc: seq<Element>, id: string)
    ensures Lookup(doc, id).Some? <==> Some(id) in ElementIds(doc)
    ensures Lookup(doc, id).Some? ==> Lookup(doc, id).value in doc
  {
    if doc != [] {
      LookupFinds(doc[1..], id);
      assert ElementIds(doc) == [doc[0].messageId] + ElementIds(doc[1..]);
    }
  }

  /** `querySelector` returns the first match in document order: no earlier element carries the id. */
  lemma {:induction false} LookupFirst(doc: seq<Element>, id: string)
    ensures Lookup(doc, id).Some? ==>
      exists k :: 0 <= k < |doc| && doc[k] == Lookup(doc, id).value
        && forall j :: 0 <= j < k ==> doc[j].messageId != Some(id)
  {
    if doc != [] && doc[0].messageId != Some(id) && Lookup(doc, id).Some? {
      LookupFirst(doc[1..], id);
      var k :| 0 <= k < |doc[1..]| && doc[1..][k] == Lookup(doc[1..], id).value
        && forall j :: 0 <= j < k ==> doc[1..][j].messageId != Some(id);
      assert doc[k + 1] == Lookup(doc, id).value;
      forall j | 0 <= j < k + 1 ensures doc[j].messageId != Some(id) {
        if j > 0 {
          assert doc[j] == doc[1..][j - 1];
        }
      }
    }
  }

  /** Every id resolves to an element of the document. */
  predicate AllPresent(doc: seq<Element>, ids: seq<string>)
  {
    forall i :: 0 <= i < |ids| ==> Lookup(doc, ids[i]).Some?
  }

  /** The ids that do not resolve, in their original order (the `missingMessages` filter). */
  function Missing(doc: seq<Element>, ids: seq<string>): (r: seq<string>)
    ensures |r| <= |ids|
  {
    if ids == [] then []
    else (if Lookup(doc, ids[0]).None? then [ids[0]] else []) + Missing(doc, ids[1..])
  }

  /** An id is reported missing exactly when it does not resolve; none is reported exactly when all resolve. */
  lemma {:induction false} MissingIff(doc: seq<Element>, ids: seq<string>)
    ensures Missing(doc, ids) == [] <==> AllPresent(doc, ids)
    ensures forall x :: x in Missing(doc, ids) <==> x in ids && Lookup(doc, x).None?
  {
    if ids != [] {
      MissingIff(doc, ids[1..]);
      AllPresentCons(doc, ids);
      assert ids == [ids[0]] + ids[1..];
    }
  }

  lemma AllPresentCons(doc: seq<Element>, ids: seq<string>)
    requires ids != []
    ensures AllPresent(doc, ids) <==> Lookup(doc, ids[0]).Some? && AllPresent(doc, ids[1..])
  {
    if Lookup(doc, ids[0]).Some? && AllPresent(doc, ids[1..]) {
      forall i | 0 < i < |ids| ensures Lookup(doc, ids[i]).Some? {
        assert ids[i] == ids[1..][i - 1];
      }
    }
  }

  /** `target.closest('[data-message-id]')` over the target's ancestor chain, target first. */
  function Closest(path: seq<Element>): (r: Option<Element>)
    ensures r.Some? <==> exists k :: 0 <= k < |path| && path[k].messageId.Some?
    ensures r.Some? ==> r.value in path && r.value.messageId.Some?
  {
    if path == [] then None
    else if path[0].messageId.Some? then Some(path[0])
    else Closest(path[1..])
  }

  /** `closest` returns the nearest tagged element: the target and the ancestors below it carry no id. */
  lemma {:induction false} ClosestNearest(path: seq<Element>)
    ensures Closest(path).Some? ==>
      exists k :: 0 <= k < |path| && path[k] == Closest(path).value
        && forall j :: 0 <= j < k ==> path[j].messageId.None?
  {
    if path != [] && path[0].messageId.None? && Closest(path).Some? {
      ClosestNearest(path[1..]);
      var k :| 0 <= k < |path[1..]| && path[1..][k] == Closest(path[1..]).value
        && forall j :: 0 <= j < k ==> path[1..][j].messageId.None?;
      assert path[k + 1] == Closest(path).value;
      forall j | 0 <= j < k + 1 ensures path[j].messageId.None? {
        if j > 0 {
          assert path[j] == path[1..][j - 1];
        }
      }
    }
  }
}
