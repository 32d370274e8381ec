/**
 * The message tracker and the selection state of the `useMessages` hook:
 * scanning the document into `Message` records, the selection list with its
 * toggle / select-all / clear operations, the selection-mode switch and the
 * delegated click handler.
 */
module Messages {
  import opened Dom

  datatype Role = User | Assistant

  datatype Message = Message(id: string, role: Role, content: string, timestamp: int)

  /**
   * The two ways the hook decides a message's role. The initial scan asks
   * whether the element or an ancestor has role "assistant"; the debounced
   * rescan reads the role of the nearest element that has a role at all.
   */
  datatype RoleRule = ClosestAssistant | NearestRole

  const AssistantRole: string := "assistant"

  function RoleOf(rule: RoleRule, roles: seq<string>): Role
  {
    match rule
    case ClosestAssistant => if AssistantRole in roles then Assistant else User
    case NearestRole => if |roles| > 0 && roles[0] == AssistantRole then Assistant else User
  }

  /** textContent of the first candidate that exists: `.markdown.prose`, `.text-base`, the element. */
  function ContentText(e: Element): string
  {
    if e.prose.Some? then e.prose.value.text
    else if e.textBase.Some? then e.textBase.value.text
    else e.text
  }

  /** One element of the scan: dropped when its id is missing or empty. */
  function ScanOne(e: Element, now: int, rule: RoleRule): Option<Message>
  {
    match e.messageId
    case None => None
    case Some(id) =>
      if id == "" then None
      else Some(Message(id, RoleOf(rule, e.roles), ContentText(e), now))
  }

  /** An element yields a message exactly when its id is non-empty; the message carries that id, the rule's role, the content and the time. */
  lemma ScanOneSpec(e: Element, now: int, rule: RoleRule)
    ensures var r := ScanOne(e, now, rule);
      && (r.Some? <==> e.messageId.Some? && e.messageId.value != "")
      && (r.Some? ==> (Some(r.value.id) == e.messageId && r.value.timestamp == now
        && r.value.role == RoleOf(rule, e.roles) && r.value.content == ContentText(e)))
  {
  }

  /**
   * The first scan's role is assistant exactly when the element or an ancestor
   * has role "assistant"; the rescan's exactly when the nearest role is.
   */
  lemma RoleOfSpec(rule: RoleRule, roles: seq<string>)
    ensures RoleOf(rule, roles) == Assistant ==> AssistantRole in roles
    ensures rule == ClosestAssistant ==> (RoleOf(rule, roles) == Assistant <==> AssistantRole in roles)
    ensures rule == NearestRole ==> (RoleOf(rule, roles) == Assistant <==> |roles| > 0 && roles[0] == AssistantRole)
  {
  }

  /** The content is the text of one of the candidates, and `.markdown.prose` wins whenever it exists. */
  lemma ContentTextSpec(e: Element)
    ensures var r := ContentText(e);
      && (r == e.text || (e.prose.Some? && r == e.prose.value.text) || (e.textBase.Some? && r == e.textBase.value.text))
      && (e.prose.Some? ==> r == e.prose.value.text)
      && (e.prose.None? && e.textBase.Some? ==> r == e.textBase.value.text)
      && (e.prose.None? && e.textBase.None? ==> r == e.text)
  {
  }

  /** What one element contributes to the scan: its message, or nothing. */
  function ScanHead(e: Element, now: int, rule: RoleRule): seq<Message>
  {
    match ScanOne(e, now, rule) case None => [] case Some(m) => [m]
  }

  /** The map-then-filter over the `[data-message-id]` elements. */
  function Scan(doc: seq<Element>, now: int, rule: RoleRule): (r: seq<Message>)
    ensures |r| <= |Tagged(doc)|
  {
    if doc == [] then []
    else
      ScanHead(doc[0], now, rule)
      + Scan(doc[1..], now, rule)
  }

  function MessageIds(ms: seq<Message>): (r: seq<string>)
    ensures |r| == |ms|
    ensures forall i :: 0 <= i < |ms| ==> r[i] == ms[i].id
  {
    if ms == [] then [] else [ms[0].id] + MessageIds(ms[1..])
  }

  /** `s.filter(y => y !== x)`: every occurrence of `x` removed, the rest in order. */
  function RemoveAll(s: seq<string>, x: string): (r: seq<string>)
    ensures multiset(r) == multiset(s)[x := 0]
    ensures forall y :: y in r <==> y in s && y != x
    ensures |r| == |s| - multiset(s)[x]
  {
    if s == [] then []
    else
      assert s == [s[0]] + s[1..];
      (if s[0] == x then [] else [s[0]]) + RemoveAll(s[1..], x)
  }

  /** The selection update of `toggleMessage`. */
  function Toggle(sel: seq<string>, id: string): (r: seq<string>)
    ensures id in r <==> id !in sel
    ensures forall x :: x != id ==> multiset(r)[x] == multiset(sel)[x]
    ensures id in sel ==> |r| == |sel| - multiset(sel)[id] && r == RemoveAll(sel, id)
    ensures id !in sel ==> |r| == |sel| + 1 && r[..|sel|] == sel && r[|sel|] == id
  {
    if id in sel then RemoveAll(sel, id) else sel + [id]
  }

  /** The selection after `selectAll`, given the document at the time of the call. */
  function SelectAllResult(sel: seq<string>, doc: seq<Element>, now: int): (r: seq<string>)
    ensures r == sel || forall x :: x in r ==> x in RawIds(doc)
  {
    ScanIds(doc, now, ClosestAssistant);
    var ms := Scan(doc, now, ClosestAssistant);
    if |ms| > 0 then MessageIds(ms)
    else if |RawIds(doc)| > 0 then RawIds(doc)
    else sel
  }

  /** The id a click selects: that of the nearest `[data-message-id]` ancestor, unless empty. */
  function ClickTarget(path: seq<Element>): (r: Option<string>)
    ensures r.Some? ==> r.value != "" && Closest(path).Some? && Closest(path).value.messageId == Some(r.value)
    ensures r.None? <==> Closest(path).None? || Closest(path).value.messageId == Some("")
  {
    match Closest(path)
    case None => None
    case Some(e) => if e.messageId.value == "" then None else Some(e.messageId.value)
  }

  // ---------------------------------------------------------------------------
  // Properties of the scan

  lemma {:induction false} RemoveAllAppend(s: seq<string>, t: seq<string>, x: string)
    ensures RemoveAll(s + t, x) == RemoveAll(s, x) + RemoveAll(t, x)
  {
    if s == [] {
      assert s + t == t;
    } else {
      var h := if s[0] == x then [] else [s[0]];
      assert (s + t)[0] == s[0] && (s + t)[1..] == s[1..] + t;
      assert RemoveAll(s + t, x) == h + RemoveAll(s[1..] + t, x);
      RemoveAllAppend(s[1..], t, x);
      assert RemoveAll(s, x) == h + RemoveAll(s[1..], x);
      AppendAssoc(h, RemoveAll(s[1..], x), RemoveAll(t, x));
    }
  }

  lemma AppendAssoc(a: seq<string>, b: seq<string>, c: seq<string>)
    ensures a + (b + c) == (a + b) + c
  {
  }

  lemma {:induction false} RemoveAllAbsent(s: seq<string>, x: string)
    requires x !in s
    ensures RemoveAll(s, x) == s
  {
    if s != [] {
      RemoveAllAbsent(s[1..], x);
    }
  }

  /**
   * The scan yields exactly the non-empty `data-message-id` values, in
   * document order: one message per tagged element, empty ids dropped.
   */
  lemma {:induction false} ScanIds(doc: seq<Element>, now: int, rule: RoleRule)
    ensures MessageIds(Scan(doc, now, rule)) == RemoveAll(RawIds(doc), "")
  {
    if doc != [] {
      ScanIds(doc[1..], now, rule);
      var head := ScanHead(doc[0], now, rule);
      MessageIdsAppend(head, Scan(doc[1..], now, rule));
      var raw := match doc[0].messageId case Some(x) => [x] case None => [];
      RemoveAllAppend(raw, RawIds(doc[1..]), "");
    }
  }

  lemma {:induction false} MessageIdsAppend(a: seq<Message>, b: seq<Message>)
    ensures MessageIds(a + b) == MessageIds(a) + MessageIds(b)
  {
    if a != [] {
      assert (a + b)[1..] == a[1..] + b;
      MessageIdsAppend(a[1..], b);
    }
  }

  /**
   * Every scanned message comes from a tagged element of the document: same
   * id (never empty), role by the rule, content from the first existing
   * content candidate, and the scan's timestamp.
   */
  lemma {:induction false} ScanSound(doc: seq<Element>, now: int, rule: RoleRule, m: Message)
    requires m in Scan(doc, now, rule)
    ensures exists k :: (0 <= k < |doc| && doc[k].messageId == Some(m.id) && m.id != ""
      && m.role == RoleOf(rule, doc[k].roles) && m.content == ContentText(doc[k]) && m.timestamp == now)
  {
    var head := ScanHead(doc[0], now, rule);
    if m in head {
      assert doc[0].messageId == Some(m.id);
    } else {
      ScanSound(doc[1..], now, rule, m);
      var k :| 0 <= k < |doc[1..]| && doc[1..][k].messageId == Some(m.id) && m.id != ""
        && m.role == RoleOf(rule, doc[1..][k].roles) && m.content == ContentText(doc[1..][k]) && m.timestamp == now;
      assert doc[k + 1] == doc[1..][k];
    }
  }

  /**
   * Position by position: the i-th message is the scan of some element k, and
   * exactly i messages come from the elements before k.
   */
  lemma {:induction false} ScanAt(doc: seq<Element>, now: int, rule: RoleRule, i: nat) returns (k: nat)
    requires i < |Scan(doc, now, rule)|
    ensures k < |doc| && ScanOne(doc[k], now, rule) == Some(Scan(doc, now, rule)[i])
    ensures |Scan(doc[..k], now, rule)| == i
  {
    var head := ScanHead(doc[0], now, rule);
    assert Scan(doc, now, rule) == head + Scan(doc[1..], now, rule);
    if i < |head| {
      k := 0;
      assert doc[..0] == [];
      assert ScanOne(doc[0], now, rule) == Some(head[0]);
    } else {
      var k' := ScanAt(doc[1..], now, rule, i - |head|);
      k := k' + 1;
      ScanPrefixCons(doc, now, rule, k');
      assert doc[k] == doc[1..][k'];
      assert Scan(doc, now, rule)[i] == Scan(doc[1..], now, rule)[i - |head|];
    }
  }

  lemma ScanPrefixCons(doc: seq<Element>, now: int, rule: RoleRule, k: nat)
    requires k < |doc|
    ensures Scan(doc[..k + 1], now, rule)
      == ScanHead(doc[0], now, rule) + Scan(doc[1..][..k], now, rule)
  {
    var prefix := doc[..k + 1];
    assert prefix[0] == doc[0] && prefix[1..] == doc[1..][..k];
  }

  /** With no `[data-message-id]` element, or only empty ids, the scan is empty; conversely an empty scan means every id found was empty. */
  lemma ScanEmptyIffOnlyEmptyIds(doc: seq<Element>, now: int, rule: RoleRule)
    ensures Scan(doc, now, rule) == [] <==> forall x :: x in RawIds(doc) ==> x == ""
  {
    ScanIds(doc, now, rule);
    var ids := RawIds(doc);
    assert multiset(RemoveAll(ids, "")) == multiset(ids)["" := 0];
    if Scan(doc, now, rule) == [] {
      assert RemoveAll(ids, "") == [];
    } else {
      var m := Scan(doc, now, rule)[0];
      assert MessageIds(Scan(doc, now, rule))[0] == m.id;
      assert m.id in multiset(RemoveAll(ids, ""));
      assert m.id != "";
      assert m.id in ids;
    }
  }

  /**
   * The two role rules agree except when role attributes nest: the initial
   * scan says assistant while the rescan says user exactly when some enclosing
   * element is "assistant" but the nearest role-bearing element is not.
   */
  lemma RoleRulesDiffer(roles: seq<string>)
    ensures RoleOf(NearestRole, roles) == Assistant ==> RoleOf(ClosestAssistant, roles) == Assistant
    ensures RoleOf(ClosestAssistant, roles) != RoleOf(NearestRole, roles)
        <==> AssistantRole in roles && roles[0] != AssistantRole
  {
  }

  /** A user turn nested inside an assistant container: the two scans disagree. */
  lemma RoleRulesDisagreeWhenNested()
    ensures RoleOf(ClosestAssistant, ["user", "assistant"]) == Assistant
    ensures RoleOf(NearestRole, ["user", "assistant"]) == User
  {
    assert "assistant" == ["user", "assistant"][1];
  }

  // ---------------------------------------------------------------------------
  // Properties of the selection operations

  /** Toggling an absent id twice restores the selection. */
  lemma ToggleTwiceAbsent(sel: seq<string>, id: string)
    requires id !in sel
    ensures Toggle(Toggle(sel, id), id) == sel
  {
    assert id in sel + [id];
    RemoveAllAppend(sel, [id], id);
    RemoveAllAbsent(sel, id);
    assert RemoveAll([id], id) == [];
  }

  /** Toggling a present id twice removes all its copies and puts one at the end. */
  lemma ToggleTwicePresent(sel: seq<string>, id: string)
    requires id in sel
    ensures Toggle(Toggle(sel, id), id) == RemoveAll(sel, id) + [id]
  {
  }

  /** Toggle-twice is not the identity: a selected id moves behind the others... */
  lemma ToggleTwiceReorders(a: string, b: string)
    requires a != b
    ensures Toggle(Toggle([a, b], a), a) == [b, a]
  {
    assert [a, b][0] == a;
    ToggleTwicePresent([a, b], a);
    assert [a, b][1..] == [b];
    assert [b][1..] == [];
    assert RemoveAll([b], a) == [b];
  }

  /** ...and duplicate copies of it collapse into one. */
  lemma ToggleTwiceCollapses(a: string)
    ensures Toggle(Toggle([a, a], a), a) == [a]
  {
    assert [a, a][0] == a;
    ToggleTwicePresent([a, a], a);
    assert [a, a][1..] == [a];
    assert [a][1..] == [];
    assert RemoveAll([a], a) == [];
  }

  /**
   * `selectAll`: a non-empty scan selects exactly the non-empty ids in
   * document order; otherwise the fallback selects every raw id, which can
   * then only be empty ids; with no tagged element the selection is kept.
   */
  lemma SelectAllSpec(sel: seq<string>, doc: seq<Element>, now: int)
    ensures Scan(doc, now, ClosestAssistant) != [] ==>
      SelectAllResult(sel, doc, now) == RemoveAll(RawIds(doc), "")
    ensures Scan(doc, now, ClosestAssistant) == [] && RawIds(doc) != [] ==>
      SelectAllResult(sel, doc, now) == RawIds(doc)
      && forall x :: x in SelectAllResult(sel, doc, now) ==> x == ""
    ensures RawIds(doc) == [] ==> SelectAllResult(sel, doc, now) == sel
    ensures Tagged(doc) != [] ==> SelectAllResult(sel, doc, now) != []
  {
    ScanIds(doc, now, ClosestAssistant);
    ScanEmptyIffOnlyEmptyIds(doc, now, ClosestAssistant);
    if RawIds(doc) == [] {
      assert Scan(doc, now, ClosestAssistant) == [];
    }
  }

  /** A document whose only tagged element has an empty id: the fallback selects "". */
  lemma SelectAllKeepsEmptyId(sel: seq<string>, e: Element, now: int)
    requires e.messageId == Some("")
    ensures SelectAllResult(sel, [e], now) == [""]
  {
    assert [e][1..] == [];
    assert Scan([e], now, ClosestAssistant) == [];
  }

  /**
   * In selection mode a click on an indicator runs its own handler and then
   * the page-level one, both toggling the same id: for an unselected message
   * the click changes nothing.
   */
  lemma IndicatorClickCancels(sel: seq<string>, id: string, indicator: Element, message: Element, rest: seq<Element>)
    requires indicator.messageId.None?
    requires message.messageId == Some(id) && id != ""
    requires id !in sel
    ensures ClickTarget([indicator, message] + rest) == Some(id)
    ensures Toggle(Toggle(sel, id), id) == sel
  {
    assert ([indicator, message] + rest)[1..] == [message] + rest;
    assert Closest([message] + rest) == Some(message);
    ToggleTwiceAbsent(sel, id);
  }

  // ---------------------------------------------------------------------------
  // The hook's state

  class MessageStore {
    var messages: seq<Message>
    var selected: seq<string>
    var isLoading: bool
    var isSelectionMode: bool

    constructor ()
      ensures messages == [] && selected == [] && isLoading && !isSelectionMode
    {
      messages := [];
      selected := [];
      isLoading := true;
      isSelectionMode := false;
    }

    /**
     * `initMessages`, and with `NearestRole` the debounced rescan's body. With
     * no tagged element nothing changes and the result is empty; otherwise the
     * message list is replaced by the scan and loading ends.
     */
    method InitMessages(doc: seq<Element>, now: int, rule: RoleRule) returns (found: seq<Message>)
      modifies this
      ensures found == Scan(doc, now, rule)
      ensures Tagged(doc) == [] ==> messages == old(messages) && isLoading == old(isLoading)
      ensures Tagged(doc) != [] ==> messages == found && !isLoading
      ensures selected == old(selected) && isSelectionMode == old(isSelectionMode)
    {
      if |Tagged(doc)| > 0 {
        isLoading := false;
        found := Scan(doc, now, rule);
        messages := found;
      } else {
        found := [];
        ScanEmptyIffOnlyEmptyIds(doc, now, rule);
      }
    }

    method SelectAll(doc: seq<Element>, now: int)
      modifies this
      ensures selected == SelectAllResult(old(selected), doc, now)
      ensures Tagged(doc) == [] ==> messages == old(messages) && isLoading == old(isLoading)
      ensures Tagged(doc) != [] ==> messages == Scan(doc, now, ClosestAssistant) && !isLoading
      ensures isSelectionMode == old(isSelectionMode)
    {
      var current := InitMessages(doc, now, ClosestAssistant);
      if |current| == 0 {
        var ids := RawIds(doc);
        if |ids| > 0 {
          selected := ids;
        }
      } else {
        selected := MessageIds(current);
      }
    }

    method ToggleMessage(id: string)
      modifies this`selected
      ensures selected == Toggle(old(selected), id)
    {
      if id in selected {
        selected := RemoveAll(selected, id);
      } else {
        selected := selected + [id];
      }
    }

    method ClearSelection()
      modifies this`selected
      ensures selected == []
    {
      selected := [];
    }

    /** Entering selection mode rescans; leaving it empties the selection. */
    method ToggleSelectionMode(doc: seq<Element>, now: int)
      modifies this
      ensures isSelectionMode == !old(isSelectionMode)
      ensures old(isSelectionMode) ==>
        selected == [] && messages == old(messages) && isLoading == old(isLoading)
      ensures !old(isSelectionMode) ==> selected == old(selected)
      ensures !old(isSelectionMode) && Tagged(doc) == [] ==>
        messages == old(messages) && isLoading == old(isLoading)
      ensures !old(isSelectionMode) && Tagged(doc) != [] ==>
        messages == Scan(doc, now, ClosestAssistant) && !isLoading
    {
      var wasSelecting := isSelectionMode;
      isSelectionMode := !isSelectionMode;
      if !wasSelecting {
        var _ := InitMessages(doc, now, ClosestAssistant);
      } else {
        selected := [];
      }
    }

    /**
     * The page-level click listener, installed only in selection mode: it
     * toggles the id of the nearest `[data-message-id]` ancestor of the
     * target, and ignores clicks outside messages and empty ids.
     */
    method HandleClick(path: seq<Element>)
      modifies this`selected
      ensures isSelectionMode && ClickTarget(path).Some? ==>
        selected == Toggle(old(selected), ClickTarget(path).value)
      ensures !isSelectionMode || ClickTarget(path).None? ==> selected == old(selected)
    {
      if !isSelectionMode {
        return;
      }
      var message := Closest(path);
      if message.None? {
        return;
      }
      var messageId := message.value.messageId.value;
      if messageId == "" {
        return;
      }
      ToggleMessage(messageId);
    }

    /** A click on a `message-selector` indicator bound to `boundId`: its own handler, then the bubbling one. */
    method ClickIndicator(boundId: string, path: seq<Element>)
      modifies this`selected
      ensures isSelectionMode && ClickTarget(path).Some? ==>
        selected == Toggle(Toggle(old(selected), boundId), ClickTarget(path).value)
      ensures !isSelectionMode || ClickTarget(path).None? ==> selected == Toggle(old(selected), boundId)
    {
      ToggleMessage(boundId);
      HandleClick(path);
    }
  }
}
