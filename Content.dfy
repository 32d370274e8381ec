/**
 * `addMessageSelectors` of the content script: every `.message` element
 * without a `data-message-id` gets the id `msg-<time>-<index>` and a
 * `message-selector` indicator as its new first child, bound to that id.
 *
 * `Date.now()` is read once per stamped element; `clock(index)` is the value
 * read for the element at that index among the untagged ones.
 */
module Content {
  import opened Dom

  // ---------------------------------------------------------------------------
  // Decimal rendering of the numbers in an id

  function Digit(d: nat): (c: char)
    requires d < 10
    ensures '0' <= c <= '9'
  {
    "0123456789"[d]
  }

  function DigitValue(c: char): nat
  {
    if '0' <= c <= '9' then (c as int - '0' as int) as nat else 0
  }

  /** A template literal's rendering of a non-negative integer: its decimal digits. */
  function NatStr(n: nat): (s: string)
    ensures |s| > 0
  {
    if n < 10 then [Digit(n)] else NatStr(n / 10) + [Digit(n % 10)]
  }

  lemma {:induction false} NatStrDigits(n: nat)
    ensures forall i :: 0 <= i < |NatStr(n)| ==> '0' <= NatStr(n)[i] <= '9'
  {
    if n >= 10 {
      NatStrDigits(n / 10);
    }
  }

  /** Reads back a string of decimal digits. */
  function ParseNat(s: string): nat
  {
    if s == [] then 0 else 10 * ParseNat(s[..|s| - 1]) + DigitValue(s[|s| - 1])
  }

  lemma {:induction false} ParseNatStr(n: nat)
    ensures ParseNat(NatStr(n)) == n
  {
    if n >= 10 {
      ParseNatStr(n / 10);
      var s := NatStr(n);
      assert s[..|s| - 1] == NatStr(n / 10);
    }
  }

  lemma NatStrInjective(a: nat, b: nat)
    requires NatStr(a) == NatStr(b)
    ensures a == b
  {
    ParseNatStr(a);
    ParseNatStr(b);
  }

  /** The id stamped on a message: `msg-${Date.now()}-${index}`. */
  function StampId(time: nat, index: nat): string
  {
    "msg-" + NatStr(time) + "-" + NatStr(index)
  }

  /** `msg-`, the digits of the time, one dash, the digits of the index: no other character occurs. */
  lemma StampIdShape(time: nat, index: nat)
    ensures var s, n := StampId(time, index), |NatStr(time)|;
      |s| == 5 + n + |NatStr(index)| && s[..4] == "msg-" && s[4 + n] == '-'
      && s[4..4 + n] == NatStr(time) && s[5 + n..] == NatStr(index)
    ensures var s, n := StampId(time, index), |NatStr(time)|;
      forall i :: 4 <= i < |s| && i != 4 + n ==> '0' <= s[i] <= '9'
  {
    var s, n := StampId(time, index), |NatStr(time)|;
    NatStrDigits(time);
    NatStrDigits(index);
    assert s[4..4 + n] == NatStr(time);
    assert s[5 + n..] == NatStr(index);
    forall i | 4 <= i < |s| && i != 4 + n
      ensures '0' <= s[i] <= '9'
    {
      if i < 4 + n {
        assert s[i] == NatStr(time)[i - 4];
      } else {
        assert s[i] == NatStr(index)[i - 5 - n];
      }
    }
  }

  lemma DashAfter(time: string, index: string)
    ensures ("msg-" + time + "-" + index)[4 + |time|] == '-'
  {
  }

  /** The time and the index can be read back from an id, so different indices give different ids. */
  lemma StampIdInjective(t1: nat, i1: nat, t2: nat, i2: nat)
    requires StampId(t1, i1) == StampId(t2, i2)
    ensures t1 == t2 && i1 == i2
  {
    var a, b := NatStr(t1), NatStr(t2);
    var s := StampId(t1, i1);
    assert s == StampId(t2, i2);
    NatStrDigits(t1);
    NatStrDigits(t2);
    if |a| < |b| {
      DashAfter(a, NatStr(i1));
      assert false;
    } else if |b| < |a| {
      DashAfter(b, NatStr(i2));
      assert false;
    }
    assert a == s[4..4 + |a|] == b;
    NatStrInjective(t1, t2);
    assert NatStr(i1) == s[5 + |a|..] == NatStr(i2);
    NatStrInjective(i1, i2);
  }

  // ---------------------------------------------------------------------------
  // One stamping pass

  /** Matches `.message:not([data-message-id])`. */
  predicate Untagged(e: Element)
  {
    e.isMessage && e.messageId.None?
  }

  /** `setAttribute('data-message-id', id)` and `prepend` of an indicator bound to `id`. */
  function Stamp(e: Element, id: string): Element
  {
    e.(messageId := Some(id), selectors := [id] + e.selectors)
  }

  /** `.message:not([data-message-id])` picks exactly the `.message` elements that `[data-message-id]` does not. */
  lemma UntaggedNotTagged(doc: seq<Element>)
    ensures forall e :: e in doc ==> (Untagged(e) <==> e.isMessage && e !in Tagged(doc))
  {
  }

  /**
   * Stamping sets the id, so the element no longer matches the pass's
   * selector, and prepends exactly one indicator bound to that id; the rest of
   * the element is unchanged.
   */
  lemma StampSpec(e: Element, id: string)
    ensures Stamp(e, id).messageId == Some(id) && !Untagged(Stamp(e, id))
    ensures Stamp(e, id).selectors[0] == id && Stamp(e, id).selectors[1..] == e.selectors
    ensures InnerHtml(Stamp(e, id)) == IndicatorMarkup + InnerHtml(e)
    ensures Stamp(e, id).(messageId := e.messageId, selectors := e.selectors) == e
  {
    InnerHtmlPrepend(e, id);
  }

  function CountUntagged(es: seq<Element>): (n: nat)
    ensures n <= |es|
  {
    if es == [] then 0 else CountUntagged(es[..|es| - 1]) + (if Untagged(es[|es| - 1]) then 1 else 0)
  }

  /**
   * The elements after a pass, given the index of the first untagged one
   * among them and the id each index gets.
   */
  function StampFrom(es: seq<Element>, index: nat, ids: nat -> string): (r: seq<Element>)
    ensures |r| == |es|
  {
    if es == [] then []
    else if Untagged(es[0]) then [Stamp(es[0], ids(index))] + StampFrom(es[1..], index + 1, ids)
    else [es[0]] + StampFrom(es[1..], index, ids)
  }

  /** The id the pass gives its `index`-th untagged element. */
  function PassIds(clock: nat -> nat): nat -> string
  {
    (index: nat) => StampId(clock(index), index)
  }

  function Pass(es: seq<Element>, clock: nat -> nat): (r: seq<Element>)
    ensures |r| == |es|
  {
    StampFrom(es, 0, PassIds(clock))
  }

  lemma {:induction false} CountUntaggedCons(e: Element, es: seq<Element>)
    ensures CountUntagged([e] + es) == (if Untagged(e) then 1 else 0) + CountUntagged(es)
    decreases |es|
  {
    if es != [] {
      var init := es[..|es| - 1];
      assert ([e] + es)[..|es|] == [e] + init;
      CountUntaggedCons(e, init);
    } else {
      assert ([e] + es)[..0] == [];
    }
  }

  /**
   * Element by element: an untagged element is stamped with the id for its
   * position among the untagged ones, every other element is left as it was.
   */
  lemma {:induction false} StampFromAt(es: seq<Element>, index: nat, ids: nat -> string, k: nat)
    requires k < |es|
    ensures Untagged(es[k]) ==> StampFrom(es, index, ids)[k] == Stamp(es[k], ids(index + CountUntagged(es[..k])))
    ensures !Untagged(es[k]) ==> StampFrom(es, index, ids)[k] == es[k]
  {
    if k == 0 {
      assert es[..0] == [];
    } else {
      var next := if Untagged(es[0]) then index + 1 else index;
      StampFromAt(es[1..], next, ids, k - 1);
      StampFromTail(es, index, ids, k);
      CountAfterHead(es, index, k);
    }
  }

  lemma StampFromTail(es: seq<Element>, index: nat, ids: nat -> string, k: nat)
    requires 0 < k < |es|
    ensures StampFrom(es, index, ids)[k]
      == StampFrom(es[1..], if Untagged(es[0]) then index + 1 else index, ids)[k - 1]
    ensures es[1..][k - 1] == es[k]
  {
  }

  lemma CountAfterHead(es: seq<Element>, index: nat, k: nat)
    requires 0 < k <= |es|
    ensures index + CountUntagged(es[..k])
      == (if Untagged(es[0]) then index + 1 else index) + CountUntagged(es[1..][..k - 1])
  {
    assert es[..k] == [es[0]] + es[1..][..k - 1];
    CountUntaggedCons(es[0], es[1..][..k - 1]);
  }

  /** After a pass no `.message` element is left without an id. */
  lemma NoneLeftUntagged(es: seq<Element>, clock: nat -> nat)
    ensures forall k :: 0 <= k < |es| ==> !Untagged(Pass(es, clock)[k])
  {
    forall k | 0 <= k < |es| ensures !Untagged(Pass(es, clock)[k]) {
      StampFromAt(es, 0, PassIds(clock), k);
    }
  }

  /**
   * Tagged elements keep their id; each newly tagged element gets its id and
   * exactly one new first child: an indicator bound to that same id.
   */
  lemma PassStampsUntaggedOnly(es: seq<Element>, clock: nat -> nat, k: nat)
    requires k < |es|
    ensures es[k].messageId.Some? ==> Pass(es, clock)[k] == es[k]
    ensures Untagged(es[k]) ==>
      var e := Pass(es, clock)[k];
      var j := CountUntagged(es[..k]);
      e.messageId == Some(StampId(clock(j), j))
      && e.selectors == [e.messageId.value] + es[k].selectors
      && e.isMessage && e.roles == es[k].roles && e.html == es[k].html
  {
    StampFromAt(es, 0, PassIds(clock), k);
  }

  /** Ids stamped in one pass are pairwise distinct, whatever the clock reads. */
  lemma StampedIdsDistinct(es: seq<Element>, clock: nat -> nat, k1: nat, k2: nat)
    requires k1 < k2 < |es| && Untagged(es[k1]) && Untagged(es[k2])
    ensures Pass(es, clock)[k1].messageId != Pass(es, clock)[k2].messageId
  {
    PassAt(es, clock, k1);
    PassAt(es, clock, k2);
    CountUntaggedPrefix(es, k1, k2);
    var j1, j2 := CountUntagged(es[..k1]), CountUntagged(es[..k2]);
    StampIdsDiffer(clock(j1), j1, clock(j2), j2);
  }

  lemma StampIdsDiffer(t1: nat, i1: nat, t2: nat, i2: nat)
    requires i1 != i2
    ensures StampId(t1, i1) != StampId(t2, i2)
  {
    if StampId(t1, i1) == StampId(t2, i2) {
      StampIdInjective(t1, i1, t2, i2);
    }
  }

  /** The index grows past every untagged element. */
  lemma {:induction false} CountUntaggedPrefix(es: seq<Element>, k1: nat, k2: nat)
    requires k1 < k2 <= |es| && Untagged(es[k1])
    ensures CountUntagged(es[..k1]) < CountUntagged(es[..k2])
    decreases k2
  {
    assert es[..k2][..k2 - 1] == es[..k2 - 1];
    if k2 - 1 > k1 {
      CountUntaggedPrefix(es, k1, k2 - 1);
    } else {
      assert es[..k2 - 1] == es[..k1];
    }
  }

  /** A pass over elements none of which is untagged changes nothing. */
  lemma {:induction false} StampFromNoop(es: seq<Element>, index: nat, ids: nat -> string)
    requires forall k :: 0 <= k < |es| ==> !Untagged(es[k])
    ensures StampFrom(es, index, ids) == es
  {
    if es != [] {
      assert !Untagged(es[0]);
      StampFromNoop(es[1..], index, ids);
    }
  }

  /**
   * A second pass changes nothing, whatever the clock then reads: the
   * observer firing again on the pass's own writes is harmless.
   */
  lemma SecondPassNoop(es: seq<Element>, clock1: nat -> nat, clock2: nat -> nat)
    ensures Pass(Pass(es, clock1), clock2) == Pass(es, clock1)
  {
    NoneLeftUntagged(es, clock1);
    StampFromNoop(Pass(es, clock1), 0, PassIds(clock2));
  }

  /** The number of untagged elements; the pass tags exactly this many. */
  lemma {:induction false} NewlyTaggedCount(es: seq<Element>, index: nat, ids: nat -> string)
    ensures |set k | 0 <= k < |es| && es[k].messageId.None? && StampFrom(es, index, ids)[k].messageId.Some?|
      == CountUntagged(es)
  {
    var newly := set k | 0 <= k < |es| && es[k].messageId.None? && StampFrom(es, index, ids)[k].messageId.Some?;
    var untagged := set k | 0 <= k < |es| && Untagged(es[k]);
    forall k | 0 <= k < |es| ensures k in newly <==> k in untagged {
      StampFromAt(es, index, ids, k);
    }
    assert newly == untagged;
    UntaggedIndices(es);
  }

  lemma {:induction false} UntaggedIndices(es: seq<Element>)
    ensures |set k | 0 <= k < |es| && Untagged(es[k])| == CountUntagged(es)
  {
    if es != [] {
      var init := es[..|es| - 1];
      UntaggedIndices(init);
      var before := set k | 0 <= k < |init| && Untagged(init[k]);
      var now := set k | 0 <= k < |es| && Untagged(es[k]);
      if Untagged(es[|es| - 1]) {
        assert now == before + {|es| - 1};
      } else {
        assert now == before;
      }
    }
  }

  /** One element of the pass: its result, and the index moving past it exactly when it is untagged. */
  lemma PassAt(es: seq<Element>, clock: nat -> nat, k: nat)
    requires k < |es|
    ensures var j := CountUntagged(es[..k]);
      && CountUntagged(es[..k + 1]) == (if Untagged(es[k]) then j + 1 else j)
      && Pass(es, clock)[k] == if Untagged(es[k]) then Stamp(es[k], StampId(clock(j), j)) else es[k]
  {
    assert es[..k + 1][..k] == es[..k];
    StampFromAt(es, 0, PassIds(clock), k);
  }

  /**
   * Ids are unique only within one pass: the index restarts at 0 on every
   * pass, so an element stamped by a later pass that reads the same time gets
   * the id of the first element stamped by an earlier one. The attribute
   * lookup then resolves both to the earlier element.
   */
  lemma CrossPassCollision(a: Element, b: Element, clock1: nat -> nat, clock2: nat -> nat)
    requires Untagged(a) && Untagged(b) && clock1(0) == clock2(0)
    ensures var s := Pass(Pass([a], clock1) + [b], clock2);
      |s| == 2 && s[0].messageId.Some? && s[0].messageId == s[1].messageId
      && Lookup(s, s[1].messageId.value) == Some(s[0])
  {
    var id := StampId(clock1(0), 0);
    TwoPasses(a, b, clock1, clock2);
    var s := Pass(Pass([a], clock1) + [b], clock2);
    assert s[0].messageId == Some(id);
  }

  /** The two passes of `CrossPassCollision`, element by element. */
  lemma TwoPasses(a: Element, b: Element, clock1: nat -> nat, clock2: nat -> nat)
    requires Untagged(a) && Untagged(b)
    ensures var s := Pass(Pass([a], clock1) + [b], clock2);
      |s| == 2 && s[0] == Stamp(a, StampId(clock1(0), 0)) && s[1] == Stamp(b, StampId(clock2(0), 0))
  {
    var first := Stamp(a, StampId(clock1(0), 0));
    PassFirst(a, [], clock1);
    assert [a] + [] == [a];
    assert Pass([a], clock1) == [first];
    assert !Untagged(first);
    PassFirst(first, [b], clock2);
    PassFirst(b, [], clock2);
    assert [b] + [] == [b];
  }

  /** The first element of a pass, stamped with index 0 when it is untagged. */
  lemma PassFirst(e: Element, rest: seq<Element>, clock: nat -> nat)
    ensures Untagged(e) ==> Pass([e] + rest, clock) == [Stamp(e, StampId(clock(0), 0))] + StampFrom(rest, 1, PassIds(clock))
    ensures !Untagged(e) ==> Pass([e] + rest, clock) == [e] + Pass(rest, clock)
  {
    assert ([e] + rest)[1..] == rest;
  }

  // ---------------------------------------------------------------------------
  // The pass over the live document

  class Document {
    var elements: seq<Element>

    constructor (elements: seq<Element>)
      ensures this.elements == elements
    {
      this.elements := elements;
    }

    /** One run of `addMessageSelectors`, as the `forEach` over the untagged elements. */
    method AddMessageSelectors(clock: nat -> nat)
      modifies this
      ensures elements == Pass(old(elements), clock)
    {
      ghost var start := elements;
      ghost var target := Pass(start, clock);
      var k := 0;
      var index := 0;
      while k < |elements|
        invariant |elements| == |start| && k <= |elements|
        invariant index == CountUntagged(start[..k])
        invariant forall j :: 0 <= j < k ==> elements[j] == target[j]
        invariant forall j :: k <= j < |elements| ==> elements[j] == start[j]
      {
        var e := elements[k];
        PassAt(start, clock, k);
        if Untagged(e) {
          var messageId := StampId(clock(index), index);
          elements := elements[k := Stamp(e, messageId)];
          index := index + 1;
        }
        k := k + 1;
      }
    }
  }
}
