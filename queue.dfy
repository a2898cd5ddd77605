/**
 * A method's response queue and the count policy an invocation applies to
 * its head (src/index.ts:75-80 and :116-121).
 */
module ResponseQueue {
  import opened DeviceModel

  function Repeat<T>(x: T, n: nat): (s: seq<T>)
    ensures |s| == n && forall k :: 0 <= k < n ==> s[k] == x
  {
    if n == 0 then [] else [x] + Repeat(x, n - 1)
  }

  /** The source's `responses` array as the values its slots show. */
  function Slots<P>(q: seq<QueueEntry<P>>): (s: seq<ScriptedResponse<P>>)
    ensures |s| >= |q|
    ensures q != [] ==> |s| >= q[0].copies && forall k :: 0 <= k < q[0].copies ==> s[k] == q[0].response
  {
    if |q| == 0 then [] else Repeat(q[0].response, q[0].copies) + Slots(q[1..])
  }

  lemma SlotsCons<P>(e: QueueEntry<P>, rest: seq<QueueEntry<P>>)
    ensures Slots([e] + rest) == Repeat(e.response, e.copies) + Slots(rest)
  {
    assert ([e] + rest)[1..] == rest;
  }

  /** Appending entries appends their slots. */
  lemma {:induction false} SlotsAppend<P>(a: seq<QueueEntry<P>>, b: seq<QueueEntry<P>>)
    ensures Slots(a + b) == Slots(a) + Slots(b)
  {
    if a == [] {
      assert a + b == b;
    } else {
      assert a + b == [a[0]] + (a[1..] + b);
      assert a == [a[0]] + a[1..];
      SlotsCons(a[0], a[1..] + b);
      SlotsCons(a[0], a[1..]);
      SlotsAppend(a[1..], b);
    }
  }

  /**
   * The only sharing that arises: the head object may fill the first two
   * slots (a first registration), every later object fills one slot.
   */
  ghost predicate Shaped<P>(q: seq<QueueEntry<P>>)
  {
    forall k :: 0 <= k < |q| ==> q[k].copies <= (if k == 0 then 2 else 1)
  }

  /** The queue after one invocation has used its head. */
  function Consume<P>(q: seq<QueueEntry<P>>): (r: seq<QueueEntry<P>>)
    requires q != []
    ensures Shaped(q) ==> Shaped(r)
  {
    var head := q[0];
    if head.response.count > 1 then
      // response.count-- on the shared object
      [head.(response := head.response.(count := head.response.count - 1))] + q[1..]
    else if head.response.count == 1 then
      // responses.splice(0, 1) drops one slot
      if head.copies > 1 then [head.(copies := head.copies - 1)] + q[1..] else q[1..]
    else
      q
  }

  /**
   * The count policy on the source's array: above 1 every slot holding the
   * head object shows the count lowered by one and nothing else changes;
   * exactly 1 removes the first slot; otherwise the array is untouched.
   */
  lemma ConsumePolicy<P>(q: seq<QueueEntry<P>>)
    requires q != []
    ensures var h, s, s' := q[0].response, Slots(q), Slots(Consume(q));
      && (h.count > 1 ==>
            |s'| == |s| &&
            forall k :: 0 <= k < |s| ==> s'[k] == (if k < q[0].copies then h.(count := h.count - 1) else s[k]))
      && (h.count == 1 ==> s' == s[1..])
      && (h.count <= 0 ==> s' == s)
  {
    var h := q[0].response;
    if h.count > 1 {
      ConsumeDecrements(q);
    } else if h.count == 1 {
      ConsumeRemoves(q);
    }
  }

  lemma ConsumeDecrements<P>(q: seq<QueueEntry<P>>)
    requires q != [] && q[0].response.count > 1
    ensures var h, s, s' := q[0].response, Slots(q), Slots(Consume(q));
      |s'| == |s| &&
      forall k :: 0 <= k < |s| ==> s'[k] == (if k < q[0].copies then h.(count := h.count - 1) else s[k])
  {
    var head, rest := q[0], q[1..];
    var h := head.response;
    var h' := h.(count := h.count - 1);
    assert q == [head] + rest;
    SlotsCons(head, rest);
    SlotsCons(head.(response := h'), rest);
    var s, s' := Slots(q), Slots(Consume(q));
    assert s == Repeat(h, head.copies) + Slots(rest);
    assert s' == Repeat(h', head.copies) + Slots(rest);
  }

  lemma ConsumeRemoves<P>(q: seq<QueueEntry<P>>)
    requires q != [] && q[0].response.count == 1
    ensures Slots(Consume(q)) == Slots(q)[1..]
  {
    var head, rest := q[0], q[1..];
    assert q == [head] + rest;
    SlotsCons(head, rest);
    if head.copies > 1 {
      UnshareHead(head, rest);
    } else {
      assert Consume(q) == rest;
      assert Slots(q) == [head.response] + Slots(rest);
    }
  }

  lemma UnshareHead<P>(head: QueueEntry<P>, rest: seq<QueueEntry<P>>)
    requires head.copies > 1
    ensures Slots([head.(copies := head.copies - 1)] + rest) == Slots([head] + rest)[1..]
  {
    var h := head.response;
    var tail := Repeat(h, head.copies - 1) + Slots(rest);
    SlotsCons(head, rest);
    SlotsCons(head.(copies := head.copies - 1), rest);
    assert Repeat(h, head.copies) == [h] + Repeat(h, head.copies - 1);
    assert Slots([head] + rest) == [h] + tail;
  }
}
