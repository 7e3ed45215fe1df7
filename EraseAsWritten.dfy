/**
 * The loop of Vec<T>::erase as Vec.h writes it, over a buffer whose
 * slots are either raw storage or a constructed element.
 *
 * For i from pos while i != one_past_last - 1, each pass destroys slot i and
 * then placement-constructs a copy of slot i+1 at one_past_last (slot `len`),
 * not at slot i. After the loop slot i (= len - 1) is destroyed and the length
 * drops by one. So the slots pos .. len-2 end up destroyed while they lie
 * inside the new live range, and a constructed element is left beyond its
 * end. When len == cap, slot `len` lies outside the allocation.
 *
 * From the second pass on, the source constructs at slot `len` over the copy
 * it left there on the previous pass, without destroying that copy first.
 * Here both cases overwrite a `Live` slot with a `Live` slot, so the two look
 * the same. For value elements the difference cannot be observed.
 */
module EraseAsWritten {

  /** A slot of an allocation: raw (never constructed, or destroyed) or holding an element. */
  datatype Slot<T> = Raw | Live(value: T)

  datatype Option<T> = None | Some(value: T)

  /** The first `len` slots hold constructed elements and the rest is raw storage. */
  ghost predicate Constructed<T>(slots: seq<Slot<T>>, len: nat)
  {
    len <= |slots| &&
    (forall k :: 0 <= k < len ==> slots[k].Live?) &&
    (forall k :: len <= k < |slots| ==> slots[k] == Raw)
  }

  /**
   * erase(pos) as written, on a buffer of |slots| == cap slots, `len` of them
   * constructed. The result is the buffer after the call (the new length is
   * len - 1), or None when the loop constructs at slot `len == cap`, outside
   * the allocation. The buffer is left well formed only when `pos` is the
   * last element.
   */
  method EraseAsWritten<T>(slots: seq<Slot<T>>, len: nat, pos: nat) returns (r: Option<seq<Slot<T>>>)
    requires Constructed(slots, len) && pos < len
    ensures r.None? <==> pos < len - 1 && len == |slots|
    ensures r.Some? ==> |r.value| == |slots|
    ensures r.Some? ==> forall k :: 0 <= k < pos ==> r.value[k] == slots[k]
    ensures r.Some? ==> forall k :: pos <= k < len ==> r.value[k] == Raw
    ensures r.Some? ==> forall k :: len < k < |slots| ==> r.value[k] == Raw
    ensures r.Some? && len < |slots| ==>
              r.value[len] == if pos < len - 1 then slots[len - 1] else Raw
    ensures r.Some? ==> (Constructed(r.value, len - 1) <==> pos == len - 1)
  {
    var s := slots;
    var i := pos;
    while i != len - 1
      invariant pos <= i <= len - 1
      invariant |s| == |slots|
      invariant i > pos ==> len < |s|
      invariant forall k :: 0 <= k < pos ==> s[k] == slots[k]
      invariant forall k :: pos <= k < i ==> s[k] == Raw
      invariant forall k :: i <= k < len ==> s[k] == slots[k]
      invariant forall k :: len < k < |s| ==> s[k] == Raw
      invariant len < |s| ==> s[len] == if i > pos then slots[i] else Raw
      decreases len - 1 - i
    {
      if len == |s| {
        // the placement new at one_past_last would write past the allocation
        return None;
      }
      s := s[i := Raw];
      s := s[len := Live(s[i + 1].value)];
      i := i + 1;
    }
    s := s[i := Raw];
    if pos < len - 1 {
      assert s[pos] == Raw;
    }
    r := Some(s);
  }

  /**
   * Erasing index 0 of [0, 1, 2] in a buffer of four slots: as written, the
   * two remaining live slots are both destroyed and the value 2 sits
   * constructed in slot 3; the intended result is [1, 2] in slots 0 and 1.
   * With no spare slot the loop writes past the allocation.
   */
  method EraseAsWrittenExample() returns (spare: Option<seq<Slot<int>>>, full: Option<seq<Slot<int>>>)
    ensures spare == Some([Raw, Raw, Raw, Live(2)])
    ensures full == None
  {
    spare := EraseAsWritten([Live(0), Live(1), Live(2), Raw], 3, 0);
    assert spare.value == [Raw, Raw, Raw, Live(2)];
    full := EraseAsWritten([Live(0), Live(1), Live(2)], 3, 0);
  }
}
