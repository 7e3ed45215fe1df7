/**
 * Vec<T>::push_back as Vec.h writes it, when its `const T&` argument refers
 * to an element of the same vector, as in `a.push_back(a[src])`.
 *
 * When the vector is full, `_grow` copies the live elements into a new
 * buffer and then `_destroy` destroys every old element and releases the
 * old buffer. Only after that is the new element copy-constructed from the
 * argument, which still refers into the released buffer. Here a copy made
 * from a destroyed slot is itself raw: the new last slot holds no element.
 */
module PushBackAsWritten {
  import opened EraseAsWritten
  import opened Vectors

  /**
   * push_back(slots[src]) as written, on a buffer of |slots| == cap slots, `len`
   * of them constructed. Returns the buffer after the call; the new length is
   * len + 1. The result is well formed exactly when no growth step ran.
   */
  method PushBackAliasedAsWritten<T>(slots: seq<Slot<T>>, len: nat, src: nat) returns (r: seq<Slot<T>>)
    requires Constructed(slots, len) && src < len
    ensures |r| == if len == |slots| then NewCapacity(|slots|, len + 1) else |slots|
    ensures forall k :: 0 <= k < len ==> r[k] == slots[k]
    ensures r[len] == if len == |slots| then Raw else slots[src]
    ensures forall k :: len < k < |r| ==> r[k] == Raw
    ensures Constructed(r, len + 1) <==> len < |slots|
  {
    var buffer := slots;
    if len + 1 > |slots| {
      // _grow: copy the live elements into a new allocation
      var newCap := NewCapacity(|slots|, len + 1);
      var grown := seq(newCap, _ => Raw);
      var i := 0;
      while i < len
        invariant 0 <= i <= len && |grown| == newCap
        invariant forall k :: 0 <= k < i ==> grown[k] == slots[k]
        invariant forall k :: i <= k < newCap ==> grown[k] == Raw
      {
        grown := grown[i := slots[i]];
        i := i + 1;
      }
      // _destroy: every old element is destroyed and the old allocation released
      buffer := seq(|slots|, _ => Raw);
      // line 194 copies the argument, which still names slot `src` of the old allocation
      var arg := buffer[src];
      r := grown[len := arg];
    } else {
      r := buffer[len := buffer[src]];
    }
  }

  /**
   * Vec(1, 5) followed by push_back(a[0]): the vector is full, so as written
   * slot 1 of the new buffer of eight slots is built from the destroyed old
   * element and holds nothing. The intended result is [5, 5].
   */
  method PushBackAliasedExample() returns (r: seq<Slot<int>>)
    ensures |r| == 8 && r[0] == Live(5) && r[1] == Raw
    ensures !Constructed(r, 2)
  {
    r := PushBackAliasedAsWritten([Live(5)], 1, 0);
  }
}
