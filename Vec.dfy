/**
 * A growable, contiguous array: the class template Vec<T> of Vec.h.
 *
 * The C++ object keeps four fields: a heap buffer `data`, the number of
 * allocated slots `cap`, the number of constructed slots `len`, and the
 * pointer `one_past_last == data + len`. Here the buffer is an `array?<T>`
 * (null when nothing is allocated), `one_past_last` is implied by `len`,
 * and placement construction and explicit destruction become plain element
 * writes. Slots of an allocation that hold no constructed element carry an
 * arbitrary value of T (hence `T(0)`); no contract states what they hold.
 */
module Vectors {

  /** The largest value of a 64-bit size_t. */
  const SIZE_MAX: nat := 0xFFFF_FFFF_FFFF_FFFF

  function Max(a: int, b: int): (r: int)
    ensures r >= a && r >= b && (r == a || r == b)
  {
    if a < b then b else a
  }

  /**
   * The capacity `_grow` allocates when `newLen` slots are needed and `cap`
   * are allocated: at least double the old capacity plus one, never fewer
   * than 8 slots, and always enough for `newLen`.
   */
  function NewCapacity(cap: nat, newLen: nat): (r: nat)
    ensures r > cap && r >= 2 * cap + 1 && r >= newLen && r >= 8
    ensures r == 2 * cap + 1 || r == newLen || r == 8
  {
    Max(2 * cap + 1, Max(newLen, 8))
  }

  /** `s` with the element at index `k` removed; the later elements move down by one. */
  function RemoveAt<T>(s: seq<T>, k: nat): (r: seq<T>)
    requires k < |s|
    ensures |r| == |s| - 1
    ensures forall j :: 0 <= j < k ==> r[j] == s[j]
    ensures forall j :: k <= j < |r| ==> r[j] == s[j + 1]
  {
    s[..k] + s[k + 1..]
  }

  /** Removing an element that was just inserted at `k` gives back the original sequence. */
  lemma RemoveAtUndoesInsert<T>(s: seq<T>, k: nat, x: T)
    requires k <= |s|
    ensures RemoveAt(s[..k] + [x] + s[k..], k) == s
  {
    var t := s[..k] + [x] + s[k..];
    assert t[..k] == s[..k];
    assert t[k + 1..] == s[k..];
    assert s[..k] + s[k..] == s;
  }

  /**
   * The capacity of a Vec built by `n` calls of push_back, starting empty:
   * each push grows the buffer exactly when the new length exceeds the capacity.
   */
  ghost function CapacityAfterPushes(n: nat): nat
  {
    if n == 0 then 0
    else
      var c := CapacityAfterPushes(n - 1);
      if n > c then NewCapacity(c, n) else c
  }

  /** The number of element copies all growth steps made during those `n` pushes. */
  ghost function CopiesAfterPushes(n: nat): nat
  {
    if n == 0 then 0
    else
      var c := CapacityAfterPushes(n - 1);
      CopiesAfterPushes(n - 1) + (if n > c then n - 1 else 0)
  }

  /**
   * After `n` pushes the capacity holds the `n` elements and is at most
   * about twice that, and the copying done by all growth steps together is
   * bounded by the capacity: that is, push_back is O(1) amortized.
   */
  lemma {:induction false} PushesAmortized(n: nat)
    ensures n <= CapacityAfterPushes(n)
    ensures n > 0 ==> CapacityAfterPushes(n) <= Max(8, 2 * n - 1)
    ensures CopiesAfterPushes(n) <= CapacityAfterPushes(n)
    ensures CopiesAfterPushes(n) <= 2 * n + 7
  {
    if n > 0 {
      PushesAmortized(n - 1);
    }
  }

  class Vec<T(0)> {
    var data: array?<T>
    var cap: nat
    var len: nat
    /** The number of element copies the growth steps of this object have made so far. */
    ghost var copies: nat

    /** The representation invariant: `len` constructed slots within `cap` allocated ones. */
    ghost predicate Valid()
      reads this`data, this`cap, this`len
    {
      len <= cap &&
      (data == null ==> cap == 0) &&
      (data != null ==> data.Length == cap)
    }

    /** The live elements, the range [begin(), end()). */
    function Elements(): (s: seq<T>)
      reads this`data, this`cap, this`len, data
      requires Valid()
      ensures |s| == len
    {
      if data == null then [] else data[..len]
    }

    /** Vec(): the empty vector, with no storage. */
    constructor ()
      ensures Valid() && len == 0 && cap == 0 && data == null
      ensures Elements() == [] && copies == 0
    {
      copies := 0;
      new;
      Construct();
    }

    /** Vec(n, v): `n` copies of `v` in exactly `n` allocated slots. */
    constructor Fill(n: nat, v: T)
      ensures Valid() && fresh(data) && len == n && cap == n
      ensures forall k :: 0 <= k < n ==> Elements()[k] == v
      ensures copies == 0
    {
      copies := 0;
      new;
      ConstructFill(n, v);
    }

    /** Vec(const Vec&): a deep copy of `v`'s live elements, with no spare capacity. */
    constructor Copy(v: Vec<T>)
      requires v.Valid()
      ensures Valid() && fresh(data) && len == v.len && cap == v.len
      ensures Elements() == v.Elements() && copies == 0
    {
      copies := 0;
      new;
      ConstructRange(v.data, 0, v.len);
    }

    /** Vec(Vec&&): takes over `rhs`'s storage and leaves `rhs` empty. */
    constructor Move(rhs: Vec<T>)
      requires rhs.Valid()
      modifies rhs`data, rhs`cap, rhs`len
      ensures Valid() && data == old(rhs.data) && len == old(rhs.len) && cap == old(rhs.cap)
      ensures Elements() == old(rhs.Elements())
      ensures rhs.Valid() && rhs.len == 0 && rhs.cap == 0 && rhs.data == null
      ensures copies == 0
    {
      len, cap, data, copies := 0, 0, null, 0;
      new;
      rhs.Swap(this);
    }

    /** _construct(): the empty state. */
    method Construct()
      modifies this`data, this`cap, this`len
      ensures Valid() && len == 0 && cap == 0 && data == null
      ensures Elements() == []
    {
      cap, len := 0, 0;
      data := null;
    }

    /** _construct(n, v): allocates `n` slots and fills every one with `v`. */
    method ConstructFill(n: nat, v: T)
      modifies this`data, this`cap, this`len
      ensures Valid() && fresh(data) && len == n && cap == n
      ensures forall k :: 0 <= k < n ==> Elements()[k] == v
    {
      len, cap := n, n;
      var a := new T[n];
      var i := 0;
      while i < n
        modifies a
        invariant 0 <= i <= n
        invariant forall k :: 0 <= k < i ==> a[k] == v
      {
        a[i] := v;
        i := i + 1;
      }
      data := a;
    }

    /**
     * _construct(s, e): allocates exactly `e - s` slots and copies the range
     * [s, e) of `src` into them in index order. A null `src` is the empty range.
     */
    method ConstructRange(src: array?<T>, s: nat, e: nat)
      requires s <= e
      requires src == null ==> e == 0
      requires src != null ==> e <= src.Length
      modifies this`data, this`cap, this`len
      ensures Valid() && fresh(data) && len == e - s && cap == e - s
      ensures Elements() == if src == null then [] else old(src[s..e])
    {
      var n := e - s;
      var a := new T[n];
      var i := 0;
      while i < n
        modifies a
        invariant 0 <= i <= n
        invariant src != null ==> a[..i] == src[s..s + i]
      {
        a[i] := src[s + i];
        i := i + 1;
      }
      data := a;
      len, cap := n, n;
    }

    /**
     * _grow(newLen): moves the live elements into a fresh buffer of
     * NewCapacity(cap, newLen) slots, releases the old one and sets the
     * length to `newLen`. The slots from the old length up are not yet
     * constructed: push_back constructs the one it needs right afterwards.
     * Every element moved counts as one copy.
     */
    method Grow(newLen: nat)
      requires Valid()
      requires cap < (SIZE_MAX - 1) / 2
      modifies this
      ensures Valid() && fresh(data) && data != null
      ensures cap == NewCapacity(old(cap), newLen) && cap > old(cap)
      ensures len == newLen
      ensures old(len) <= cap && data[..old(len)] == old(Elements())
      ensures copies == old(copies) + old(len)
    {
      var newCap := NewCapacity(cap, newLen);
      var newData := new T[newCap];
      var i := 0;
      while i < len
        modifies newData, this`copies
        invariant 0 <= i <= len
        invariant newData[..i] == Elements()[..i]
        invariant copies == old(copies) + i
      {
        newData[i] := data[i];
        copies := copies + 1;
        i := i + 1;
      }
      Destroy();
      cap, len, data := newCap, newLen, newData;
    }

    /** _swap(other): exchanges the storage, length and capacity of the two vectors. */
    method Swap(other: Vec<T>)
      requires Valid() && other.Valid()
      modifies this`data, this`cap, this`len, other`data, other`cap, other`len
      ensures data == old(other.data) && len == old(other.len) && cap == old(other.cap)
      ensures other.data == old(data) && other.len == old(len) && other.cap == old(cap)
      ensures Valid() && other.Valid()
      ensures Elements() == old(other.Elements()) && other.Elements() == old(Elements())
    {
      data, other.data := other.data, data;
      len, other.len := other.len, len;
      cap, other.cap := other.cap, cap;
    }

    /**
     * push_back(v): appends `v`. The buffer grows exactly when the new length
     * exceeds the capacity; otherwise capacity and storage stay, and no slot
     * but the new last one is written.
     */
    method PushBack(v: T)
      requires Valid()
      requires len + 1 > cap ==> cap < (SIZE_MAX - 1) / 2
      modifies this, data
      ensures Valid()
      ensures Elements() == old(Elements()) + [v]
      ensures old(len) + 1 > old(cap) ==>
                fresh(data) && cap == NewCapacity(old(cap), old(len) + 1)
      ensures copies == old(copies) + if old(len) + 1 > old(cap) then old(len) else 0
      ensures old(len) + 1 <= old(cap) ==>
                data == old(data) && cap == old(cap) &&
                forall k :: 0 <= k < cap && k != old(len) ==> data[k] == old(data[k])
    {
      var newLen := len + 1;
      if newLen > cap {
        Grow(newLen);
      }
      ghost var before := data[..newLen - 1];
      data[newLen - 1] := v;
      len := newLen;
      assert data[..len] == before + [v];
    }

    /**
     * push_back(a[i]): appends a copy of this vector's own element `i`. The
     * copy is taken before any growth step releases the old storage, which
     * Vec.h does not do (see PushBackAsWritten).
     */
    method PushBackElement(i: nat)
      requires Valid() && i < len
      requires len + 1 > cap ==> cap < (SIZE_MAX - 1) / 2
      modifies this, data
      ensures Valid()
      ensures Elements() == old(Elements()) + [old(Elements())[i]]
      ensures old(len) + 1 > old(cap) ==>
                fresh(data) && cap == NewCapacity(old(cap), old(len) + 1)
      ensures copies == old(copies) + if old(len) + 1 > old(cap) then old(len) else 0
      ensures old(len) + 1 <= old(cap) ==>
                data == old(data) && cap == old(cap) &&
                forall k :: 0 <= k < cap && k != old(len) ==> data[k] == old(data[k])
    {
      var v := At(i);
      PushBack(v);
    }

    /** clear(): the same as _destroy. */
    method Clear()
      modifies this`data, this`cap, this`len
      ensures Valid() && len == 0 && cap == 0 && data == null
      ensures Elements() == []
    {
      Destroy();
    }

    /**
     * erase(pos): removes the element at `pos`, moving every later element
     * down one slot in front-to-back order; the capacity is kept. Returns `pos`.
     *
     * Line 212 of Vec.h constructs each moved element at `one_past_last`
     * instead of at slot `i`; this method performs the compaction that the
     * comment and the loop bounds describe, slot `i` receiving element `i+1`.
     * The code as written is modelled by EraseAsWritten.EraseAsWritten.
     */
    method Erase(pos: nat) returns (r: nat)
      requires Valid() && pos < len
      modifies this`len, data
      ensures Valid() && data == old(data) && cap == old(cap)
      ensures len == old(len) - 1 && r == pos
      ensures Elements() == RemoveAt(old(Elements()), pos)
    {
      var i := pos;
      while i != len - 1
        modifies data
        invariant pos <= i <= len - 1
        invariant forall k :: 0 <= k < pos ==> data[k] == old(data[k])
        invariant forall k :: pos <= k < i ==> data[k] == old(data[k + 1])
        invariant forall k :: i <= k < data.Length ==> data[k] == old(data[k])
        decreases len - 1 - i
      {
        data[i] := data[i + 1];
        i := i + 1;
      }
      len := len - 1;
      r := pos;
    }

    /**
     * _destroy(): destroys every live element, releases the storage and
     * returns to the empty state, whatever the state was before.
     */
    method Destroy()
      modifies this`data, this`cap, this`len
      ensures Valid() && len == 0 && cap == 0 && data == null
      ensures Elements() == []
    {
      cap, len := 0, 0;
      data := null;
    }

    /** operator[](i), read: the live element at index `i`. */
    function At(i: nat): (r: T)
      reads this`data, this`cap, this`len, data
      requires Valid() && i < len
      ensures r == Elements()[i]
    {
      data[i]
    }

    /** operator[](i), write through the returned reference: replaces element `i`. */
    method SetAt(i: nat, v: T)
      requires Valid() && i < len
      modifies data
      ensures Valid() && Elements() == old(Elements())[i := v]
    {
      data[i] := v;
    }

    /** size(): the number of live elements. */
    function Size(): (r: nat)
      reads this`data, this`cap, this`len, data
      requires Valid()
      ensures r == |Elements()|
    {
      len
    }

    /** empty(): whether there is no live element. */
    function IsEmpty(): (r: bool)
      reads this`data, this`cap, this`len, data
      requires Valid()
      ensures r <==> Elements() == []
    {
      len == 0
    }

    /**
     * operator=(const Vec&): assigning a vector to itself changes nothing;
     * otherwise the old storage is released and `rhs` is deep-copied into
     * exactly `rhs.len` fresh slots, leaving `rhs` as it was.
     */
    method CopyAssign(rhs: Vec<T>)
      requires Valid() && rhs.Valid()
      modifies this`data, this`cap, this`len
      ensures Valid()
      ensures rhs == this ==> unchanged(this)
      ensures rhs != this ==>
                fresh(data) && len == old(rhs.len) && cap == old(rhs.len) &&
                Elements() == old(rhs.Elements()) && rhs.Elements() == old(rhs.Elements())
    {
      if this != rhs {
        Destroy();
        ConstructRange(rhs.data, 0, rhs.len);
      }
    }

    /**
     * operator=(Vec&&): exchanges state with `rhs` through _swap, so the old
     * contents of this vector end up owned by `rhs`.
     */
    method MoveAssign(rhs: Vec<T>)
      requires Valid() && rhs.Valid()
      modifies this`data, this`cap, this`len, rhs`data, rhs`cap, rhs`len
      ensures Valid() && rhs.Valid()
      ensures data == old(rhs.data) && len == old(rhs.len) && cap == old(rhs.cap)
      ensures rhs.data == old(data) && rhs.len == old(len) && rhs.cap == old(cap)
      ensures Elements() == old(rhs.Elements()) && rhs.Elements() == old(Elements())
    {
      rhs.Swap(this);
    }
  }
}
