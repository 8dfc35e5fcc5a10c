/** The growing pointer array of zlog (deps/zlog/src/zc_arraylist.c) and its sorted insertion. */
module ArrayList {
  const DEFAULT_SIZE := 32

  /** A pointer that may be null. */
  datatype Slot<T> = Null | Held(item: T)

  function Nulls<T>(n: nat): (s: seq<Slot<T>>)
    ensures |s| == n && forall k :: 0 <= k < n ==> s[k] == Null
  {
    seq(n, _ => Null)
  }

  /** Where a new item goes: before the first item that is greater. */
  function InsertionPoint<T>(items: seq<Slot<T>>, greater: (T, T) -> bool, data: T): (i: nat)
    ensures i <= |items|
    ensures forall k :: 0 <= k < i ==> items[k] == Null || !greater(items[k].item, data)
    ensures i < |items| ==> items[i] != Null && greater(items[i].item, data)
  {
    if items == [] || (items[0] != Null && greater(items[0].item, data)) then 0
    else 1 + InsertionPoint(items[1..], greater, data)
  }

  function SortAdded<T>(items: seq<Slot<T>>, greater: (T, T) -> bool, data: T): seq<Slot<T>> {
    var i := InsertionPoint(items, greater, data);
    items[..i] + [Held(data)] + items[i..]
  }

  class List<T> {
    var slots: array<Slot<T>>
    var len: nat

    ghost predicate Valid()
      reads this, slots
    {
      slots.Length >= 1 && len <= slots.Length && forall k :: len <= k < slots.Length ==> slots[k] == Null
    }

    ghost function Items(): seq<Slot<T>>
      requires len <= slots.Length
      reads this, slots
    {
      slots[..len]
    }

    constructor ()
      ensures Valid() && fresh(slots) && Items() == []
    {
      slots := new Slot<T>[DEFAULT_SIZE](_ => Null);
      len := 0;
    }

    /** zc_arraylist_expand_inner. */
    method Expand(max: nat)
      requires Valid()
      modifies this`slots
      ensures Valid() && fresh(slots) && Items() == old(Items())
      ensures slots.Length == if old(slots.Length) * 2 > max then old(slots.Length) * 2 else max
    {
      var newSize := if slots.Length * 2 > max then slots.Length * 2 else max;
      var tmp := new Slot<T>[newSize](i requires 0 <= i reads this,
          slots => if i < slots.Length then slots[i] else Null);
      assert tmp[..len] == slots[..len];
      slots := tmp;
    }

    /** zc_arraylist_set. An index of twice the size or more is outside the array even after it has grown: it is then
        left one place short, and the item is not in it. */
    method Set(idx: nat, data: T) returns (inside: bool)
      requires Valid()
      modifies this, slots
      ensures Valid() && (slots == old(slots) || fresh(slots))
      ensures inside <==> idx < 2 * old(slots.Length)
      ensures !inside ==> slots.Length == idx && Items() == old(Items())
      ensures inside ==> Items() == if idx < old(len) then old(Items())[idx := Held(data)]
                                    else old(Items()) + Nulls(idx - old(len)) + [Held(data)]
    {
      ghost var before := Items();
      if idx > slots.Length - 1 {
        Expand(idx);
      }
      inside := idx < slots.Length;
      if !inside {
        return;
      }
      slots[idx] := Held(data);
      if len <= idx {
        len := idx + 1;
        assert Items() == before + Nulls(idx - |before|) + [Held(data)];
      } else {
        assert Items() == before[idx := Held(data)];
      }
    }

    /** zc_arraylist_add. */
    method Add(data: T)
      requires Valid()
      modifies this, slots
      ensures Valid() && (slots == old(slots) || fresh(slots)) && Items() == old(Items()) + [Held(data)]
    {
      assert Items() + Nulls(0) == Items();
      var _ := Set(len, data);
    }

    /** memmove by one place. */
    method MoveUp(idx: nat)
      requires Valid() && idx < len < slots.Length
      modifies slots
      ensures slots[..idx] == old(slots[..idx]) && slots[idx + 1..len + 1] == old(slots[idx..len])
      ensures forall k :: len < k < slots.Length ==> slots[k] == old(slots[k])
    {
      var k := len;
      while k > idx
        invariant idx <= k <= len
        invariant forall i :: 0 <= i < k ==> slots[i] == old(slots[i])
        invariant forall i :: k < i <= len ==> slots[i] == old(slots[i - 1])
        invariant forall i :: len < i < slots.Length ==> slots[i] == old(slots[i])
      {
        slots[k] := slots[k - 1];
        k := k - 1;
      }
    }

    /** zc_arraylist_insert_inner. */
    method InsertInner(idx: nat, data: T)
      requires Valid() && idx < len
      modifies this, slots
      ensures Valid() && (slots == old(slots) || fresh(slots))
      ensures Items() == if old(Items())[idx] == Null then old(Items())[idx := Held(data)]
                         else old(Items())[..idx] + [Held(data)] + old(Items())[idx..]
    {
      ghost var before := Items();
      if slots[idx] == Null {
        slots[idx] := Held(data);
        assert Items() == before[idx := Held(data)];
        return;
      }
      if len > slots.Length - 1 {
        Expand(0);
      }
      MakePlace(idx, data);
    }

    /** The end of zc_arraylist_insert_inner, where there is room. */
    method MakePlace(idx: nat, data: T)
      requires Valid() && idx < len < slots.Length
      modifies slots, this`len
      ensures Valid() && Items() == old(Items())[..idx] + [Held(data)] + old(Items())[idx..]
    {
      ghost var before := Items();
      assert slots[..idx] == before[..idx] && slots[idx..len] == before[idx..];
      MoveUp(idx);
      slots[idx] := Held(data);
      len := len + 1;
      assert slots[..len] == slots[..idx] + [slots[idx]] + slots[idx + 1..len];
    }

    /** zc_arraylist_sortadd: before the first item that is greater. */
    method SortAdd(greater: (T, T) -> bool, data: T)
      requires Valid() && Null !in Items()
      modifies this, slots
      ensures Valid() && (slots == old(slots) || fresh(slots)) && Null !in Items()
      ensures Items() == SortAdded(old(Items()), greater, data)
    {
      var i := 0;
      while i < len
        invariant 0 <= i <= len
        invariant forall k :: 0 <= k < i ==> !greater(slots[k].item, data)
      {
        assert slots[i] in Items();
        if greater(slots[i].item, data) {
          break;
        }
        i := i + 1;
      }
      ghost var at := InsertionPoint(Items(), greater, data);
      assert at == i;
      assert Items()[..i] + [Held(data)] + Items()[i..] == SortAdded(Items(), greater, data);
      if i == len {
        Add(data);
      } else {
        InsertInner(i, data);
      }
    }
  }
}
