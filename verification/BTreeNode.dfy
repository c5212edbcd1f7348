/** In-place edits of a bounded array that holds its live elements in a prefix. */
module Buffers {

  /** Opens a gap at `index` by moving `a[index..count]` one slot to the right. */
  method ShiftRight<T>(a: array<T>, index: nat, count: nat)
    requires index <= count < a.Length
    modifies a
    ensures a[..index] == old(a[..index])
    ensures a[index + 1..count + 1] == old(a[index..count])
  {
    var i := count;
    while i > index
      invariant index <= i <= count
      invariant a[..i] == old(a[..i])
      invariant a[i + 1..count + 1] == old(a[i..count])
    {
      a[i] := a[i - 1];
      i := i - 1;
    }
  }

  /** Closes the gap at `index` by moving `a[index + 1..count]` one slot to the left. */
  method ShiftLeft<T>(a: array<T>, index: nat, count: nat)
    requires index < count <= a.Length
    modifies a
    ensures a[..index] == old(a[..index])
    ensures a[index..count - 1] == old(a[index + 1..count])
  {
    var i := index;
    while i < count - 1
      invariant index <= i < count
      invariant a[..index] == old(a[..index])
      invariant a[index..i] == old(a[index + 1..i + 1])
      invariant forall j :: i <= j < a.Length ==> a[j] == old(a[j])
    {
      a[i] := a[i + 1];
      i := i + 1;
    }
  }

  /** Copies `src` into `a` starting at `at`. */
  method CopyInto<T>(src: seq<T>, a: array<T>, at: nat)
    requires at + |src| <= a.Length
    modifies a
    ensures a[..at] == old(a[..at])
    ensures a[at..at + |src|] == src
    ensures a[..at + |src|] == old(a[..at]) + src
  {
    var i := 0;
    while i < |src|
      invariant 0 <= i <= |src|
      invariant a[..at] == old(a[..at])
      invariant a[at..at + i] == src[..i]
    {
      a[at + i] := src[i];
      i := i + 1;
    }
  }
}

/** One node of the B+tree: parallel arrays with a live prefix, and the links between nodes. */
module BTreeNodes {
  import opened Bytes
  import opened Buffers

  const MIN_ORDER := 3
  const MAX_ORDER := 1000

  /** A stored value; copying an empty value yields the null pointer. */
  datatype Value = Null | Data(bytes: Bytes)

  function CopyValue(v: Bytes): Value {
    if v == [] then Null else Data(v)
  }

  ghost predicate Sorted(keys: seq<Bytes>) {
    forall i, j :: 0 <= i < j < |keys| ==> Pos(keys[i]) < Pos(keys[j])
  }

  function Insert<T>(s: seq<T>, i: nat, x: T): seq<T>
    requires i <= |s|
  {
    s[..i] + [x] + s[i..]
  }

  function Remove<T>(s: seq<T>, i: nat): seq<T>
    requires i < |s|
  {
    s[..i] + s[i + 1..]
  }

  /** Puts `x` at `index` after shifting `a[index..count]` out of the way. */
  method PutAt<T>(a: array<T>, index: nat, count: nat, x: T)
    requires index <= count < a.Length
    modifies a
    ensures a[..count + 1] == Insert(old(a[..count]), index, x)
  {
    ShiftRight(a, index, count);
    a[index] := x;
    assert a[..count + 1] == a[..index] + [a[index]] + a[index + 1..count + 1];
  }

  /** Shifts `a[index + 1..count]` over the element at `index`. */
  method DropAt<T>(a: array<T>, index: nat, count: nat)
    requires index < count <= a.Length
    modifies a
    ensures a[..count - 1] == Remove(old(a[..count]), index)
  {
    ShiftLeft(a, index, count);
    assert a[..count - 1] == a[..index] + a[index..count - 1];
  }

  /** Shifts like `DropAt` and blanks the slot that becomes free. */
  method DropAndBlank<T>(a: array<T>, index: nat, count: nat, blank: T)
    requires index < count <= a.Length
    modifies a
    ensures a[..count - 1] == Remove(old(a[..count]), index)
  {
    hide Remove;
    DropAt(a, index, count);
    ghost var live := a[..count - 1];
    a[count - 1] := blank;
    assert a[..count - 1] == live;
  }

  class Node {
    const isLeaf: bool
    const maxKeys: nat
    const keys: array<Bytes>
    const values: array<Value>
    const children: array<Node?>
    var keyCount: nat
    var parent: Node?
    var next: Node?
    var prev: Node?

    ghost predicate Shaped()
      reads this
    {
      && MIN_ORDER <= maxKeys
      && keyCount <= maxKeys
      && keys.Length == maxKeys
      && (isLeaf ==> values.Length == maxKeys)
      && (!isLeaf ==> children.Length == maxKeys + 1)
    }

    ghost function Keys(): seq<Bytes>
      requires Shaped()
      reads this, keys
    {
      keys[..keyCount]
    }

    ghost function Values(): seq<Value>
      requires Shaped()
      reads this, values
    {
      if isLeaf then values[..keyCount] else []
    }

    ghost function Children(): seq<Node?>
      requires Shaped()
      reads this, children
    {
      if isLeaf then [] else children[..keyCount + 1]
    }

    constructor (leaf: bool, order: nat)
      requires MIN_ORDER <= order
      ensures isLeaf == leaf && maxKeys == order && keyCount == 0
      ensures parent == null && next == null && prev == null
      ensures Shaped() && (!leaf ==> children[0] == null)
      ensures Shaped() && fresh(keys) && fresh(values) && fresh(children)
    {
      isLeaf, maxKeys, keyCount := leaf, order, 0;
      parent, next, prev := null, null, null;
      keys := new Bytes[order](_ => []);
      values := new Value[if leaf then order else 0](_ => Null);
      children := new Node?[if leaf then 0 else order + 1](_ => null);
    }

    /** Binary search for `key`; without `exact`, a miss yields the insertion index. */
    method FindKey(key: Bytes, exact: bool) returns (index: int)
      requires Shaped() && Sorted(Keys())
      ensures key in Keys() ==> 0 <= index < keyCount && keys[index] == key
      ensures key !in Keys() && exact ==> index == -1
      ensures key !in Keys() && !exact ==> 0 <= index <= keyCount
      ensures 0 <= index ==>
        (forall i :: 0 <= i < index ==> Pos(keys[i]) < Pos(key)) &&
        (forall i :: index <= i < keyCount ==> Pos(key) <= Pos(keys[i]))
    {
      hide Pos, Compare;
      var left, right := 0, keyCount - 1;
      index := keyCount;
      assert forall i :: 0 <= i < keyCount ==> Keys()[i] == keys[i];
      while left <= right
        invariant 0 <= left <= right + 1 == index <= keyCount
        invariant forall i :: 0 <= i < left ==> Pos(keys[i]) < Pos(key)
        invariant forall i :: index <= i < keyCount ==> Pos(key) < Pos(keys[i])
      {
        var mid := left + (right - left) / 2;
        CompareIsPos(key, keys[mid]);
        var cmp := Compare(key, keys[mid]);
        if cmp == 0 {
          assert Keys()[mid] == key;
          return mid;
        } else if cmp < 0 {
          index := mid;
          right := mid - 1;
        } else {
          left := mid + 1;
        }
      }
      if exact {
        index := -1;
      }
    }

    /** Inserts an entry at `index` of a leaf that is not full. */
    method InsertEntry(index: nat, key: Bytes, value: Value)
      requires Shaped() && isLeaf && keyCount < maxKeys && index <= keyCount
      modifies this`keyCount, keys, values
      ensures Shaped()
      ensures Keys() == Insert(old(Keys()), index, key)
      ensures Values() == Insert(old(Values()), index, value)
    {
      PutAt(keys, index, keyCount, key);
      PutAt(values, index, keyCount, value);
      keyCount := keyCount + 1;
    }

    /** Inserts a separator at `index` of an inner node that is not full, `child` to its right. */
    method InsertChild(index: nat, key: Bytes, child: Node)
      requires Shaped() && !isLeaf && keyCount < maxKeys && index <= keyCount
      modifies this`keyCount, keys, children
      ensures Shaped()
      ensures Keys() == Insert(old(Keys()), index, key)
      ensures Children() == Insert(old(Children()), index + 1, child)
    {
      PutAt(keys, index, keyCount, key);
      PutAt(children, index + 1, keyCount + 1, child);
      keyCount := keyCount + 1;
    }

    /** Drops the entry at `index` of a leaf, or the separator there and the child to its right. */
    method RemoveAt(index: nat)
      requires Shaped() && index < keyCount
      modifies this`keyCount, keys, values, children
      ensures Shaped()
      ensures Keys() == Remove(old(Keys()), index)
      ensures isLeaf ==> Values() == Remove(old(Values()), index)
      ensures !isLeaf ==> Children() == Remove(old(Children()), index + 1)
    {
      hide Remove;
      DropAndBlank(keys, index, keyCount, []);
      if isLeaf {
        DropAndBlank(values, index, keyCount, Null);
      } else {
        DropAndBlank(children, index + 1, keyCount + 1, null);
      }
      keyCount := keyCount - 1;
    }

    /** Replaces the contents of a leaf. */
    method FillLeaf(ks: seq<Bytes>, vs: seq<Value>)
      requires Shaped() && isLeaf && |ks| == |vs| <= maxKeys
      modifies this`keyCount, keys, values
      ensures Shaped() && Keys() == ks && Values() == vs
    {
      CopyInto(ks, keys, 0);
      CopyInto(vs, values, 0);
      keyCount := |ks|;
    }

    /** Replaces the contents of an inner node. */
    method FillInner(ks: seq<Bytes>, cs: seq<Node?>)
      requires Shaped() && !isLeaf && |ks| <= maxKeys && |cs| == |ks| + 1
      modifies this`keyCount, keys, children
      ensures Shaped() && Keys() == ks && Children() == cs
    {
      CopyInto(ks, keys, 0);
      CopyInto(cs, children, 0);
      keyCount := |ks|;
    }

    /** Makes this node the parent of every node of `cs`. */
    method AdoptAll(cs: seq<Node?>)
      requires null !in cs
      modifies (set c | c in cs)`parent
      ensures forall c: Node | c in cs :: c.parent == this
    {
      for i := 0 to |cs|
        invariant forall j :: 0 <= j < i ==> cs[j].parent == this
      {
        cs[i].parent := this;
      }
    }
  }
}
