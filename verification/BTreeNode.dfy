/** The sorted-array B-tree node: binary search, insertion and removal by shifting, and the split. */
module BTreeNodes {

  const ORDER: nat := 128
  const MAX_KEYS: nat := 127
  const MIN_KEYS: nat := 63
  const INVALID_PAGE_ID: nat := 0xFFFF_FFFF_FFFF_FFFF

  datatype NodeType = Leaf | Internal | Root

  // ---------- Sorted sequences as maps ----------

  ghost predicate Sorted(ks: seq<int>) {
    forall i, j :: 0 <= i < j < |ks| ==> ks[i] < ks[j]
  }

  ghost function Inserted<T>(s: seq<T>, i: nat, x: T): seq<T>
    requires i <= |s|
  {
    s[..i] + [x] + s[i..]
  }

  ghost function Removed<T>(s: seq<T>, i: nat): seq<T>
    requires i < |s|
  {
    s[..i] + s[i + 1..]
  }

  /** The map a leaf stands for. */
  ghost function Contents(ks: seq<int>, vs: seq<nat>): map<int, nat>
    requires |ks| == |vs|
  {
    if ks == [] then map[]
    else Contents(ks[..|ks| - 1], vs[..|vs| - 1])[ks[|ks| - 1] := vs[|vs| - 1]]
  }

  lemma {:induction false} ContentsKeys(ks: seq<int>, vs: seq<nat>, k: int)
    requires |ks| == |vs|
    ensures k in Contents(ks, vs) <==> k in ks
  {
    if ks != [] {
      var n := |ks| - 1;
      ContentsKeys(ks[..n], vs[..n], k);
      assert ks == ks[..n] + [ks[n]];
    }
  }

  lemma {:induction false} ContentsValue(ks: seq<int>, vs: seq<nat>, i: nat)
    requires |ks| == |vs| && Sorted(ks) && i < |ks|
    ensures ks[i] in Contents(ks, vs) && Contents(ks, vs)[ks[i]] == vs[i]
  {
    var n := |ks| - 1;
    if i < n {
      ContentsValue(ks[..n], vs[..n], i);
      assert ks[i] < ks[n];
    }
  }

  lemma ContentsAt(ks: seq<int>, vs: seq<nat>)
    requires |ks| == |vs| && Sorted(ks)
    ensures forall k :: k in Contents(ks, vs) <==> k in ks
    ensures forall i :: 0 <= i < |ks| ==> ks[i] in Contents(ks, vs) && Contents(ks, vs)[ks[i]] == vs[i]
  {
    hide Contents, Sorted;
    forall k
      ensures k in Contents(ks, vs) <==> k in ks
    {
      ContentsKeys(ks, vs, k);
    }
    forall i | 0 <= i < |ks|
      ensures ks[i] in Contents(ks, vs) && Contents(ks, vs)[ks[i]] == vs[i]
    {
      ContentsValue(ks, vs, i);
    }
  }

  /** A map with exactly these bindings is the contents. */
  lemma ContentsUnique(ks: seq<int>, vs: seq<nat>, m: map<int, nat>)
    requires |ks| == |vs| && Sorted(ks)
    requires forall k :: k in m <==> k in ks
    requires forall i :: 0 <= i < |ks| ==> ks[i] in m && m[ks[i]] == vs[i]
    ensures Contents(ks, vs) == m
  {
    hide Contents, Sorted;
    ContentsAt(ks, vs);
    var c := Contents(ks, vs);
    forall k | k in m
      ensures k in c && c[k] == m[k]
    {
      var i :| 0 <= i < |ks| && ks[i] == k;
    }
    assert forall k :: k in c <==> k in m;
  }

  lemma InsertedKeys(ks: seq<int>, i: nat, k: int)
    requires Sorted(ks) && i <= |ks|
    requires (forall j :: 0 <= j < i ==> ks[j] < k) && (forall j :: i <= j < |ks| ==> k < ks[j])
    ensures Sorted(Inserted(ks, i, k))
    ensures forall q :: q in Inserted(ks, i, k) <==> q == k || q in ks
  {
    var ks' := Inserted(ks, i, k);
    assert forall j :: 0 <= j < |ks'| ==> ks'[j] == if j < i then ks[j] else if j == i then k else ks[j - 1];
    assert ks == ks[..i] + ks[i..];
  }

  lemma InsertIsMapUpdate(ks: seq<int>, vs: seq<nat>, i: nat, k: int, v: nat)
    requires |ks| == |vs| && Sorted(ks) && i <= |ks|
    requires (forall j :: 0 <= j < i ==> ks[j] < k) && (forall j :: i <= j < |ks| ==> k < ks[j])
    ensures Sorted(Inserted(ks, i, k))
    ensures Contents(Inserted(ks, i, k), Inserted(vs, i, v)) == Contents(ks, vs)[k := v]
  {
    hide Contents, Sorted;
    ContentsAt(ks, vs);
    InsertedKeys(ks, i, k);
    var ks', vs', m := Inserted(ks, i, k), Inserted(vs, i, v), Contents(ks, vs)[k := v];
    forall j | 0 <= j < |ks'|
      ensures ks'[j] in m && m[ks'[j]] == vs'[j]
    {
      if j != i {
        var o := if j < i then j else j - 1;
        assert ks'[j] == ks[o] && vs'[j] == vs[o] && ks[o] != k;
      }
    }
    ContentsUnique(ks', vs', m);
  }

  lemma OverwriteIsMapUpdate(ks: seq<int>, vs: seq<nat>, i: nat, v: nat)
    requires |ks| == |vs| && Sorted(ks) && i < |ks|
    ensures Contents(ks, vs[i := v]) == Contents(ks, vs)[ks[i] := v]
  {
    ContentsAt(ks, vs);
    ContentsUnique(ks, vs[i := v], Contents(ks, vs)[ks[i] := v]);
  }

  lemma RemovedKeys(ks: seq<int>, i: nat)
    requires Sorted(ks) && i < |ks|
    ensures Sorted(Removed(ks, i))
    ensures forall q :: q in Removed(ks, i) <==> q in ks && q != ks[i]
  {
    var ks' := Removed(ks, i);
    assert forall j :: 0 <= j < |ks'| ==> ks'[j] == ks[if j < i then j else j + 1];
    assert ks == ks[..i] + [ks[i]] + ks[i + 1..];
  }

  lemma RemoveIsMapRemoval(ks: seq<int>, vs: seq<nat>, i: nat)
    requires |ks| == |vs| && Sorted(ks) && i < |ks|
    ensures Sorted(Removed(ks, i))
    ensures Contents(Removed(ks, i), Removed(vs, i)) == Contents(ks, vs) - {ks[i]}
  {
    hide Contents, Sorted;
    ContentsAt(ks, vs);
    RemovedKeys(ks, i);
    var ks', vs', m := Removed(ks, i), Removed(vs, i), Contents(ks, vs) - {ks[i]};
    forall j | 0 <= j < |ks'|
      ensures ks'[j] in m && m[ks'[j]] == vs'[j]
    {
      var o := if j < i then j else j + 1;
      assert ks'[j] == ks[o] && vs'[j] == vs[o] && ks'[j] in ks';
    }
    ContentsUnique(ks', vs', m);
  }

  /** What a leaf split keeps: every pair but the middle one. */
  lemma LeafSplitLosesMiddle(ks: seq<int>, vs: seq<nat>, mid: nat)
    requires |ks| == |vs| && Sorted(ks) && mid < |ks|
    ensures Contents(ks[..mid], vs[..mid]) + Contents(ks[mid + 1..], vs[mid + 1..]) == Contents(ks, vs) - {ks[mid]}
  {
    hide Contents;
    var lk, lv, rk, rv := ks[..mid], vs[..mid], ks[mid + 1..], vs[mid + 1..];
    var all := Contents(lk, lv) + Contents(rk, rv);
    assert forall i :: 0 <= i < |rk| ==> rk[i] == ks[mid + 1 + i];
    ContentsAt(lk, lv);
    ContentsAt(rk, rv);
    RemoveIsMapRemoval(ks, vs, mid);
    assert Removed(ks, mid) == lk + rk && Removed(vs, mid) == lv + rv;
    forall i | 0 <= i < |lk + rk|
      ensures (lk + rk)[i] in all && all[(lk + rk)[i]] == (lv + rv)[i]
    {
      if i < mid {
        assert forall j :: 0 <= j < |rk| ==> lk[i] < rk[j];
      } else {
        assert rk[i - mid] in Contents(rk, rv);
      }
    }
    ContentsUnique(lk + rk, lv + rv, all);
  }

  lemma InsertedPointwise<T>(s: seq<T>, t: seq<T>, i: nat, x: T)
    requires i <= |s| && |t| == |s| + 1 && t[i] == x
    requires forall k :: 0 <= k < |t| && k != i ==> t[k] == s[if k < i then k else k - 1]
    ensures t == Inserted(s, i, x)
  {}

  lemma RemovedPointwise<T>(s: seq<T>, t: seq<T>, i: nat)
    requires i < |s| && |t| == |s| - 1
    requires forall k :: 0 <= k < |t| ==> t[k] == s[if k < i then k else k + 1]
    ensures t == Removed(s, i)
  {}

  lemma Parts<T>(s: seq<T>, mid: nat)
    requires mid < |s|
    ensures s == s[..mid] + [s[mid]] + s[mid + 1..]
  {}

  /** A key and its child were put at the same position. */
  ghost predicate InsertedAt(ks: seq<int>, ks': seq<int>, cs: seq<nat>, cs': seq<nat>, i: nat, k: int, c: nat) {
    i <= |ks| && i <= |cs| && ks' == Inserted(ks, i, k) && cs' == Inserted(cs, i, c)
  }

  // ---------- The node ----------

  class BTreeNode {
    var nodeType: NodeType
    var keyCount: nat
    var childCount: nat
    const keyArray: array<int>
    const valueArray: array<nat>
    const childArray: array<nat>

    predicate IsLeaf()
      reads this
    {
      nodeType == Leaf
    }

    ghost predicate Ok()
      reads this
    {
      && keyArray.Length == valueArray.Length == MAX_KEYS && childArray.Length == ORDER
      && valueArray != childArray
      && keyCount <= MAX_KEYS && childCount <= ORDER
    }

    ghost function Keys(): (s: seq<int>)
      requires Ok()
      reads this, keyArray
    {
      keyArray[..keyCount]
    }

    ghost function Values(): (s: seq<nat>)
      requires Ok()
      reads this, valueArray
    {
      valueArray[..keyCount]
    }

    ghost function Children(): (s: seq<nat>)
      requires Ok()
      reads this, childArray
    {
      childArray[..childCount]
    }

    constructor (nodeType: NodeType)
      ensures Ok() && this.nodeType == nodeType && Keys() == [] && Children() == []
      ensures fresh(keyArray) && fresh(valueArray) && fresh(childArray)
    {
      this.nodeType, keyCount, childCount := nodeType, 0, 0;
      keyArray := new int[MAX_KEYS](i => 0);
      valueArray := new nat[MAX_KEYS](i => 0);
      childArray := new nat[ORDER](i => INVALID_PAGE_ID);
    }

    /** Binary search: the position of the key, or of the last smaller key (-1 if there is none). */
    method FindKeyIndex(key: int) returns (pos: int)
      requires Ok() && Sorted(Keys())
      ensures -1 <= pos < keyCount
      ensures key in Keys() ==> pos >= 0 && keyArray[pos] == key
      ensures key !in Keys() ==>
        (forall i :: 0 <= i <= pos ==> keyArray[i] < key) && (forall i :: pos < i < keyCount ==> key < keyArray[i])
    {
      var left, right := 0, keyCount - 1;
      while left <= right
        invariant 0 <= left <= right + 1 <= keyCount
        invariant forall i :: 0 <= i < left ==> Keys()[i] < key
        invariant forall i :: right < i < keyCount ==> key < Keys()[i]
      {
        var mid := (left + right) / 2;
        if keyArray[mid] == key {
          assert Keys()[mid] == key;
          return mid;
        } else if keyArray[mid] < key {
          assert Keys()[mid] < key;
          left := mid + 1;
        } else {
          assert key < Keys()[mid];
          right := mid - 1;
        }
      }
      pos := right;
    }

    /** The number of keys not above the argument; -1 on a leaf. */
    method FindChildIndex(key: int) returns (pos: int)
      requires Ok() && Sorted(Keys())
      ensures IsLeaf() ==> pos == -1
      ensures !IsLeaf() ==> 0 <= pos <= keyCount
      ensures !IsLeaf() ==> forall i :: 0 <= i < pos ==> keyArray[i] <= key
      ensures !IsLeaf() ==> forall i :: pos <= i < keyCount ==> key < keyArray[i]
    {
      if IsLeaf() {
        return -1;
      }
      pos := FindKeyIndex(key);
      if pos < 0 {
        return 0;
      }
      assert forall i :: 0 <= i < keyCount ==> Keys()[i] == keyArray[i];
      if pos < keyCount && keyArray[pos] <= key {
        return pos + 1;
      }
    }

    /** Opens a gap at `start`; the caller fills it. */
    method ShiftRight(start: nat)
      requires Ok() && start <= keyCount < MAX_KEYS
      requires !IsLeaf() ==> start <= childCount < ORDER
      modifies keyArray, valueArray, childArray
      ensures forall i :: 0 <= i <= keyCount && i != start ==> keyArray[i] == old(keyArray[if i < start then i else i - 1])
      ensures IsLeaf() ==>
        forall i :: 0 <= i <= keyCount && i != start ==> valueArray[i] == old(valueArray[if i < start then i else i - 1])
      ensures !IsLeaf() ==>
        forall i :: 0 <= i <= childCount && i != start ==> childArray[i] == old(childArray[if i < start then i else i - 1])
    {
      var i := keyCount;
      while i > start
        invariant start <= i <= keyCount
        invariant forall k :: 0 <= k <= i && k < keyCount ==> keyArray[k] == old(keyArray[k])
        invariant forall k :: i < k <= keyCount ==> keyArray[k] == old(keyArray[k - 1])
        invariant IsLeaf() ==> forall k :: 0 <= k <= i && k < keyCount ==> valueArray[k] == old(valueArray[k])
        invariant IsLeaf() ==> forall k :: i < k <= keyCount ==> valueArray[k] == old(valueArray[k - 1])
        invariant forall k :: 0 <= k < ORDER ==> childArray[k] == old(childArray[k])
      {
        keyArray[i] := keyArray[i - 1];
        if IsLeaf() {
          valueArray[i] := valueArray[i - 1];
        }
        i := i - 1;
      }
      if !IsLeaf() {
        ShiftChildrenRight(start);
      }
    }

    method ShiftChildrenRight(start: nat)
      requires Ok() && start <= childCount < ORDER
      modifies childArray
      ensures forall i :: 0 <= i <= childCount && i != start ==> childArray[i] == old(childArray[if i < start then i else i - 1])
    {
      var i := childCount;
      while i > start
        invariant start <= i <= childCount
        invariant forall k :: 0 <= k <= i && k < childCount ==> childArray[k] == old(childArray[k])
        invariant forall k :: i < k <= childCount ==> childArray[k] == old(childArray[k - 1])
      {
        childArray[i] := childArray[i - 1];
        i := i - 1;
      }
    }

    method InsertAt(index: nat, key: int, value: nat, child: nat) returns (ok: bool)
      requires Ok() && index <= keyCount
      requires !IsLeaf() && keyCount < MAX_KEYS ==> index <= childCount < ORDER
      modifies this, keyArray, valueArray, childArray
      ensures Ok() && nodeType == old(nodeType) && ok == (old(keyCount) < MAX_KEYS)
      ensures ok ==> Keys() == Inserted(old(Keys()), index, key)
      ensures ok && IsLeaf() ==> Values() == Inserted(old(Values()), index, value)
      ensures ok && !IsLeaf() ==> Children() == Inserted(old(Children()), index, child)
      ensures !ok ==> Keys() == old(Keys()) && Values() == old(Values()) && Children() == old(Children())
      ensures IsLeaf() ==> childCount == old(childCount)
    {
      hide Inserted, Sorted;
      if keyCount >= MAX_KEYS {
        return false;
      }
      ghost var ks, vs, cs := Keys(), Values(), Children();
      ShiftRight(index);
      FillGap(index, key, value, child);
      ok := true;
      InsertedPointwise(ks, Keys(), index, key);
      if IsLeaf() {
        InsertedPointwise(vs, Values(), index, value);
      } else {
        InsertedPointwise(cs, Children(), index, child);
      }
    }

    /** The end of `insertAt`: the gap is filled and the counts go up. */
    method FillGap(index: nat, key: int, value: nat, child: nat)
      requires Ok() && index <= keyCount < MAX_KEYS
      requires !IsLeaf() ==> index <= childCount < ORDER
      modifies this`keyCount, this`childCount, keyArray, valueArray, childArray
      ensures Ok() && keyCount == old(keyCount) + 1
      ensures childCount == if IsLeaf() then old(childCount) else old(childCount) + 1
      ensures keyArray[index] == key && forall k :: 0 <= k < MAX_KEYS && k != index ==> keyArray[k] == old(keyArray[k])
      ensures IsLeaf() ==>
        valueArray[index] == value && forall k :: 0 <= k < MAX_KEYS && k != index ==> valueArray[k] == old(valueArray[k])
      ensures IsLeaf() ==> childArray[..] == old(childArray[..])
      ensures !IsLeaf() ==>
        childArray[index] == child && forall k :: 0 <= k < ORDER && k != index ==> childArray[k] == old(childArray[k])
    {
      keyArray[index] := key;
      if IsLeaf() {
        valueArray[index] := value;
      } else {
        childArray[index] := child;
        childCount := childCount + 1;
      }
      keyCount := keyCount + 1;
    }

    /** On a leaf, insertion is map update; it fails, changing nothing, exactly when the node is
        full and the key absent. On other nodes a duplicate is refused and a new key comes with a child. */
    method Insert(key: int, value: nat, child: nat) returns (ok: bool)
      requires Ok() && Sorted(Keys())
      requires !IsLeaf() && keyCount < MAX_KEYS ==> keyCount <= childCount < ORDER
      modifies this, keyArray, valueArray, childArray
      ensures Ok() && Sorted(Keys()) && nodeType == old(nodeType)
      ensures IsLeaf() ==> (ok <==> old(keyCount) < MAX_KEYS || key in old(Keys()))
      ensures IsLeaf() && ok ==> Contents(Keys(), Values()) == Contents(old(Keys()), old(Values()))[key := value]
      ensures !IsLeaf() ==> (ok <==> old(keyCount) < MAX_KEYS && key !in old(Keys()))
      ensures !IsLeaf() && ok ==>
        exists i :: 0 <= i <= old(keyCount) && InsertedAt(old(Keys()), Keys(), old(Children()), Children(), i, key, child)
      ensures !ok ==> Keys() == old(Keys()) && Values() == old(Values()) && Children() == old(Children())
    {
      hide Contents, Inserted, Sorted;
      ghost var ks, vs := Keys(), Values();
      var pos := FindKeyIndex(key);
      if pos >= 0 && pos < keyCount && keyArray[pos] == key {
        assert ks[pos] == key;
        if IsLeaf() {
          OverwriteIsMapUpdate(ks, vs, pos, value);
          valueArray[pos] := value;
          assert Values() == vs[pos := value];
          return true;
        }
        return false;
      }
      assert key !in ks;
      assert forall i :: 0 <= i < |ks| ==> ks[i] == keyArray[i];
      if pos < 0 {
        pos := 0;
      } else if key > keyArray[pos] {
        pos := pos + 1;
      }
      InsertIsMapUpdate(ks, vs, pos, key, value);
      ghost var cs := Children();
      ok := InsertAt(pos, key, value, child);
      assert ok && !IsLeaf() ==> InsertedAt(ks, Keys(), cs, Children(), pos, key, child);
    }

    method ShiftLeft(start: nat)
      requires Ok() && start < keyCount
      modifies keyArray, valueArray, childArray
      ensures forall i :: 0 <= i < keyCount - 1 ==> keyArray[i] == old(keyArray[if i < start then i else i + 1])
      ensures IsLeaf() ==>
        forall i :: 0 <= i < keyCount - 1 ==> valueArray[i] == old(valueArray[if i < start then i else i + 1])
      ensures !IsLeaf() ==>
        forall i :: 0 <= i < childCount - 1 ==> childArray[i] == old(childArray[if i < start then i else i + 1])
    {
      var i := start;
      while i < keyCount - 1
        invariant start <= i <= keyCount - 1
        invariant forall k :: i <= k < keyCount ==> keyArray[k] == old(keyArray[k])
        invariant forall k :: 0 <= k < i ==> keyArray[k] == old(keyArray[if k < start then k else k + 1])
        invariant IsLeaf() ==> forall k :: i <= k < keyCount ==> valueArray[k] == old(valueArray[k])
        invariant IsLeaf() ==> forall k :: 0 <= k < i ==> valueArray[k] == old(valueArray[if k < start then k else k + 1])
        invariant forall k :: 0 <= k < ORDER ==> childArray[k] == old(childArray[k])
      {
        keyArray[i] := keyArray[i + 1];
        if IsLeaf() {
          valueArray[i] := valueArray[i + 1];
        }
        i := i + 1;
      }
      if !IsLeaf() {
        ShiftChildrenLeft(start);
      }
    }

    method ShiftChildrenLeft(start: nat)
      requires Ok()
      modifies childArray
      ensures forall i :: 0 <= i < childCount - 1 ==> childArray[i] == old(childArray[if i < start then i else i + 1])
    {
      var i := start;
      while i < childCount - 1
        invariant start <= i && (i <= childCount - 1 || i == start)
        invariant forall k :: i <= k < childCount ==> childArray[k] == old(childArray[k])
        invariant forall k :: 0 <= k < i && k < childCount - 1 ==> childArray[k] == old(childArray[if k < start then k else k + 1])
      {
        childArray[i] := childArray[i + 1];
        i := i + 1;
      }
    }

    /** Removal by position; on a leaf it removes the key from the map. */
    method RemoveAt(index: nat) returns (ok: bool)
      requires Ok() && Sorted(Keys())
      requires !IsLeaf() ==> keyCount <= childCount
      modifies this, keyArray, valueArray, childArray
      ensures Ok() && Sorted(Keys()) && nodeType == old(nodeType) && ok == (index < old(keyCount))
      ensures ok ==> Keys() == Removed(old(Keys()), index)
      ensures ok && IsLeaf() ==>
        Contents(Keys(), Values()) == Contents(old(Keys()), old(Values())) - {old(Keys())[index]}
      ensures ok && !IsLeaf() ==> Children() == Removed(old(Children()), index)
      ensures !ok ==> Keys() == old(Keys()) && Values() == old(Values()) && Children() == old(Children())
    {
      hide Removed, Sorted, Contents;
      if index >= keyCount {
        return false;
      }
      ghost var ks, vs, cs := Keys(), Values(), Children();
      RemoveIsMapRemoval(ks, vs, index);
      keyArray[index] := 0;
      if IsLeaf() {
        valueArray[index] := 0;
      }
      ShiftLeft(index);
      keyCount := keyCount - 1;
      if !IsLeaf() {
        childCount := childCount - 1;
      }
      ok := true;
      RemovedPointwise(ks, Keys(), index);
      if IsLeaf() {
        RemovedPointwise(vs, Values(), index);
      } else {
        RemovedPointwise(cs, Children(), index);
      }
    }

    /** The upper half moves to a new node and the middle key leaves both. Keys are conserved in
        order; so are the children of an internal node. On a leaf
        the value at the middle is in neither half. A full node gives two halves of minimal size. */
    method Split() returns (right: BTreeNode, ghost splitKey: int)
      requires Ok() && keyCount > 0
      requires !IsLeaf() ==> childCount > keyCount / 2
      modifies this
      ensures Ok() && right.Ok() && fresh(right) && nodeType == old(nodeType) == right.nodeType
      ensures old(Keys()) == Keys() + [splitKey] + right.Keys() && splitKey == old(Keys())[old(keyCount) / 2]
      ensures !IsLeaf() ==> old(Children()) == Children() + right.Children()
      ensures !IsLeaf() && old(childCount) == old(keyCount) + 1 ==>
        childCount == keyCount + 1 && right.childCount == right.keyCount + 1
      ensures IsLeaf() ==> old(Values()) == Values() + [old(Values())[old(keyCount) / 2]] + right.Values()
      ensures old(keyCount) == MAX_KEYS ==> keyCount == right.keyCount == MIN_KEYS
    {
      hide Sorted;
      ghost var ks, vs, cs := Keys(), Values(), Children();
      right := new BTreeNode(nodeType);
      var mid := keyCount / 2;
      splitKey := keyArray[mid];
      Parts(ks, mid);
      Parts(vs, mid);
      MoveUpperHalfTo(right, mid);
    }

    /** Copies what lies above the middle and lowers the counts. */
    method MoveUpperHalfTo(right: BTreeNode, mid: nat)
      requires Ok() && right.Ok() && right != this && mid < keyCount && right.nodeType == nodeType
      requires right.keyArray != keyArray && right.valueArray != valueArray && right.childArray != childArray
      requires right.valueArray != childArray && right.childArray != valueArray
      requires !IsLeaf() ==> childCount > mid
      requires IsLeaf() ==> right.childCount == 0
      modifies this`keyCount, this`childCount, right`keyCount, right`childCount
      modifies right.keyArray, right.valueArray, right.childArray
      ensures Ok() && right.Ok()
      ensures Keys() == old(Keys())[..mid] && right.Keys() == old(Keys())[mid + 1..]
      ensures IsLeaf() ==> Values() == old(Values())[..mid] && right.Values() == old(Values())[mid + 1..]
      ensures !IsLeaf() ==> Children() == old(Children())[..mid + 1] && right.Children() == old(Children())[mid + 1..]
    {
      CopyUpperHalfTo(right, mid);
      if !IsLeaf() {
        CopyChildrenTo(right, mid);
      }
      right.keyCount := keyCount - mid - 1;
      keyCount := mid;
      if !IsLeaf() {
        childCount := mid + 1;
      }
    }

    /** The keys above the middle, with their values on a leaf, go to the new node. */
    method CopyUpperHalfTo(right: BTreeNode, mid: nat)
      requires Ok() && right.Ok() && mid < keyCount
      requires right.keyArray != keyArray && right.valueArray != valueArray
      modifies right.keyArray, right.valueArray
      ensures right.keyArray[..keyCount - mid - 1] == keyArray[mid + 1..keyCount]
      ensures IsLeaf() ==> right.valueArray[..keyCount - mid - 1] == valueArray[mid + 1..keyCount]
    {
      var i := mid + 1;
      while i < keyCount
        invariant mid + 1 <= i <= keyCount
        invariant right.keyArray[..i - mid - 1] == keyArray[mid + 1..i]
        invariant IsLeaf() ==> right.valueArray[..i - mid - 1] == valueArray[mid + 1..i]
      {
        right.keyArray[i - mid - 1] := keyArray[i];
        if IsLeaf() {
          right.valueArray[i - mid - 1] := valueArray[i];
        }
        i := i + 1;
      }
    }

    /** The children above the middle go to the new node. */
    method CopyChildrenTo(right: BTreeNode, mid: nat)
      requires Ok() && right.Ok() && right != this && right.childArray != childArray && mid < childCount
      modifies right`childCount, right.childArray
      ensures right.Ok() && right.childCount == childCount - mid - 1
      ensures right.childArray[..right.childCount] == childArray[mid + 1..childCount]
    {
      var i := mid + 1;
      while i < childCount
        invariant mid + 1 <= i <= childCount
        invariant right.childArray[..i - mid - 1] == childArray[mid + 1..i]
      {
        right.childArray[i - mid - 1] := childArray[i];
        i := i + 1;
      }
      right.childCount := childCount - mid - 1;
    }
  }
}
