/** VectorImpl and SharedBuffer: vectors that share storage until one of them is written. */
module SharedVector {
  import opened VectorPolicy
  import VectorSort

  /**
    The guard of removeItemsAt in a size_t of so many values: index + n is tested right if and only
    if the sum does not wrap around to a size that the vector has.
   */
  lemma RemovalGuard(index: nat, n: nat, count: nat, values: nat)
    requires index < values && n < values && count < values
    ensures ((index + n) % values > count <==> index + n > count) <==> RemovalTested(index, n, count, values)
  {
    WrapOnce(index + n, values);
  }

  predicate RemovalTested(index: nat, n: nat, count: nat, values: nat) {
    index + n < values || index + n - values > count
  }

  /** One item, and as many as a size_t can say from index 1 on: the guard lets them pass. */
  lemma GuardWraps(values: nat)
    requires values > 1
    ensures !RemovalTested(1, values - 1, 1, values) && (1 + (values - 1)) % values <= 1
  {
    WrapOnce(values, values);
  }

  /** SharedBuffer, with room for |items| items; freed records that it was given to free(). */
  class SharedBuffer<T(0, !new)> {
    var refs: nat
    var items: seq<T>
    ghost var freed: bool

    /** SharedBuffer::alloc: one owner. */
    constructor (items: seq<T>)
      ensures refs == 1 && this.items == items && !freed
    {
      refs := 1;
      this.items := items;
      freed := false;
    }

    predicate OnlyOwner()
      reads this
    {
      refs == 1
    }

    /** SharedBuffer::acquire. */
    method Acquire()
      requires refs >= 1 && !freed
      modifies this`refs
      ensures refs == old(refs) + 1
    {
      refs := refs + 1;
    }

    /** SharedBuffer::release and, for the last owner, dealloc: freed once, never again. */
    method Release()
      requires refs >= 1 && !freed
      modifies this`refs, this`freed
      ensures refs == old(refs) - 1 && (freed <==> refs == 0)
    {
      if OnlyOwner() {
        refs := 0;
        freed := true;
      } else {
        refs := refs - 1;
      }
    }
  }

  /** All vectors and all buffers ever allocated for them. */
  class World<T(0, !new)> {
    const values: nat                    // how many values a size_t has
    const itemSize: nat
    const header: nat                    // sizeof(SharedBuffer)
    ghost var vectors: set<Vector<T>>
    ghost var buffers: set<SharedBuffer<T>>

    constructor (values: nat, itemSize: nat, header: nat)
      requires values > 0
      ensures Inv() && vectors == {} && buffers == {}
      ensures this.values == values && this.itemSize == itemSize && this.header == header
    {
      this.values, this.itemSize, this.header := values, itemSize, header;
      vectors, buffers := {}, {};
    }

    /** n items can be reached from a capacity: they are there, or the room that _grow computes is right. */
    predicate Reachable(n: nat, capacity: nat) {
      n <= capacity || Growable(n, itemSize, header, values)
    }

    ghost function Users(b: SharedBuffer<T>): set<Vector<T>>
      reads this, vectors
    {
      set v | v in vectors && v.storage == b
    }

    /** The count is the number of vectors that point at the buffer, and it is freed just when none does. */
    ghost predicate BufferOk(b: SharedBuffer<T>)
      reads this, vectors, b
    {
      b.refs == |Users(b)| && (b.freed <==> b.refs == 0)
    }

    ghost predicate VectorOk(v: Vector<T>)
      reads this, v, v.storage
    {
      if v.storage == null then v.count == 0 else v.storage in buffers && v.count <= |v.storage.items|
    }

    ghost predicate Inv()
      reads this, vectors, buffers, set v | v in vectors :: v.storage
    {
      && values > 0
      && (forall v :: v in vectors ==> VectorOk(v))
      && (forall b :: b in buffers ==> BufferOk(b))
    }

    /** When every vector has let go, every buffer has been freed. */
    lemma NothingLeaks()
      requires Inv() && forall v :: v in vectors ==> v.storage == null
      ensures forall b :: b in buffers ==> b.freed
    {
      forall b | b in buffers ensures b.freed {
        assert BufferOk(b) && Users(b) == {};
      }
    }

    /** A new, empty vector. */
    method New(trivial: bool) returns (v: Vector<T>)
      requires Inv()
      modifies this`vectors
      ensures Inv() && fresh(v) && v.storage == null && v.trivial == trivial && vectors == old(vectors) + {v}
      ensures forall u :: u in old(vectors) ==> u.Contents() == old(u.Contents())
    {
      v := new Vector<T>(trivial);
      vectors := vectors + {v};
      forall b | b in buffers ensures BufferOk(b) {
        assert old(BufferOk(b));
        assert Users(b) == old(Users(b));
      }
      forall u | u in vectors ensures VectorOk(u) {
        if u != v {
          assert old(VectorOk(u));
        }
      }
    }

    /** The copy constructor: shares the storage even of an emptied vector. */
    method Clone(rhs: Vector<T>) returns (v: Vector<T>)
      requires Inv() && rhs in vectors
      modifies this`vectors, rhs.storage
      ensures Inv() && fresh(v) && vectors == old(vectors) + {v} && v.trivial == rhs.trivial
      ensures v.Contents() == old(rhs.Contents()) && v.storage == rhs.storage
      ensures forall u :: u in old(vectors) ==> u.Contents() == old(u.Contents())
    {
      assert VectorOk(rhs);
      v := New(rhs.trivial);
      if rhs.storage != null {
        v.Share(rhs, this);
      }
    }

    lemma StorageIsLive(v: Vector<T>)
      requires Inv() && v in vectors && v.storage != null
      ensures v.storage in buffers && v.storage.refs >= 1 && !v.storage.freed
      ensures v.storage.refs == 1 ==> forall u :: u in vectors && u.storage == v.storage ==> u == v
    {
      assert VectorOk(v) && BufferOk(v.storage);
      assert v in Users(v.storage);
      if v.storage.refs == 1 {
        forall u | u in vectors && u.storage == v.storage ensures u == v {
          assert u in Users(v.storage) && {u, v} <= Users(v.storage);
          OneMember(Users(v.storage), u, v);
        }
      }
    }
  }

  lemma OneMember<A>(s: set<A>, a: A, b: A)
    requires |s| == 1 && a in s && b in s
    ensures a == b
  {
    var rest := s - {a};
    assert |rest| == |s| - 1 && rest == {};
  }

  datatype Result = Index(index: nat) | BadIndex | BadValue | NoMemory

  class Vector<T(0, !new)> {
    const trivial: bool                  // items may be copied and dropped bytewise
    var storage: SharedBuffer?<T>
    var count: nat

    ghost function Contents(): seq<T>
      reads this, storage
    {
      if storage == null || count > |storage.items| then [] else storage.items[..count]
    }

    function Capacity(): nat
      reads this, storage
    {
      if storage == null then 0 else |storage.items|
    }

    constructor (trivial: bool)
      ensures storage == null && count == 0 && this.trivial == trivial
    {
      this.trivial := trivial;
      storage, count := null, 0;
    }

    /** Nobody but this vector changed: neither fields nor contents. */
    twostate predicate OthersKept(w: World<T>)
      reads w, w.vectors, set v | v in w.vectors :: v.storage
    {
      forall v :: v in old(w.vectors) && v != this ==>
        v in w.vectors && v.storage == old(v.storage) && v.count == old(v.count) && v.Contents() == old(v.Contents())
    }

    /** Leaves the old storage, if any, and points at a buffer of its own. */
    method Repoint(b: SharedBuffer<T>, ghost w: World<T>)
      requires w.Inv() && this in w.vectors && b !in w.buffers && b.refs == 1 && !b.freed && count <= |b.items|
      modifies w`buffers, this`storage, storage
      ensures w.Inv() && w.buffers == old(w.buffers) + {b} && storage == b && b.refs == 1 && b.items == old(b.items)
      ensures old(storage) != null ==> old(storage).items == old(storage.items)
    {
      if storage != null {
        w.StorageIsLive(this);
        storage.Release();
      }
      ghost var before := storage;
      storage := b;
      w.buffers := w.buffers + {b};
      assert w.Users(b) == {this};
      forall c | c in w.buffers ensures w.BufferOk(c) {
        if c == before {
          assert w.Users(c) == old(w.Users(c)) - {this};
          assert old(w.BufferOk(c));
        } else if c != b {
          assert w.Users(c) == old(w.Users(c));
          assert old(w.BufferOk(c));
        }
      }
      forall v | v in w.vectors ensures w.VectorOk(v) {
        assert old(w.VectorOk(v));
      }
    }

    method SetCount(n: nat, ghost w: World<T>)
      requires w.Inv() && this in w.vectors && n <= Capacity() && (storage == null ==> n == 0)
      modifies this`count
      ensures w.Inv() && count == n
    {
      count := n;
      forall c | c in w.buffers ensures w.BufferOk(c) {
        assert w.Users(c) == old(w.Users(c));
        assert old(w.BufferOk(c));
      }
      forall v | v in w.vectors ensures w.VectorOk(v) {
        assert old(w.VectorOk(v));
      }
    }

    /** A new buffer replaces the storage, with n items in it. */
    method SwitchTo(b: SharedBuffer<T>, n: nat, ghost w: World<T>)
      requires w.Inv() && this in w.vectors && b !in w.buffers && b.refs == 1 && !b.freed && n <= |b.items|
      modifies w`buffers, this`storage, this`count, storage
      ensures w.Inv() && storage == b && count == n && b.refs == 1 && b.items == old(b.items) && OthersKept(w)
    {
      assert w.VectorOk(this);
      if n < count {
        SetCount(n, w);
      }
      Repoint(b, w);
      SetCount(n, w);
    }

    /** Writes into storage that only this vector uses. */
    method Write(items: seq<T>, n: nat, ghost w: World<T>)
      requires w.Inv() && this in w.vectors && storage != null && storage.refs == 1 && n <= |items|
      modifies this`count, storage`items
      ensures w.Inv() && storage.items == items && count == n && OthersKept(w)
    {
      w.StorageIsLive(this);
      storage.items, count := items, n;
      forall c | c in w.buffers ensures w.BufferOk(c) {
        assert w.Users(c) == old(w.Users(c));
        assert old(w.BufferOk(c));
      }
      forall v | v in w.vectors ensures w.VectorOk(v) {
        assert old(w.VectorOk(v));
      }
    }

    /** editArrayImpl: storage of its own before any write. */
    method EditArray(ghost w: World<T>)
      requires w.Inv() && this in w.vectors
      modifies w`buffers, this`storage, this`count, storage
      ensures w.Inv() && this in w.vectors && (storage == null <==> old(storage) == null) && (storage != null ==> storage.refs == 1)
      ensures count == old(count) && Contents() == old(Contents()) && Capacity() == old(Capacity()) && OthersKept(w)
      ensures storage == old(storage) || fresh(storage)
    {
      assert w.VectorOk(this);
      if storage != null && !storage.OnlyOwner() {
        var junk: T := *;
        var b := new SharedBuffer<T>(storage.items[..count] + seq(|storage.items| - count, _ => junk));
        SwitchTo(b, count, w);
      }
    }

    /**
      _grow: room for amount items at where, the policy's capacity, and whether the caller
      gets a location: not when there is nothing to put at the end of full storage.
     */
    method Grow(at: nat, amount: nat, ghost w: World<T>) returns (located: bool, ghost moved: nat)
      requires w.Inv() && this in w.vectors && at <= count && w.Reachable(count + amount, Capacity())
      modifies w`buffers, this`storage, this`count, storage
      ensures w.Inv() && this in w.vectors && count == old(count) + amount && OthersKept(w)
      ensures storage == null ==> count == 0
      ensures storage != null ==> storage.refs == 1
      ensures |Contents()| == count && Contents()[..at] == old(Contents())[..at] && Contents()[at + amount..] == old(Contents())[at..]
      ensures Capacity() == Grown(old(Capacity()), count)
      ensures moved == if old(Capacity()) < count then old(count) else 0
      ensures located == (at < Capacity())
      ensures storage == old(storage) || fresh(storage)
    {
      assert w.VectorOk(this);
      var newSize := count + amount;
      moved := 0;
      if Capacity() < newSize {
        var newCapacity := Max(MIN_CAPACITY, (newSize * 3 + 1) / 2);
        moved := count;
        if storage != null && count == at && trivial {
          EditResize(newCapacity, newSize, w);
        } else {
          var junk: T := *;
          var items := if storage == null then [] else storage.items[..count];
          var b := new SharedBuffer<T>(items[..at] + seq(amount, _ => junk) + items[at..] + seq(newCapacity - newSize, _ => junk));
          SwitchTo(b, newSize, w);
        }
      } else {
        EditArray(w);
        assert w.VectorOk(this);
        if storage != null {
          var items := storage.items;
          var c := count;
          Write(items[..at] + items[at..at + amount] + items[at..c] + items[newSize..], newSize, w);
        }
      }
      located := at < Capacity();
    }

    /** SharedBuffer::editResize: in place for an only owner, else a copy in a new buffer. */
    method EditResize(newCapacity: nat, n: nat, ghost w: World<T>)
      requires w.Inv() && this in w.vectors && storage != null && n <= newCapacity
      modifies w`buffers, this`storage, this`count, storage
      ensures w.Inv() && this in w.vectors && storage != null && storage.refs == 1 && count == n && Capacity() == newCapacity && OthersKept(w)
      ensures forall i :: 0 <= i < n && i < old(count) ==> Contents()[i] == old(Contents())[i]
      ensures storage == old(storage) || fresh(storage)
    {
      assert w.VectorOk(this);
      var junk: T := *;
      var size := |storage.items|;
      var items := if newCapacity <= size then storage.items[..newCapacity]
                   else storage.items + seq(newCapacity - size, _ => junk);
      if storage.OnlyOwner() {
        Write(items, n, w);
      } else {
        var b := new SharedBuffer<T>(items);
        SwitchTo(b, n, w);
      }
    }

    /** _shrink: takes amount items out at where. */
    method Shrink(at: nat, amount: nat, ghost w: World<T>) returns (ghost moved: nat)
      requires w.Inv() && this in w.vectors && at + amount <= count && ShrinkTested(count - amount, Capacity(), w.values)
      modifies w`buffers, this`storage, this`count, storage
      ensures w.Inv() && this in w.vectors && count == old(count) - amount && OthersKept(w)
      ensures Contents() == old(Contents())[..at] + old(Contents())[at + amount..]
      ensures Capacity() == Shrunk(old(Capacity()), count)
      ensures storage == old(storage) || fresh(storage)
      ensures moved == if count * 3 < old(Capacity()) then count else 0
    {
      assert w.VectorOk(this);
      moved := 0;
      if storage == null {
        return;
      }
      ghost var before := Contents();
      var newSize := count - amount;
      if newSize * 3 < Capacity() {
        var newCapacity := Max(MIN_CAPACITY, newSize * 2);
        moved := newSize;
        if at == newSize && trivial {
          EditResize(newCapacity, newSize, w);
          assert Contents() == before[..at];
        } else {
          var junk: T := *;
          var items := storage.items[..count];
          var b := new SharedBuffer<T>(items[..at] + items[at + amount..] + seq(newCapacity - newSize, _ => junk));
          SwitchTo(b, newSize, w);
        }
      } else {
        Erase(at, amount, w);
      }
    }

    /** The items behind move down over those taken out, in storage of its own. */
    method Erase(at: nat, amount: nat, ghost w: World<T>)
      requires w.Inv() && this in w.vectors && storage != null && at + amount <= count
      modifies w`buffers, this`storage, this`count, storage
      ensures w.Inv() && this in w.vectors && count == old(count) - amount && OthersKept(w)
      ensures Contents() == old(Contents())[..at] + old(Contents())[at + amount..]
      ensures Capacity() == old(Capacity()) && (storage == old(storage) || fresh(storage))
    {
      assert w.VectorOk(this);
      var newSize := count - amount;
      EditArray(w);
      var items := storage.items;
      var c := count;
      Write(items[..at] + items[at + amount..c] + items[newSize..], newSize, w);
    }

    /** insertArrayAt and appendArray for items outside this vector. */
    method InsertArrayAt(items: seq<T>, index: nat, ghost w: World<T>) returns (r: Result, ghost moved: nat)
      requires w.Inv() && this in w.vectors && (index <= count ==> w.Reachable(count + |items|, Capacity()))
      modifies w`buffers, this`storage, this`count, storage
      ensures w.Inv() && this in w.vectors && OthersKept(w)
      ensures index > old(count) <==> r == BadIndex
      ensures r == BadIndex ==> Contents() == old(Contents()) && Capacity() == old(Capacity()) && count == old(count) && moved == 0
      ensures r != BadIndex ==> Contents() == old(Contents())[..index] + items + old(Contents())[index..]
      ensures r != BadIndex ==> count == old(count) + |items| && Capacity() == Grown(old(Capacity()), count)
      ensures r != BadIndex ==> moved == if old(Capacity()) < count then old(count) else 0
      ensures r == BadIndex || r == Index(index) || (r == NoMemory && items == [])
      ensures storage == old(storage) || fresh(storage)
    {
      assert w.VectorOk(this);
      if index > count {
        return BadIndex, 0;
      }
      var located;
      located, moved := Insert(items, index, w);
      r := if located then Index(index) else NoMemory;
    }

    method Insert(items: seq<T>, index: nat, ghost w: World<T>) returns (located: bool, ghost moved: nat)
      requires w.Inv() && this in w.vectors && index <= count && w.Reachable(count + |items|, Capacity())
      modifies w`buffers, this`storage, this`count, storage
      ensures w.Inv() && this in w.vectors && OthersKept(w) && (located || items == [])
      ensures Contents() == old(Contents())[..index] + items + old(Contents())[index..]
      ensures count == old(count) + |items| && Capacity() == Grown(old(Capacity()), count)
      ensures moved == if old(Capacity()) < count then old(count) else 0
      ensures storage == old(storage) || fresh(storage)
    {
      assert w.VectorOk(this);
      ghost var before := Contents();
      located, moved := Grow(index, |items|, w);
      ghost var gap := Contents();
      assert w.VectorOk(this);
      if located {
        Place(items, index, w);
      }
      Filled(before, gap, items, index);
    }

    /** Copies items over those at index. */
    method Place(items: seq<T>, index: nat, ghost w: World<T>)
      requires w.Inv() && this in w.vectors && storage != null && storage.refs == 1 && index + |items| <= count
      modifies this`count, storage`items
      ensures w.Inv() && count == old(count) && Capacity() == old(Capacity()) && OthersKept(w)
      ensures Contents() == old(Contents())[..index] + items + old(Contents())[index + |items|..]
    {
      assert w.VectorOk(this);
      var now := storage.items;
      var n := count;
      Write(now[..index] + items + now[index + |items|..], n, w);
    }

    lemma Filled(before: seq<T>, gap: seq<T>, items: seq<T>, index: nat)
      requires index <= |before| && |gap| == |before| + |items|
      requires gap[..index] == before[..index] && gap[index + |items|..] == before[index..]
      ensures gap[..index] + items + gap[index + |items|..] == before[..index] + items + before[index..]
      ensures items == [] ==> gap == before[..index] + items + before[index..]
    {
      assert gap == gap[..index] + gap[index..index + |items|] + gap[index + |items|..];
    }

    /** push. */
    method Push(item: T, ghost w: World<T>) returns (ghost moved: nat)
      requires w.Inv() && this in w.vectors && w.Reachable(count + 1, Capacity())
      modifies w`buffers, this`storage, this`count, storage
      ensures w.Inv() && this in w.vectors && OthersKept(w) && Contents() == old(Contents()) + [item]
      ensures storage == old(storage) || fresh(storage)
      ensures Gauge(count, Capacity(), moved) == VectorPolicy.Step(Gauge(old(count), old(Capacity()), 0), VectorPolicy.Op.Push)
    {
      assert w.VectorOk(this);
      var r;
      r, moved := InsertArrayAt([item], count, w);
    }

    /** pop; nothing happens to an empty vector. */
    method Pop(ghost w: World<T>) returns (ghost moved: nat)
      requires w.Inv() && this in w.vectors && (count > 0 ==> ShrinkTested(count - 1, Capacity(), w.values))
      modifies w`buffers, this`storage, this`count, storage
      ensures w.Inv() && this in w.vectors && OthersKept(w)
      ensures Contents() == if old(Contents()) == [] then [] else old(Contents())[..|old(Contents())| - 1]
      ensures storage == old(storage) || fresh(storage)
      ensures Gauge(count, Capacity(), moved) == VectorPolicy.Step(Gauge(old(count), old(Capacity()), 0), VectorPolicy.Op.Pop)
    {
      assert w.VectorOk(this);
      moved := 0;
      if count > 0 {
        ghost var before := Contents();
        moved := Shrink(count - 1, 1, w);
        assert Contents() == before[..|before| - 1];
      }
    }

    /** removeItemsAt, for sums and sizes that are tested right. */
    method RemoveItemsAt(index: nat, n: nat, ghost w: World<T>) returns (r: Result)
      requires w.Inv() && this in w.vectors && RemovalTested(index, n, count, w.values)
      requires index + n <= count ==> ShrinkTested(count - n, Capacity(), w.values)
      modifies w`buffers, this`storage, this`count, storage
      ensures w.Inv() && this in w.vectors && OthersKept(w)
      ensures r == if index + n > |old(Contents())| then BadValue else Index(index)
      ensures Contents() == if r.BadValue? then old(Contents()) else old(Contents())[..index] + old(Contents())[index + n..]
    {
      assert w.VectorOk(this);
      if index + n > count {
        return BadValue;
      }
      ghost var _ := Shrink(index, n, w);
      r := Index(index);
    }

    /** clear: no items, and storage cut back by the policy. */
    method Clear(ghost w: World<T>)
      requires w.Inv() && this in w.vectors
      modifies w`buffers, this`storage, this`count, storage
      ensures w.Inv() && this in w.vectors && OthersKept(w) && Contents() == []
    {
      assert w.VectorOk(this);
      ghost var _ := Shrink(0, count, w);
    }

    /** replaceAt. */
    method ReplaceAt(item: T, index: nat, ghost w: World<T>) returns (r: Result)
      requires w.Inv() && this in w.vectors
      modifies w`buffers, this`storage, this`count, storage
      ensures w.Inv() && this in w.vectors && OthersKept(w)
      ensures r == if index >= |old(Contents())| then BadIndex else Index(index)
      ensures Contents() == if r.BadIndex? then old(Contents()) else old(Contents())[index := item]
    {
      assert w.VectorOk(this);
      if index >= count {
        return BadIndex;
      }
      ghost var before := Contents();
      EditArray(w);
      var items := storage.items;
      var n := count;
      Write(items[index := item], n, w);
      assert Contents() == before[index := item];
      r := Index(index);
    }

    /** finish_vector: gives the storage up. */
    method Finish(ghost w: World<T>)
      requires w.Inv() && this in w.vectors
      modifies this`storage, this`count, storage
      ensures w.Inv() && storage == null && count == 0 && OthersKept(w)
    {
      SetCount(0, w);
      LetGo(w);
    }

    method LetGo(ghost w: World<T>)
      requires w.Inv() && this in w.vectors && count == 0
      modifies this`storage, storage
      ensures w.Inv() && storage == null
      ensures old(storage) != null ==> old(storage).items == old(storage.items)
    {
      if storage != null {
        w.StorageIsLive(this);
        storage.Release();
      }
      ghost var before := storage;
      storage := null;
      forall c | c in w.buffers ensures w.BufferOk(c) {
        assert old(w.BufferOk(c));
        if c == before {
          assert w.Users(c) == old(w.Users(c)) - {this};
        } else {
          assert w.Users(c) == old(w.Users(c));
        }
      }
      forall v | v in w.vectors ensures w.VectorOk(v) {
        assert old(w.VectorOk(v));
      }
    }

    /** Points an empty vector at the storage of another and counts itself in. */
    method Share(rhs: Vector<T>, ghost w: World<T>)
      requires w.Inv() && this in w.vectors && rhs in w.vectors && this != rhs && storage == null && rhs.storage != null
      modifies this`storage, this`count, rhs.storage`refs
      ensures w.Inv() && storage == rhs.storage && count == rhs.count && OthersKept(w)
    {
      w.StorageIsLive(rhs);
      rhs.storage.Acquire();
      storage, count := rhs.storage, rhs.count;
      forall c | c in w.buffers ensures w.BufferOk(c) {
        assert old(w.BufferOk(c));
        if c == storage {
          assert w.Users(c) == old(w.Users(c)) + {this};
        } else {
          assert w.Users(c) == old(w.Users(c));
        }
      }
      forall v | v in w.vectors ensures w.VectorOk(v) {
        assert old(w.VectorOk(v)) && old(w.VectorOk(rhs));
      }
    }

    /** operator=: the same contents without copying an item. */
    method Assign(rhs: Vector<T>, ghost w: World<T>)
      requires w.Inv() && this in w.vectors && rhs in w.vectors
      modifies this`storage, this`count, storage, rhs.storage
      ensures w.Inv() && Contents() == old(rhs.Contents()) && OthersKept(w)
      ensures this != rhs ==> storage == if rhs.count == 0 then null else rhs.storage
    {
      assert w.VectorOk(rhs);
      if this != rhs {
        Finish(w);
        if rhs.count != 0 {
          Share(rhs, w);
        }
      }
    }

    /** sort: the items move only once storage of its own has been obtained. */
    method Sort(cmp: (T, T) -> int, ghost w: World<T>)
      requires w.Inv() && this in w.vectors
      modifies w`buffers, this`storage, this`count, storage
      ensures w.Inv() && this in w.vectors && OthersKept(w)
      ensures Contents() == VectorSort.Sorted(old(Contents()), cmp)
    {
      assert w.VectorOk(this);
      if count == 0 {
        return;
      }
      EditArray(w);
      var n := count;
      var items := SortItems(storage.items, n, cmp);
      Write(items, n, w);
    }

    /** The in-place sort of the first n items of a buffer. */
    static method SortItems(items: seq<T>, n: nat, cmp: (T, T) -> int) returns (r: seq<T>)
      requires n <= |items|
      ensures |r| == |items| && r[..n] == VectorSort.Sorted(items[..n], cmp)
    {
      var a := new T[|items|](i requires 0 <= i < |items| => items[i]);
      assert a[..n] == items[..n];
      VectorSort.Sort(a, n, cmp);
      r := a[..];
      assert r[..n] == a[..n];
    }

    /** SortedVectorImpl::add. */
    method SortedAdd(item: T, cmp: (T, T) -> int, ghost w: World<T>) returns (r: Result)
      requires w.Inv() && this in w.vectors && VectorSort.Consistent(cmp) && VectorSort.StrictlyOrdered(Contents(), cmp)
      requires w.Reachable(count + 1, Capacity())
      modifies w`buffers, this`storage, this`count, storage
      ensures w.Inv() && this in w.vectors && OthersKept(w) && r.Index?
      ensures VectorSort.StrictlyOrdered(Contents(), cmp)
      ensures forall x :: x in Contents() <==> x == item || (x in old(Contents()) && cmp(x, item) != 0)
    {
      assert w.VectorOk(this);
      ghost var before := Contents();
      var items := if storage == null then [] else storage.items[..count];
      var found, order := VectorSort.IndexOrderOf(items, item, cmp);
      VectorSort.AddKeepsOrder(before, item, cmp, found, order);
      if found {
        r := ReplaceAt(item, order, w);
      } else {
        ghost var moved;
        r, moved := InsertArrayAt([item], order, w);
      }
      assert Contents() == VectorSort.Added(before, item, found, order);
    }

    /** Any run of pushes and pops on a new vector, with the items it moves counted. */
    method PushPop(ops: seq<Op>, item: T, ghost w: World<T>) returns (ghost moved: nat)
      requires w.Inv() && this in w.vectors && storage == null && Growable(|ops|, w.itemSize, w.header, w.values)
      modifies w`buffers, this`storage, this`count
      ensures w.Inv() && Gauge(count, Capacity(), moved) == VectorPolicy.Run(ops) && moved <= 5 * |ops|
      ensures count <= Capacity() <= Max(MIN_CAPACITY, 3 * count)
    {
      moved := 0;
      assert w.VectorOk(this);
      var n := 0;
      while n < |ops|
        invariant n <= |ops| && w.Inv() && this in w.vectors
        invariant storage == null || fresh(storage)
        invariant Gauge(count, Capacity(), moved) == VectorPolicy.Run(ops[..n])
      {
        NextIsGrowable(ops, n, w.itemSize, w.header, w.values);
        ghost var more := Do(ops[n], item, w);
        assert ops[..n + 1][..n] == ops[..n];
        moved := moved + more;
        n := n + 1;
      }
      assert ops[..n] == ops;
      AmortisedMoves(ops);
    }

    method Do(op: Op, item: T, ghost w: World<T>) returns (ghost moved: nat)
      requires w.Inv() && this in w.vectors && Growable(count + 1, w.itemSize, w.header, w.values)
      modifies w`buffers, this`storage, this`count, storage
      ensures w.Inv() && this in w.vectors && (storage == old(storage) || fresh(storage))
      ensures Gauge(count, Capacity(), moved) == VectorPolicy.Step(Gauge(old(count), old(Capacity()), 0), op)
    {
      if op.Push? {
        moved := Push(item, w);
      } else {
        moved := Pop(w);
      }
    }
  }
}
