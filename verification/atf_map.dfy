/**
  The `atf_map` container of atf-c: a map from string keys to values the
  caller hands in, each stored with a flag saying whether the map owns it.
  The map keeps its own copy of every key, so what the caller later does to
  the buffer a key came from does not matter.
 */
module AtfMap {

  /** A value as the caller hands it in: a pointer, compared by identity. */
  datatype Ptr = Ptr(address: nat)

  /** A stored value and whether the map is responsible for freeing it. */
  datatype Entry = Entry(value: Ptr, managed: bool)

  datatype Map = Map(entries: map<string, Entry>)

  /** A constant iterator: past the end, or at the entry of a key. */
  datatype CIter = End | At(key: string)

  /** The iterator designates nothing or an entry of `m`. */
  predicate Valid(m: Map, it: CIter) {
    it.At? ==> it.key in m.entries
  }

  /** `atf_map_init`: a map with no entries. */
  function Init(): (m: Map)
    ensures Size(m) == 0
    ensures forall key :: Find(m, key) == End
  {
    Map(map[])
  }

  /** `atf_map_size`: the number of keys. */
  function Size(m: Map): (n: nat)
    ensures n == 0 <==> m.entries == map[]
  {
    |m.entries|
  }

  /** `atf_map_end_c`: the iterator that a search for a key of `m` never
      returns and a search for any other key always does. */
  function EndC(m: Map): (e: CIter)
    ensures Valid(m, e)
    ensures forall key :: Equal(Find(m, key), e) <==> key !in m.entries
  {
    End
  }

  /** `atf_map_find_c`: an iterator at the key's entry, or the end iterator
      when the key has none. */
  function Find(m: Map, key: string): (it: CIter)
    ensures Valid(m, it)
    ensures it.At? ==> it.key == key
    ensures key in m.entries ==> it.At?
  {
    if key in m.entries then At(key) else End
  }

  /** `atf_map_citer_data`: the value at a valid iterator. */
  function Data(m: Map, it: CIter): Ptr
    requires it.At? && Valid(m, it)
  {
    m.entries[it.key].value
  }

  /** `atf_equal_map_citer_map_citer`: both iterators are at the end, or
      both are at the entry of the same key. */
  function Equal(a: CIter, b: CIter): (r: bool)
    ensures r <==> (a.End? && b.End?) || (a.At? && b.At? && a.key == b.key)
  {
    a == b
  }

  /** `atf_map_insert`: the key is bound to the value, replacing any value
      it had; every other key keeps its binding; the size grows by one
      exactly when the key is new. */
  function Insert(m: Map, key: string, value: Ptr, managed: bool): (r: Map)
    ensures Find(r, key) == At(key) && Data(r, At(key)) == value
    ensures r.entries[key].managed == managed
    ensures forall k :: k != key ==> Find(r, k) == Find(m, k)
    ensures forall k :: k != key && k in m.entries ==> k in r.entries && r.entries[k] == m.entries[k]
    ensures Size(r) == if Equal(Find(m, key), EndC(m)) then Size(m) + 1 else Size(m)
  {
    var r := Map(m.entries[key := Entry(value, managed)]);
    assert r.entries.Keys == m.entries.Keys + {key};
    r
  }

  /** The value found for a key after an insert is the value inserted under
      that key, and for any other key what it was before. */
  lemma DataInsert(m: Map, key: string, value: Ptr, managed: bool, other: string)
    ensures Data(Insert(m, key, value, managed), Find(Insert(m, key, value, managed), key)) == value
    ensures other != key && other in m.entries ==>
      var r := Insert(m, key, value, managed);
      Find(r, other).At? && Data(r, Find(r, other)) == Data(m, Find(m, other))
  {
    var r := Insert(m, key, value, managed);
    if other != key && other in m.entries {
      assert Find(r, other) == Find(m, other) == At(other);
    }
  }

  /** The `map_init` test: the size of a new map. */
  method MapInitTest() returns (size: nat)
    ensures size == 0
  {
    var m := Init();
    size := Size(m);
  }

  /** The `find_c` test: with K1 and K2 inserted, K0 is not found, and K1
      and K2 are found with their values. */
  method FindCTest(v1: Ptr, v2: Ptr) returns (foundK0: bool, foundK1: bool, dataK1: Ptr, foundK2: bool, dataK2: Ptr)
    ensures !foundK0
    ensures foundK1 && dataK1 == v1
    ensures foundK2 && dataK2 == v2
  {
    var m := Init();
    m := Insert(m, "K1", v1, false);
    m := Insert(m, "K2", v2, false);
    var iter := Find(m, "K0");
    foundK0 := !Equal(iter, EndC(m));
    iter := Find(m, "K1");
    foundK1 := !Equal(iter, EndC(m));
    dataK1 := Data(m, iter);
    iter := Find(m, "K2");
    foundK2 := !Equal(iter, EndC(m));
    dataK2 := Data(m, iter);
  }

  /** The `map_insert` test: three new keys give sizes one to three;
      inserting K3 again keeps the size and replaces the value found. */
  method MapInsertTest(buf: Ptr, buf2: Ptr) returns (sizes: seq<nat>, before: Ptr, after: Ptr)
    ensures sizes == [0, 1, 2, 3, 3]
    ensures before == buf && after == buf2
  {
    var m := Init();
    sizes := [Size(m)];
    m := Insert(m, "K1", buf, false);
    sizes := sizes + [Size(m)];
    m := Insert(m, "K2", buf, false);
    sizes := sizes + [Size(m)];
    m := Insert(m, "K3", buf, false);
    sizes := sizes + [Size(m)];
    var iter := Find(m, "K3");
    before := Data(m, iter);
    m := Insert(m, "K3", buf2, false);
    sizes := sizes + [Size(m)];
    iter := Find(m, "K3");
    after := Data(m, iter);
  }

  /** The `stable_keys` test: a key inserted from a caller's buffer is
      still found after the buffer is overwritten, and the buffer's new
      contents are not. */
  method StableKeysTest(value: Ptr) returns (foundK1: bool, foundK2: bool, laterK1: bool, laterK2: bool)
    ensures foundK1 && !foundK2
    ensures laterK1 && !laterK2
  {
    var key := new char[2];
    key[0], key[1] := 'K', '1';
    var m := Insert(Init(), key[..], value, true);
    assert key[..] == "K1";
    foundK1 := !Equal(Find(m, "K1"), EndC(m));
    foundK2 := !Equal(Find(m, "K2"), EndC(m));
    key[1] := '2';
    laterK1 := !Equal(Find(m, "K1"), EndC(m));
    laterK2 := !Equal(Find(m, "K2"), EndC(m));
  }
}
