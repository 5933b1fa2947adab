/**
  The fixed-slot dictionary of create_dict_subclass (perfection/utils.py):
  one array slot per key of a fixed key list, indexed by a hash function that
  sends slot i's key to i. A slot holds a (key, value) pair or nothing, so a
  stored value that is itself "none" is told apart from an empty slot.

  The slot contents are first specified on values (a sequence of slots);
  the class SlotDict then keeps them in an array updated in place.
*/
module SlotDict {
  import opened Wrappers

  type Word = seq<char>

  /** KeyError(key): raised by every access whose key does not own its slot, and by reads of an empty slot. */
  datatype DictError = KeyError(key: Word)

  type Slot<V> = Option<(Word, V)>

  /** The hash function indexes into the slot list for every key. */
  ghost predicate Fits(hash: Word -> nat, slots: seq<Word>)
  {
    forall k :: hash(k) < |slots|
  }

  /** Every filled slot holds the key of its own slot, and that key hashes to the slot. */
  ghost predicate WellStored<V>(hash: Word -> nat, slots: seq<Word>, t: seq<Slot<V>>)
  {
    && |t| == |slots|
    && forall i :: 0 <= i < |t| && t[i].Some? ==> t[i].value.0 == slots[i] && hash(slots[i]) == i
  }

  /** The key owns its slot: slots[hash(key)] == key. */
  predicate Owns(hash: Word -> nat, slots: seq<Word>, key: Word)
    requires Fits(hash, slots)
  {
    slots[hash(key)] == key
  }

  /** The mapping the slots hold: each key that owns a filled slot, to that slot's value. */
  ghost function ContentsOf<V>(hash: Word -> nat, slots: seq<Word>, t: seq<Slot<V>>): map<Word, V>
    requires Fits(hash, slots) && |t| == |slots|
  {
    map k | k in slots && Owns(hash, slots, k) && t[hash(k)].Some? :: t[hash(k)].value.1
  }

  /** index_or_key_error: the key's slot index when the key owns it. */
  function IndexOrKeyError(hash: Word -> nat, slots: seq<Word>, key: Word): (r: Result<nat, DictError>)
    requires Fits(hash, slots)
    ensures r.Success? <==> slots[hash(key)] == key
    ensures r.Success? ==> r.value == hash(key) && r.value < |slots|
    ensures r.Failure? ==> r.error == KeyError(key)
  {
    var index := hash(key);
    if key != slots[index] then Failure(KeyError(key)) else Success(index)
  }

  /** getitem on the slot contents t. */
  function Lookup<V>(hash: Word -> nat, slots: seq<Word>, t: seq<Slot<V>>, key: Word): Result<V, DictError>
    requires Fits(hash, slots) && |t| == |slots|
  {
    var index := IndexOrKeyError(hash, slots, key);
    if index.Failure? then Failure(index.error)
    else if t[index.value].None? then Failure(KeyError(key))
    else Success(t[index.value].value.1)
  }

  /** getitem finds exactly the mapping the slots hold, and raises KeyError(key) for any other key. */
  lemma LookupIsContents<V>(hash: Word -> nat, slots: seq<Word>, t: seq<Slot<V>>, key: Word)
    requires Fits(hash, slots) && |t| == |slots|
    ensures Lookup(hash, slots, t, key) ==
      if key in ContentsOf(hash, slots, t) then Success(ContentsOf(hash, slots, t)[key]) else Failure(KeyError(key))
  {
    if Owns(hash, slots, key) {
      assert key in slots;
    }
  }

  /** A key is held exactly when it owns its slot and that slot is filled. */
  lemma ContentsMembership<V>(hash: Word -> nat, slots: seq<Word>, t: seq<Slot<V>>, key: Word)
    requires Fits(hash, slots) && |t| == |slots|
    ensures key in ContentsOf(hash, slots, t) <==> Owns(hash, slots, key) && t[hash(key)].Some?
  {
    if Owns(hash, slots, key) {
      assert key in slots;
    }
  }

  /** setitem on an owned key: the slot now holds (key, value), the key maps to value and nothing else changes. */
  lemma StoreUpdatesContents<V>(hash: Word -> nat, slots: seq<Word>, t: seq<Slot<V>>, key: Word, value: V)
    requires Fits(hash, slots) && WellStored(hash, slots, t) && Owns(hash, slots, key)
    ensures WellStored(hash, slots, t[hash(key) := Some((key, value))])
    ensures ContentsOf(hash, slots, t[hash(key) := Some((key, value))]) == ContentsOf(hash, slots, t)[key := value]
  {
    var t' := t[hash(key) := Some((key, value))];
    var before, after := ContentsOf(hash, slots, t), ContentsOf(hash, slots, t');
    assert key in slots;
    forall k ensures k in after <==> k in before[key := value] {
      if k != key && k in slots && Owns(hash, slots, k) {
        assert hash(k) != hash(key);
      }
    }
    forall k | k in after ensures after[k] == before[key := value][k] {
      if k != key {
        assert hash(k) != hash(key);
      }
    }
    assert after == before[key := value];
  }

  /** After setitem(key, value), getitem(key) gives value back and every other key reads as before. */
  lemma LookupAfterStore<V>(hash: Word -> nat, slots: seq<Word>, t: seq<Slot<V>>, key: Word, value: V, other: Word)
    requires Fits(hash, slots) && WellStored(hash, slots, t) && Owns(hash, slots, key)
    ensures Lookup(hash, slots, t[hash(key) := Some((key, value))], key) == Success(value)
    ensures other != key ==>
      Lookup(hash, slots, t[hash(key) := Some((key, value))], other) == Lookup(hash, slots, t, other)
  {
    if other != key && Owns(hash, slots, other) {
      assert hash(other) != hash(key);
    }
  }

  /** delitem on an owned key: the slot is emptied and the key leaves the mapping. */
  lemma EraseUpdatesContents<V>(hash: Word -> nat, slots: seq<Word>, t: seq<Slot<V>>, key: Word)
    requires Fits(hash, slots) && WellStored(hash, slots, t) && Owns(hash, slots, key)
    ensures WellStored(hash, slots, t[hash(key) := None])
    ensures ContentsOf(hash, slots, t[hash(key) := None]) == ContentsOf(hash, slots, t) - {key}
  {
    var t': seq<Slot<V>> := t[hash(key) := None];
    var before, after := ContentsOf(hash, slots, t), ContentsOf(hash, slots, t');
    forall k ensures k in after <==> k in before - {key} {
      if k != key && k in slots && Owns(hash, slots, k) {
        assert hash(k) != hash(key);
      }
    }
    forall k | k in after ensures after[k] == before[k] {
      assert hash(k) != hash(key);
    }
    assert after == before - {key};
  }

  /** The filled slots' pairs, in slot order: what dict_iter and dict_repr walk. */
  function Filled<V>(t: seq<Slot<V>>): seq<(Word, V)>
  {
    if t == [] then []
    else Filled(t[..|t| - 1]) + (if t[|t| - 1].Some? then [t[|t| - 1].value] else [])
  }

  /** dict_iter: the keys of the filled slots, in slot order. */
  function KeysOf<V>(t: seq<Slot<V>>): seq<Word>
  {
    var f := Filled(t);
    seq(|f|, i requires 0 <= i < |f| => f[i].0)
  }

  /** The pairs listed are exactly those of the filled slots. */
  lemma {:induction false} FilledMembers<V>(t: seq<Slot<V>>, p: (Word, V))
    ensures p in Filled(t) <==> exists i :: 0 <= i < |t| && t[i] == Some(p)
  {
    if t != [] {
      var init := t[..|t| - 1];
      FilledMembers(init, p);
      if p in Filled(init) {
        var i :| 0 <= i < |init| && init[i] == Some(p);
        assert t[i] == Some(p);
      }
      if exists i :: 0 <= i < |t| && t[i] == Some(p) {
        var i :| 0 <= i < |t| && t[i] == Some(p);
        if i < |t| - 1 {
          assert init[i] == Some(p);
        }
      }
    }
  }

  /** Slots whose keys hash to them list their keys in strictly increasing slot order. */
  lemma {:induction false} FilledInSlotOrder<V>(hash: Word -> nat, slots: seq<Word>, t: seq<Slot<V>>)
    requires WellStored(hash, slots, t)
    ensures forall i, j :: 0 <= i < j < |Filled(t)| ==> hash(Filled(t)[i].0) < hash(Filled(t)[j].0)
    ensures forall i :: 0 <= i < |Filled(t)| ==> hash(Filled(t)[i].0) < |t|
    decreases |t|
  {
    if t != [] {
      var init := t[..|t| - 1];
      FilledInSlotOrder(hash, slots[..|t| - 1], init);
      var f := Filled(t);
      var fi := Filled(init);
      assert forall i :: 0 <= i < |fi| ==> f[i] == fi[i];
      if t[|t| - 1].Some? {
        assert f[|f| - 1] == t[|t| - 1].value;
      }
    }
  }

  /** dict_iter yields every key of the mapping exactly once, in slot order. */
  lemma KeysOfIsContents<V>(hash: Word -> nat, slots: seq<Word>, t: seq<Slot<V>>)
    requires Fits(hash, slots) && WellStored(hash, slots, t)
    ensures forall k :: k in KeysOf(t) <==> k in ContentsOf(hash, slots, t)
    ensures forall i, j :: 0 <= i < j < |KeysOf(t)| ==> hash(KeysOf(t)[i]) < hash(KeysOf(t)[j])
  {
    var f := Filled(t);
    var ks := KeysOf(t);
    var m := ContentsOf(hash, slots, t);
    FilledInSlotOrder(hash, slots, t);
    forall k ensures k in ks <==> k in m {
      if k in ks {
        var i :| 0 <= i < |ks| && ks[i] == k;
        FilledMembers(t, f[i]);
        var s :| 0 <= s < |t| && t[s] == Some(f[i]);
        assert slots[s] == k && hash(k) == s;
      }
      if k in m {
        var p := t[hash(k)].value;
        FilledMembers(t, p);
        var i :| 0 <= i < |f| && f[i] == p;
        assert ks[i] == k;
      }
    }
  }

  /** The keys listed in slot order are distinct. */
  lemma DistinctCard(ks: seq<Word>, hash: Word -> nat)
    requires forall i, j :: 0 <= i < j < |ks| ==> hash(ks[i]) < hash(ks[j])
    ensures |set k | k in ks| == |ks|
    decreases |ks|
  {
    if ks != [] {
      var init := ks[..|ks| - 1];
      DistinctCard(init, hash);
      var last := ks[|ks| - 1];
      assert last !in init by {
        forall i | 0 <= i < |init| ensures init[i] != last {
          assert hash(ks[i]) < hash(ks[|ks| - 1]);
        }
      }
      assert (set k | k in ks) == (set k | k in init) + {last};
    }
  }

  /** dict_len counts the keys dict_iter yields: the size of the mapping. */
  lemma LenIsSize<V>(hash: Word -> nat, slots: seq<Word>, t: seq<Slot<V>>)
    requires Fits(hash, slots) && WellStored(hash, slots, t)
    ensures |KeysOf(t)| == |ContentsOf(hash, slots, t)|
  {
    var ks := KeysOf(t);
    var m := ContentsOf(hash, slots, t);
    KeysOfIsContents(hash, slots, t);
    DistinctCard(ks, hash);
    assert m.Keys == set k | k in ks;
  }

  /**
    The class create_dict_subclass builds: the hash function and the slot
    keys are fixed; _arr holds the slot contents.
  */
  class SlotDictionary<V> {
    const hash: Word -> nat
    const slots: seq<Word>
    /** _arr: hash_length slots. */
    const arr: array<Slot<V>>

    ghost predicate Valid()
      reads arr
    {
      Fits(hash, slots) && WellStored(hash, slots, arr[..])
    }

    /** The mapping the dictionary holds. */
    ghost function Contents(): map<Word, V>
      reads arr
      requires Valid()
    {
      ContentsOf(hash, slots, arr[..])
    }

    /** init: hash_length empty slots (the initial update is inherited behaviour, not modelled). */
    constructor (hash: Word -> nat, slots: seq<Word>)
      requires Fits(hash, slots)
      ensures Valid() && fresh(arr)
      ensures this.hash == hash && this.slots == slots
      ensures arr.Length == |slots| && forall i :: 0 <= i < arr.Length ==> arr[i].None?
      ensures Contents() == map[]
    {
      this.hash := hash;
      this.slots := slots;
      arr := new Slot<V>[|slots|](_ => None);
      new;
      assert forall k :: k !in ContentsOf(hash, slots, arr[..]);
    }

    /** getitem: the key's value, or KeyError(key). */
    function GetItem(key: Word): (r: Result<V, DictError>)
      reads arr
      requires Valid()
      ensures r == if key in Contents() then Success(Contents()[key]) else Failure(KeyError(key))
    {
      LookupIsContents(hash, slots, arr[..], key);
      var index := IndexOrKeyError(hash, slots, key);
      if index.Failure? then Failure(index.error)
      else if arr[index.value].None? then Failure(KeyError(key))
      else Success(arr[index.value].value.1)
    }

    /** setitem: writes (key, value) into the key's slot, or raises KeyError(key) changing nothing. */
    method SetItem(key: Word, value: V) returns (err: Option<DictError>)
      requires Valid()
      modifies arr
      ensures Valid()
      ensures err.None? <==> Owns(hash, slots, key)
      ensures err.Some? ==> err.value == KeyError(key) && arr[..] == old(arr[..])
      ensures err.None? ==> arr[..] == old(arr[..])[hash(key) := Some((key, value))]
      ensures Contents() == if err.None? then old(Contents())[key := value] else old(Contents())
    {
      var index := IndexOrKeyError(hash, slots, key);
      if index.Failure? {
        return Some(index.error);
      }
      StoreUpdatesContents(hash, slots, arr[..], key, value);
      arr[index.value] := Some((key, value));
      return None;
    }

    /** delitem: empties the key's slot; a key that is not held raises KeyError(key) and changes nothing. */
    method DelItem(key: Word) returns (err: Option<DictError>)
      requires Valid()
      modifies arr
      ensures Valid()
      ensures err.None? <==> key in old(Contents())
      ensures err.Some? ==> err.value == KeyError(key) && arr[..] == old(arr[..])
      ensures err.None? ==> arr[..] == old(arr[..])[hash(key) := None]
      ensures Contents() == old(Contents()) - {key}
    {
      LookupIsContents(hash, slots, arr[..], key);
      var index := IndexOrKeyError(hash, slots, key);
      if index.Failure? {
        return Some(index.error);
      }
      if arr[index.value].None? {
        return Some(KeyError(key));
      }
      EraseUpdatesContents(hash, slots, arr[..], key);
      arr[index.value] := None;
      return None;
    }

    /** dict_iter: every key held, once each, in slot order. */
    function Iter(): (r: seq<Word>)
      reads arr
      requires Valid()
      ensures forall k :: k in r <==> k in Contents()
      ensures forall i, j :: 0 <= i < j < |r| ==> hash(r[i]) < hash(r[j])
    {
      KeysOfIsContents(hash, slots, arr[..]);
      KeysOf(arr[..])
    }

    /** dict_len: sum(1 for _ in self), the number of keys held. */
    function Len(): (r: nat)
      reads arr
      requires Valid()
      ensures r == |Contents()|
    {
      LenIsSize(hash, slots, arr[..]);
      |KeysOf(arr[..])|
    }

    /** The pairs dict_repr prints, in slot order. */
    function Items(): (r: seq<(Word, V)>)
      reads arr
      requires Valid()
      ensures forall i :: 0 <= i < |r| ==> r[i].0 in Contents() && Contents()[r[i].0] == r[i].1
      ensures forall k :: k in Contents() ==> (k, Contents()[k]) in r
      ensures forall i, j :: 0 <= i < j < |r| ==> hash(r[i].0) < hash(r[j].0)
    {
      ItemsAreContents(hash, slots, arr[..]);
      FilledInSlotOrder(hash, slots, arr[..]);
      Filled(arr[..])
    }
  }

  /** The pairs dict_repr lists are exactly the mapping's key-value pairs. */
  lemma ItemsAreContents<V>(hash: Word -> nat, slots: seq<Word>, t: seq<Slot<V>>)
    requires Fits(hash, slots) && WellStored(hash, slots, t)
    ensures forall i :: 0 <= i < |Filled(t)| ==>
      Filled(t)[i].0 in ContentsOf(hash, slots, t) && ContentsOf(hash, slots, t)[Filled(t)[i].0] == Filled(t)[i].1
    ensures forall k :: k in ContentsOf(hash, slots, t) ==> (k, ContentsOf(hash, slots, t)[k]) in Filled(t)
  {
    var m := ContentsOf(hash, slots, t);
    var f := Filled(t);
    forall i | 0 <= i < |f| ensures f[i].0 in m && m[f[i].0] == f[i].1 {
      FilledMembers(t, f[i]);
      var s :| 0 <= s < |t| && t[s] == Some(f[i]);
      assert slots[s] == f[i].0 && hash(f[i].0) == s;
    }
    forall k | k in m ensures (k, m[k]) in f {
      FilledMembers(t, (k, m[k]));
      assert t[hash(k)] == Some((k, m[k]));
    }
  }

  // ---------------------------------------------------------------------------
  // The make_dict doctest: a dictionary over the twelve month names

  /** The Python values the doctest stores: a stored None is a value like any other. */
  datatype PyValue = PyNone | PyInt(i: int) | PyStr(s: string) | PyBool(b: bool)

  function Months(): seq<Word>
  {
    ["jan", "feb", "mar", "apr", "may", "jun", "jul", "aug", "sep", "oct", "nov", "dec"]
  }

  /** An ordered hash of the months, as the Czech hash of the month names is: the i-th month to i. */
  function MonthHash(k: Word): nat
  {
    if k == "jan" then 0 else if k == "feb" then 1 else if k == "mar" then 2 else if k == "apr" then 3
    else if k == "may" then 4 else if k == "jun" then 5 else if k == "jul" then 6 else if k == "aug" then 7
    else if k == "sep" then 8 else if k == "oct" then 9 else if k == "nov" then 10 else if k == "dec" then 11
    else 0
  }

  /** Every key hashes into the twelve slots; each month owns the slot of its own number. */
  lemma MonthHashFits()
    ensures Fits(MonthHash, Months())
    ensures forall i :: 0 <= i < 12 ==> MonthHash(Months()[i]) == i
  {
  }

  /** The slots after the doctest's four assignments, as three runs of four months. */
  function AfterSets(): seq<Slot<PyValue>>
  {
    Quarter(None, Some(("feb", PyNone)), None, None)
    + Quarter(Some(("may", PyStr("hello"))), None, Some(("jul", PyBool(false))), None)
    + Quarter(None, None, None, Some(("dec", PyInt(21))))
  }

  function Quarter(a: Slot<PyValue>, b: Slot<PyValue>, c: Slot<PyValue>, d: Slot<PyValue>): seq<Slot<PyValue>>
  {
    [a, b, c, d]
  }

  function FilledOne(x: Slot<PyValue>): seq<(Word, PyValue)>
  {
    if x.Some? then [x.value] else []
  }

  /** Filled walks the slots left to right: over a concatenation it concatenates. */
  lemma {:induction false} FilledConcat<V>(a: seq<Slot<V>>, b: seq<Slot<V>>)
    ensures Filled(a + b) == Filled(a) + Filled(b)
    decreases |b|
  {
    if b == [] {
      assert a + b == a;
    } else {
      var b' := b[..|b| - 1];
      FilledConcat(a, b');
      assert (a + b)[..|a + b| - 1] == a + b';
    }
  }

  lemma FilledQuarter(a: Slot<PyValue>, b: Slot<PyValue>, c: Slot<PyValue>, d: Slot<PyValue>)
    ensures Filled(Quarter(a, b, c, d)) == FilledOne(a) + FilledOne(b) + FilledOne(c) + FilledOne(d)
  {
    FilledSingle(a); FilledSingle(b); FilledSingle(c); FilledSingle(d);
    FilledConcat([a], [b]);
    FilledConcat([a, b], [c]);
    FilledConcat([a, b, c], [d]);
    assert [a] + [b] == [a, b] && [a, b] + [c] == [a, b, c] && [a, b, c] + [d] == Quarter(a, b, c, d);
  }

  lemma FilledSingle(x: Slot<PyValue>)
    ensures Filled([x]) == FilledOne(x)
  {
    assert [x][..0] == [];
  }

  /** The repr of the doctest's dictionary lists its pairs in month order. */
  lemma AfterSetsFilled()
    ensures Filled(AfterSets()) == [("feb", PyNone), ("may", PyStr("hello")), ("jul", PyBool(false)), ("dec", PyInt(21))]
  {
    var q1 := Quarter(None, Some(("feb", PyNone)), None, None);
    var q2 := Quarter(Some(("may", PyStr("hello"))), None, Some(("jul", PyBool(false))), None);
    var q3 := Quarter(None, None, None, Some(("dec", PyInt(21))));
    FilledConcat(q1 + q2, q3);
    FilledConcat(q1, q2);
    FilledQuarter(None, Some(("feb", PyNone)), None, None);
    FilledQuarter(Some(("may", PyStr("hello"))), None, Some(("jul", PyBool(false))), None);
    FilledQuarter(None, None, None, Some(("dec", PyInt(21))));
  }

  /** After del d['may'], three slots stay filled. */
  lemma AfterDeleteFilled()
    ensures |Filled(AfterSets()[4 := None])| == 3
  {
    var q1 := Quarter(None, Some(("feb", PyNone)), None, None);
    var q2 := Quarter(None, None, Some(("jul", PyBool(false))), None);
    var q3 := Quarter(None, None, None, Some(("dec", PyInt(21))));
    assert AfterSets()[4 := None] == q1 + q2 + q3;
    FilledConcat(q1 + q2, q3);
    FilledConcat(q1, q2);
    FilledQuarter(None, Some(("feb", PyNone)), None, None);
    FilledQuarter(None, None, Some(("jul", PyBool(false))), None);
    FilledQuarter(None, None, None, Some(("dec", PyInt(21))));
  }

  /** The months the doctest touches, with their slots. */
  lemma MonthsUsed()
    ensures MonthHash("feb") == 1 && MonthHash("apr") == 3 && MonthHash("may") == 4
    ensures MonthHash("jul") == 6 && MonthHash("dec") == 11
    ensures Months()[1] == "feb" && Months()[3] == "apr" && Months()[4] == "may"
    ensures Months()[6] == "jul" && Months()[11] == "dec"
  {
  }

  /** Twelve empty slots after the doctest's four assignments. */
  lemma AfterSetsBuilt(t0: seq<Slot<PyValue>>)
    requires |t0| == 12 && forall i :: 0 <= i < 12 ==> t0[i].None?
    ensures t0[11 := Some(("dec", PyInt(21)))][1 := Some(("feb", PyNone))]
              [4 := Some(("may", PyStr("hello")))][6 := Some(("jul", PyBool(false)))] == AfterSets()
  {
  }

  /**
    The doctest of make_dict: d = MyDict(dec=21, feb=None, may='hello');
    d['jul'] = False; the repr lists the pairs in month order; del d['may']
    succeeds, del d['apr'] raises KeyError('apr'), and len(d) is 3.
  */
  method MakeDictExample() returns (shown: seq<(Word, PyValue)>, missing: Option<DictError>, len: nat)
    ensures shown == [("feb", PyNone), ("may", PyStr("hello")), ("jul", PyBool(false)), ("dec", PyInt(21))]
    ensures missing == Some(KeyError("apr"))
    ensures len == 3
  {
    MonthHashFits();
    MonthsUsed();
    var d := new SlotDictionary<PyValue>(MonthHash, Months());
    AfterSetsBuilt(d.arr[..]);
    var e1 := d.SetItem("dec", PyInt(21));
    var e2 := d.SetItem("feb", PyNone);
    var e3 := d.SetItem("may", PyStr("hello"));
    var e4 := d.SetItem("jul", PyBool(false));
    shown := d.Items();
    AfterSetsFilled();
    var e5 := d.DelItem("may");
    ContentsMembership(MonthHash, Months(), d.arr[..], "apr");
    missing := d.DelItem("apr");
    AfterDeleteFilled();
    len := d.Len();
  }
}
