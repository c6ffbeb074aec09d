/**
 The small map of the template dictionaries (base/small_map.h): an array of a few pairs until
 it is full, a real map from then on, and a plain map in what it answers either way.
 */
module SmallMaps {
  import opened Wrappers

  type Pairs<K, V> = seq<(K, V)>

  function ToMap<K, V>(ps: Pairs<K, V>): map<K, V> {
    if ps == [] then map[] else ToMap(ps[..|ps| - 1])[ps[|ps| - 1].0 := ps[|ps| - 1].1]
  }

  function PairsOf<K, V>(slots: seq<Option<(K, V)>>): (ps: Pairs<K, V>)
    requires forall i :: 0 <= i < |slots| ==> slots[i].Some?
    ensures |ps| == |slots| && forall i :: 0 <= i < |ps| ==> ps[i] == slots[i].value
  {
    seq(|slots|, i requires 0 <= i < |slots| => slots[i].value)
  }

  ghost predicate Distinct<K, V>(ps: Pairs<K, V>) {
    forall i, j :: 0 <= i < j < |ps| ==> ps[i].0 != ps[j].0
  }

  ghost predicate HasKey<K, V>(ps: Pairs<K, V>, key: K) {
    exists i :: 0 <= i < |ps| && ps[i].0 == key
  }

  lemma {:induction false} ToMapHas<K, V>(ps: Pairs<K, V>)
    requires Distinct(ps)
    ensures forall i :: 0 <= i < |ps| ==> ps[i].0 in ToMap(ps) && ToMap(ps)[ps[i].0] == ps[i].1
    ensures forall key :: key in ToMap(ps) ==> HasKey(ps, key)
    ensures |ToMap(ps)| == |ps|
  {
    if ps != [] {
      var n := |ps| - 1;
      var rest := ps[..n];
      ToMapHas(rest);
      forall key | key in ToMap(ps) ensures HasKey(ps, key) {
        if key == ps[n].0 {
        } else {
          assert HasKey(rest, key);
          var i :| 0 <= i < |rest| && rest[i].0 == key;
          assert ps[i].0 == key;
        }
      }
      assert !HasKey(rest, ps[n].0);
    }
  }

  /** A map with the pairs, and no key besides, is what they come to. */
  lemma ToMapIs<K, V>(ps: Pairs<K, V>, m: map<K, V>)
    requires Distinct(ps)
    requires forall i :: 0 <= i < |ps| ==> ps[i].0 in m && m[ps[i].0] == ps[i].1
    requires forall key :: key in m ==> HasKey(ps, key)
    ensures m == ToMap(ps)
  {
    ToMapHas(ps);
    forall key ensures key in m <==> key in ToMap(ps) {
      if HasKey(ps, key) {
        var i :| 0 <= i < |ps| && ps[i].0 == key;
      }
    }
    forall key | key in m ensures m[key] == ToMap(ps)[key] {
      var i :| 0 <= i < |ps| && ps[i].0 == key;
    }
  }

  lemma AppendPair<K, V>(ps: Pairs<K, V>, key: K, value: V)
    requires Distinct(ps) && !HasKey(ps, key)
    ensures Distinct(ps + [(key, value)]) && key !in ToMap(ps)
    ensures ToMap(ps + [(key, value)]) == ToMap(ps)[key := value]
  {
    var qs := ps + [(key, value)];
    ToMapHas(ps);
    assert qs[..|ps|] == ps;
    forall i | 0 <= i < |ps| ensures ps[i].0 != key {
      assert HasKey(ps, ps[i].0);
    }
  }

  lemma OverwritePair<K, V>(ps: Pairs<K, V>, i: nat, value: V)
    requires Distinct(ps) && i < |ps|
    ensures var qs := ps[i := (ps[i].0, value)];
      Distinct(qs) && ps[i].0 in ToMap(ps) && ToMap(qs) == ToMap(ps)[ps[i].0 := value]
  {
    var qs := ps[i := (ps[i].0, value)];
    var m := ToMap(ps)[ps[i].0 := value];
    ToMapHas(ps);
    forall key | key in m ensures HasKey(qs, key) {
      if key == ps[i].0 {
        assert qs[i].0 == key;
      } else {
        assert HasKey(ps, key);
        var j :| 0 <= j < |ps| && ps[j].0 == key;
        assert qs[j].0 == key;
      }
    }
    ToMapIs(qs, m);
  }

  /** The last pair takes the place of the one that is erased. */
  function SwapErase<K, V>(ps: Pairs<K, V>, i: nat): Pairs<K, V>
    requires i < |ps|
  {
    ps[i := ps[|ps| - 1]][..|ps| - 1]
  }

  lemma SwapEraseAt<K, V>(ps: Pairs<K, V>, i: nat, j: nat)
    requires i < |ps| && j < |ps| - 1
    ensures SwapErase(ps, i)[j] == ps[if j == i then |ps| - 1 else j]
  {
  }

  lemma SwapEraseDistinct<K, V>(ps: Pairs<K, V>, i: nat)
    requires Distinct(ps) && i < |ps|
    ensures Distinct(SwapErase(ps, i))
    ensures forall j :: 0 <= j < |SwapErase(ps, i)| ==> SwapErase(ps, i)[j].0 != ps[i].0
  {
    var qs := SwapErase(ps, i);
    forall j | 0 <= j < |qs| ensures qs[j] == ps[if j == i then |ps| - 1 else j] {
      SwapEraseAt(ps, i, j);
    }
  }

  lemma SwapEraseKeeps<K, V>(ps: Pairs<K, V>, i: nat, key: K)
    requires i < |ps| && HasKey(ps, key) && key != ps[i].0
    ensures HasKey(SwapErase(ps, i), key)
  {
    var j :| 0 <= j < |ps| && ps[j].0 == key;
    var k := if j == |ps| - 1 then i else j;
    SwapEraseAt(ps, i, k);
    assert SwapErase(ps, i)[k].0 == key;
  }

  lemma ErasePair<K, V>(ps: Pairs<K, V>, i: nat)
    requires Distinct(ps) && i < |ps|
    ensures Distinct(SwapErase(ps, i)) && ps[i].0 in ToMap(ps)
    ensures ToMap(SwapErase(ps, i)) == ToMap(ps) - {ps[i].0}
  {
    hide SwapErase;
    var qs, m := SwapErase(ps, i), ToMap(ps) - {ps[i].0};
    ToMapHas(ps);
    SwapEraseDistinct(ps, i);
    SwapEraseSize(ps, i);
    forall j | 0 <= j < |qs| ensures qs[j].0 in m && m[qs[j].0] == qs[j].1 {
      SwapEraseAt(ps, i, j);
    }
    forall key | key in m ensures HasKey(qs, key) {
      SwapEraseKeeps(ps, i, key);
    }
    ToMapIs(qs, m);
  }

  lemma SwapEraseSize<K, V>(ps: Pairs<K, V>, i: nat)
    requires i < |ps|
    ensures |SwapErase(ps, i)| == |ps| - 1
  {
  }

  /** Where an iterator stands; an index equal to the size is the end, as is MapEnd. */
  datatype Iterator<K> = ArrayIter(i: nat) | MapIter(key: K) | MapEnd

  class SmallMap<K(==), V> {
    /** A slot is empty when nothing has been constructed in it, or it has been destroyed. */
    const slots: array<Option<(K, V)>>
    /** Negative when the real map is used. */
    var size: int
    /** The real map. */
    var full: map<K, V>
    /** The value of a default-constructed entry. */
    const zero: V

    ghost predicate Valid()
      reads this, slots
    {
      && -1 <= size <= slots.Length
      && (forall i :: 0 <= i < slots.Length ==> (slots[i].Some? <==> i < size))
      && (size >= 0 ==> Distinct(Held()))
    }

    /** The pairs in the array. */
    ghost function Held(): Pairs<K, V>
      requires 0 <= size <= slots.Length && forall i :: 0 <= i < size ==> slots[i].Some?
      reads this, slots
    {
      PairsOf(slots[..size])
    }

    /** The map this is. */
    ghost function Map(): map<K, V>
      requires Valid()
      reads this, slots
    {
      if size >= 0 then ToMap(Held()) else full
    }

    constructor (arraySize: nat, zero: V)
      ensures Valid() && Map() == map[] && slots.Length == arraySize && this.zero == zero
      ensures fresh(slots)
    {
      slots := new Option<(K, V)>[arraySize](_ => None);
      size, full := 0, map[];
      this.zero := zero;
    }

    ghost predicate IsEnd(it: Iterator<K>)
      reads this
    {
      if size >= 0 then it == ArrayIter(size) else it == MapEnd
    }

    /** it stands at the entry of the key. */
    ghost predicate At(it: Iterator<K>, key: K)
      requires Valid()
      reads this, slots
    {
      if size >= 0 then it.ArrayIter? && it.i < size && slots[it.i].value.0 == key
      else it == MapIter(key) && key in full
    }

    lemma AtIsInMap(it: Iterator<K>, key: K)
      requires Valid() && At(it, key)
      ensures key in Map()
      ensures size >= 0 ==> Map()[key] == slots[it.i].value.1
    {
      if size >= 0 {
        ToMapHas(Held());
        assert Held()[it.i] == slots[it.i].value;
      }
    }

    lemma NotHeld(key: K)
      requires Valid() && size >= 0 && forall j :: 0 <= j < size ==> slots[j].value.0 != key
      ensures !HasKey(Held(), key) && key !in Map()
    {
      ToMapHas(Held());
    }

    method Find(key: K) returns (it: Iterator<K>)
      requires Valid()
      ensures if key in Map() then At(it, key) else IsEnd(it)
    {
      if size >= 0 {
        var i: nat := 0;
        while i < size
          invariant 0 <= i <= size
          invariant forall j :: 0 <= j < i ==> slots[j].value.0 != key
        {
          if slots[i].value.0 == key {
            AtIsInMap(ArrayIter(i), key);
            return ArrayIter(i);
          }
          i := i + 1;
        }
        NotHeld(key);
        return ArrayIter(i);
      } else {
        it := if key in full then MapIter(key) else MapEnd;
      }
    }

    /** The value an iterator stands at. */
    method Deref(it: Iterator<K>, ghost key: K) returns (value: V)
      requires Valid() && At(it, key)
      ensures key in Map() && value == Map()[key]
    {
      AtIsInMap(it, key);
      value := if size >= 0 then slots[it.i].value.1 else full[it.key];
    }

    /** Assignment through an iterator or a reference. */
    method Assign(it: Iterator<K>, ghost key: K, value: V)
      requires Valid() && At(it, key)
      modifies this`full, slots
      ensures Valid() && size == old(size) && Map() == old(Map())[key := value] && At(it, key)
    {
      if size >= 0 {
        OverwritePair(Held(), it.i, value);
        ghost var qs := Held()[it.i := (key, value)];
        slots[it.i] := Some((slots[it.i].value.0, value));
        assert Held() == qs;
      } else {
        full := full[it.key := value];
      }
    }

    /** The array is full: its pairs move to a real map. */
    method ConvertToRealMap()
      requires Valid() && size == slots.Length
      modifies this`size, this`full, slots
      ensures Valid() && size == -1 && Map() == old(Map())
    {
      var temp := new Option<(K, V)>[slots.Length](_ => None);
      ghost var ps := Held();
      var i := 0;
      while i < slots.Length
        invariant 0 <= i <= slots.Length
        invariant forall j :: 0 <= j < i ==> temp[j] == Some(ps[j]) && slots[j] == None
        invariant forall j :: i <= j < slots.Length ==> slots[j] == Some(ps[j])
      {
        temp[i] := Some(slots[i].value);
        slots[i] := None;
        i := i + 1;
      }
      size, full := -1, map[];
      i := 0;
      while i < temp.Length
        invariant 0 <= i <= temp.Length && full == ToMap(ps[..i]) && size == -1
        invariant forall j :: 0 <= j < slots.Length ==> slots[j] == None
        invariant forall j :: i <= j < temp.Length ==> temp[j] == Some(ps[j])
      {
        var pair := temp[i].value;
        AppendNext(ps, i);
        full := if pair.0 in full then full else full[pair.0 := pair.1];
        temp[i] := None;
        i := i + 1;
      }
      assert ps[..|ps|] == ps;
    }

    static lemma AppendNext(ps: Pairs<K, V>, i: nat)
      requires Distinct(ps) && i < |ps|
      ensures ps[i].0 !in ToMap(ps[..i]) && ToMap(ps[..i + 1]) == ToMap(ps[..i])[ps[i].0 := ps[i].1]
    {
      assert ps[..i + 1] == ps[..i] + [(ps[i].0, ps[i].1)];
      AppendPair(ps[..i], ps[i].0, ps[i].1);
    }

    /** A pair in the first empty slot. */
    method Append(key: K, value: V)
      requires Valid() && 0 <= size < slots.Length && !HasKey(Held(), key)
      modifies this`size, slots
      ensures Valid() && size == old(size) + 1 && Map() == old(Map())[key := value] && At(ArrayIter(old(size)), key)
    {
      AppendPair(Held(), key, value);
      ghost var qs := Held() + [(key, value)];
      slots[size] := Some((key, value));
      size := size + 1;
      assert Held() == qs;
    }

    /** operator[]: the entry of the key, made with the default value if there is none. */
    method Reference(key: K) returns (it: Iterator<K>)
      requires Valid()
      modifies this`size, this`full, slots
      ensures Valid() && At(it, key)
      ensures Map() == if key in old(Map()) then old(Map()) else old(Map())[key := zero]
    {
      if size >= 0 {
        var i := size - 1;
        while i >= 0
          invariant -1 <= i < size
          invariant forall j :: i < j < size ==> slots[j].value.0 != key
        {
          if slots[i].value.0 == key {
            AtIsInMap(ArrayIter(i), key);
            return ArrayIter(i);
          }
          i := i - 1;
        }
        NotHeld(key);
        if size == slots.Length {
          ConvertToRealMap();
        } else {
          it := ArrayIter(size);
          Append(key, zero);
          return;
        }
      }
      if key !in full {
        full := full[key := zero];
      }
      it := MapIter(key);
    }

    /** insert: an entry that is there already is left alone. */
    method Insert(key: K, value: V) returns (it: Iterator<K>, inserted: bool)
      requires Valid()
      modifies this`size, this`full, slots
      ensures Valid() && At(it, key) && inserted == (key !in old(Map()))
      ensures Map() == if key in old(Map()) then old(Map()) else old(Map())[key := value]
    {
      if size >= 0 {
        var i: nat := 0;
        while i < size
          invariant 0 <= i <= size
          invariant forall j :: 0 <= j < i ==> slots[j].value.0 != key
        {
          if slots[i].value.0 == key {
            AtIsInMap(ArrayIter(i), key);
            return ArrayIter(i), false;
          }
          i := i + 1;
        }
        NotHeld(key);
        if size == slots.Length {
          ConvertToRealMap();
        } else {
          it := ArrayIter(size);
          Append(key, value);
          return it, true;
        }
      }
      inserted := key !in full;
      if inserted {
        full := full[key := value];
      }
      it := MapIter(key);
    }

    method EraseAt(it: Iterator<K>, ghost key: K)
      requires Valid() && At(it, key)
      modifies this`size, this`full, slots
      ensures Valid() && Map() == old(Map()) - {key}
    {
      if size >= 0 {
        ErasePair(Held(), it.i);
        ghost var qs := SwapErase(Held(), it.i);
        slots[it.i] := None;
        size := size - 1;
        if it.i != size {
          slots[it.i] := Some(slots[size].value);
          slots[size] := None;
        }
        assert Held() == qs;
      } else {
        full := full - {it.key};
      }
    }

    method Erase(key: K) returns (count: nat)
      requires Valid()
      modifies this`size, this`full, slots
      ensures Valid() && Map() == old(Map()) - {key} && count == if key in old(Map()) then 1 else 0
    {
      var it := Find(key);
      if it == (if size >= 0 then ArrayIter(size) else MapEnd) {
        return 0;
      }
      EraseAt(it, key);
      count := 1;
    }

    method Clear()
      requires Valid()
      modifies this`size, this`full, slots
      ensures Valid() && Map() == map[] && size == 0
    {
      var i := 0;
      while i < size
        invariant 0 <= i && size == old(size) && (size >= 0 ==> i <= size)
        invariant forall j :: 0 <= j < slots.Length ==> (slots[j].Some? <==> i <= j < size)
      {
        slots[i] := None;
        i := i + 1;
      }
      full := map[];
      size := 0;
    }

    method Count() returns (n: nat)
      requires Valid()
      ensures n == |Map()|
    {
      if size >= 0 {
        ToMapHas(Held());
      }
      n := if size >= 0 then size else |full|;
    }

    /** Assignment, from itself as well: the old entries are destroyed, then InitFrom. */
    method CopyFrom(src: SmallMap<K, V>)
      requires Valid() && src.Valid() && (src == this || (src.slots != slots && src.slots.Length == slots.Length))
      modifies this`size, this`full, slots
      ensures Valid() && Map() == old(src.Map()) && src.Valid() && src.Map() == old(src.Map())
    {
      if src == this {
        return;
      }
      Clear();
      size := src.size;
      if src.size >= 0 {
        var i := 0;
        while i < size
          invariant 0 <= i <= size == src.size && src.Valid() && src.Held() == old(src.Held())
          invariant forall j :: 0 <= j < i ==> slots[j] == src.slots[j]
          invariant forall j :: i <= j < slots.Length ==> slots[j] == None
        {
          slots[i] := Some(src.slots[i].value);
          i := i + 1;
        }
        assert Held() == src.Held();
      } else {
        full := src.full;
      }
    }

    /** m[key] = value, as DoHashInsert does it for most values. */
    method HashAssign(key: K, value: V)
      requires Valid()
      modifies this`size, this`full, slots
      ensures Valid() && Map() == old(Map())[key := value]
    {
      var it := Reference(key);
      Assign(it, key, value);
    }

    /** DoHashInsert for strings: insert, and overwrite what was there already. */
    method HashInsert(key: K, value: V)
      requires Valid()
      modifies this`size, this`full, slots
      ensures Valid() && Map() == old(Map())[key := value]
    {
      var it, inserted := Insert(key, value);
      if !inserted {
        Assign(it, key, value);
      }
    }
  }

  // ----- any run of calls -----

  datatype Call<K, V> =
    | Find(key: K)
    | Assign(key: K, value: V)
    | Insert(key: K, value: V)
    | Overwrite(key: K, value: V)
    | Touch(key: K)
    | Erase(key: K)
    | Clear

  /** What a call on a plain map answers, and the map after it. */
  function OnMap<K, V>(m: map<K, V>, c: Call<K, V>, zero: V): (map<K, V>, Option<V>) {
    match c
    case Find(key) => (m, if key in m then Some(m[key]) else None)
    case Assign(key, value) => (m[key := value], Some(value))
    case Insert(key, value) => if key in m then (m, Some(m[key])) else (m[key := value], Some(value))
    case Overwrite(key, value) => (m[key := value], Some(value))
    case Touch(key) => if key in m then (m, Some(m[key])) else (m[key := zero], Some(zero))
    case Erase(key) => (m - {key}, if key in m then Some(m[key]) else None)
    case Clear => (map[], None)
  }

  /** A call on one of two maps, or the assignment of one of them to one of them. */
  datatype Step<K, V> = On(second: bool, call: Call<K, V>) | Copy(to: bool, from: bool)

  /** Two plain maps after a step, and the answer to a call. */
  datatype Two<K, V> = Two(first: map<K, V>, second: map<K, V>) {
    function Get(second: bool): map<K, V> { if second then this.second else first }

    function Set(second: bool, m: map<K, V>): Two<K, V> {
      if second then this.(second := m) else this.(first := m)
    }
  }

  function OnMaps<K, V>(ms: Two<K, V>, s: Step<K, V>, zero: V): (Two<K, V>, Option<V>) {
    match s
    case On(second, c) =>
      var after := OnMap(ms.Get(second), c, zero);
      (ms.Set(second, after.0), after.1)
    case Copy(to, from) => (ms.Set(to, ms.Get(from)), None)
  }

  function OnMapsAll<K, V>(ms: Two<K, V>, steps: seq<Step<K, V>>, zero: V): (Two<K, V>, seq<Option<V>>)
    decreases steps
  {
    if steps == [] then (ms, [])
    else
      var first := OnMaps(ms, steps[0], zero);
      var rest := OnMapsAll(first.0, steps[1..], zero);
      (rest.0, [first.1] + rest.1)
  }

  /** The entry of a key, if there is one. */
  method Lookup<K(==), V>(m: SmallMap<K, V>, key: K) returns (r: Option<V>)
    requires m.Valid()
    ensures r == if key in m.Map() then Some(m.Map()[key]) else None
  {
    var it := m.Find(key);
    if it == (if m.size >= 0 then ArrayIter(m.size) else MapEnd) {
      return None;
    }
    var value := m.Deref(it, key);
    r := Some(value);
  }

  method Make<K(==), V>(m: SmallMap<K, V>, c: Call<K, V>) returns (r: Option<V>)
    requires m.Valid()
    modifies m`size, m`full, m.slots
    ensures m.Valid() && (m.Map(), r) == OnMap(old(m.Map()), c, m.zero)
  {
    match c {
      case Find(key) =>
        r := Lookup(m, key);
      case Assign(key, value) =>
        m.HashAssign(key, value);
        r := Some(value);
      case Insert(key, value) =>
        var it, inserted := m.Insert(key, value);
        var v := m.Deref(it, key);
        r := Some(v);
      case Overwrite(key, value) =>
        m.HashInsert(key, value);
        r := Some(value);
      case Touch(key) =>
        var it := m.Reference(key);
        var v := m.Deref(it, key);
        r := Some(v);
      case Erase(key) =>
        r := Lookup(m, key);
        var count := m.Erase(key);
      case Clear =>
        m.Clear();
        r := None;
    }
  }

  lemma {:induction false} OnMapsAllAppend<K, V>(ms: Two<K, V>, steps: seq<Step<K, V>>, s: Step<K, V>, zero: V)
    ensures var before := OnMapsAll(ms, steps, zero);
      var last := OnMaps(before.0, s, zero);
      OnMapsAll(ms, steps + [s], zero) == (last.0, before.1 + [last.1])
    decreases steps
  {
    hide OnMaps;
    if steps == [] {
      assert steps + [s] == [s] && [s][1..] == [];
      var only := OnMaps(ms, s, zero).1;
      assert [only] + [] == [] + [only];
    } else {
      var first := OnMaps(ms, steps[0], zero);
      OnMapsAllAppend(first.0, steps[1..], s, zero);
      assert (steps + [s])[1..] == steps[1..] + [s] && (steps + [s])[0] == steps[0];
      var rest := OnMapsAll(first.0, steps[1..], zero);
      var last := OnMaps(rest.0, s, zero);
      assert [first.1] + (rest.1 + [last.1]) == [first.1] + rest.1 + [last.1];
    }
  }

  /** Two small maps that share nothing. */
  ghost predicate Separate<K, V>(m: SmallMap<K, V>, n: SmallMap<K, V>)
    reads m, n
  {
    m != n && m.slots != n.slots && m.slots.Length == n.slots.Length && m.zero == n.zero
  }

  method Take<K(==), V>(m: SmallMap<K, V>, n: SmallMap<K, V>, s: Step<K, V>) returns (r: Option<V>)
    requires m.Valid() && n.Valid() && Separate(m, n)
    modifies m`size, m`full, m.slots, n`size, n`full, n.slots
    ensures m.Valid() && n.Valid() && (Two(m.Map(), n.Map()), r) == OnMaps(old(Two(m.Map(), n.Map())), s, m.zero)
  {
    hide OnMap;
    match s {
      case On(second, c) =>
        if second {
          r := Make(n, c);
        } else {
          r := Make(m, c);
        }
      case Copy(to, from) =>
        r := None;
        if to != from {
          if to {
            n.CopyFrom(m);
          } else {
            m.CopyFrom(n);
          }
        } else if to {
          n.CopyFrom(n);
        } else {
          m.CopyFrom(m);
        }
    }
  }

  /** Through every run of calls and copies, two small maps of any array size answer as plain maps do. */
  method TakeAll<K(==), V>(arraySize: nat, zero: V, steps: seq<Step<K, V>>)
    returns (m: SmallMap<K, V>, n: SmallMap<K, V>, rs: seq<Option<V>>)
    ensures m.Valid() && n.Valid() && (Two(m.Map(), n.Map()), rs) == OnMapsAll(Two(map[], map[]), steps, zero)
  {
    m := new SmallMap<K, V>(arraySize, zero);
    n := new SmallMap<K, V>(arraySize, zero);
    rs := [];
    for i := 0 to |steps|
      invariant m.Valid() && n.Valid() && Separate(m, n) && m.zero == zero
      invariant fresh(m) && fresh(m.slots) && fresh(n) && fresh(n.slots)
      invariant (Two(m.Map(), n.Map()), rs) == OnMapsAll(Two(map[], map[]), steps[..i], zero)
    {
      var r := Take(m, n, steps[i]);
      OnMapsAllAppend(Two(map[], map[]), steps[..i], steps[i], zero);
      assert steps[..i] + [steps[i]] == steps[..i + 1];
      rs := rs + [r];
    }
    assert steps[..|steps|] == steps;
  }
}
