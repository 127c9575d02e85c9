/** The open-addressing hash table: linear probing agrees with a map, and every probe ends. */
module HashTables {
  import opened Arithmetic
  import opened Masks

  // ----- probing, on the sequence of keys; 0 marks an empty slot -----

  /** The k-th slot looked at, starting from home. */
  function Slot(home: nat, k: nat, c: nat): (i: nat)
    requires home < c && k < c
    ensures i < c
  {
    if home + k < c then home + k else home + k - c
  }

  /** How many steps from home to slot i. */
  function Dist(home: nat, i: nat, c: nat): (k: nat)
    requires home < c && i < c
    ensures k < c && Slot(home, k, c) == i
  {
    if home <= i then i - home else i + c - home
  }

  lemma DistSlot(home: nat, k: nat, c: nat)
    requires home < c && k < c
    ensures Dist(home, Slot(home, k, c), c) == k
  {
  }

  /** An index under the mask of the capacity. */
  function Masked(i: nat, c: nat): (r: nat)
    requires c > 0
    ensures r < c
  {
    And(i, c - 1)
  }

  /** The masked next index goes round the whole table, as the capacity is a power of two. */
  lemma NextSlot(home: nat, k: nat, c: nat)
    requires home < c && k + 1 < c && IsPower(c)
    ensures Masked(Slot(home, k, c) + 1, c) == Slot(home, k + 1, c)
  {
    var i := Slot(home, k, c);
    MaskExactly(c);
    assert And(i + 1, c - 1) == (i + 1) % c;
    if i + 1 < c {
      Remainder(i + 1, c, 0, i + 1);
    } else {
      Remainder(i + 1, c, 1, 0);
    }
  }

  /** Where the search for a key begins: the shifted key in 32 bits, under the mask. */
  function Home(key: nat, shift: nat, c: nat): (h: nat)
    requires c > 0
    ensures h < c
  {
    Masked(key / Pow2(shift) % 0x1_0000_0000, c)
  }

  /** The number of slots in use. */
  function Used(keys: seq<nat>): (n: nat)
    ensures n <= |keys|
  {
    if keys == [] then 0 else Used(keys[..|keys| - 1]) + (if keys[|keys| - 1] != 0 then 1 else 0)
  }

  /** All slots looked at before the k-th are taken by other keys. */
  ghost predicate Passed(keys: seq<nat>, home: nat, k: nat)
    requires home < |keys| && k <= |keys|
  {
    forall j: nat {:trigger Slot(home, j, |keys|)} :: j < k ==> keys[Slot(home, j, |keys|)] != 0
  }

  /** Keys are unique, and nothing empty lies between a key's home and its slot. */
  ghost predicate Probing(keys: seq<nat>, shift: nat) {
    && (forall i, j {:trigger keys[i], keys[j]} :: 0 <= i < j < |keys| && keys[i] != 0 ==> keys[i] != keys[j])
    && (forall i {:trigger keys[i]} :: 0 <= i < |keys| && keys[i] != 0 ==>
          var home := Home(keys[i], shift, |keys|); Passed(keys, home, Dist(home, i, |keys|)))
  }

  ghost predicate Represents<V>(keys: seq<nat>, vals: seq<V>, contents: map<nat, V>) {
    && |vals| == |keys|
    && (forall k :: k in contents <==> k != 0 && k in keys)
    && (forall i {:trigger keys[i]} ::
          0 <= i < |keys| && keys[i] != 0 ==> keys[i] in contents && contents[keys[i]] == vals[i])
  }

  lemma {:induction false} UsedAll(keys: seq<nat>)
    requires 0 !in keys
    ensures Used(keys) == |keys|
    decreases |keys|
  {
    if keys != [] {
      UsedAll(keys[..|keys| - 1]);
    }
  }

  lemma {:induction false} UsedUpdate(keys: seq<nat>, i: nat, key: nat)
    requires i < |keys| && keys[i] == 0 && key != 0
    ensures Used(keys[i := key]) == Used(keys) + 1
    decreases |keys|
  {
    var rest := keys[..|keys| - 1];
    if i < |rest| {
      assert keys[i := key][..|keys| - 1] == rest[i := key];
      UsedUpdate(rest, i, key);
    } else {
      assert keys[i := key][..|keys| - 1] == rest;
    }
  }

  lemma {:induction false} UsedNone(keys: seq<nat>)
    requires forall i :: 0 <= i < |keys| ==> keys[i] == 0
    ensures Used(keys) == 0
    decreases |keys|
  {
    if keys != [] {
      UsedNone(keys[..|keys| - 1]);
    }
  }

  /** A table with room left has an empty slot on every probe path. */
  lemma EmptyAhead(keys: seq<nat>, home: nat) returns (k: nat)
    requires home < |keys| && Used(keys) < |keys|
    ensures k < |keys| && keys[Slot(home, k, |keys|)] == 0
  {
    if 0 !in keys {
      UsedAll(keys);
    }
    var i :| 0 <= i < |keys| && keys[i] == 0;
    k := Dist(home, i, |keys|);
  }

  /** A search for a key ends if the key is there or a slot is empty. */
  lemma StopAhead(keys: seq<nat>, home: nat, key: nat) returns (k: nat)
    requires home < |keys| && (key in keys || Used(keys) < |keys|)
    ensures k < |keys| && (keys[Slot(home, k, |keys|)] == key || keys[Slot(home, k, |keys|)] == 0)
  {
    if key in keys {
      var i :| 0 <= i < |keys| && keys[i] == key;
      k := Dist(home, i, |keys|);
    } else {
      k := EmptyAhead(keys, home);
    }
  }

  /** A search that has passed k slots and stands on an empty one: the key is not in the table. */
  lemma Absent(keys: seq<nat>, shift: nat, key: nat, k: nat)
    requires Probing(keys, shift) && key != 0 && k < |keys|
    requires var home := Home(key, shift, |keys|);
             && keys[Slot(home, k, |keys|)] == 0
             && forall j: nat {:trigger Slot(home, j, |keys|)} :: j < k ==> keys[Slot(home, j, |keys|)] != key
    ensures key !in keys
  {
    hide Probing, Home;
    forall i | 0 <= i < |keys|
      ensures keys[i] != key
    {
      if keys[i] == key {
        PathTaken(keys, shift, i);
      }
    }
  }

  lemma PathTaken(keys: seq<nat>, shift: nat, i: nat)
    requires Probing(keys, shift) && i < |keys| && keys[i] != 0
    ensures var home := Home(keys[i], shift, |keys|); Passed(keys, home, Dist(home, i, |keys|))
  {
  }

  /** Putting a new key where its search ended keeps the table searchable. */
  lemma InsertProbing(keys: seq<nat>, shift: nat, key: nat, k: nat)
    requires Probing(keys, shift) && key != 0 && key !in keys && k < |keys|
    requires var home := Home(key, shift, |keys|); keys[Slot(home, k, |keys|)] == 0 && Passed(keys, home, k)
    ensures Probing(keys[Slot(Home(key, shift, |keys|), k, |keys|) := key], shift)
  {
    hide Home;
    var home := Home(key, shift, |keys|);
    var at := Slot(home, k, |keys|);
    var keys' := keys[at := key];
    forall i | 0 <= i < |keys| && keys'[i] != 0
      ensures var h := Home(keys'[i], shift, |keys|); Passed(keys', h, Dist(h, i, |keys|))
    {
      if i == at {
        DistSlot(home, k, |keys|);
        assert Passed(keys', home, k);
      } else {
        var h := Home(keys[i], shift, |keys|);
        assert Passed(keys, h, Dist(h, i, |keys|));
      }
    }
  }

  // ----- when a table keeps room -----

  /** How many elements may be stored before the next put enlarges the table. */
  function Threshold(c: nat, factor: real): (t: nat)
    requires factor >= 0.0
  {
    (c as real * factor).Floor
  }

  /** The last put before enlarging leaves a slot empty. */
  predicate Roomy(c: nat, factor: real)
    requires factor >= 0.0
  {
    Threshold(c, factor) + 1 < c
  }

  lemma RoomyLeft(c: nat, factor: real, n: nat)
    requires factor >= 0.0 && Roomy(c, factor) && n <= Threshold(c, factor)
    ensures n + 1 < c
  {
  }

  lemma RoomyDoubles(c: nat, factor: real)
    requires factor >= 0.0 && Roomy(c, factor)
    ensures Roomy(2 * c, factor)
  {
    var x := c as real * factor;
    assert (2 * c) as real * factor == x + x;
    assert x < (c - 1) as real;
  }

  /** With the usual load factor of one half, that is every capacity from 3 on; 1 and 2 fill up. */
  lemma HalfRoomy(c: nat)
    ensures Roomy(c, 0.5) <==> c >= 3
  {
    assert c as real * 0.5 == c as real / 2.0;
    if c % 2 == 0 {
      assert c as real / 2.0 == (c / 2) as real;
    } else {
      assert c as real / 2.0 == (c / 2) as real + 0.5;
    }
  }

  // ----- and when it does not -----

  /** Putting distinct new keys, one after the other, with no enlarging in between. */
  ghost predicate IsFilling(tables: seq<seq<nat>>, c: nat, factor: real, shift: nat)
    requires factor >= 0.0
  {
    && IsPower(c) && tables != [] && |tables[0]| == c && (forall i :: 0 <= i < c ==> tables[0][i] == 0)
    && forall n {:trigger tables[n]} :: 0 < n < |tables| ==> PutNew(tables[n - 1], tables[n], factor, shift)
  }

  /** One put of a key that is not there, when the table is not to be enlarged. */
  ghost predicate PutNew(keys: seq<nat>, keys': seq<nat>, factor: real, shift: nat)
    requires factor >= 0.0
  {
    && Used(keys) <= Threshold(|keys|, factor)
    && exists key: nat, k: nat {:trigger Slot(Home(key, shift, |keys|), k, |keys|)} ::
         && key != 0 && key !in keys && k < |keys|
         && keys[Slot(Home(key, shift, |keys|), k, |keys|)] == 0 && Passed(keys, Home(key, shift, |keys|), k)
         && keys' == keys[Slot(Home(key, shift, |keys|), k, |keys|) := key]
  }

  /** The first empty slot from a home. */
  lemma {:induction false} FirstFree(keys: seq<nat>, home: nat, from: nat) returns (k: nat)
    requires home < |keys| && Used(keys) < |keys| && from < |keys| && Passed(keys, home, from)
    ensures k < |keys| && keys[Slot(home, k, |keys|)] == 0 && Passed(keys, home, k)
    decreases |keys| - from
  {
    if keys[Slot(home, from, |keys|)] == 0 {
      k := from;
    } else {
      var e := EmptyAhead(keys, home);
      assert e > from;
      k := FirstFree(keys, home, from + 1);
    }
  }

  lemma {:induction false} UnusedKey(keys: seq<nat>) returns (key: nat)
    ensures key != 0 && forall i :: 0 <= i < |keys| ==> keys[i] < key
    decreases |keys|
  {
    if keys == [] {
      key := 1;
    } else {
      var k := UnusedKey(keys[..|keys| - 1]);
      key := k + keys[|keys| - 1] + 1;
    }
  }

  lemma {:induction false} Fill(c: nat, factor: real, shift: nat, n: nat) returns (tables: seq<seq<nat>>)
    requires factor >= 0.0 && IsPower(c) && n <= c && n <= Threshold(c, factor) + 1
    ensures IsFilling(tables, c, factor, shift) && |tables| == n + 1 && |tables[n]| == c && Used(tables[n]) == n
  {
    hide Home;
    if n == 0 {
      tables := [seq(c, _ => 0)];
      UsedNone(tables[0]);
    } else {
      tables := Fill(c, factor, shift, n - 1);
      var keys := tables[n - 1];
      var key := UnusedKey(keys);
      var k := FirstFree(keys, Home(key, shift, c), 0);
      var at := Slot(Home(key, shift, c), k, c);
      UsedUpdate(keys, at, key);
      assert PutNew(keys, keys[at := key], factor, shift);
      tables := tables + [keys[at := key]];
    }
  }

  lemma {:induction false} UsedFull(keys: seq<nat>)
    requires Used(keys) == |keys|
    ensures 0 !in keys
    decreases |keys|
  {
    if keys != [] {
      UsedFull(keys[..|keys| - 1]);
      assert keys == keys[..|keys| - 1] + [keys[|keys| - 1]];
    }
  }

  /** A table without that room can be filled by puts, and then the search for another key never ends. */
  lemma CanFillUp(c: nat, factor: real, shift: nat) returns (tables: seq<seq<nat>>, key: nat)
    requires factor >= 0.0 && IsPower(c) && !Roomy(c, factor)
    ensures IsFilling(tables, c, factor, shift) && |tables| == c + 1 && |tables[c]| == c && key != 0
    ensures forall k: nat {:trigger Slot(Home(key, shift, c), k, c)} :: k < c ==>
              var i := Slot(Home(key, shift, c), k, c); tables[c][i] != 0 && tables[c][i] != key
  {
    hide Home;
    tables := Fill(c, factor, shift, c);
    UsedFull(tables[c]);
    key := UnusedKey(tables[c]);
    forall i | 0 <= i < c
      ensures tables[c][i] != 0 && tables[c][i] != key
    {
      assert tables[c][i] in tables[c];
    }
  }

  /** A table with room never fills: when a put may go ahead without enlarging, a slot stays empty. */
  lemma {:induction false} NeverFull(tables: seq<seq<nat>>, c: nat, factor: real, shift: nat, n: nat)
    requires factor >= 0.0 && Roomy(c, factor) && IsFilling(tables, c, factor, shift) && n < |tables|
    ensures |tables[n]| == c && Used(tables[n]) == n < c
  {
    hide Home, Slot;
    if n == 0 {
      UsedNone(tables[0]);
    } else {
      NeverFull(tables, c, factor, shift, n - 1);
      var keys := tables[n - 1];
      assert PutNew(keys, tables[n], factor, shift);
      var key: nat, k: nat :| key != 0 && key !in keys && k < |keys|
        && keys[Slot(Home(key, shift, |keys|), k, |keys|)] == 0
        && tables[n] == keys[Slot(Home(key, shift, |keys|), k, |keys|) := key];
      UsedUpdate(keys, Slot(Home(key, shift, |keys|), k, |keys|), key);
    }
  }

  /** A slot: a key and its value. */
  datatype Bin<V> = Bin(key: nat, val: V)

  function KeysOf<V>(t: seq<Bin<V>>): (r: seq<nat>)
    ensures |r| == |t| && forall i :: 0 <= i < |t| ==> r[i] == t[i].key
  {
    seq(|t|, i requires 0 <= i < |t| => t[i].key)
  }

  function ValsOf<V>(t: seq<Bin<V>>): (r: seq<V>)
    ensures |r| == |t| && forall i :: 0 <= i < |t| ==> r[i] == t[i].val
  {
    seq(|t|, i requires 0 <= i < |t| => t[i].val)
  }

  ghost predicate Holds<V>(t: seq<Bin<V>>, contents: map<nat, V>) {
    Represents(KeysOf(t), ValsOf(t), contents)
  }

  class HashTable<V(0)> {
    const shift: nat
    const factor: real
    /** What a search for an absent key gives. */
    const zero: V
    var table: array<Bin<V>>
    var size: nat
    ghost var contents: map<nat, V>

    ghost predicate Valid()
      reads this, table
    {
      && factor >= 0.0 && IsPower(table.Length) && table.Length > 0
      && Probing(KeysOf(table[..]), shift) && Holds(table[..], contents)
      && size == Used(KeysOf(table[..]))
    }

    /** A slot is empty, and will be after every put. */
    ghost predicate Safe()
      reads this, table
    {
      factor >= 0.0 && Roomy(table.Length, factor) && size < table.Length
    }

    constructor (capacity: nat, factor: real, shift: nat, zero: V)
      requires factor >= 0.0 && IsPower(capacity)
      ensures Valid() && contents == map[] && fresh(table) && this.zero == zero && this.factor == factor
      ensures size < table.Length == capacity && (Safe() <==> Roomy(capacity, factor))
    {
      this.shift, this.factor, this.zero := shift, factor, zero;
      table := new Bin<V>[capacity](_ => Bin(0, zero));
      size, contents := 0, map[];
      new;
      EmptyTable(table[..], shift);
    }

    /** Forgets everything; the capacity stays. */
    method Reset()
      requires Valid()
      modifies this`size, this`contents, table
      ensures Valid() && contents == map[] && size < table.Length
    {
      for i := 0 to table.Length
        invariant forall j :: 0 <= j < i ==> table[j].key == 0
      {
        table[i] := Bin(0, zero);
      }
      size, contents := 0, map[];
      EmptyTable(table[..], shift);
    }

    /** Probes for a key: stops on it or on an empty slot, one of which there has to be. */
    method Search(key: nat) returns (i: nat, found: bool, ghost k: nat)
      requires Valid() && key != 0 && (key in contents || size < table.Length)
      ensures i < table.Length && found == (table[i].key == key) && (found || table[i].key == 0)
      ensures found <==> key in contents
      ensures k < table.Length && i == Slot(Home(key, shift, table.Length), k, table.Length)
      ensures Passed(KeysOf(table[..]), Home(key, shift, table.Length), k)
    {
      hide Home, Masked, IsPower, Probing, Used, Represents, Slot;
      ghost var home, keys := Home(key, shift, table.Length), KeysOf(table[..]);
      NotIn(keys, ValsOf(table[..]), contents, key);
      ghost var end := StopAhead(keys, home, key);
      i, k := Home(key, shift, table.Length), 0;
      SlotZero(home, table.Length);
      while table[i].key != key && table[i].key != 0
        invariant k <= end < table.Length && i == Slot(home, k, table.Length)
        invariant forall j: nat {:trigger Slot(home, j, |keys|)} ::
                    j < k ==> keys[Slot(home, j, |keys|)] != key && keys[Slot(home, j, |keys|)] != 0
        decreases end - k
      {
        NextSlot(home, k, table.Length);
        i := Masked(i + 1, table.Length);
        k := k + 1;
      }
      found := table[i].key == key;
      if found {
        assert keys[i] in keys;
        Stored(keys, ValsOf(table[..]), contents, i);
      } else {
        Absent(keys, shift, key, k);
        NotIn(keys, ValsOf(table[..]), contents, key);
      }
    }

    method Get(key: nat) returns (v: V)
      requires Valid() && key != 0 && (key in contents || size < table.Length)
      ensures v == if key in contents then contents[key] else zero
    {
      hide Probing, Used, Represents, IsPower;
      var i, found, _ := Search(key);
      if found {
        Stored(KeysOf(table[..]), ValsOf(table[..]), contents, i);
        return table[i].val;
      }
      return zero;
    }

    method Contains(key: nat) returns (r: bool)
      requires Valid() && key != 0 && (key in contents || size < table.Length)
      ensures r <==> key in contents
    {
      var _, found, _ := Search(key);
      return found;
    }

    /** Walks from a key's home to the first empty slot. */
    method FirstEmpty(key: nat) returns (i: nat, ghost k: nat)
      requires Used(KeysOf(table[..])) < table.Length && IsPower(table.Length)
      ensures k < table.Length && i == Slot(Home(key, shift, table.Length), k, table.Length) && table[i].key == 0
      ensures Passed(KeysOf(table[..]), Home(key, shift, table.Length), k)
    {
      hide Home, Masked, IsPower, Used, Slot;
      ghost var home, keys := Home(key, shift, table.Length), KeysOf(table[..]);
      ghost var end := EmptyAhead(keys, home);
      i, k := Home(key, shift, table.Length), 0;
      SlotZero(home, table.Length);
      while table[i].key != 0
        invariant k <= end < table.Length && i == Slot(home, k, table.Length)
        invariant forall j: nat {:trigger Slot(home, j, |keys|)} :: j < k ==> keys[Slot(home, j, |keys|)] != 0
        decreases end - k
      {
        NextSlot(home, k, table.Length);
        i := Masked(i + 1, table.Length);
        k := k + 1;
      }
    }

    /** Moves one old slot over; an empty one only leaves its value in an empty slot. */
    method MoveBin(bin: Bin<V>, ghost part: map<nat, V>)
      requires Used(KeysOf(table[..])) < table.Length && IsPower(table.Length) && bin.key !in part
      requires Probing(KeysOf(table[..]), shift) && Holds(table[..], part)
      modifies table
      ensures Probing(KeysOf(table[..]), shift)
      ensures Used(KeysOf(table[..])) == old(Used(KeysOf(table[..]))) + (if bin.key != 0 then 1 else 0)
      ensures Holds(table[..], if bin.key != 0 then part[bin.key := bin.val] else part)
    {
      hide Home, Used, Probing, Represents, IsPower;
      var i, k := FirstEmpty(bin.key);
      ghost var t := table[..];
      table[i] := bin;
      assert table[..] == t[i := bin];
      WriteBin(t, part, i, bin);
      assert KeysOf(t)[i := 0] == KeysOf(t);
      if bin.key != 0 {
        NotIn(KeysOf(t), ValsOf(t), part, bin.key);
        UsedUpdate(KeysOf(t), i, bin.key);
        InsertProbing(KeysOf(t), shift, bin.key, k);
      }
    }

    /** A larger table with the same contents. */
    method Resize(newSize: nat)
      requires Valid() && newSize >= table.Length && IsPower(newSize)
      modifies this`table
      ensures Valid() && fresh(table) && table.Length == newSize
    {
      hide Home, Used, IsPower, Probing, Represents;
      var oldTable := table;
      ghost var t, keys := table[..], KeysOf(table[..]);
      table := new Bin<V>[newSize](_ => Bin(0, zero));
      EmptyTable(table[..], shift);
      ghost var part: map<nat, V> := map[];
      assert keys[..0] == [];
      UsedEmpty();
      for i := 0 to oldTable.Length
        invariant oldTable[..] == t && fresh(table) && table.Length == newSize
        invariant Probing(KeysOf(table[..]), shift) && Holds(table[..], part)
        invariant Used(KeysOf(table[..])) == Used(keys[..i])
        invariant MapOf(keys[..i], contents, part)
      {
        UsedPrefix(keys, i, shift);
        PartGrows(t, i, contents, part, shift);
        MoveBin(oldTable[i], part);
        if oldTable[i].key != 0 {
          part := part[oldTable[i].key := oldTable[i].val];
        }
      }
      assert keys[..|keys|] == keys;
      PartWhole(t, contents, part);
    }

    /** Stores a value under a key, enlarging the table first if it is too full. */
    method Put(key: nat, val: V)
      requires Valid() && key != 0 && (key in contents || size < table.Length || size > Threshold(table.Length, factor))
      modifies this, table
      ensures Valid() && contents == old(contents)[key := val]
      ensures if old(size > Threshold(table.Length, factor)) then fresh(table) && table.Length == 2 * old(table.Length)
              else table == old(table)
      ensures old(Safe()) ==> Safe()
    {
      hide Home, Used, Probing, Represents, IsPower, Roomy;
      SizeBelow(KeysOf(table[..]));
      if size > Threshold(table.Length, factor) {
        if Roomy(table.Length, factor) {
          RoomyDoubles(table.Length, factor);
        }
        PowerDoubled(table.Length);
        Resize(2 * table.Length);
      } else if Roomy(table.Length, factor) {
        RoomyLeft(table.Length, factor, size);
      }
      var i, found, k := Search(key);
      ghost var t := table[..];
      if found {
        OnlyOne(KeysOf(t), shift, i);
        assert KeysOf(t)[i := key] == KeysOf(t);
      } else {
        UsedUpdate(KeysOf(t), i, key);
        NotIn(KeysOf(t), ValsOf(t), contents, key);
        InsertProbing(KeysOf(t), shift, key, k);
        size := size + 1;
      }
      WriteBin(t, contents, i, Bin(key, val));
      table[i] := Bin(key, val);
      assert table[..] == t[i := Bin(key, val)];
      contents := contents[key := val];
    }
  }

  lemma SlotZero(home: nat, c: nat)
    requires home < c
    ensures Slot(home, 0, c) == home
  {
  }

  lemma Stored<V>(keys: seq<nat>, vals: seq<V>, contents: map<nat, V>, i: nat)
    requires Represents(keys, vals, contents) && i < |keys| && keys[i] != 0
    ensures keys[i] in contents && contents[keys[i]] == vals[i]
  {
  }

  lemma NotIn<V>(keys: seq<nat>, vals: seq<V>, contents: map<nat, V>, key: nat)
    requires Represents(keys, vals, contents) && key != 0
    ensures key in contents <==> key in keys
  {
  }

  lemma OnlyOne(keys: seq<nat>, shift: nat, i: nat)
    requires Probing(keys, shift) && i < |keys| && keys[i] != 0
    ensures forall j :: 0 <= j < |keys| && j != i ==> keys[j] != keys[i]
  {
  }

  lemma WriteBin<V>(t: seq<Bin<V>>, contents: map<nat, V>, i: nat, bin: Bin<V>)
    requires Holds(t, contents) && i < |t| && (t[i].key == 0 || t[i].key == bin.key)
    requires t[i].key == 0 ==> bin.key !in contents
    requires t[i].key != 0 ==> forall j :: 0 <= j < |t| && j != i ==> KeysOf(t)[j] != bin.key
    ensures Holds(t[i := bin], if bin.key != 0 then contents[bin.key := bin.val] else contents)
    ensures KeysOf(t[i := bin]) == KeysOf(t)[i := bin.key]
  {
    InsertRepresents(KeysOf(t), ValsOf(t), contents, i, bin.key, bin.val);
    assert KeysOf(t[i := bin]) == KeysOf(t)[i := bin.key];
    assert ValsOf(t[i := bin]) == ValsOf(t)[i := bin.val];
  }

  /** part is the part of the contents with the given keys. */
  ghost predicate MapOf<V>(keys: seq<nat>, contents: map<nat, V>, part: map<nat, V>) {
    && (forall k :: k in part <==> k != 0 && k in keys)
    && (forall k :: k in part ==> k in contents && part[k] == contents[k])
  }

  lemma PartGrows<V>(t: seq<Bin<V>>, i: nat, contents: map<nat, V>, part: map<nat, V>, shift: nat)
    requires i < |t| && Holds(t, contents) && Probing(KeysOf(t), shift) && MapOf(KeysOf(t)[..i], contents, part)
    ensures t[i].key !in part
    ensures MapOf(KeysOf(t)[..i + 1], contents, if t[i].key != 0 then part[t[i].key := t[i].val] else part)
  {
    hide Home;
    var keys := KeysOf(t);
    assert keys[..i + 1] == keys[..i] + [keys[i]];
  }

  lemma PartWhole<V>(t: seq<Bin<V>>, contents: map<nat, V>, part: map<nat, V>)
    requires Holds(t, contents) && MapOf(KeysOf(t), contents, part)
    ensures part == contents
  {
  }

  lemma SizeBelow(keys: seq<nat>)
    ensures Used(keys) <= |keys|
  {
  }

  lemma UsedEmpty()
    ensures Used([]) == 0
  {
  }

  /** What writing a slot means for the map. */
  lemma InsertRepresents<V>(keys: seq<nat>, vals: seq<V>, contents: map<nat, V>, i: nat, key: nat, val: V)
    requires Represents(keys, vals, contents) && i < |keys| && (keys[i] == 0 || keys[i] == key)
    requires (keys[i] == 0 ==> key !in contents)
             && (keys[i] != 0 ==> forall j :: 0 <= j < |keys| && j != i ==> keys[j] != key)
    ensures Represents(keys[i := key], vals[i := val], if key != 0 then contents[key := val] else contents)
  {
    var keys', vals' := keys[i := key], vals[i := val];
    var contents' := if key != 0 then contents[key := val] else contents;
    forall k
      ensures k in contents' <==> k != 0 && k in keys'
    {
      assert key == keys'[i];
      if k in keys {
        var j :| 0 <= j < |keys| && keys[j] == k;
        assert j != i ==> keys'[j] == k;
      }
    }
  }

  lemma EmptyTable<V>(t: seq<Bin<V>>, shift: nat)
    requires forall i :: 0 <= i < |t| ==> t[i].key == 0
    ensures Probing(KeysOf(t), shift) && Holds(t, map[]) && Used(KeysOf(t)) == 0
  {
    UsedNone(KeysOf(t));
  }

  lemma UsedPrefix(keys: seq<nat>, i: nat, shift: nat)
    requires i < |keys| && Probing(keys, shift)
    ensures Used(keys[..i + 1]) == Used(keys[..i]) + (if keys[i] != 0 then 1 else 0)
    ensures Used(keys[..i]) <= i && (keys[i] != 0 ==> keys[i] !in keys[..i])
  {
    assert keys[..i + 1][..i] == keys[..i];
  }
}
