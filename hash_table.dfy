/**
 * The fixed-bucket hash table of t1_add_delete_to_hash_table.py: an array
 * of `size` slots, each empty or holding one `(key, value)` pair, with no
 * collision resolution. Python's built-in `hash` is the parameter `hash`.
 */
module HashTables {

  import opened Options

  /** The slot holds an entry whose key is `key`. */
  predicate Holds<K(==), V>(slot: Option<(K, V)>, key: K)
  {
    slot.Some? && slot.value.0 == key
  }

  class HashTable<K(==), V> {
    const size: nat
    const hash: K -> int
    const table: array<Option<(K, V)>>

    ghost predicate Valid()
    {
      table.Length == size
    }

    /** A table of `size` slots, ten unless given, all empty. */
    constructor (hash: K -> int, size: nat := 10)
      ensures Valid() && fresh(table)
      ensures this.size == size && this.hash == hash
      ensures forall i :: 0 <= i < size ==> table[i] == None
    {
      this.size := size;
      this.hash := hash;
      this.table := new Option<(K, V)>[size](_ => None);
    }

    /**
     * The slot of `key`: `hash(key)` reduced modulo the table size, with
     * Python's `%`, which for a positive size is Dafny's `%`. A table of
     * size 0 makes the source divide by zero, hence the precondition.
     */
    function HashFunction(key: K): (index: int)
      requires size > 0
      ensures 0 <= index < size
    {
      hash(key) % size
    }

    /**
     * Stores `(key, value)` in the slot of `key`, overwriting whatever was
     * there, whatever its key; no other slot changes.
     */
    method Insert(key: K, value: V)
      requires Valid() && size > 0
      modifies table
      ensures Valid()
      ensures table[HashFunction(key)] == Some((key, value))
      ensures forall i :: 0 <= i < size && i != HashFunction(key) ==> table[i] == old(table[i])
    {
      var index := HashFunction(key);
      table[index] := Some((key, value));
    }

    /**
     * Empties the slot of `key` if it holds an entry with that key and says
     * whether it did; otherwise nothing changes.
     */
    method Delete(key: K) returns (removed: bool)
      requires Valid() && size > 0
      modifies table
      ensures Valid()
      ensures removed == Holds(old(table[HashFunction(key)]), key)
      ensures removed ==> table[HashFunction(key)] == None
      ensures forall i :: 0 <= i < size && (i != HashFunction(key) || !removed) ==>
                table[i] == old(table[i])
    {
      var index := HashFunction(key);
      if Holds(table[index], key) {
        table[index] := None;
        return true;
      }
      return false;
    }

    /** `len(ht)`: the number of slots, which is the size given at construction. */
    function Length(): (n: nat)
      requires Valid()
      ensures n == size
    {
      table.Length
    }
  }

  /**
   * Inserting a key and then deleting it reports a removal and leaves its
   * slot empty, and every other slot as it was.
   */
  method InsertThenDelete<K(==), V>(ht: HashTable<K, V>, key: K, value: V) returns (removed: bool)
    requires ht.Valid() && ht.size > 0
    modifies ht.table
    ensures removed
    ensures ht.table[ht.HashFunction(key)] == None
    ensures forall i :: 0 <= i < ht.size && i != ht.HashFunction(key) ==> ht.table[i] == old(ht.table[i])
  {
    ht.Insert(key, value);
    removed := ht.Delete(key);
  }

  /**
   * The scenario of `test_hash_table`, on a table built with the default
   * size, for any `hash` under which "a" and "b" land in different slots of
   * its ten slots (the source's test depends on that). Deleting "a" succeeds, deleting the never-inserted
   * "c" fails, afterwards ("b", 2) is still stored and ("a", 1) is not, and
   * the table still has ten slots.
   */
  method TestHashTable(hash: string -> int)
      returns (deletedA: bool, deletedC: bool, slots: seq<Option<(string, int)>>, length: nat)
    requires hash("a") % 10 != hash("b") % 10
    ensures deletedA && !deletedC
    ensures exists i :: 0 <= i < |slots| && slots[i] == Some(("b", 2))
    ensures forall i :: 0 <= i < |slots| ==> slots[i] != Some(("a", 1))
    ensures length == |slots| == 10
  {
    var ht := new HashTable<string, int>(hash);
    ht.Insert("a", 1);
    ht.Insert("b", 2);
    deletedA := ht.Delete("a");
    deletedC := ht.Delete("c");
    slots := ht.table[..];
    length := ht.Length();
    assert slots[ht.HashFunction("b")] == Some(("b", 2));
  }

}
