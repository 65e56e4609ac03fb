/**
 * The persistence gateway both services call, replaced by an in-memory store:
 * records keyed by their natural key, plus the order in which findAll streams
 * them. A save under a present key overwrites the record in place; a save under
 * a new key appends it.
 */
module Repository {

  /** No key occurs twice. */
  ghost predicate Distinct(s: seq<string>)
  {
    forall i, j :: 0 <= i < j < |s| ==> s[i] != s[j]
  }

  /** The keys of s other than key, in their original order. */
  function Without(s: seq<string>, key: string): (r: seq<string>)
    ensures forall x :: x in r <==> x in s && x != key
    ensures Distinct(s) ==> Distinct(r)
    ensures key !in s ==> r == s
    ensures Distinct(s) && key in s ==> |r| == |s| - 1
  {
    if s == [] then []
    else if s[0] == key then Without(s[1..], key)
    else
      var rest := Without(s[1..], key);
      assert Distinct(s) ==> s[0] !in rest;
      [s[0]] + rest
  }

  class Repository<T> {
    var rows: map<string, T>
    var order: seq<string>

    /** Every stored key is listed exactly once in the findAll order. */
    ghost predicate Valid()
      reads this
    {
      && (forall k :: k in rows <==> k in order)
      && Distinct(order)
    }

    constructor ()
      ensures Valid() && rows == map[] && order == []
    {
      rows := map[];
      order := [];
    }

    /** save: overwrite the record under key, or insert it at the end of the order. */
    method Save(key: string, value: T)
      requires Valid()
      modifies this
      ensures Valid()
      ensures rows == old(rows)[key := value]
      ensures order == if key in old(rows) then old(order) else old(order) + [key]
    {
      if key !in rows {
        order := order + [key];
      }
      rows := rows[key := value];
    }

    /** delete: remove the record under key and nothing else. */
    method Delete(key: string)
      requires Valid()
      modifies this
      ensures Valid()
      ensures rows == old(rows) - {key}
      ensures order == Without(old(order), key)
    {
      rows := rows - {key};
      order := Without(order, key);
    }
  }
}
