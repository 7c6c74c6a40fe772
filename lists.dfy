/**
 * The backing store's lists, as the data-access object uses them: a map from list key
 * to a non-empty sequence of encoded elements. A list whose last element is popped
 * disappears, so a missing key and an empty list are the same thing.
 */
module Lists {
  import opened Wrappers
  import opened Codecs

  type ListStore = map<string, seq<Bytes>>

  /** No stored list is empty. */
  ghost predicate NoEmptyLists(ls: ListStore)
  {
    forall k :: k in ls ==> ls[k] != []
  }

  /** The list under `k`; a missing key reads as the empty list. */
  function ListAt(ls: ListStore, k: string): seq<Bytes>
  {
    if k in ls then ls[k] else []
  }

  /** LPUSH: prepend one element. */
  function LPush(ls: ListStore, k: string, b: Bytes): (r: ListStore)
    ensures ListAt(r, k) == [b] + ListAt(ls, k)
    ensures forall o :: o != k ==> ListAt(r, o) == ListAt(ls, o)
    ensures NoEmptyLists(ls) ==> NoEmptyLists(r)
  {
    ls[k := [b] + ListAt(ls, k)]
  }

  /** RPUSH: append one element. */
  function RPush(ls: ListStore, k: string, b: Bytes): (r: ListStore)
    ensures ListAt(r, k) == ListAt(ls, k) + [b]
    ensures forall o :: o != k ==> ListAt(r, o) == ListAt(ls, o)
    ensures NoEmptyLists(ls) ==> NoEmptyLists(r)
  {
    ls[k := ListAt(ls, k) + [b]]
  }

  /** Store `rest` under `k`, dropping the key when `rest` is empty. */
  function Replace(ls: ListStore, k: string, rest: seq<Bytes>): (r: ListStore)
    ensures ListAt(r, k) == rest
    ensures forall o :: o != k ==> ListAt(r, o) == ListAt(ls, o)
    ensures NoEmptyLists(ls) ==> NoEmptyLists(r)
  {
    if rest == [] then ls - {k} else ls[k := rest]
  }

  /** LPOP: remove and return the first element, or null on an empty list. */
  function LPop(ls: ListStore, k: string): (r: (ListStore, Option<Bytes>))
    ensures ListAt(ls, k) == [] ==> r == (ls, None)
    ensures ListAt(ls, k) != [] ==> r.1 == Some(ListAt(ls, k)[0]) && ListAt(r.0, k) == ListAt(ls, k)[1..]
    ensures forall o :: o != k ==> ListAt(r.0, o) == ListAt(ls, o)
    ensures NoEmptyLists(ls) ==> NoEmptyLists(r.0)
  {
    var l := ListAt(ls, k);
    if l == [] then (ls, None) else (Replace(ls, k, l[1..]), Some(l[0]))
  }

  /** RPOP: remove and return the last element, or null on an empty list. */
  function RPop(ls: ListStore, k: string): (r: (ListStore, Option<Bytes>))
    ensures ListAt(ls, k) == [] ==> r == (ls, None)
    ensures ListAt(ls, k) != [] ==>
              r.1 == Some(ListAt(ls, k)[|ListAt(ls, k)| - 1]) && ListAt(r.0, k) == ListAt(ls, k)[..|ListAt(ls, k)| - 1]
    ensures forall o :: o != k ==> ListAt(r.0, o) == ListAt(ls, o)
    ensures NoEmptyLists(ls) ==> NoEmptyLists(r.0)
  {
    var l := ListAt(ls, k);
    if l == [] then (ls, None) else (Replace(ls, k, l[..|l| - 1]), Some(l[|l| - 1]))
  }

  /** Two list stores without empty lists that read alike are equal. */
  lemma {:induction false} ListAtExtensional(a: ListStore, b: ListStore)
    requires NoEmptyLists(a) && NoEmptyLists(b)
    requires forall k :: ListAt(a, k) == ListAt(b, k)
    ensures a == b
  {
    forall k | k in a ensures k in b && a[k] == b[k] {
      assert ListAt(a, k) == a[k];
    }
    forall k | k in b ensures k in a {
      assert ListAt(b, k) == b[k];
    }
  }

  /** LPOP undoes LPUSH: the pushed element comes back and the lists are as before. */
  lemma LPopAfterLPush(ls: ListStore, k: string, b: Bytes)
    requires NoEmptyLists(ls)
    ensures LPop(LPush(ls, k, b), k) == (ls, Some(b))
  {
    var r := LPop(LPush(ls, k, b), k);
    assert ListAt(r.0, k) == ListAt(ls, k);
    ListAtExtensional(r.0, ls);
  }

  /** RPOP undoes RPUSH. */
  lemma RPopAfterRPush(ls: ListStore, k: string, b: Bytes)
    requires NoEmptyLists(ls)
    ensures RPop(RPush(ls, k, b), k) == (ls, Some(b))
  {
    var r := RPop(RPush(ls, k, b), k);
    assert ListAt(r.0, k) == ListAt(ls, k);
    ListAtExtensional(r.0, ls);
  }

  /**
   * Pushing on the left and popping on the right is first-in first-out: LPUSH a, LPUSH b,
   * RPOP gives a, then LPOP gives b, and the list is gone again.
   */
  lemma QueueOrder(ls: ListStore, k: string, a: Bytes, b: Bytes)
    requires NoEmptyLists(ls) && k !in ls
    ensures var r1 := RPop(LPush(LPush(ls, k, a), k, b), k);
            var r2 := LPop(r1.0, k);
            r1.1 == Some(a) && r2.1 == Some(b) && r2.0 == ls
  {
    var r1 := RPop(LPush(LPush(ls, k, a), k, b), k);
    assert ListAt(r1.0, k) == [b];
    var r2 := LPop(r1.0, k);
    ListAtExtensional(r2.0, ls);
  }
}
