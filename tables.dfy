/** A table is a sequence of rows in the order they were inserted, each row carrying an
    auto-incremented primary key. These helpers state the primary-key discipline and give
    the meaning of a lookup and of a delete by key. */
module Tables {
  import opened Model

  /** The key sequence starts at 1; every key lies in [1, next) and keys grow strictly along the table, so no key repeats
      and `next` (the value the key sequence hands out next) is fresh. */
  ghost predicate Keyed<T>(s: seq<T>, key: T -> int, next: int) {
    && 1 <= next
    && (forall i :: 0 <= i < |s| ==> 1 <= key(s[i]) < next)
    && (forall i, j :: 0 <= i < j < |s| ==> key(s[i]) < key(s[j]))
  }

  /** The position of the row whose key is `k` (`WHERE id = k`). */
  function Find<T>(s: seq<T>, key: T -> int, k: int): (r: Option<nat>)
    ensures r.Some? ==> r.value < |s| && key(s[r.value]) == k
    ensures r.None? <==> forall i :: 0 <= i < |s| ==> key(s[i]) != k
  {
    if s == [] then None
    else if key(s[0]) == k then Some(0)
    else match Find(s[1..], key, k)
      case None => None
      case Some(i) => Some(i + 1)
  }

  /** The table after `DELETE ... WHERE id = k`: the rows with another key, in order. */
  function Without<T(!new)>(s: seq<T>, key: T -> int, k: int): (r: seq<T>)
    ensures forall x :: x in r <==> x in s && key(x) != k
    ensures |r| <= |s|
  {
    if s == [] then []
    else (if key(s[0]) == k then [] else [s[0]]) + Without(s[1..], key, k)
  }

  /** Deleting a key no row has leaves the table as it was. */
  lemma {:induction false} WithoutAbsent<T(!new)>(s: seq<T>, key: T -> int, k: int)
    requires forall i :: 0 <= i < |s| ==> key(s[i]) != k
    ensures Without(s, key, k) == s
  {
    if s != [] {
      WithoutAbsent(s[1..], key, k);
      assert s == [s[0]] + s[1..];
    }
  }

  /** Deleting by key keeps the rest of the table keyed. */
  lemma {:induction false} WithoutKeyed<T(!new)>(s: seq<T>, key: T -> int, next: int, k: int)
    requires Keyed(s, key, next)
    ensures Keyed(Without(s, key, k), key, next)
  {
    if s != [] {
      WithoutKeyed(s[1..], key, next, k);
      var rest := Without(s[1..], key, k);
      if key(s[0]) != k {
        HeadKeyBelowRest(s, key, next);
        PrependKeyed(s[0], rest, key, next);
        assert Without(s, key, k) == [s[0]] + rest;
      }
    }
  }

  /** The first row of a keyed table has a smaller key than every later row. */
  lemma HeadKeyBelowRest<T>(s: seq<T>, key: T -> int, next: int)
    requires Keyed(s, key, next) && s != []
    ensures forall x :: x in s[1..] ==> key(s[0]) < key(x)
  {
    forall x | x in s[1..]
      ensures key(s[0]) < key(x)
    {
      var j :| 0 <= j < |s[1..]| && s[1..][j] == x;
      assert s[j + 1] == x;
    }
  }

  /** A row whose key is below every key of a keyed table can go in front of it. */
  lemma PrependKeyed<T>(x: T, s: seq<T>, key: T -> int, next: int)
    requires Keyed(s, key, next) && 1 <= key(x) < next
    requires forall y :: y in s ==> key(x) < key(y)
    ensures Keyed([x] + s, key, next)
  {
    var t := [x] + s;
    forall i, j | 0 <= i < j < |t|
      ensures key(t[i]) < key(t[j])
    {
      assert t[j] == s[j - 1];
      if 0 < i {
        assert t[i] == s[i - 1];
      }
    }
    forall i | 0 <= i < |t|
      ensures 1 <= key(t[i]) < next
    {
      if 0 < i {
        assert t[i] == s[i - 1];
      }
    }
  }

  /** Appending a row with the fresh key keeps the table keyed, with the next key one higher. */
  lemma AppendKeyed<T>(s: seq<T>, key: T -> int, next: int, x: T)
    requires Keyed(s, key, next) && key(x) == next
    ensures Keyed(s + [x], key, next + 1)
  {
    var t := s + [x];
    forall i | 0 <= i < |t|
      ensures 1 <= key(t[i]) < next + 1
    {
      if i < |s| { assert t[i] == s[i]; }
    }
  }

  /** Replacing a row by one with the same key keeps the table keyed. */
  lemma ReplaceKeyed<T>(s: seq<T>, key: T -> int, next: int, i: nat, x: T)
    requires Keyed(s, key, next) && i < |s| && key(x) == key(s[i])
    ensures Keyed(s[i := x], key, next)
  {
  }
}
